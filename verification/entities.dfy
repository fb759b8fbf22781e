/** The records of the three tables (posts, likes, comments), the data carried
    in and out of the services, and the counting rule behind a post's like
    counters. */
module Entities {
  import opened Rows

  /** A post row. `totalLikes` and `totalUnlikes` are the denormalised like
      counters; they are plain integers that nothing clamps at zero.
      `createdAt` stands for the creation timestamp and is only used to order
      query results. */
  datatype Post = Post(
    id: nat,
    userId: nat,
    description: string,
    imageId: nat,
    totalLikes: int,
    totalUnlikes: int,
    createdAt: int)

  /** A like row. `likeType` keeps the integer the client sent: 1 is a like,
      every other value a dislike. */
  datatype Like = Like(id: nat, userId: nat, postId: nat, likeType: int)

  /** A comment row. */
  datatype Comment = Comment(id: nat, userId: nat, postId: nat, content: string)

  /** A post together with its preloaded likes, as the post lookup by id
      returns it. */
  datatype PostWithLikes = PostWithLikes(post: Post, likes: seq<Like>)

  /** Requests accepted by the services. */
  datatype LikeRequest = LikeRequest(userId: nat, postId: nat, likeType: int)
  datatype PostRequest = PostRequest(userId: nat, description: string)
  datatype CommentRequest = CommentRequest(userId: nat, postId: nat, content: string)

  /** Responses returned by the services. */
  datatype LikeDto = LikeDto(id: nat, userId: nat, postId: nat, likeType: int)
  datatype PostDto = PostDto(
    id: nat,
    userId: nat,
    description: string,
    imageId: nat,
    totalLikes: int,
    totalUnlikes: int)
  datatype CommentDto = CommentDto(id: nat, userId: nat, postId: nat, content: string)

  /** Failures surfaced to callers: a missing record, or a failed call to the
      media service. */
  datatype Error = NotFound | UpstreamError
  datatype Result<T> = Ok(value: T) | Err(error: Error)

  /** The answer of the media service to an upload. */
  datatype Upload = Uploaded(imageId: nat) | UploadFailed

  /** The profile attributes the user directory returns for a user id. */
  datatype UserProfile = UserProfile(auth0Id: string, username: string)

  /** The user directory: every user id resolves to a profile. */
  type Directory = nat -> UserProfile

  /** A notification for the owner of a post. */
  datatype NotificationType = LikeEvent | CommentEvent
  datatype Notification = Notification(message: string, recipient: string, kind: NotificationType)

  // Primary keys.
  function PostKey(p: Post): nat { p.id }
  function LikeKey(l: Like): nat { l.id }
  function CommentKey(c: Comment): nat { c.id }

  // Row conditions used as `WHERE` clauses.
  function OnPost(postId: nat): Like -> bool {
    (l: Like) => l.postId == postId
  }
  function NotOnPost(postId: nat): Like -> bool {
    (l: Like) => l.postId != postId
  }
  function ByUserAndPost(userId: nat, postId: nat): Like -> bool {
    (l: Like) => l.userId == userId && l.postId == postId
  }
  function CommentOnPost(postId: nat): Comment -> bool {
    (c: Comment) => c.postId == postId
  }
  function CommentNotOnPost(postId: nat): Comment -> bool {
    (c: Comment) => c.postId != postId
  }
  function OwnedBy(userId: nat): Post -> bool {
    (p: Post) => p.userId == userId
  }
  function OwnedByAny(userIds: seq<nat>): Post -> bool {
    (p: Post) => p.userId in userIds
  }

  /** The counting rule: type 1 is positive, any other type negative. */
  function IsPositive(l: Like): bool { l.likeType == 1 }
  function IsNegative(l: Like): bool { l.likeType != 1 }

  /** The likes of one post, in table order. */
  function LikesOf(likes: seq<Like>, postId: nat): seq<Like> {
    Where(likes, OnPost(postId))
  }

  function PositiveCount(likes: seq<Like>): nat {
    |Where(likes, IsPositive)|
  }

  function NegativeCount(likes: seq<Like>): nat {
    |Where(likes, IsNegative)|
  }

  /** The post's counters equal the number of its likes of each polarity. */
  ghost predicate CountersMatch(p: Post, likes: seq<Like>) {
    && p.totalLikes == PositiveCount(LikesOf(likes, p.id))
    && p.totalUnlikes == NegativeCount(LikesOf(likes, p.id))
  }

  /** Every post's counters match its likes. */
  ghost predicate AllCountersMatch(posts: seq<Post>, likes: seq<Like>) {
    forall p :: p in posts ==> CountersMatch(p, likes)
  }

  /** At most one like per (user, post) pair. */
  ghost predicate OneLikePerPair(likes: seq<Like>) {
    forall i, j :: 0 <= i < j < |likes| ==>
      !(likes[i].userId == likes[j].userId && likes[i].postId == likes[j].postId)
  }

  /** Filtering the likes table keeps at most one like per pair. */
  lemma {:induction false} WhereKeepsOneLikePerPair(likes: seq<Like>, keep: Like -> bool)
    requires OneLikePerPair(likes)
    ensures OneLikePerPair(Where(likes, keep))
    decreases |likes|
  {
    if likes != [] {
      var init, last := likes[..|likes| - 1], likes[|likes| - 1];
      assert OneLikePerPair(init) by {
        forall i, j | 0 <= i < j < |init|
          ensures !(init[i].userId == init[j].userId && init[i].postId == init[j].postId)
        {
          assert init[i] == likes[i] && init[j] == likes[j];
        }
      }
      WhereKeepsOneLikePerPair(init, keep);
      var w := Where(init, keep);
      if keep(last) {
        WhereMembers(init, keep);
        forall i | 0 <= i < |w| ensures !(w[i].userId == last.userId && w[i].postId == last.postId) {
          assert w[i] in init;
          var k :| 0 <= k < |init| && init[k] == w[i];
          assert likes[k] == w[i];
        }
        assert Where(likes, keep) == w + [last];
      }
    }
  }

  /** Every like is counted exactly once, as positive or as negative. */
  lemma {:induction false} CountsPartition(likes: seq<Like>)
    ensures PositiveCount(likes) + NegativeCount(likes) == |likes|
    decreases |likes|
  {
    if likes != [] {
      assert likes[..|likes| - 1] + [likes[|likes| - 1]] == likes;
      CountsPartition(likes[..|likes| - 1]);
    }
  }

  // Conversions of rows to responses.
  function LikeToDto(l: Like): (d: LikeDto)
    ensures DtoToLike(d) == l
  {
    LikeDto(l.id, l.userId, l.postId, l.likeType)
  }

  /** The row a like response was made from. */
  function DtoToLike(d: LikeDto): Like {
    Like(d.id, d.userId, d.postId, d.likeType)
  }

  /** A post response carries every field of the row except its creation
      time. */
  function PostToDto(p: Post): (d: PostDto)
    ensures DtoToPost(d, p.createdAt) == p
  {
    PostDto(p.id, p.userId, p.description, p.imageId, p.totalLikes, p.totalUnlikes)
  }

  /** The row a post response was made from, given its creation time. */
  function DtoToPost(d: PostDto, createdAt: int): Post {
    Post(d.id, d.userId, d.description, d.imageId, d.totalLikes, d.totalUnlikes, createdAt)
  }

  function CommentToDto(c: Comment): (d: CommentDto)
    ensures DtoToComment(d) == c
  {
    CommentDto(c.id, c.userId, c.postId, c.content)
  }

  /** The row a comment response was made from. */
  function DtoToComment(d: CommentDto): Comment {
    Comment(d.id, d.userId, d.postId, d.content)
  }
}
