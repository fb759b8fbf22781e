/** The persistent store behind the three repositories: one table of posts,
    one of likes and one of comments, each a sequence of rows in persistence
    order, with the table operations the repositories perform on them. */
module Repository {
  import opened Rows
  import opened Entities

  /** One write performed on the store, as recorded in its journal. */
  datatype Write =
    | SavedPost(postId: nat)
    | DeletedPost(postId: nat)
    | SavedLike(likeId: nat)
    | DeletedLike(likeId: nat)
    | DeletedLikesOfPost(postId: nat)
    | SavedComment(commentId: nat)
    | DeletedComment(commentId: nat)
    | DeletedCommentsOfPost(postId: nat)

  /** Posts ordered by creation time, newest first. */
  ghost predicate NewestFirstOrder(s: seq<Post>) {
    forall i, j :: 0 <= i < j < |s| ==> s[i].createdAt >= s[j].createdAt
  }

  /** Inserts `p` into a list ordered newest first. */
  function InsertByDate(p: Post, s: seq<Post>): (r: seq<Post>)
    requires NewestFirstOrder(s)
    ensures NewestFirstOrder(r)
    ensures multiset(r) == multiset(s) + multiset{p}
    ensures forall x :: x in r ==> x == p || x in s
  {
    if s == [] then [p]
    else if p.createdAt >= s[0].createdAt then [p] + s
    else
      var rest := InsertByDate(p, s[1..]);
      assert s == [s[0]] + s[1..];
      assert forall x :: x in s[1..] ==> x.createdAt <= s[0].createdAt;
      PrependKeepsOrder(s[0], rest);
      assert multiset([s[0]] + rest) == multiset{s[0]} + multiset(rest);
      [s[0]] + rest
  }

  /** A post no older than every post of an ordered list can head it. */
  lemma PrependKeepsOrder(p: Post, s: seq<Post>)
    requires NewestFirstOrder(s)
    requires forall x :: x in s ==> x.createdAt <= p.createdAt
    ensures NewestFirstOrder([p] + s)
  {
    var r := [p] + s;
    forall i, j | 0 <= i < j < |r| ensures r[i].createdAt >= r[j].createdAt {
      assert r[j] == s[j - 1];
      if i > 0 { assert r[i] == s[i - 1]; }
    }
  }

  /** The posts of `s` ordered newest first: the `ORDER BY created_at DESC`
      of the post queries. */
  function NewestFirst(s: seq<Post>): (r: seq<Post>)
    ensures NewestFirstOrder(r)
    ensures multiset(r) == multiset(s)
  {
    if s == [] then []
    else
      assert s == [s[0]] + s[1..];
      InsertByDate(s[0], NewestFirst(s[1..]))
  }

  /** The bound that keeps the next generated id above an explicit id. */
  function Above(next: nat, id: nat): (r: nat)
    ensures r >= next && r > id
  {
    if id < next then next else id + 1
  }

  class Store {
    var posts: seq<Post>
    var likes: seq<Like>
    var comments: seq<Comment>
    /** The ids the database will generate next for each table. */
    var nextPostId: nat
    var nextLikeId: nat
    var nextCommentId: nat
    /** Every write performed on the store, oldest first. */
    ghost var journal: seq<Write>

    /** Primary keys are unique and positive, and lie below the next
        generated id of their table. */
    ghost predicate Valid()
      reads this
    {
      && KeysWithin(posts, PostKey, nextPostId)
      && KeysWithin(likes, LikeKey, nextLikeId)
      && KeysWithin(comments, CommentKey, nextCommentId)
    }

    /** At most one like per (user, post) pair. */
    ghost predicate OneLikePerUserAndPost()
      reads this
    {
      OneLikePerPair(likes)
    }

    /** Every post's counters equal the per-polarity count of its likes. */
    ghost predicate CountersConsistent()
      reads this
    {
      AllCountersMatch(posts, likes)
    }

    constructor ()
      ensures Valid() && OneLikePerUserAndPost() && CountersConsistent()
      ensures posts == [] && likes == [] && comments == [] && journal == []
    {
      posts, likes, comments := [], [], [];
      nextPostId, nextLikeId, nextCommentId := 1, 1, 1;
      journal := [];
    }

    // ---- Post table ----

    /** Saves a post: a post with id 0 is inserted under a generated id, any
        other post replaces the row with its id or is inserted. */
    method SavePost(post: Post) returns (saved: Post)
      requires Valid()
      modifies this
      ensures Valid()
      ensures saved == if post.id == 0 then post.(id := old(nextPostId)) else post
      ensures posts == Save(old(posts), PostKey, saved)
      ensures nextPostId == if post.id == 0 then old(nextPostId) + 1 else Above(old(nextPostId), post.id)
      ensures likes == old(likes) && comments == old(comments)
      ensures nextLikeId == old(nextLikeId) && nextCommentId == old(nextCommentId)
      ensures journal == old(journal) + [SavedPost(saved.id)]
    {
      var next: nat;
      if post.id == 0 {
        saved, next := post.(id := nextPostId), nextPostId + 1;
      } else {
        saved, next := post, Above(nextPostId, post.id);
      }
      SaveKeepsBounds(posts, PostKey, saved, nextPostId, next);
      posts, nextPostId := Save(posts, PostKey, saved), next;
      journal := journal + [SavedPost(saved.id)];
    }

    /** Deletes the post row with the given id, if there is one. The
        associations named in the delete are resolved through the zero post
        value passed to it, so no like or comment row is removed. */
    method DeletePost(id: nat)
      requires Valid()
      modifies this
      ensures Valid()
      ensures posts == Where(old(posts), KeyIsNot(PostKey, id))
      ensures likes == old(likes) && comments == old(comments)
      ensures nextPostId == old(nextPostId) && nextLikeId == old(nextLikeId)
      ensures nextCommentId == old(nextCommentId)
      ensures journal == old(journal) + [DeletedPost(id)]
    {
      WhereKeepsBounds(posts, PostKey, KeyIsNot(PostKey, id), nextPostId);
      posts := Where(posts, KeyIsNot(PostKey, id));
      journal := journal + [DeletedPost(id)];
    }

    // ---- Like table ----

    /** Saves a like: a like with id 0 is inserted under a generated id, any
        other like replaces the row with its id or is inserted. */
    method SaveLike(like: Like) returns (saved: Like)
      requires Valid()
      modifies this
      ensures Valid()
      ensures saved == if like.id == 0 then like.(id := old(nextLikeId)) else like
      ensures likes == Save(old(likes), LikeKey, saved)
      ensures nextLikeId == if like.id == 0 then old(nextLikeId) + 1 else Above(old(nextLikeId), like.id)
      ensures posts == old(posts) && comments == old(comments)
      ensures nextPostId == old(nextPostId) && nextCommentId == old(nextCommentId)
      ensures journal == old(journal) + [SavedLike(saved.id)]
    {
      var next: nat;
      if like.id == 0 {
        saved, next := like.(id := nextLikeId), nextLikeId + 1;
      } else {
        saved, next := like, Above(nextLikeId, like.id);
      }
      SaveKeepsBounds(likes, LikeKey, saved, nextLikeId, next);
      likes, nextLikeId := Save(likes, LikeKey, saved), next;
      journal := journal + [SavedLike(saved.id)];
    }

    /** Deletes the like with the given id, if there is one. */
    method DeleteLike(id: nat)
      requires Valid()
      modifies this
      ensures Valid()
      ensures likes == Where(old(likes), KeyIsNot(LikeKey, id))
      ensures posts == old(posts) && comments == old(comments)
      ensures nextPostId == old(nextPostId) && nextLikeId == old(nextLikeId)
      ensures nextCommentId == old(nextCommentId)
      ensures journal == old(journal) + [DeletedLike(id)]
    {
      WhereKeepsBounds(likes, LikeKey, KeyIsNot(LikeKey, id), nextLikeId);
      likes := Where(likes, KeyIsNot(LikeKey, id));
      journal := journal + [DeletedLike(id)];
    }

    /** Deletes every like of the given post. */
    method DeleteLikesOfPost(postId: nat)
      requires Valid()
      modifies this
      ensures Valid()
      ensures likes == Where(old(likes), NotOnPost(postId))
      ensures posts == old(posts) && comments == old(comments)
      ensures nextPostId == old(nextPostId) && nextLikeId == old(nextLikeId)
      ensures nextCommentId == old(nextCommentId)
      ensures journal == old(journal) + [DeletedLikesOfPost(postId)]
    {
      WhereKeepsBounds(likes, LikeKey, NotOnPost(postId), nextLikeId);
      likes := Where(likes, NotOnPost(postId));
      journal := journal + [DeletedLikesOfPost(postId)];
    }

    // ---- Comment table ----

    /** Saves a comment: a comment with id 0 is inserted under a generated
        id, any other comment replaces the row with its id or is inserted. */
    method SaveComment(comment: Comment) returns (saved: Comment)
      requires Valid()
      modifies this
      ensures Valid()
      ensures saved == if comment.id == 0 then comment.(id := old(nextCommentId)) else comment
      ensures comments == Save(old(comments), CommentKey, saved)
      ensures nextCommentId == if comment.id == 0 then old(nextCommentId) + 1 else Above(old(nextCommentId), comment.id)
      ensures posts == old(posts) && likes == old(likes)
      ensures nextPostId == old(nextPostId) && nextLikeId == old(nextLikeId)
      ensures journal == old(journal) + [SavedComment(saved.id)]
    {
      var next: nat;
      if comment.id == 0 {
        saved, next := comment.(id := nextCommentId), nextCommentId + 1;
      } else {
        saved, next := comment, Above(nextCommentId, comment.id);
      }
      SaveKeepsBounds(comments, CommentKey, saved, nextCommentId, next);
      comments, nextCommentId := Save(comments, CommentKey, saved), next;
      journal := journal + [SavedComment(saved.id)];
    }

    /** Deletes the comment with the given id, if there is one. */
    method DeleteComment(id: nat)
      requires Valid()
      modifies this
      ensures Valid()
      ensures comments == Where(old(comments), KeyIsNot(CommentKey, id))
      ensures posts == old(posts) && likes == old(likes)
      ensures nextPostId == old(nextPostId) && nextLikeId == old(nextLikeId)
      ensures nextCommentId == old(nextCommentId)
      ensures journal == old(journal) + [DeletedComment(id)]
    {
      WhereKeepsBounds(comments, CommentKey, KeyIsNot(CommentKey, id), nextCommentId);
      comments := Where(comments, KeyIsNot(CommentKey, id));
      journal := journal + [DeletedComment(id)];
    }

    /** Deletes every comment of the given post. */
    method DeleteCommentsOfPost(postId: nat)
      requires Valid()
      modifies this
      ensures Valid()
      ensures comments == Where(old(comments), CommentNotOnPost(postId))
      ensures posts == old(posts) && likes == old(likes)
      ensures nextPostId == old(nextPostId) && nextLikeId == old(nextLikeId)
      ensures nextCommentId == old(nextCommentId)
      ensures journal == old(journal) + [DeletedCommentsOfPost(postId)]
    {
      WhereKeepsBounds(comments, CommentKey, CommentNotOnPost(postId), nextCommentId);
      comments := Where(comments, CommentNotOnPost(postId));
      journal := journal + [DeletedCommentsOfPost(postId)];
    }
  }

  // ---- Queries: functions of the tables ----

  /** The post with the given id with its likes preloaded, or NotFound. */
  function PostById(posts: seq<Post>, likes: seq<Like>, id: nat): (r: Result<PostWithLikes>)
    ensures r.Ok? <==> exists i :: 0 <= i < |posts| && posts[i].id == id
    ensures r.Ok? ==> r.value.post in posts && r.value.post.id == id
    ensures r.Ok? ==> forall l :: l in r.value.likes <==> l in likes && l.postId == id
    ensures r.Ok? ==> r.value.likes == LikesOf(likes, id)
    ensures r.Ok? && UniqueKeys(posts, PostKey) ==> forall p :: p in posts && p.id == id ==> p == r.value.post
    ensures r.Err? ==> r.error == NotFound
  {
    var i := IndexOf(posts, PostKey, id);
    WhereMembers(likes, OnPost(id));
    if i < 0 then Err(NotFound) else Ok(PostWithLikes(posts[i], LikesOf(likes, id)))
  }

  /** The posts owned by `userId`, newest first. */
  function PostsOfUser(posts: seq<Post>, userId: nat): (r: seq<Post>)
    ensures forall p :: p in r <==> p in posts && p.userId == userId
    ensures forall p :: multiset(r)[p] == if p.userId == userId then multiset(posts)[p] else 0
    ensures NewestFirstOrder(r)
  {
    var owned := Where(posts, OwnedBy(userId));
    forall p ensures multiset(owned)[p] == if p.userId == userId then multiset(posts)[p] else 0 {
      WhereMultiplicity(posts, OwnedBy(userId), p);
    }
    NewestFirst(owned)
  }

  /** The posts whose owner is one of `userIds`, newest first. */
  function PostsOfUsers(posts: seq<Post>, userIds: seq<nat>): (r: seq<Post>)
    ensures forall p :: p in r <==> p in posts && p.userId in userIds
    ensures forall p :: multiset(r)[p] == if p.userId in userIds then multiset(posts)[p] else 0
    ensures NewestFirstOrder(r)
  {
    var owned := Where(posts, OwnedByAny(userIds));
    forall p ensures multiset(owned)[p] == if p.userId in userIds then multiset(posts)[p] else 0 {
      WhereMultiplicity(posts, OwnedByAny(userIds), p);
    }
    NewestFirst(owned)
  }

  /** The likes of a post. */
  function LikesOfPost(likes: seq<Like>, postId: nat): (r: seq<Like>)
    ensures forall l :: l in r <==> l in likes && l.postId == postId
  {
    WhereMembers(likes, OnPost(postId));
    LikesOf(likes, postId)
  }

  /** A like of `userId` on `postId`, or NotFound. The query takes the
      match with the smallest id; the model takes the first match in table
      order, which is the same like when each pair has at most one. */
  function LikeByUserAndPost(likes: seq<Like>, userId: nat, postId: nat): (r: Result<Like>)
    ensures r.Ok? <==> exists l :: l in likes && l.userId == userId && l.postId == postId
    ensures r.Ok? ==> r.value in likes && r.value.userId == userId && r.value.postId == postId
    ensures r.Err? ==> r.error == NotFound
  {
    var matching := Where(likes, ByUserAndPost(userId, postId));
    WhereMembers(likes, ByUserAndPost(userId, postId));
    if matching == [] then Err(NotFound)
    else
      assert matching[0] in matching;
      Ok(matching[0])
  }

  /** The comments of a post. */
  function CommentsOfPost(comments: seq<Comment>, postId: nat): (r: seq<Comment>)
    ensures forall c :: c in r <==> c in comments && c.postId == postId
  {
    WhereMembers(comments, CommentOnPost(postId));
    Where(comments, CommentOnPost(postId))
  }

  /** Primary keys are unique and positive, and lie below the next
      generated id `next`. */
  ghost predicate KeysWithin<T(!new)>(s: seq<T>, key: T -> nat, next: nat) {
    && UniqueKeys(s, key)
    && 0 < next
    && forall i :: 0 <= i < |s| ==> 0 < key(s[i]) < next
  }

  /** Keys stay unique and bounded after an upsert of a row whose key is
      positive and below the new bound. */
  lemma SaveKeepsBounds<T(!new)>(s: seq<T>, key: T -> nat, row: T, next: nat, next': nat)
    requires KeysWithin(s, key, next)
    requires 0 < key(row) < next' && next <= next'
    ensures KeysWithin(Save(s, key, row), key, next')
  {
    var r := Save(s, key, row);
    forall i | 0 <= i < |r| ensures 0 < key(r[i]) < next' {
      assert r[i] in r;
      if r[i] != row {
        var j :| 0 <= j < |s| && s[j] == r[i];
      }
    }
  }

  /** Filtering keeps keys unique and bounded. */
  lemma WhereKeepsBounds<T(!new)>(s: seq<T>, key: T -> nat, keep: T -> bool, next: nat)
    requires KeysWithin(s, key, next)
    ensures KeysWithin(Where(s, keep), key, next)
  {
    var r := Where(s, keep);
    WhereKeepsKeysUnique(s, key, keep);
    WhereMembers(s, keep);
    forall i | 0 <= i < |r| ensures 0 < key(r[i]) < next {
      assert r[i] in r;
      var j :| 0 <= j < |s| && s[j] == r[i];
    }
  }
}
