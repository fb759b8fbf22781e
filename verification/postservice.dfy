/** The post service: lookups of posts as responses, post creation after the
    image upload, the raw save used to rewrite counters, and post deletion
    with its cascade to the post's image, likes and comments. */
module PostService {
  import opened Rows
  import opened Entities
  import opened Repository
  import opened Outbox
  import opened Counters

  /** The post with the given id as a response, or NotFound. */
  function GetById(store: Store, id: nat): (r: Result<PostDto>)
    reads store
    ensures r.Ok? <==> exists i :: 0 <= i < |store.posts| && store.posts[i].id == id
    ensures r.Ok? ==> r.value.id == id && exists p :: p in store.posts && PostToDto(p) == r.value
    ensures r.Err? ==> r.error == NotFound
  {
    match PostById(store.posts, store.likes, id)
    case Ok(found) => Ok(PostToDto(found.post))
    case Err(e) => Err(e)
  }

  /** Turns rows into responses, one for one and in order. */
  method PostsToDtos(posts: seq<Post>) returns (dtos: seq<PostDto>)
    ensures |dtos| == |posts|
    ensures forall i :: 0 <= i < |posts| ==> DtoToPost(dtos[i], posts[i].createdAt) == posts[i]
  {
    dtos := [];
    for i := 0 to |posts|
      invariant |dtos| == i
      invariant forall j :: 0 <= j < i ==> DtoToPost(dtos[j], posts[j].createdAt) == posts[j]
    {
      dtos := dtos + [PostToDto(posts[i])];
    }
  }

  /** The posts of one user as responses, newest first. */
  method GetAllByUserId(store: Store, userId: nat) returns (dtos: seq<PostDto>)
    ensures |dtos| == |PostsOfUser(store.posts, userId)|
    ensures forall i :: 0 <= i < |dtos| ==>
      var p := PostsOfUser(store.posts, userId)[i];
      p in store.posts && p.userId == userId && DtoToPost(dtos[i], p.createdAt) == p
  {
    var posts := PostsOfUser(store.posts, userId);
    dtos := PostsToDtos(posts);
    forall i | 0 <= i < |dtos| ensures posts[i] in store.posts && posts[i].userId == userId {
      assert posts[i] in posts;
    }
  }

  /** The posts of several users as responses, newest first. */
  method GetAllByUserIds(store: Store, userIds: seq<nat>) returns (dtos: seq<PostDto>)
    ensures |dtos| == |PostsOfUsers(store.posts, userIds)|
    ensures forall i :: 0 <= i < |dtos| ==>
      var p := PostsOfUsers(store.posts, userIds)[i];
      p in store.posts && p.userId in userIds && DtoToPost(dtos[i], p.createdAt) == p
  {
    var posts := PostsOfUsers(store.posts, userIds);
    dtos := PostsToDtos(posts);
    forall i | 0 <= i < |dtos| ensures posts[i] in store.posts && posts[i].userId in userIds {
      assert posts[i] in posts;
    }
  }

  /** Creates a post: the first image is uploaded to the media service (its
      answer is `upload`); on failure nothing is stored, otherwise a post
      with zero counters, the image id and creation time `now` is inserted
      under a fresh id. */
  method Create(store: Store, dto: PostRequest, images: seq<string>, upload: Upload, now: int)
    returns (r: Result<PostDto>)
    requires |images| > 0
    requires store.Valid()
    modifies store
    ensures store.Valid()
    ensures upload.UploadFailed? ==> r == Err(UpstreamError) && unchanged(store)
    ensures upload.Uploaded? ==>
      var created := Post(old(store.nextPostId), dto.userId, dto.description, upload.imageId, 0, 0, now);
      && r == Ok(PostToDto(created))
      && store.posts == old(store.posts) + [created]
      && store.likes == old(store.likes) && store.comments == old(store.comments)
      && store.nextPostId == old(store.nextPostId) + 1
      && store.nextLikeId == old(store.nextLikeId) && store.nextCommentId == old(store.nextCommentId)
      && store.journal == old(store.journal) + [SavedPost(created.id)]
    ensures upload.Uploaded? && old(store.CountersConsistent()) && LikesOf(old(store.likes), old(store.nextPostId)) == [] ==>
      store.CountersConsistent()
  {
    if upload.UploadFailed? {
      return Err(UpstreamError);
    }
    var post := Post(0, dto.userId, dto.description, upload.imageId, 0, 0, now);
    var saved := store.SavePost(post);
    r := Ok(PostToDto(saved));
  }

  /** Saves a post row as it is, inserting it or replacing the row with its
      id; used to rewrite a post's counters. */
  method CreatePost(store: Store, post: Post) returns (saved: Post)
    requires store.Valid()
    modifies store
    ensures store.Valid()
    ensures saved == if post.id == 0 then post.(id := old(store.nextPostId)) else post
    ensures store.posts == Save(old(store.posts), PostKey, saved)
    ensures store.likes == old(store.likes) && store.comments == old(store.comments)
    ensures store.nextPostId == if post.id == 0 then old(store.nextPostId) + 1 else Above(old(store.nextPostId), post.id)
    ensures store.nextLikeId == old(store.nextLikeId) && store.nextCommentId == old(store.nextCommentId)
    ensures store.journal == old(store.journal) + [SavedPost(saved.id)]
  {
    saved := store.SavePost(post);
  }

  /** Deletes a post: when it exists, a request to delete its image is
      published, then its likes, its comments and the post itself are
      deleted, in that order. An unknown id changes nothing, even when likes
      or comments still refer to it. */
  method Delete(store: Store, bus: Bus, id: nat)
    requires store.Valid()
    modifies store, bus
    ensures store.Valid()
    ensures PostById(store.posts, store.likes, id).Err?
    ensures PostById(old(store.posts), old(store.likes), id).Err? ==> unchanged(store) && unchanged(bus)
    ensures PostById(old(store.posts), old(store.likes), id).Ok? ==>
      && bus.sent == old(bus.sent) + [DeleteMedia(PostById(old(store.posts), old(store.likes), id).value.post.imageId)]
      && store.journal == old(store.journal) + [DeletedLikesOfPost(id)] + [DeletedCommentsOfPost(id)] + [DeletedPost(id)]
      && store.posts == Where(old(store.posts), KeyIsNot(PostKey, id))
      && store.likes == Where(old(store.likes), NotOnPost(id))
      && store.comments == Where(old(store.comments), CommentNotOnPost(id))
      && store.nextPostId == old(store.nextPostId) && store.nextLikeId == old(store.nextLikeId)
      && store.nextCommentId == old(store.nextCommentId)
      && (forall p :: p in store.posts <==> p in old(store.posts) && p.id != id)
      && (forall l :: l in store.likes <==> l in old(store.likes) && l.postId != id)
      && (forall c :: c in store.comments <==> c in old(store.comments) && c.postId != id)
    ensures old(store.CountersConsistent()) ==> store.CountersConsistent()
    ensures old(store.OneLikePerUserAndPost()) ==> store.OneLikePerUserAndPost()
  {
    var post := PostById(store.posts, store.likes, id);
    if post.Err? {
      return;
    }
    bus.Publish(DeleteMedia(post.value.post.imageId));
    ghost var posts0, likes0, comments0 := store.posts, store.likes, store.comments;
    store.DeleteLikesOfPost(id);
    store.DeleteCommentsOfPost(id);
    store.DeletePost(id);
    CascadeMembers(posts0, likes0, comments0, id);
    CascadeKeepsCounters(posts0, likes0, id);
    if OneLikePerPair(likes0) {
      WhereKeepsOneLikePerPair(likes0, NotOnPost(id));
    }
  }

  /** What deleting a post and everything on it leaves in each table. */
  lemma CascadeMembers(posts: seq<Post>, likes: seq<Like>, comments: seq<Comment>, id: nat)
    ensures forall p :: p in Where(posts, KeyIsNot(PostKey, id)) <==> p in posts && p.id != id
    ensures forall l :: l in Where(likes, NotOnPost(id)) <==> l in likes && l.postId != id
    ensures forall c :: c in Where(comments, CommentNotOnPost(id)) <==> c in comments && c.postId != id
  {
    WhereMembers(posts, KeyIsNot(PostKey, id));
    forall p ensures p in Where(posts, KeyIsNot(PostKey, id)) <==> p in posts && p.id != id {
      assert PostKey(p) == p.id;
    }
    WhereMembers(likes, NotOnPost(id));
    WhereMembers(comments, CommentNotOnPost(id));
  }

  /** Deleting a post and its likes leaves every remaining post with counters
      that match its likes. */
  lemma CascadeKeepsCounters(posts: seq<Post>, likes: seq<Like>, id: nat)
    ensures AllCountersMatch(posts, likes) ==>
      AllCountersMatch(Where(posts, KeyIsNot(PostKey, id)), Where(likes, NotOnPost(id)))
  {
    if !AllCountersMatch(posts, likes) {
      return;
    }
    var likes' := Where(likes, NotOnPost(id));
    forall q | q != id ensures LikesOf(likes', q) == LikesOf(likes, q) {
      CascadeElsewhere(likes, id, q);
    }
    MatchElsewhere(posts, likes, likes', id);
    WhereMembers(posts, KeyIsNot(PostKey, id));
  }
}
