/** The comment service: adding a comment to a post and notifying the post
    owner, deleting a comment, and listing a post's comments. */
module CommentService {
  import opened Rows
  import opened Entities
  import opened Repository
  import opened Outbox

  const CommentedSuffix := " commented on your post."

  /** The notification sent to the owner `to` of a post when `from`
      comments on it. */
  function CommentNotification(from: UserProfile, to: UserProfile): (n: Notification)
    ensures n.kind == CommentEvent && n.recipient == to.auth0Id
    ensures |n.message| == |from.username| + |CommentedSuffix|
    ensures n.message[..|from.username|] == from.username
    ensures n.message[|from.username|..] == CommentedSuffix
  {
    assert (from.username + CommentedSuffix)[|from.username|..] == CommentedSuffix;
    Notification(from.username + CommentedSuffix, to.auth0Id, CommentEvent)
  }

  /** The owner of post `postId` as comment creation reads it: the lookup's
      error is discarded, so a missing post reads as the empty post, whose
      owner id is 0. */
  function PostOwner(posts: seq<Post>, likes: seq<Like>, postId: nat): (owner: nat)
    ensures (forall p :: p in posts ==> p.id != postId) ==> owner == 0
    ensures UniqueKeys(posts, PostKey) ==> forall p :: p in posts && p.id == postId ==> owner == p.userId
  {
    match PostById(posts, likes, postId)
    case Ok(found) => found.post.userId
    case Err(_) => 0
  }

  /** Adding a comment appends it to the comments of its post and leaves the
      comments of every other post as they were. */
  lemma AddedComment(comments: seq<Comment>, added: Comment, postId: nat)
    ensures CommentsOfPost(comments + [added], postId)
      == CommentsOfPost(comments, postId) + if added.postId == postId then [added] else []
  {
    assert (comments + [added])[..|comments|] == comments;
  }

  /** Stores a new comment on a post and notifies the post owner. The post is
      not required to exist: the comment is stored regardless, and the
      notification then goes to user 0. */
  method Create(store: Store, bus: Bus, users: Directory, dto: CommentRequest) returns (r: Result<CommentDto>)
    requires store.Valid()
    modifies store, bus
    ensures store.Valid()
    ensures var saved := Comment(old(store.nextCommentId), dto.userId, dto.postId, dto.content);
      && r == Ok(CommentToDto(saved))
      && store.comments == old(store.comments) + [saved]
      && store.posts == old(store.posts) && store.likes == old(store.likes)
      && store.nextCommentId == old(store.nextCommentId) + 1
      && store.nextPostId == old(store.nextPostId) && store.nextLikeId == old(store.nextLikeId)
      && bus.sent == old(bus.sent)
         + [Notify(CommentNotification(users(dto.userId), users(PostOwner(old(store.posts), old(store.likes), dto.postId))))]
      && store.journal == old(store.journal) + [SavedComment(saved.id)]
  {
    var comment := Comment(0, dto.userId, dto.postId, dto.content);
    var owner := PostOwner(store.posts, store.likes, dto.postId);
    ghost var comments0 := store.comments;
    var saved := store.SaveComment(comment);
    assert forall j :: 0 <= j < |comments0| ==> comments0[j].id != saved.id;
    bus.Publish(Notify(CommentNotification(users(dto.userId), users(owner))));
    r := Ok(CommentToDto(saved));
  }

  /** Deletes the comment with the given id; an unknown id changes nothing. */
  method Delete(store: Store, id: nat)
    requires store.Valid()
    modifies store
    ensures store.Valid()
    ensures store.comments == Where(old(store.comments), KeyIsNot(CommentKey, id))
    ensures forall c :: c in store.comments <==> c in old(store.comments) && c.id != id
    ensures (forall c :: c in old(store.comments) ==> c.id != id) ==> store.comments == old(store.comments)
    ensures store.posts == old(store.posts) && store.likes == old(store.likes)
    ensures store.nextPostId == old(store.nextPostId) && store.nextLikeId == old(store.nextLikeId)
    ensures store.nextCommentId == old(store.nextCommentId)
    ensures store.journal == old(store.journal) + [DeletedComment(id)]
  {
    ghost var comments0 := store.comments;
    DeleteByKeyFacts(comments0, CommentKey, id);
    store.DeleteComment(id);
    forall c ensures c in store.comments <==> c in comments0 && c.id != id {
      assert CommentKey(c) == c.id;
    }
  }

  /** Turns comment rows into responses, one for one and in order. */
  method CommentsToDtos(comments: seq<Comment>) returns (dtos: seq<CommentDto>)
    ensures |dtos| == |comments|
    ensures forall i :: 0 <= i < |comments| ==> DtoToComment(dtos[i]) == comments[i]
  {
    dtos := [];
    for i := 0 to |comments|
      invariant |dtos| == i
      invariant forall j :: 0 <= j < i ==> DtoToComment(dtos[j]) == comments[j]
    {
      dtos := dtos + [CommentToDto(comments[i])];
    }
  }

  /** The comments of a post as responses. */
  method GetAllByPostId(store: Store, postId: nat) returns (dtos: seq<CommentDto>)
    ensures |dtos| == |CommentsOfPost(store.comments, postId)|
    ensures forall i :: 0 <= i < |dtos| ==> DtoToComment(dtos[i]) in store.comments && dtos[i].postId == postId
    ensures forall c :: c in store.comments && c.postId == postId ==> CommentToDto(c) in dtos
  {
    var comments := CommentsOfPost(store.comments, postId);
    dtos := CommentsToDtos(comments);
    forall i | 0 <= i < |dtos| ensures DtoToComment(dtos[i]) in store.comments && dtos[i].postId == postId {
      assert comments[i] in comments;
    }
    forall c | c in store.comments && c.postId == postId ensures CommentToDto(c) in dtos {
      var j :| 0 <= j < |comments| && comments[j] == c;
      assert dtos[j] == CommentToDto(c);
    }
  }
}
