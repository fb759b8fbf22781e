/** The like service: the upsert of a user's like on a post, the
    recomputation of the post's counters from its likes, the notification of
    the post owner, the removal of a like with the matching counter
    decrement, and the listing of a post's likes. */
module LikeService {
  import opened Rows
  import opened Entities
  import opened Repository
  import opened Outbox
  import opened Counters
  import PostService

  const LikedSuffix := " liked your post."
  const DislikedSuffix := " disliked your post."

  // ---- Notification ----

  /** The notification sent to the owner `to` of a post when `from` likes
      (type 1) or dislikes (any other type) it. */
  function LikeNotification(from: UserProfile, to: UserProfile, likeType: int): (n: Notification)
    ensures n.kind == LikeEvent && n.recipient == to.auth0Id
    ensures |n.message| > |from.username| && n.message[..|from.username|] == from.username
    ensures n.message[|from.username|..] == LikedSuffix <==> likeType == 1
    ensures n.message[|from.username|..] == DislikedSuffix <==> likeType != 1
  {
    var suffix := if likeType == 1 then LikedSuffix else DislikedSuffix;
    assert (from.username + suffix)[|from.username|..] == suffix;
    Notification(from.username + suffix, to.auth0Id, LikeEvent)
  }

  // ---- Counting ----

  /** Counts the likes of a post by polarity, one like at a time. */
  method TallyLikes(likes: seq<Like>) returns (positive: int, negative: int)
    ensures positive == PositiveCount(likes) && negative == NegativeCount(likes)
    ensures positive + negative == |likes|
  {
    positive, negative := 0, 0;
    for i := 0 to |likes|
      invariant positive == PositiveCount(likes[..i])
      invariant negative == NegativeCount(likes[..i])
    {
      assert likes[..i + 1][..i] == likes[..i];
      if likes[i].likeType == 1 {
        positive := positive + 1;
      } else {
        negative := negative + 1;
      }
    }
    assert likes[..|likes|] == likes;
    CountsPartition(likes);
  }

  /** A post whose counters are recounted from the likes table matches it. */
  lemma RecountMatches(p: Post, likes: seq<Like>, positive: int, negative: int)
    requires positive == PositiveCount(LikesOf(likes, p.id))
    requires negative == NegativeCount(LikesOf(likes, p.id))
    ensures CountersMatch(p.(totalLikes := positive, totalUnlikes := negative), likes)
    ensures positive + negative == |LikesOf(likes, p.id)|
  {
    CountsPartition(LikesOf(likes, p.id));
  }

  /** The post after the counter of the removed like's polarity is
      decremented. */
  function Unliked(p: Post, l: Like): (r: Post)
    ensures r.(totalLikes := p.totalLikes, totalUnlikes := p.totalUnlikes) == p
    ensures r.totalLikes + r.totalUnlikes == p.totalLikes + p.totalUnlikes - 1
    ensures IsPositive(l) <==> r.totalLikes < p.totalLikes
    ensures IsPositive(l) ==> r.totalUnlikes == p.totalUnlikes
    ensures !IsPositive(l) ==> r.totalLikes == p.totalLikes
  {
    if l.likeType == 1 then p.(totalLikes := p.totalLikes - 1)
    else p.(totalUnlikes := p.totalUnlikes - 1)
  }

  /** Decrementing the counter of a removed like's polarity keeps the post's
      counters matching the likes that remain. */
  lemma UnlikeKeepsCountersMatch(likes: seq<Like>, i: nat, p: Post)
    requires UniqueKeys(likes, LikeKey) && i < |likes|
    requires likes[i].postId == p.id && CountersMatch(p, likes)
    ensures CountersMatch(Unliked(p, likes[i]), Where(likes, KeyIsNot(LikeKey, likes[i].id)))
  {
    RemoveCounts(likes, i);
  }

  // ---- One like per user and post ----

  /** Rewriting a like in place, keeping its user and post, keeps at most
      one like per pair, and the new row is the pair's only like. */
  lemma ReplaceKeepsOneLike(likes: seq<Like>, i: nat, row: Like)
    requires OneLikePerPair(likes) && i < |likes|
    requires likes[i].userId == row.userId && likes[i].postId == row.postId
    ensures OneLikePerPair(likes[i := row])
    ensures forall l :: l in likes[i := row] && l.userId == row.userId && l.postId == row.postId ==> l == row
  {
    var r := likes[i := row];
    forall l | l in r && l.userId == row.userId && l.postId == row.postId ensures l == row {
      var j :| 0 <= j < |r| && r[j] == l;
    }
  }

  /** Appending a like for a pair that has none keeps at most one like per
      pair, and the new row is the pair's only like. */
  lemma AppendKeepsOneLike(likes: seq<Like>, row: Like)
    requires OneLikePerPair(likes)
    requires forall l :: l in likes ==> !(l.userId == row.userId && l.postId == row.postId)
    ensures OneLikePerPair(likes + [row])
    ensures forall l :: l in likes + [row] && l.userId == row.userId && l.postId == row.postId ==> l == row
  {
    var r := likes + [row];
    forall i, j | 0 <= i < j < |r| ensures !(r[i].userId == r[j].userId && r[i].postId == r[j].postId) {
      if j == |likes| {
        assert r[i] in likes;
      }
    }
  }

  // ---- Upsert ----

  /** The row the upsert of `dto` writes into a likes table whose next
      generated id is `next`: the user's existing like on the post with its
      type replaced, or a new like under the generated id. */
  function UpsertRow(likes: seq<Like>, next: nat, dto: LikeRequest): (l: Like)
    ensures l.userId == dto.userId && l.postId == dto.postId && l.likeType == dto.likeType
  {
    match LikeByUserAndPost(likes, dto.userId, dto.postId)
    case Ok(found) => found.(likeType := dto.likeType)
    case Err(_) => Like(next, dto.userId, dto.postId, dto.likeType)
  }

  /** The upsert rewrites the user's existing like on the post in place, or
      appends a new one; nothing else in the table changes, the likes of
      other posts stay as they were, and at most one like per user and post
      is kept, the upserted row being the one the lookup finds next time. */
  lemma UpsertFacts(likes: seq<Like>, next: nat, dto: LikeRequest)
    requires KeysWithin(likes, LikeKey, next)
    ensures var row := UpsertRow(likes, next, dto);
      var after := Save(likes, LikeKey, row);
      var found := LikeByUserAndPost(likes, dto.userId, dto.postId);
      && (found.Ok? ==> row.id == found.value.id && |after| == |likes|)
      && (found.Err? ==> row.id == next && after == likes + [row])
      && row in after
      && (forall l: Like :: l.id != row.id ==> (l in after <==> l in likes))
      && (forall q :: q != dto.postId ==> LikesOf(after, q) == LikesOf(likes, q))
      && (OneLikePerPair(likes) ==>
            OneLikePerPair(after) && LikeByUserAndPost(after, dto.userId, dto.postId) == Ok(row))
  {
    var row := UpsertRow(likes, next, dto);
    var after := Save(likes, LikeKey, row);
    var found := LikeByUserAndPost(likes, dto.userId, dto.postId);
    if found.Ok? {
      var i :| 0 <= i < |likes| && likes[i] == found.value;
      assert after == likes[i := row];
      forall q | q != dto.postId ensures LikesOf(after, q) == LikesOf(likes, q) {
        ReplaceElsewhere(likes, i, row, q);
      }
      if OneLikePerPair(likes) {
        ReplaceKeepsOneLike(likes, i, row);
      }
    } else {
      assert forall j :: 0 <= j < |likes| ==> likes[j].id != row.id;
      forall q | q != dto.postId ensures LikesOf(after, q) == LikesOf(likes, q) {
        AppendElsewhere(likes, row, q);
      }
      if OneLikePerPair(likes) {
        AppendKeepsOneLike(likes, row);
      }
    }
  }

  /** Looks up the user's like on the post; changes its type if there is
      one, otherwise prepares a new like; then saves it. */
  method Upsert(store: Store, dto: LikeRequest) returns (saved: Like)
    requires store.Valid()
    modifies store
    ensures store.Valid()
    ensures saved == UpsertRow(old(store.likes), old(store.nextLikeId), dto)
    ensures store.likes == Save(old(store.likes), LikeKey, saved)
    ensures store.posts == old(store.posts) && store.comments == old(store.comments)
    ensures store.nextLikeId == old(store.nextLikeId) + if saved.id == old(store.nextLikeId) then 1 else 0
    ensures store.nextPostId == old(store.nextPostId) && store.nextCommentId == old(store.nextCommentId)
    ensures store.journal == old(store.journal) + [SavedLike(saved.id)]
  {
    var found := LikeByUserAndPost(store.likes, dto.userId, dto.postId);
    var like: Like;
    if found.Ok? {
      like := found.value.(likeType := dto.likeType);
      ghost var k :| 0 <= k < |store.likes| && store.likes[k] == found.value;
      assert 0 < LikeKey(store.likes[k]) < store.nextLikeId;
    } else {
      like := Like(0, dto.userId, dto.postId, dto.likeType);
    }
    saved := store.SaveLike(like);
  }

  // ---- Recounting ----

  /** The posts table once the counters of post `postId` are recounted from
      `likes`; unchanged when there is no such post. */
  function Recounted(posts: seq<Post>, likes: seq<Like>, postId: nat): seq<Post> {
    match PostById(posts, likes, postId)
    case Err(_) => posts
    case Ok(found) =>
      Save(posts, PostKey, found.post.(totalLikes := PositiveCount(found.likes), totalUnlikes := NegativeCount(found.likes)))
  }

  /** Recounting rewrites only the recounted post, whose counters then match
      its likes and whose other fields are kept. */
  lemma RecountFacts(posts: seq<Post>, likes: seq<Like>, postId: nat)
    requires UniqueKeys(posts, PostKey)
    ensures var after := Recounted(posts, likes, postId);
      && UniqueKeys(after, PostKey)
      && (forall p: Post :: p.id != postId ==> (p in after <==> p in posts))
      && (PostById(posts, likes, postId).Err? ==> after == posts)
      && (PostById(posts, likes, postId).Ok? ==>
            var post := PostById(posts, likes, postId).value.post;
            && PostById(after, likes, postId).Ok?
            && CountersMatch(PostById(after, likes, postId).value.post, likes)
            && PostById(after, likes, postId).value.post
               == post.(totalLikes := PostById(after, likes, postId).value.post.totalLikes,
                        totalUnlikes := PostById(after, likes, postId).value.post.totalUnlikes))
  {
    var found := PostById(posts, likes, postId);
    if found.Ok? {
      var updated := found.value.post.(totalLikes := PositiveCount(found.value.likes),
                                       totalUnlikes := NegativeCount(found.value.likes));
      var after := Save(posts, PostKey, updated);
      assert updated in after;
    }
  }

  /** Recounting a post after a change to the likes table confined to that
      post restores consistent counters everywhere. */
  lemma RecountRestores(posts: seq<Post>, likes: seq<Like>, likes': seq<Like>, postId: nat)
    requires UniqueKeys(posts, PostKey)
    requires AllCountersMatch(posts, likes)
    requires forall q :: q != postId ==> LikesOf(likes', q) == LikesOf(likes, q)
    ensures AllCountersMatch(Recounted(posts, likes', postId), likes')
  {
    MatchElsewhere(posts, likes, likes', postId);
    var found := PostById(posts, likes', postId);
    if found.Ok? {
      var positive, negative := PositiveCount(found.value.likes), NegativeCount(found.value.likes);
      RecountMatches(found.value.post, likes', positive, negative);
      SaveKeepsMatches(posts, likes', found.value.post.(totalLikes := positive, totalUnlikes := negative));
    }
  }

  // ---- A worked scenario ----

  /** A post with a like from user 10 and a dislike from user 11 has
      counters 1 and 1. User 10 changes the like to a dislike: the row is
      rewritten in place and the recount gives 0 and 2. Removing user 11's
      dislike then leaves counters 0 and 1. */
  lemma LikeScenario(post: Post, likes: seq<Like>)
    requires post == Post(5, 7, "holiday", 9, 1, 1, 0)
    requires likes == [Like(1, 10, 5, 1), Like(2, 11, 5, 2)]
    ensures AllCountersMatch([post], likes)
    ensures var relike := Save(likes, LikeKey, UpsertRow(likes, 3, LikeRequest(10, 5, 2)));
      var recounted := Recounted([post], relike, 5);
      var rest := Where(relike, KeyIsNot(LikeKey, 2));
      && relike == [Like(1, 10, 5, 2), Like(2, 11, 5, 2)]
      && recounted == [post.(totalLikes := 0, totalUnlikes := 2)]
      && LikeByUserAndPost(relike, 11, 5) == Ok(Like(2, 11, 5, 2))
      && rest == [Like(1, 10, 5, 2)]
      && Decremented(recounted, rest, 5, Like(2, 11, 5, 2)) == [post.(totalLikes := 0, totalUnlikes := 1)]
  {
    ScenarioStart(post, likes);
    ScenarioRelike(likes);
    var relike := [Like(1, 10, 5, 2), Like(2, 11, 5, 2)];
    ScenarioRecount(post, relike);
    ScenarioUnlike(relike);
    ScenarioDecrement(post.(totalLikes := 0, totalUnlikes := 2), [Like(1, 10, 5, 2)], Like(2, 11, 5, 2));
  }

  /** The starting counters match a like and a dislike. */
  lemma ScenarioStart(post: Post, likes: seq<Like>)
    requires post.id == 5 && post.totalLikes == 1 && post.totalUnlikes == 1
    requires |likes| == 2 && likes[0].postId == likes[1].postId == 5
    requires likes[0].likeType == 1 && likes[1].likeType == 2
    ensures AllCountersMatch([post], likes)
  {
    WhereKeepsAll(likes, OnPost(5));
    assert likes == [likes[0], likes[1]];
    PairCounts(likes[0], likes[1]);
  }

  /** User 10's existing like is found and rewritten as a dislike. */
  lemma ScenarioRelike(likes: seq<Like>)
    requires likes == [Like(1, 10, 5, 1), Like(2, 11, 5, 2)]
    ensures Save(likes, LikeKey, UpsertRow(likes, 3, LikeRequest(10, 5, 2))) == [Like(1, 10, 5, 2), Like(2, 11, 5, 2)]
  {
    var mine := ByUserAndPost(10, 5);
    assert likes[..1] == [likes[0]];
    assert Where(likes, mine) == Where(likes[..1], mine);
    assert UpsertRow(likes, 3, LikeRequest(10, 5, 2)) == Like(1, 10, 5, 2);
    assert IndexOf(likes, LikeKey, 1) == 0;
  }

  /** Recounting over two dislikes gives counters 0 and 2. */
  lemma ScenarioRecount(post: Post, relike: seq<Like>)
    requires post.id == 5
    requires |relike| == 2 && relike[0].postId == relike[1].postId == 5
    requires relike[0].likeType == relike[1].likeType == 2
    ensures Recounted([post], relike, 5) == [post.(totalLikes := 0, totalUnlikes := 2)]
  {
    WhereKeepsAll(relike, OnPost(5));
    assert relike == [relike[0], relike[1]];
    PairCounts(relike[0], relike[1]);
    RecountSingle(post, relike);
  }

  /** Recounting the only post of a table sets its counters to the tallies
      of its likes. */
  lemma RecountSingle(post: Post, likes: seq<Like>)
    ensures Recounted([post], likes, post.id)
      == [post.(totalLikes := PositiveCount(LikesOf(likes, post.id)),
                totalUnlikes := NegativeCount(LikesOf(likes, post.id)))]
  {
    assert IndexOf([post], PostKey, post.id) == 0;
  }

  /** User 11's dislike is found and removed by its id. */
  lemma ScenarioUnlike(relike: seq<Like>)
    requires relike == [Like(1, 10, 5, 2), Like(2, 11, 5, 2)]
    ensures LikeByUserAndPost(relike, 11, 5) == Ok(Like(2, 11, 5, 2))
    ensures Where(relike, KeyIsNot(LikeKey, 2)) == [Like(1, 10, 5, 2)]
  {
    var theirs := ByUserAndPost(11, 5);
    assert relike[..1] == [relike[0]];
    assert Where(relike[..1], theirs) == [];
    assert Where(relike, theirs) == [relike[1]];
    var notTwo := KeyIsNot(LikeKey, 2);
    assert Where(relike[..1], notTwo) == [relike[0]];
  }

  /** Removing a dislike decrements the dislike counter of its post. */
  lemma ScenarioDecrement(post: Post, rest: seq<Like>, like: Like)
    requires post.id == 5 && like.likeType == 2
    ensures Decremented([post], rest, 5, like) == [post.(totalUnlikes := post.totalUnlikes - 1)]
  {
    assert PostById([post], rest, 5).Ok?;
    var updated := Unliked(post, like);
    assert IndexOf([post], PostKey, 5) == 0;
    assert Save([post], PostKey, updated) == [updated];
  }

  /** The counts of two likes by polarity. */
  lemma PairCounts(a: Like, b: Like)
    ensures PositiveCount([a, b]) == (if IsPositive(a) then 1 else 0) + (if IsPositive(b) then 1 else 0)
    ensures NegativeCount([a, b]) == (if IsNegative(a) then 1 else 0) + (if IsNegative(b) then 1 else 0)
  {
    assert [a, b][..1] == [a] && [a][..0] == [];
    assert Where([a, b], IsPositive) == Where([a], IsPositive) + (if IsPositive(b) then [b] else []);
    assert Where([a], IsPositive) == if IsPositive(a) then [a] else [];
    assert Where([a, b], IsNegative) == Where([a], IsNegative) + (if IsNegative(b) then [b] else []);
    assert Where([a], IsNegative) == if IsNegative(a) then [a] else [];
  }

  // ---- Decrementing ----

  /** The posts table once the counter of `like`'s polarity on post
      `postId` is decremented; unchanged when there is no such post. */
  function Decremented(posts: seq<Post>, likes: seq<Like>, postId: nat, like: Like): seq<Post> {
    match PostById(posts, likes, postId)
    case Err(_) => posts
    case Ok(found) => Save(posts, PostKey, Unliked(found.post, like))
  }

  /** Removing the like at index `i` and decrementing its post's counter
      keeps every post's counters matching its likes. */
  lemma UnlikeRestores(posts: seq<Post>, likes: seq<Like>, i: nat)
    requires UniqueKeys(posts, PostKey) && UniqueKeys(likes, LikeKey) && i < |likes|
    requires AllCountersMatch(posts, likes)
    ensures var rest := Where(likes, KeyIsNot(LikeKey, likes[i].id));
      AllCountersMatch(Decremented(posts, rest, likes[i].postId, likes[i]), rest)
  {
    var like := likes[i];
    var rest := Where(likes, KeyIsNot(LikeKey, like.id));
    forall q | q != like.postId ensures LikesOf(rest, q) == LikesOf(likes, q) {
      RemoveElsewhere(likes, i, q);
    }
    MatchElsewhere(posts, likes, rest, like.postId);
    var found := PostById(posts, rest, like.postId);
    if found.Ok? {
      UnlikeKeepsCountersMatch(likes, i, found.value.post);
      SaveKeepsMatches(posts, rest, Unliked(found.value.post, like));
    }
  }

  /** Decrementing rewrites only the post concerned, and only its counter
      for the like's polarity. */
  lemma DecrementFacts(posts: seq<Post>, likes: seq<Like>, postId: nat, like: Like)
    requires UniqueKeys(posts, PostKey)
    ensures var after := Decremented(posts, likes, postId, like);
      && UniqueKeys(after, PostKey)
      && (forall p: Post :: p.id != postId ==> (p in after <==> p in posts))
      && (PostById(posts, likes, postId).Err? ==> after == posts)
      && (PostById(posts, likes, postId).Ok? ==>
            && PostById(after, likes, postId).Ok?
            && PostById(after, likes, postId).value.post == Unliked(PostById(posts, likes, postId).value.post, like))
  {
    var found := PostById(posts, likes, postId);
    if found.Ok? {
      var after := Save(posts, PostKey, Unliked(found.value.post, like));
      assert Unliked(found.value.post, like) in after;
    }
  }

  // ---- Operations ----

  /** Creates or changes the user's like on a post. The like is saved first;
      if the post does not exist the call fails with NotFound and the like
      stays. Otherwise the post's counters are recounted from its likes and
      saved, and the post owner is notified. */
  method Create(store: Store, bus: Bus, users: Directory, dto: LikeRequest) returns (r: Result<LikeDto>)
    requires store.Valid()
    modifies store, bus
    ensures store.Valid()
    ensures var saved := UpsertRow(old(store.likes), old(store.nextLikeId), dto);
      && store.likes == Save(old(store.likes), LikeKey, saved)
      && store.posts == Recounted(old(store.posts), store.likes, dto.postId)
      && store.comments == old(store.comments)
      && store.nextLikeId == old(store.nextLikeId) + (if saved.id == old(store.nextLikeId) then 1 else 0)
      && store.nextPostId == old(store.nextPostId) && store.nextCommentId == old(store.nextCommentId)
      && match PostById(old(store.posts), old(store.likes), dto.postId)
         case Err(_) =>
           && r == Err(NotFound)
           && bus.sent == old(bus.sent)
           && store.journal == old(store.journal) + [SavedLike(saved.id)]
         case Ok(found) =>
           && r == Ok(LikeToDto(saved))
           && bus.sent == old(bus.sent) + [Notify(LikeNotification(users(dto.userId), users(found.post.userId), dto.likeType))]
           && store.journal == old(store.journal) + [SavedLike(saved.id)] + [SavedPost(dto.postId)]
    ensures old(store.OneLikePerUserAndPost()) ==> store.OneLikePerUserAndPost()
    ensures old(store.CountersConsistent()) ==> store.CountersConsistent()
  {
    ghost var posts0, likes0, next0, journal0 := store.posts, store.likes, store.nextLikeId, store.journal;
    LikeCreateRestores(posts0, likes0, next0, dto);
    var newLike := Upsert(store, dto);
    ghost var journal1 := store.journal;
    var post := RecountPost(store, dto.postId);
    if post.Err? {
      return Err(NotFound);
    }
    bus.Publish(Notify(LikeNotification(users(dto.userId), users(post.value.post.userId), dto.likeType)));
    r := Ok(LikeToDto(newLike));
  }

  /** Looks up the post with its likes, counts the likes by polarity, and
      saves the post with the two counts as its counters. Returns the post
      as it was found, or NotFound, in which case nothing changes. */
  method RecountPost(store: Store, postId: nat) returns (post: Result<PostWithLikes>)
    requires store.Valid()
    modifies store
    ensures store.Valid()
    ensures post == PostById(old(store.posts), old(store.likes), postId)
    ensures store.posts == Recounted(old(store.posts), old(store.likes), postId)
    ensures store.likes == old(store.likes) && store.comments == old(store.comments)
    ensures store.nextPostId == old(store.nextPostId)
    ensures store.nextLikeId == old(store.nextLikeId) && store.nextCommentId == old(store.nextCommentId)
    ensures store.journal == old(store.journal) + if post.Ok? then [SavedPost(postId)] else []
  {
    post := PostById(store.posts, store.likes, postId);
    if post.Err? {
      return;
    }
    var positive, negative := TallyLikes(post.value.likes);
    var updated := post.value.post.(totalLikes := positive, totalUnlikes := negative);
    ghost var k :| 0 <= k < |store.posts| && store.posts[k] == post.value.post;
    assert 0 < PostKey(store.posts[k]) < store.nextPostId;
    var _ := PostService.CreatePost(store, updated);
  }

  /** The like upsert followed by the recount of the post keeps at most one
      like per user and post and keeps every post's counters consistent. */
  lemma LikeCreateRestores(posts: seq<Post>, likes: seq<Like>, next: nat, dto: LikeRequest)
    requires UniqueKeys(posts, PostKey) && KeysWithin(likes, LikeKey, next)
    ensures var after := Save(likes, LikeKey, UpsertRow(likes, next, dto));
      && (OneLikePerPair(likes) ==> OneLikePerPair(after))
      && (AllCountersMatch(posts, likes) ==> AllCountersMatch(Recounted(posts, after, dto.postId), after))
  {
    UpsertFacts(likes, next, dto);
    var after := Save(likes, LikeKey, UpsertRow(likes, next, dto));
    if AllCountersMatch(posts, likes) {
      RecountRestores(posts, likes, after, dto.postId);
    }
  }

  /** Removes the user's like on a post, if there is one, and decrements the
      post's counter for the like's polarity, if the post exists. The
      counter is not clamped at zero. */
  method Delete(store: Store, userId: nat, postId: nat)
    requires store.Valid()
    modifies store
    ensures store.Valid()
    ensures match LikeByUserAndPost(old(store.likes), userId, postId)
      case Err(_) => unchanged(store)
      case Ok(like) =>
        && store.likes == Where(old(store.likes), KeyIsNot(LikeKey, like.id))
        && store.posts == Decremented(old(store.posts), store.likes, postId, like)
        && store.comments == old(store.comments)
        && store.nextPostId == old(store.nextPostId) && store.nextLikeId == old(store.nextLikeId)
        && store.nextCommentId == old(store.nextCommentId)
        && store.journal == old(store.journal) + [DeletedLike(like.id)]
           + (if PostById(old(store.posts), old(store.likes), postId).Ok? then [SavedPost(postId)] else [])
    ensures old(store.CountersConsistent()) ==> store.CountersConsistent()
    ensures old(store.OneLikePerUserAndPost()) ==> store.OneLikePerUserAndPost()
  {
    var found := LikeByUserAndPost(store.likes, userId, postId);
    if found.Err? {
      return;
    }
    var like := found.value;
    ghost var posts0, likes0, journal0 := store.posts, store.likes, store.journal;
    ghost var i :| 0 <= i < |likes0| && likes0[i] == like;
    LikeDeleteRestores(posts0, likes0, i);
    store.DeleteLike(like.id);
    var post := PostById(store.posts, store.likes, postId);
    if post.Err? {
      return;
    }
    var _ := PostService.CreatePost(store, Unliked(post.value.post, like));
    assert store.journal == journal0 + [DeletedLike(like.id)] + [SavedPost(postId)];
  }

  /** Removing a like and decrementing its post keeps at most one like per
      user and post and keeps every post's counters consistent. */
  lemma LikeDeleteRestores(posts: seq<Post>, likes: seq<Like>, i: nat)
    requires UniqueKeys(posts, PostKey) && UniqueKeys(likes, LikeKey) && i < |likes|
    ensures var rest := Where(likes, KeyIsNot(LikeKey, likes[i].id));
      && (OneLikePerPair(likes) ==> OneLikePerPair(rest))
      && (AllCountersMatch(posts, likes) ==>
            AllCountersMatch(Decremented(posts, rest, likes[i].postId, likes[i]), rest))
  {
    if OneLikePerPair(likes) {
      WhereKeepsOneLikePerPair(likes, KeyIsNot(LikeKey, likes[i].id));
    }
    if AllCountersMatch(posts, likes) {
      UnlikeRestores(posts, likes, i);
    }
  }

  // ---- Listing ----

  /** Turns like rows into responses, one for one and in order. */
  method LikesToDtos(likes: seq<Like>) returns (dtos: seq<LikeDto>)
    ensures |dtos| == |likes|
    ensures forall i :: 0 <= i < |likes| ==> DtoToLike(dtos[i]) == likes[i]
  {
    dtos := [];
    for i := 0 to |likes|
      invariant |dtos| == i
      invariant forall j :: 0 <= j < i ==> DtoToLike(dtos[j]) == likes[j]
    {
      dtos := dtos + [LikeToDto(likes[i])];
    }
  }

  /** The likes of a post as responses. */
  method GetAllByPostId(store: Store, postId: nat) returns (dtos: seq<LikeDto>)
    ensures |dtos| == |LikesOfPost(store.likes, postId)|
    ensures forall i :: 0 <= i < |dtos| ==> DtoToLike(dtos[i]) in store.likes && dtos[i].postId == postId
    ensures forall l :: l in store.likes && l.postId == postId ==> LikeToDto(l) in dtos
  {
    var likes := LikesOfPost(store.likes, postId);
    dtos := LikesToDtos(likes);
    forall i | 0 <= i < |dtos| ensures DtoToLike(dtos[i]) in store.likes && dtos[i].postId == postId {
      assert likes[i] in likes;
    }
    forall l | l in store.likes && l.postId == postId ensures LikeToDto(l) in dtos {
      var j :| 0 <= j < |likes| && likes[j] == l;
      assert DtoToLike(dtos[j]) == l;
      assert dtos[j] == LikeToDto(l);
    }
  }
}
