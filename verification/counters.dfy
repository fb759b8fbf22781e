/** How changes to the like table move the per-post counts of likes: the
    facts behind the claim that the services keep every post's counters equal
    to the number of its likes of each polarity. */
module Counters {
  import opened Rows
  import opened Entities

  /** Appending a like of another post leaves the likes of `postId` as they
      were. */
  lemma AppendElsewhere(likes: seq<Like>, row: Like, postId: nat)
    requires row.postId != postId
    ensures LikesOf(likes + [row], postId) == LikesOf(likes, postId)
  {
    assert (likes + [row])[..|likes|] == likes;
  }

  /** Replacing a like by one on the same post leaves the likes of every other
      post as they were. */
  lemma ReplaceElsewhere(likes: seq<Like>, i: nat, row: Like, postId: nat)
    requires i < |likes| && likes[i].postId == row.postId != postId
    ensures LikesOf(likes[i := row], postId) == LikesOf(likes, postId)
  {
    WhereUpdateIrrelevant(likes, i, row, OnPost(postId));
  }

  /** Removing the like at index `i` by its id leaves the likes of every other
      post as they were. */
  lemma RemoveElsewhere(likes: seq<Like>, i: nat, postId: nat)
    requires UniqueKeys(likes, LikeKey) && i < |likes|
    requires likes[i].postId != postId
    ensures LikesOf(Where(likes, KeyIsNot(LikeKey, likes[i].id)), postId) == LikesOf(likes, postId)
  {
    var a, x, b := likes[..i], likes[i], likes[i + 1..];
    RemoveByKey(likes, LikeKey, i);
    SplitAt(likes, i);
    WhereSkips(a, x, b, OnPost(postId));
    WhereConcat(a, b, OnPost(postId));
  }

  /** Removing the like at index `i` by its id takes exactly that like off
      the count of its polarity on its post. */
  lemma RemoveCounts(likes: seq<Like>, i: nat)
    requires UniqueKeys(likes, LikeKey) && i < |likes|
    ensures var rest := LikesOf(Where(likes, KeyIsNot(LikeKey, likes[i].id)), likes[i].postId);
      var all := LikesOf(likes, likes[i].postId);
      && PositiveCount(all) == PositiveCount(rest) + (if IsPositive(likes[i]) then 1 else 0)
      && NegativeCount(all) == NegativeCount(rest) + (if IsPositive(likes[i]) then 0 else 1)
  {
    var a, x, b := likes[..i], likes[i], likes[i + 1..];
    var onPost := OnPost(x.postId);
    RemoveByKey(likes, LikeKey, i);
    SplitAt(likes, i);
    CountWithoutShape(a, x, b, onPost);
    WhereConcat(a, b, onPost);
    var wa, wb := Where(a, onPost), Where(b, onPost);
    assert LikesOf(likes, x.postId) == wa + [x] + wb;
    assert LikesOf(Where(likes, KeyIsNot(LikeKey, x.id)), x.postId) == wa + wb;
    CountWithout(wa, x, wb, IsPositive);
    CountWithout(wa, x, wb, IsNegative);
  }

  /** Deleting every like of post `postId` leaves the likes of every other
      post as they were. */
  lemma CascadeElsewhere(likes: seq<Like>, deleted: nat, postId: nat)
    requires deleted != postId
    ensures LikesOf(Where(likes, NotOnPost(deleted)), postId) == LikesOf(likes, postId)
  {
    WhereOfWhere(likes, NotOnPost(deleted), OnPost(postId));
  }

  /** Once the likes of every post but `postId` are as they were, every post
      but `postId` still has matching counters. */
  lemma MatchElsewhere(posts: seq<Post>, likes: seq<Like>, likes': seq<Like>, postId: nat)
    requires AllCountersMatch(posts, likes)
    requires forall q :: q != postId ==> LikesOf(likes', q) == LikesOf(likes, q)
    ensures forall p :: p in posts && p.id != postId ==> CountersMatch(p, likes')
  {
    forall p | p in posts && p.id != postId ensures CountersMatch(p, likes') {
      assert CountersMatch(p, likes);
      assert LikesOf(likes', p.id) == LikesOf(likes, p.id);
    }
  }

  /** Saving a post whose counters match, over a table whose other posts'
      counters match, leaves every post's counters matching. */
  lemma SaveKeepsMatches(posts: seq<Post>, likes: seq<Like>, row: Post)
    requires UniqueKeys(posts, PostKey)
    requires CountersMatch(row, likes)
    requires forall p :: p in posts && p.id != row.id ==> CountersMatch(p, likes)
    ensures AllCountersMatch(Save(posts, PostKey, row), likes)
  {
    var after := Save(posts, PostKey, row);
    forall p | p in after ensures CountersMatch(p, likes) {
      if p.id == row.id {
        assert PostKey(p) == PostKey(row);
      }
    }
  }
}
