/**
 * `ForumPostLikeService`: the current user likes a post (find or create)
 * or takes every like of theirs on a post back. The like table and the
 * posts mapper's cache are the state; the cache is a validity flag that a
 * flush clears.
 */
module ForumPostLikeService {
  import opened Entities
  import opened Collections

  /** A like by `likerId` on `postId`. */
  function Matches(postId: int, likerId: int): PostLike -> bool {
    (l: PostLike) => l.postId == postId && l.likerId == likerId
  }

  /** `getWithQuery(... where post_id, liker_id)[0] ?? null`: the first matching like of the table. */
  function FirstLike(likes: seq<PostLike>, postId: int, likerId: int): (r: Option<PostLike>)
    ensures r.None? <==> forall i :: 0 <= i < |likes| ==> !Matches(postId, likerId)(likes[i])
    ensures r.Some? ==> r.value in likes && Matches(postId, likerId)(r.value)
  {
    if likes == [] then None
    else if Matches(postId, likerId)(likes[0]) then Some(likes[0])
    else
      var r := FirstLike(likes[1..], postId, likerId);
      assert forall i :: 1 <= i < |likes| ==> likes[1..][i - 1] == likes[i];
      r
  }

  /** The table after `likePost`: unchanged if a like exists, else one new like at the end. */
  function Liked(likes: seq<PostLike>, postId: int, likerId: int, newId: int, now: int): seq<PostLike> {
    if FirstLike(likes, postId, likerId).Some? then likes else likes + [PostLike(newId, postId, likerId, now)]
  }

  /** The table after `unLikePost`: every like of `likerId` on `postId` gone. */
  function Unliked(likes: seq<PostLike>, postId: int, likerId: int): seq<PostLike> {
    Filter(likes, (l: PostLike) => !Matches(postId, likerId)(l))
  }

  /** At most one like per (post, liker). */
  ghost predicate OneLikePerPair(likes: seq<PostLike>) {
    forall i, j :: 0 <= i < j < |likes| ==> !(likes[i].postId == likes[j].postId && likes[i].likerId == likes[j].likerId)
  }

  class ForumPostLikeService {
    var likes: seq<PostLike>
    var nextId: int
    var postCacheValid: bool
    const currentUserId: int

    /** The like table has a primary key, and the next insert gets a fresh id. */
    ghost predicate Valid()
      reads this
    {
      UniqueLikeIds(likes) && forall i :: 0 <= i < |likes| ==> likes[i].id < nextId
    }

    constructor(likes: seq<PostLike>, nextId: int, currentUserId: int)
      requires UniqueLikeIds(likes) && forall i :: 0 <= i < |likes| ==> likes[i].id < nextId
      ensures Valid()
      ensures this.likes == likes && this.nextId == nextId && this.currentUserId == currentUserId && postCacheValid
    {
      this.likes := likes;
      this.nextId := nextId;
      this.currentUserId := currentUserId;
      postCacheValid := true;
    }

    /**
     * `likePost`: answers the existing like of the current user on the
     * post, leaving table and cache alone; otherwise persists a new like
     * dated `now` and flushes the posts cache.
     */
    method LikePost(postId: int, now: int) returns (like: PostLike)
      requires Valid()
      modifies this
      ensures Valid()
      ensures likes == Liked(old(likes), postId, currentUserId, old(nextId), now)
      ensures match FirstLike(old(likes), postId, currentUserId)
        case Some(existing) =>
          like == existing && nextId == old(nextId) && postCacheValid == old(postCacheValid)
        case None =>
          like == PostLike(old(nextId), postId, currentUserId, now) && nextId == old(nextId) + 1 && !postCacheValid
    {
      var existing := FirstLike(likes, postId, currentUserId);
      if existing.None? {
        like := PostLike(nextId, postId, currentUserId, now);
        likes := likes + [like];
        nextId := nextId + 1;
        postCacheValid := false;
      } else {
        like := existing.value;
      }
    }

    /**
     * `unLikePost`: reads the current user's likes on the post; if there are
     * any, flushes the posts cache and destroys them one by one (each
     * destroy deletes the row with that like's id).
     */
    method UnLikePost(postId: int)
      requires Valid()
      modifies this
      ensures Valid()
      ensures likes == Unliked(old(likes), postId, currentUserId)
      ensures nextId == old(nextId)
      ensures postCacheValid == (old(postCacheValid) && FirstLike(old(likes), postId, currentUserId).None?)
    {
      var existing := Filter(likes, Matches(postId, currentUserId));
      MatchesIffFirstLike(likes, postId, currentUserId);
      if existing != [] {
        postCacheValid := false;
      }
      ghost var before := likes;
      DestroyEach(existing);
      DestroyedAreTheMatches(before, postId, currentUserId, existing);
      UnlikedKeepsIds(before, postId, currentUserId, nextId);
    }

    /** The destroy loop: each like's `destroy()` deletes the row with its id. */
    method DestroyEach(existing: seq<PostLike>)
      modifies this
      ensures likes == Filter(old(likes), Survives(IdsOf(existing)))
      ensures nextId == old(nextId) && postCacheValid == old(postCacheValid)
    {
      ghost var before := likes;
      ghost var gone: set<int> := {};
      FilterKeepsAll(before, Survives(gone));
      for k := 0 to |existing|
        invariant nextId == old(nextId) && postCacheValid == old(postCacheValid)
        invariant likes == Filter(before, Survives(gone))
        invariant gone == IdsOf(existing[..k])
      {
        DestroyStep(before, gone, existing[k].id);
        likes := Filter(likes, (l: PostLike) => l.id != existing[k].id);
        IdsOfSnoc(existing, k);
        gone := gone + {existing[k].id};
      }
      assert existing[..|existing|] == existing;
    }
  }

  /** The query finds a like exactly when `FirstLike` does. */
  lemma MatchesIffFirstLike(likes: seq<PostLike>, postId: int, likerId: int)
    ensures Filter(likes, Matches(postId, likerId)) == [] <==> FirstLike(likes, postId, likerId).None?
  {
    var existing := Filter(likes, Matches(postId, likerId));
    if existing != [] {
      assert existing[0] in likes;
    } else {
      forall i | 0 <= i < |likes| ensures !Matches(postId, likerId)(likes[i]) {
        assert likes[i] in likes;
      }
    }
  }

  /** Unliking keeps the ids unique and below the next id. */
  lemma UnlikedKeepsIds(before: seq<PostLike>, postId: int, likerId: int, nextId: int)
    requires UniqueLikeIds(before) && forall i :: 0 <= i < |before| ==> before[i].id < nextId
    ensures var after := Unliked(before, postId, likerId);
      UniqueLikeIds(after) && forall i :: 0 <= i < |after| ==> after[i].id < nextId
  {
    var after := Unliked(before, postId, likerId);
    UniqueKeysInSubMultiset(before, after, (l: PostLike) => l.id);
    forall i | 0 <= i < |after| ensures after[i].id < nextId {
      assert after[i] in after;
      var j :| 0 <= j < |before| && before[j] == after[i];
    }
  }

  /** The ids of some likes. */
  function IdsOf(s: seq<PostLike>): set<int> {
    set x | x in s :: x.id
  }

  lemma IdsOfSnoc(s: seq<PostLike>, k: int)
    requires 0 <= k < |s|
    ensures IdsOf(s[..k + 1]) == IdsOf(s[..k]) + {s[k].id}
  {
    assert s[..k + 1] == s[..k] + [s[k]];
  }

  /** A like whose id is not among the destroyed ids survives. */
  function Survives(gone: set<int>): PostLike -> bool {
    (l: PostLike) => l.id !in gone
  }

  /** Destroying one more like filters its id out of what survived. */
  lemma DestroyStep(before: seq<PostLike>, gone: set<int>, id: int)
    ensures Filter(Filter(before, Survives(gone)), (l: PostLike) => l.id != id) == Filter(before, Survives(gone + {id}))
  {
    FilterFilter(before, Survives(gone), (l: PostLike) => l.id != id, Survives(gone + {id}));
  }

  /** With unique ids, destroying the matching likes by id removes exactly the matching likes. */
  lemma DestroyedAreTheMatches(before: seq<PostLike>, postId: int, likerId: int, existing: seq<PostLike>)
    requires UniqueLikeIds(before)
    requires existing == Filter(before, Matches(postId, likerId))
    ensures Filter(before, Survives(IdsOf(existing))) == Unliked(before, postId, likerId)
  {
    var gone := IdsOf(existing);
    var notMatching := (l: PostLike) => !Matches(postId, likerId)(l);
    forall i | 0 <= i < |before| ensures Survives(gone)(before[i]) == notMatching(before[i]) {
      if Matches(postId, likerId)(before[i]) {
        assert before[i] in existing;
      } else {
        forall x | x in existing ensures before[i].id != x.id {
          var j :| 0 <= j < |before| && before[j] == x;
          assert j != i;
        }
      }
    }
    FilterCongruent(before, Survives(gone), notMatching);
  }

  // ---------------------------------------------------------------------
  // Properties of the two operations

  /** Liking twice leaves the table as liking once. */
  lemma LikeIsIdempotent(likes: seq<PostLike>, postId: int, likerId: int, id1: int, now1: int, id2: int, now2: int)
    ensures Liked(Liked(likes, postId, likerId, id1, now1), postId, likerId, id2, now2) == Liked(likes, postId, likerId, id1, now1)
  {
    var once := Liked(likes, postId, likerId, id1, now1);
    if FirstLike(likes, postId, likerId).None? {
      assert once[|once| - 1] == PostLike(id1, postId, likerId, now1);
    }
  }

  /** After a like the table holds a like of that user on that post, and every earlier like. */
  lemma LikeExistsAfterLiking(likes: seq<PostLike>, postId: int, likerId: int, newId: int, now: int)
    ensures FirstLike(Liked(likes, postId, likerId, newId, now), postId, likerId).Some?
    ensures forall x :: x in likes ==> x in Liked(likes, postId, likerId, newId, now)
  {
    var after := Liked(likes, postId, likerId, newId, now);
    assert after[|after| - 1] in after;
  }

  /** Liking keeps at most one like per (post, liker). */
  lemma LikeKeepsOneLikePerPair(likes: seq<PostLike>, postId: int, likerId: int, newId: int, now: int)
    requires OneLikePerPair(likes)
    ensures OneLikePerPair(Liked(likes, postId, likerId, newId, now))
  {
  }

  /** A like request: the post, the liker and the time. */
  datatype LikeRequest = LikeRequest(postId: int, likerId: int, now: int)

  /** The table after the requests, in order, with fresh ids from `nextId` on. */
  function LikeAll(likes: seq<PostLike>, requests: seq<LikeRequest>, nextId: int): seq<PostLike>
    decreases |requests|
  {
    if requests == [] then likes
    else
      var r := requests[0];
      var after := Liked(likes, r.postId, r.likerId, nextId, r.now);
      LikeAll(after, requests[1..], if after == likes then nextId else nextId + 1)
  }

  /** Starting from at most one like per pair, any number of likes keeps it so. */
  lemma {:induction false} LikeAllKeepsOneLikePerPair(likes: seq<PostLike>, requests: seq<LikeRequest>, nextId: int)
    requires OneLikePerPair(likes)
    ensures OneLikePerPair(LikeAll(likes, requests, nextId))
    decreases |requests|
  {
    if requests != [] {
      var r := requests[0];
      var after := Liked(likes, r.postId, r.likerId, nextId, r.now);
      LikeKeepsOneLikePerPair(likes, r.postId, r.likerId, nextId, r.now);
      LikeAllKeepsOneLikePerPair(after, requests[1..], if after == likes then nextId else nextId + 1);
    }
  }

  /** After unliking no like of that user on that post is left, and every other like is. */
  lemma UnlikeRemovesExactlyTheMatches(likes: seq<PostLike>, postId: int, likerId: int)
    ensures FirstLike(Unliked(likes, postId, likerId), postId, likerId).None?
    ensures forall x :: x in likes && !Matches(postId, likerId)(x) ==> x in Unliked(likes, postId, likerId)
    ensures forall x :: x in Unliked(likes, postId, likerId) ==> x in likes
  {
    var after := Unliked(likes, postId, likerId);
    forall i | 0 <= i < |after| ensures !Matches(postId, likerId)(after[i]) {
      assert after[i] in after;
    }
  }

  /** Unliking a post the user does not like changes nothing. */
  lemma UnlikeWithoutMatchIsNoOp(likes: seq<PostLike>, postId: int, likerId: int)
    requires FirstLike(likes, postId, likerId).None?
    ensures Unliked(likes, postId, likerId) == likes
  {
    FilterKeepsAll(likes, (l: PostLike) => !Matches(postId, likerId)(l));
  }
}
