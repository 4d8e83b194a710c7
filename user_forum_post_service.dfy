/**
 * `UserForumPostService`: reading a thread's posts a page at a time,
 * counting them, and creating, editing and destroying posts as the current
 * user. The posts table, the next free id and the caches of the posts and
 * threads mappers are the state; a cache is a validity flag that a flush
 * clears. The HTML purifier is an opaque function `clean`.
 *
 * Destroying a post soft-deletes it (`SoftDelete`), and the posts mapper
 * reads live rows only: a row with `deleted_at` set is neither fetched by
 * id, nor listed, nor counted.
 */
module UserForumPostService {
  import opened Entities
  import opened Collections
  import Sorting
  import Pagination
  import SoftDelete

  /** `where thread_id = ? and state in ('published')`, over the live rows the posts mapper reads. */
  function InThreadPublished(threadId: int): Post -> bool {
    (p: Post) => p.threadId == threadId && p.state in ACCESSIBLE_STATES && p.deletedAt.None?
  }

  /**
   * `order by published_on asc`; the store leaves ties unordered, this
   * model orders them by id.
   */
  predicate PublishedNoLater(a: Post, b: Post) {
    a.publishedOn < b.publishedOn || (a.publishedOn == b.publishedOn && a.id <= b.id)
  }

  lemma PublishedNoLaterIsTotalPreorder()
    ensures Sorting.TotalPreorder(PublishedNoLater)
  {
  }

  /** Every published post of the thread, oldest first: what the pages of `getPosts` are cut from. */
  function ThreadPosts(posts: seq<Post>, threadId: int): (r: seq<Post>)
    ensures Sorting.SortedBy(r, PublishedNoLater)
    ensures forall p :: p in r <==> p in posts && p.threadId == threadId && p.state == STATE_PUBLISHED && p.deletedAt.None?
    ensures |r| == Count(posts, InThreadPublished(threadId))
  {
    PublishedNoLaterIsTotalPreorder();
    var kept := Filter(posts, InThreadPublished(threadId));
    Sorting.SortByMembers(kept, PublishedNoLater);
    Sorting.SortBy(kept, PublishedNoLater)
  }

  /** The mapper's `get($id)`: the live row with that id, if any. */
  function FindPost(posts: seq<Post>, id: int): (r: Option<Post>)
    ensures r.None? <==> forall i :: 0 <= i < |posts| ==> posts[i].id != id || posts[i].deletedAt.Some?
    ensures r.Some? ==> r.value in posts && r.value.id == id && r.value.deletedAt.None?
  {
    if posts == [] then None
    else if posts[0].id == id && posts[0].deletedAt.None? then Some(posts[0])
    else
      var r := FindPost(posts[1..], id);
      assert forall i :: 1 <= i < |posts| ==> posts[1..][i - 1] == posts[i];
      r
  }

  /** `persist()` of an existing post: the row with its id takes its values. */
  function ReplacePost(posts: seq<Post>, updated: Post): (r: seq<Post>)
    ensures |r| == |posts|
  {
    seq(|posts|, i requires 0 <= i < |posts| => if posts[i].id == updated.id then updated else posts[i])
  }

  /** The posts table has a primary key, and the next insert gets a fresh id. */
  ghost predicate ValidTable(posts: seq<Post>, nextId: int) {
    UniquePostIds(posts) && forall i :: 0 <= i < |posts| ==> posts[i].id < nextId
  }

  class UserForumPostService {
    var posts: seq<Post>
    var nextId: int
    var postCacheValid: bool
    var threadCacheValid: bool
    const currentUserId: int
    const clean: string -> string

    ghost predicate Valid()
      reads this
    {
      ValidTable(posts, nextId)
    }

    constructor(posts: seq<Post>, nextId: int, currentUserId: int, clean: string -> string)
      requires ValidTable(posts, nextId)
      ensures Valid()
      ensures this.posts == posts && this.nextId == nextId && this.currentUserId == currentUserId && this.clean == clean
      ensures postCacheValid && threadCacheValid
    {
      this.posts := posts;
      this.nextId := nextId;
      this.currentUserId := currentUserId;
      this.clean := clean;
      postCacheValid := true;
      threadCacheValid := true;
    }

    /**
     * `getPosts`: at most `amount` published posts of the thread, oldest
     * first, skipping the `amount * (page - 1)` before them.
     */
    function GetPosts(amount: nat, page: int, threadId: int): (r: seq<Post>)
      reads this
      ensures |r| <= amount
      ensures Sorting.SortedBy(r, PublishedNoLater)
      ensures forall p :: p in r ==> p in posts && p.threadId == threadId && p.state == STATE_PUBLISHED && p.deletedAt.None?
      ensures var all := ThreadPosts(posts, threadId); var o := Pagination.Offset(amount, page);
        |r| == (if o >= |all| then 0 else if o + amount <= |all| then amount else |all| - o)
      ensures var all := ThreadPosts(posts, threadId); var o := Pagination.Offset(amount, page);
        forall i :: 0 <= i < |r| ==> o + i < |all| && r[i] == all[o + i]
    {
      var all := ThreadPosts(posts, threadId);
      Pagination.PageOfSorted(all, PublishedNoLater, amount, page);
      var r := Pagination.Paginate(all, amount, page);
      assert forall i :: 0 <= i < |r| ==> r[i] in all;
      r
    }

    /** `getPost`. */
    function GetPost(id: int): (r: Option<Post>)
      reads this
      ensures r.None? <==> forall i :: 0 <= i < |posts| ==> posts[i].id != id || posts[i].deletedAt.Some?
      ensures r.Some? ==> r.value in posts && r.value.id == id && r.value.deletedAt.None?
    {
      FindPost(posts, id)
    }

    /** `getThreadPostCount`: as many as the thread's unpaginated listing holds. */
    function GetThreadPostCount(threadId: int): (n: nat)
      reads this
      ensures n == |ThreadPosts(posts, threadId)|
    {
      Count(posts, InThreadPublished(threadId))
    }

    /** `persist()` of an existing post. */
    method Persist(updated: Post)
      requires Valid()
      modifies this
      ensures Valid()
      ensures posts == ReplacePost(old(posts), updated)
      ensures nextId == old(nextId) && postCacheValid == old(postCacheValid) && threadCacheValid == old(threadCacheValid)
    {
      posts := ReplacePost(posts, updated);
      assert forall i :: 0 <= i < |posts| ==> posts[i].id == old(posts)[i].id;
    }

    /**
     * `createPost`: a published post by the current user with the cleaned
     * content, published at `now`; both caches are flushed.
     */
    method CreatePost(content: string, promptingPostId: Option<int>, threadId: int, now: int) returns (post: Post)
      requires Valid()
      modifies this
      ensures Valid()
      ensures post == Post(old(nextId), threadId, currentUserId, clean(content), promptingPostId, STATE_PUBLISHED, now, None, now, None)
      ensures posts == old(posts) + [post] && nextId == old(nextId) + 1
      ensures !postCacheValid && !threadCacheValid
    {
      post := Post(nextId, threadId, currentUserId, clean(content), promptingPostId, STATE_PUBLISHED, now, None, now, None);
      posts := posts + [post];
      nextId := nextId + 1;
      postCacheValid := false;
      threadCacheValid := false;
    }

    /**
     * `updatePostContent`: on a missing id answers null and changes
     * nothing; otherwise sets the cleaned content and `edited_on`, persists,
     * flushes the posts cache only and answers the post.
     */
    method UpdatePostContent(id: int, content: string, now: int) returns (r: Option<Post>)
      requires Valid()
      modifies this
      ensures Valid()
      ensures nextId == old(nextId) && threadCacheValid == old(threadCacheValid)
      ensures match FindPost(old(posts), id)
        case None => r.None? && posts == old(posts) && postCacheValid == old(postCacheValid)
        case Some(p) =>
          && r == Some(p.(content := clean(content), editedOn := Some(now)))
          && posts == ReplacePost(old(posts), r.value)
          && !postCacheValid
    {
      var found := GetPost(id);
      if found.None? {
        return None;
      }
      var post := found.value.(content := clean(content), editedOn := Some(now));
      Persist(post);
      postCacheValid := false;
      r := Some(post);
    }

    /**
     * `updatePostPromptingPostId`: like `updatePostContent`, but sets the
     * prompting post id.
     */
    method UpdatePostPromptingPostId(id: int, promptingPostId: Option<int>, now: int) returns (r: Option<Post>)
      requires Valid()
      modifies this
      ensures Valid()
      ensures nextId == old(nextId) && threadCacheValid == old(threadCacheValid)
      ensures match FindPost(old(posts), id)
        case None => r.None? && posts == old(posts) && postCacheValid == old(postCacheValid)
        case Some(p) =>
          && r == Some(p.(promptingPostId := promptingPostId, editedOn := Some(now)))
          && posts == ReplacePost(old(posts), r.value)
          && !postCacheValid
    {
      var found := GetPost(id);
      if found.None? {
        return None;
      }
      var post := found.value.(promptingPostId := promptingPostId, editedOn := Some(now));
      Persist(post);
      postCacheValid := false;
      r := Some(post);
    }

    /**
     * `destroyPost`: on a missing id answers false and changes nothing;
     * otherwise soft-deletes the post at `now`, flushes both caches and
     * answers true.
     */
    method DestroyPost(id: int, now: int) returns (destroyed: bool)
      requires Valid()
      modifies this
      ensures Valid()
      ensures destroyed <==> FindPost(old(posts), id).Some?
      ensures nextId == old(nextId)
      ensures destroyed ==> posts == SoftDelete.SoftDeleted(old(posts), id, now) && !postCacheValid && !threadCacheValid
      ensures !destroyed ==> posts == old(posts) && postCacheValid == old(postCacheValid) && threadCacheValid == old(threadCacheValid)
    {
      var found := GetPost(id);
      if found.None? {
        return false;
      }
      SoftDeleteKeepsValid(posts, id, now, nextId);
      posts := SoftDelete.SoftDeleted(posts, id, now);
      postCacheValid := false;
      threadCacheValid := false;
      destroyed := true;
    }
  }

  /** Soft-deleting keeps every row's id in place, so the table stays valid. */
  lemma SoftDeleteKeepsValid(posts: seq<Post>, id: int, now: int, nextId: int)
    requires ValidTable(posts, nextId)
    ensures ValidTable(SoftDelete.SoftDeleted(posts, id, now), nextId)
  {
    var after := SoftDelete.SoftDeleted(posts, id, now);
    assert forall i :: 0 <= i < |posts| ==> after[i].id == posts[i].id;
  }

  // ---------------------------------------------------------------------
  // What the operations do to the queries

  /** The pages of `getPosts`, read one after another, give the whole listing, which has `getThreadPostCount` posts. */
  lemma PagesGiveTheThread(posts: seq<Post>, amount: nat, threadId: int)
    requires amount > 0
    ensures var all := ThreadPosts(posts, threadId);
      && Pagination.PagesUpTo(all, amount, Pagination.PageCount(|all|, amount)) == all
      && |all| == Count(posts, InThreadPublished(threadId))
  {
    Pagination.PagesCoverAll(ThreadPosts(posts, threadId), amount);
  }

  /**
   * A created post can be read back by its id, joins its thread's listing
   * and raises the thread's post count by one.
   */
  lemma CreatedPostIsListed(posts: seq<Post>, nextId: int, post: Post)
    requires ValidTable(posts, nextId) && post.id == nextId && post.state == STATE_PUBLISHED && post.deletedAt.None?
    ensures FindPost(posts + [post], post.id) == Some(post)
    ensures post in ThreadPosts(posts + [post], post.threadId)
    ensures Count(posts + [post], InThreadPublished(post.threadId)) == Count(posts, InThreadPublished(post.threadId)) + 1
  {
    var after := posts + [post];
    assert forall i :: 0 <= i < |posts| ==> after[i] == posts[i];
    FindAfterAppend(posts, post);
    CountAppend(posts, [post], InThreadPublished(post.threadId));
  }

  lemma {:induction false} FindAfterAppend(posts: seq<Post>, post: Post)
    requires forall i :: 0 <= i < |posts| ==> posts[i].id != post.id
    requires post.deletedAt.None?
    ensures FindPost(posts + [post], post.id) == Some(post)
  {
    if posts != [] {
      assert (posts + [post])[1..] == posts[1..] + [post];
      FindAfterAppend(posts[1..], post);
    } else {
      assert [post][0] == post;
    }
  }

  /**
   * An edit changes nothing but the edited post, which reads back with its
   * new values; ids and the length of the table are kept.
   */
  lemma EditTouchesOnlyThatPost(posts: seq<Post>, nextId: int, updated: Post)
    requires ValidTable(posts, nextId) && FindPost(posts, updated.id).Some?
    ensures var after := ReplacePost(posts, updated);
      && |after| == |posts|
      && (forall i :: 0 <= i < |posts| ==> after[i].id == posts[i].id)
      && (forall i :: 0 <= i < |posts| && posts[i].id != updated.id ==> after[i] == posts[i])
      && FindPost(after, updated.id) == (if updated.deletedAt.None? then Some(updated) else None)
  {
    var after := ReplacePost(posts, updated);
    var found := FindPost(after, updated.id);
    var k :| 0 <= k < |posts| && posts[k].id == updated.id;
    assert after[k] == updated;
    assert forall i :: 0 <= i < |posts| && i != k ==> after[i].id != updated.id;
    if updated.deletedAt.None? {
      assert found.Some?;
      var j :| 0 <= j < |after| && after[j] == found.value;
    }
  }

  /**
   * A destroyed post stays in the table, soft-deleted, but can no longer be
   * read back; every other post is untouched, ids stay valid, and the
   * thread's count drops by one when the post was published.
   */
  lemma DestroyedPostIsGone(posts: seq<Post>, nextId: int, id: int, now: int)
    requires ValidTable(posts, nextId) && FindPost(posts, id).Some?
    ensures var after := SoftDelete.SoftDeleted(posts, id, now);
      && |after| == |posts|
      && FindPost(after, id).None?
      && (forall q :: q in posts && q.id != id ==> q in after)
      && ValidTable(after, nextId)
    ensures var p := FindPost(posts, id).value;
      Count(SoftDelete.SoftDeleted(posts, id, now), InThreadPublished(p.threadId)) + (if p.state == STATE_PUBLISHED then 1 else 0)
        == Count(posts, InThreadPublished(p.threadId))
  {
    var p := FindPost(posts, id).value;
    var k :| 0 <= k < |posts| && posts[k] == p;
    SoftDeletedAt(posts, id, now, k);
    SoftDeleteKeepsValid(posts, id, now, nextId);
    DestroyKeepsOthers(posts, id, now, k);
    DestroyLowersCount(posts, id, now, k);
  }

  lemma DestroyKeepsOthers(posts: seq<Post>, id: int, now: int, k: int)
    requires 0 <= k < |posts| && posts[k].id == id
    requires SoftDelete.SoftDeleted(posts, id, now) == posts[k := posts[k].(deletedAt := Some(now))]
    ensures forall q :: q in posts && q.id != id ==> q in SoftDelete.SoftDeleted(posts, id, now)
  {
    var after := SoftDelete.SoftDeleted(posts, id, now);
    forall q | q in posts && q.id != id ensures q in after {
      var i :| 0 <= i < |posts| && posts[i] == q;
      assert after[i] == q;
    }
  }

  lemma DestroyLowersCount(posts: seq<Post>, id: int, now: int, k: int)
    requires 0 <= k < |posts| && posts[k].deletedAt.None?
    requires SoftDelete.SoftDeleted(posts, id, now) == posts[k := posts[k].(deletedAt := Some(now))]
    ensures Count(SoftDelete.SoftDeleted(posts, id, now), InThreadPublished(posts[k].threadId)) + (if posts[k].state == STATE_PUBLISHED then 1 else 0)
      == Count(posts, InThreadPublished(posts[k].threadId))
  {
    CountUpdate(posts, k, posts[k].(deletedAt := Some(now)), InThreadPublished(posts[k].threadId));
  }

  /** With unique ids, soft-deleting an id stamps the one row that has it. */
  lemma SoftDeletedAt(posts: seq<Post>, id: int, now: int, k: int)
    requires UniquePostIds(posts) && 0 <= k < |posts| && posts[k].id == id
    ensures SoftDelete.SoftDeleted(posts, id, now) == posts[k := posts[k].(deletedAt := Some(now))]
  {
    assert forall i :: 0 <= i < |posts| && i != k ==> posts[i].id != id by {
      forall i | 0 <= i < |posts| && i != k ensures posts[i].id != id {
        if i < k { assert posts[i].id != posts[k].id; } else { assert posts[k].id != posts[i].id; }
      }
    }
  }
}
