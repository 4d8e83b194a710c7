/**
 * The thread listing queries of the thread repository: the decorated query
 * (five correlated subqueries per thread row), the filtered, ordered and
 * paginated listing built on it, the listing by ids, and the thread count.
 * The store is a value holding the four tables these queries read; the
 * viewer is an explicit parameter.
 */
module ThreadRepository {
  import opened Entities
  import opened Collections
  import Sorting
  import Pagination

  /** Rows per chunk of the search index rebuild. */
  const CHUNK_SIZE: nat := 100

  datatype Store = Store(
    threads: seq<Thread>,
    posts: seq<Post>,
    threadReads: seq<ThreadRead>,
    threadFollows: seq<ThreadFollow>)

  /** A thread row with the derived columns of the decorated query. */
  datatype DecoratedThread = DecoratedThread(
    thread: Thread,
    postCount: nat,
    lastPostPublishedOn: Option<int>,
    lastPostId: Option<int>,
    lastPostUserId: Option<int>,
    isRead: bool,
    isFollowed: bool)

  // ---------------------------------------------------------------------
  // The correlated subqueries

  /** A post counted by the subqueries of thread `threadId`: in that thread, not soft-deleted. */
  function LiveIn(threadId: int): Post -> bool {
    (p: Post) => p.threadId == threadId && p.deletedAt.None?
  }

  function ReadBy(threadId: int, viewerId: int): ThreadRead -> bool {
    (r: ThreadRead) => r.threadId == threadId && r.readerId == viewerId
  }

  function FollowedBy(threadId: int, viewerId: int): ThreadFollow -> bool {
    (f: ThreadFollow) => f.threadId == threadId && f.followerId == viewerId
  }

  /**
   * `p` comes no later than `q` in `order by published_on desc`, with ties
   * broken by id descending (the store leaves ties unordered; this model
   * fixes one order so that the three last-post columns agree).
   */
  predicate NewerOrSame(p: Post, q: Post) {
    p.publishedOn > q.publishedOn || (p.publishedOn == q.publishedOn && p.id >= q.id)
  }

  /** The post the three `limit 1` last-post subqueries read. */
  function LastLivePost(posts: seq<Post>, threadId: int): (r: Option<Post>)
    ensures r.None? <==> forall p :: p in posts ==> !LiveIn(threadId)(p)
    ensures r.Some? ==> r.value in posts && LiveIn(threadId)(r.value)
    ensures r.Some? ==> forall p :: p in posts && LiveIn(threadId)(p) ==> NewerOrSame(r.value, p)
  {
    if posts == [] then None
    else
      var rest := LastLivePost(posts[1..], threadId);
      assert forall p :: p in posts ==> p == posts[0] || p in posts[1..];
      if !LiveIn(threadId)(posts[0]) then rest
      else if rest.None? || NewerOrSame(posts[0], rest.value) then Some(posts[0])
      else rest
  }

  /** One row of the decorated query for viewer `viewerId`. */
  function DecorateThread(t: Thread, s: Store, viewerId: int): DecoratedThread {
    var last := LastLivePost(s.posts, t.id);
    DecoratedThread(
      t,
      Count(s.posts, LiveIn(t.id)),
      if last.Some? then Some(last.value.publishedOn) else None,
      if last.Some? then Some(last.value.id) else None,
      if last.Some? then Some(last.value.authorId) else None,
      Count(s.threadReads, ReadBy(t.id, viewerId)) > 0,
      Count(s.threadFollows, FollowedBy(t.id, viewerId)) > 0)
  }

  /**
   * What the derived columns mean: the number of live posts, the newest
   * live post (all three columns from the same post, all null when there is
   * none), and the existence of a read row and of a follow row.
   */
  lemma DecoratedColumns(t: Thread, s: Store, viewerId: int)
    ensures var d := DecorateThread(t, s, viewerId);
      && d.thread == t
      && d.postCount == |Filter(s.posts, LiveIn(t.id))|
      && (d.postCount == 0 <==> d.lastPostPublishedOn.None?)
      && (d.lastPostPublishedOn.None? <==> d.lastPostId.None?)
      && (d.lastPostPublishedOn.None? <==> d.lastPostUserId.None?)
      && (d.lastPostPublishedOn.Some? ==>
            exists p :: p in s.posts && LiveIn(t.id)(p)
              && p.publishedOn == d.lastPostPublishedOn.value
              && p.id == d.lastPostId.value && p.authorId == d.lastPostUserId.value)
      && (d.lastPostPublishedOn.Some? ==>
            forall p :: p in s.posts && LiveIn(t.id)(p) ==> p.publishedOn <= d.lastPostPublishedOn.value)
      && (d.isRead <==> exists i :: 0 <= i < |s.threadReads| && s.threadReads[i].threadId == t.id && s.threadReads[i].readerId == viewerId)
      && (d.isFollowed <==> exists i :: 0 <= i < |s.threadFollows| && s.threadFollows[i].threadId == t.id && s.threadFollows[i].followerId == viewerId)
  {
    LastPostColumns(t, s);
    ReadColumn(t, s, viewerId);
    FollowColumn(t, s, viewerId);
  }

  /** The count is zero exactly when there is no newest live post. */
  lemma LastPostColumns(t: Thread, s: Store)
    ensures (Count(s.posts, LiveIn(t.id)) == 0) == LastLivePost(s.posts, t.id).None?
  {
    var last := LastLivePost(s.posts, t.id);
    if last.None? {
      assert forall i :: 0 <= i < |s.posts| ==> !LiveIn(t.id)(s.posts[i]) by {
        forall i | 0 <= i < |s.posts| ensures !LiveIn(t.id)(s.posts[i]) {
          assert s.posts[i] in s.posts;
        }
      }
    } else {
      var p := last.value;
      var i :| 0 <= i < |s.posts| && s.posts[i] == p;
    }
  }

  lemma ReadColumn(t: Thread, s: Store, viewerId: int)
    ensures Count(s.threadReads, ReadBy(t.id, viewerId)) > 0
      <==> exists i :: 0 <= i < |s.threadReads| && s.threadReads[i].threadId == t.id && s.threadReads[i].readerId == viewerId
  {
    if Count(s.threadReads, ReadBy(t.id, viewerId)) > 0 {
      var i :| 0 <= i < |s.threadReads| && ReadBy(t.id, viewerId)(s.threadReads[i]);
    }
  }

  lemma FollowColumn(t: Thread, s: Store, viewerId: int)
    ensures Count(s.threadFollows, FollowedBy(t.id, viewerId)) > 0
      <==> exists i :: 0 <= i < |s.threadFollows| && s.threadFollows[i].threadId == t.id && s.threadFollows[i].followerId == viewerId
  {
    if Count(s.threadFollows, FollowedBy(t.id, viewerId)) > 0 {
      var i :| 0 <= i < |s.threadFollows| && FollowedBy(t.id, viewerId)(s.threadFollows[i]);
    }
  }

  /**
   * The recency reading of "read" that callers of the listing expect: a read
   * row for the viewer at or after the newest live post. The decorated
   * query itself only checks that a read row exists.
   */
  predicate ReadUpToDate(readOn: int, lastPostPublishedOn: Option<int>) {
    lastPostPublishedOn.None? || readOn >= lastPostPublishedOn.value
  }

  ghost predicate ThreadReadUpToDate(s: Store, t: Thread, viewerId: int) {
    var d := DecorateThread(t, s, viewerId);
    exists i :: 0 <= i < |s.threadReads| && ReadBy(t.id, viewerId)(s.threadReads[i])
      && ReadUpToDate(s.threadReads[i].readOn, d.lastPostPublishedOn)
  }

  /** An up-to-date read implies `is_read`; the converse fails (see below). */
  lemma UpToDateImpliesIsRead(s: Store, t: Thread, viewerId: int)
    requires ThreadReadUpToDate(s, t, viewerId)
    ensures DecorateThread(t, s, viewerId).isRead
  {
    DecoratedColumns(t, s, viewerId);
  }

  /**
   * A read row from a day before the only post: `is_read` is true although
   * the read is not up to date.
   */
  lemma IsReadIgnoresRecency()
    ensures var t := Thread(1, 1, "t", STATE_PUBLISHED, false, 7, None);
      var post := Post(10, 1, 7, "c", None, STATE_PUBLISHED, 200, None, 200, None);
      var s := Store([t], [post], [ThreadRead(1, 7, 200 - 86400)], []);
      DecorateThread(t, s, 7).isRead && !ThreadReadUpToDate(s, t, 7)
  {
    var t := Thread(1, 1, "t", STATE_PUBLISHED, false, 7, None);
    var post := Post(10, 1, 7, "c", None, STATE_PUBLISHED, 200, None, 200, None);
    var s := Store([t], [post], [ThreadRead(1, 7, 200 - 86400)], []);
    DecoratedColumns(t, s, 7);
    assert LastLivePost(s.posts, 1) == Some(post) by {
      assert s.posts[1..] == [];
    }
    assert s.threadReads[0].readOn < 200;
  }

  // ---------------------------------------------------------------------
  // The decorated query, the listing and the count

  function LiveThread(): Thread -> bool {
    (t: Thread) => t.deletedAt.None?
  }

  /** A thread with its derived columns, as a function value. */
  function Decorator(s: Store, viewerId: int): Thread -> DecoratedThread {
    (t: Thread) => DecorateThread(t, s, viewerId)
  }

  /**
   * `getDecoratedQuery` over `threads`: one row per non-deleted thread, in
   * store order, each with its own derived columns.
   */
  function DecorateAll(threads: seq<Thread>, s: Store, viewerId: int): (r: seq<DecoratedThread>)
    ensures forall d :: d in r ==> d.thread in threads && d.thread.deletedAt.None? && d == DecorateThread(d.thread, s, viewerId)
    ensures forall t :: t in threads && t.deletedAt.None? ==> DecorateThread(t, s, viewerId) in r
  {
    if threads == [] then []
    else
      assert forall t :: t in threads ==> t == threads[0] || t in threads[1..];
      (if threads[0].deletedAt.None? then [DecorateThread(threads[0], s, viewerId)] else [])
        + DecorateAll(threads[1..], s, viewerId)
  }

  /**
   * The decorated query is the non-deleted threads, decorated one by one, in
   * store order: one row per stored live thread.
   */
  lemma {:induction false} DecorateAllIsDecorateEach(threads: seq<Thread>, s: Store, viewerId: int)
    ensures DecorateAll(threads, s, viewerId) == MapSeq(Filter(threads, LiveThread()), Decorator(s, viewerId))
    ensures |DecorateAll(threads, s, viewerId)| == Count(threads, LiveThread())
  {
    if threads != [] {
      var t := threads[0];
      DecorateAllIsDecorateEach(threads[1..], s, viewerId);
      var tail := Filter(threads[1..], LiveThread());
      if t.deletedAt.None? {
        assert Filter(threads, LiveThread()) == [t] + tail;
        assert ([t] + tail)[1..] == tail;
      } else {
        assert Filter(threads, LiveThread()) == tail;
      }
    }
  }

  function DecoratedQuery(s: Store, viewerId: int): seq<DecoratedThread> {
    DecorateAll(s.threads, s, viewerId)
  }

  /** The `where` clauses of `getDecoratedThreads`. */
  function ListingFilter(categoryIds: seq<int>, pinned: bool, followed: Option<bool>): DecoratedThread -> bool {
    (d: DecoratedThread) =>
      && d.thread.state in ACCESSIBLE_STATES
      && d.thread.pinned == pinned
      && (|categoryIds| == 0 || d.thread.categoryId in categoryIds)
      && (followed == Some(true) ==> d.isFollowed)
  }

  /**
   * The listing filter with the follow flag read as the tri-state the count
   * query implements: `false` keeps only threads the viewer does not follow.
   */
  function IntendedListingFilter(categoryIds: seq<int>, pinned: bool, followed: Option<bool>): DecoratedThread -> bool {
    (d: DecoratedThread) =>
      && d.thread.state in ACCESSIBLE_STATES
      && d.thread.pinned == pinned
      && (|categoryIds| == 0 || d.thread.categoryId in categoryIds)
      && (followed == Some(true) ==> d.isFollowed)
      && (followed == Some(false) ==> !d.isFollowed)
  }

  /** `a` may be listed before `b`: `order by last_post_published_on desc, id desc`, NULL last. */
  predicate ListedBefore(a: DecoratedThread, b: DecoratedThread) {
    if a.lastPostPublishedOn == b.lastPostPublishedOn then a.thread.id >= b.thread.id
    else (a.lastPostPublishedOn.Some? &&
          (b.lastPostPublishedOn.None? || a.lastPostPublishedOn.value > b.lastPostPublishedOn.value))
  }

  lemma ListedBeforeIsTotalPreorder()
    ensures Sorting.TotalPreorder(ListedBefore)
  {
  }

  /** Rows with the same key and id are the same row of a table with unique ids. */
  lemma ListedBeforeIsAntisymmetric(a: DecoratedThread, b: DecoratedThread)
    requires ListedBefore(a, b) && ListedBefore(b, a)
    ensures a.lastPostPublishedOn == b.lastPostPublishedOn && a.thread.id == b.thread.id
  {
  }

  /**
   * The whole ordered listing, before `limit`/`skip`: the decorated rows that
   * pass the filters, each as often as in the store, in listing order.
   */
  function FullListing(s: Store, viewerId: int, categoryIds: seq<int>, pinned: bool, followed: Option<bool>): (r: seq<DecoratedThread>)
    ensures Sorting.SortedBy(r, ListedBefore)
    ensures multiset(r) == multiset(Filter(DecoratedQuery(s, viewerId), ListingFilter(categoryIds, pinned, followed)))
    ensures forall d :: d in r <==> d in DecoratedQuery(s, viewerId) && ListingFilter(categoryIds, pinned, followed)(d)
  {
    var filtered := Filter(DecoratedQuery(s, viewerId), ListingFilter(categoryIds, pinned, followed));
    ListedBeforeIsTotalPreorder();
    Sorting.SortByMembers(filtered, ListedBefore);
    Sorting.SortBy(filtered, ListedBefore)
  }

  /** `getDecoratedThreads(amount, page, categoryIds, pinned, followed)` for viewer `viewerId`. */
  function DecoratedThreads(
    s: Store, viewerId: int, amount: nat, page: int,
    categoryIds: seq<int>, pinned: bool, followed: Option<bool>): seq<DecoratedThread>
  {
    Pagination.Paginate(FullListing(s, viewerId, categoryIds, pinned, followed), amount, page)
  }

  /**
   * Every listed row is a published, non-deleted thread of the store with the
   * requested pinned flag, inside the category filter when one is given,
   * followed by the viewer when only followed threads are asked for, and
   * carries the derived columns of its thread.
   */
  lemma ListedRowsQualify(
    s: Store, viewerId: int, amount: nat, page: int,
    categoryIds: seq<int>, pinned: bool, followed: Option<bool>, d: DecoratedThread)
    requires d in DecoratedThreads(s, viewerId, amount, page, categoryIds, pinned, followed)
    ensures d.thread in s.threads && d == DecorateThread(d.thread, s, viewerId)
    ensures d.thread.state == STATE_PUBLISHED
    ensures d.thread.state != STATE_DRAFT && d.thread.state != STATE_HIDDEN
    ensures d.thread.deletedAt.None?
    ensures d.thread.pinned == pinned
    ensures |categoryIds| > 0 ==> d.thread.categoryId in categoryIds
    ensures followed == Some(true) ==> d.isFollowed
  {
    var full := FullListing(s, viewerId, categoryIds, pinned, followed);
    Pagination.PageMembers(full, amount, page, d);
    assert ListingFilter(categoryIds, pinned, followed)(d);
  }

  /**
   * Every non-deleted thread of the store that passes the filters is in the
   * full listing, and nothing else is.
   */
  lemma FullListingExact(s: Store, viewerId: int, categoryIds: seq<int>, pinned: bool, followed: Option<bool>, t: Thread)
    ensures DecorateThread(t, s, viewerId) in FullListing(s, viewerId, categoryIds, pinned, followed)
      <==> t in s.threads && t.deletedAt.None? && ListingFilter(categoryIds, pinned, followed)(DecorateThread(t, s, viewerId))
  {
  }

  /** A page is the slice of the full listing at offset `amount * (page - 1)`, at most `amount` long. */
  lemma PageIsSliceOfListing(
    s: Store, viewerId: int, amount: nat, page: int,
    categoryIds: seq<int>, pinned: bool, followed: Option<bool>)
    requires page >= 1
    ensures var full := FullListing(s, viewerId, categoryIds, pinned, followed);
      var r := DecoratedThreads(s, viewerId, amount, page, categoryIds, pinned, followed);
      && |r| <= amount
      && (forall i :: 0 <= i < |r| ==> r[i] == full[amount * (page - 1) + i])
  {
    assert Pagination.Offset(amount, page) == amount * (page - 1);
  }

  /** Every page is in listing order: last post time descending, then id descending. */
  lemma PageIsSorted(
    s: Store, viewerId: int, amount: nat, page: int,
    categoryIds: seq<int>, pinned: bool, followed: Option<bool>)
    ensures Sorting.SortedBy(DecoratedThreads(s, viewerId, amount, page, categoryIds, pinned, followed), ListedBefore)
  {
    Pagination.PageOfSorted(FullListing(s, viewerId, categoryIds, pinned, followed), ListedBefore, amount, page);
  }

  /** With no threads in the store every page is empty, not an error. */
  lemma EmptyStoreGivesEmptyPage(
    s: Store, viewerId: int, amount: nat, page: int,
    categoryIds: seq<int>, pinned: bool, followed: Option<bool>)
    requires s.threads == []
    ensures DecoratedThreads(s, viewerId, amount, page, categoryIds, pinned, followed) == []
  {
  }

  function IdIn(ids: seq<int>): Thread -> bool {
    (t: Thread) => t.id in ids
  }

  function LiveWithIdIn(ids: seq<int>): Thread -> bool {
    (t: Thread) => t.deletedAt.None? && t.id in ids
  }

  /**
   * `getDecoratedThreadsByIds`: one row per non-deleted thread whose id is
   * asked for, in store order, each with its own derived columns.
   */
  function DecoratedThreadsByIds(s: Store, viewerId: int, ids: seq<int>): (r: seq<DecoratedThread>)
    ensures r == MapSeq(Filter(s.threads, LiveWithIdIn(ids)), Decorator(s, viewerId))
    ensures |r| == Count(s.threads, LiveWithIdIn(ids))
    ensures forall d :: d in r ==> d.thread.id in ids && d.thread in s.threads && d.thread.deletedAt.None? && d == DecorateThread(d.thread, s, viewerId)
    ensures forall t :: t in s.threads && t.deletedAt.None? && t.id in ids ==> DecorateThread(t, s, viewerId) in r
  {
    DecorateAllIsDecorateEach(s.threads, s, viewerId);
    FilterFilter(s.threads, LiveThread(), IdIn(ids), LiveWithIdIn(ids));
    DecoratedIdsAgree(Filter(s.threads, LiveThread()), s, viewerId, ids);
    FilterMapSeq(Filter(s.threads, LiveThread()), Decorator(s, viewerId), DecoratedIdIn(ids), IdIn(ids));
    ByIdsMembers(s, viewerId, ids);
    Filter(DecoratedQuery(s, viewerId), DecoratedIdIn(ids))
  }

  function DecoratedIdIn(ids: seq<int>): DecoratedThread -> bool {
    (d: DecoratedThread) => d.thread.id in ids
  }

  lemma DecoratedKeepsThread(t: Thread, s: Store, viewerId: int)
    ensures DecorateThread(t, s, viewerId).thread == t
  {
  }

  /** Asking for a decorated row by id asks for its thread by id. */
  lemma DecoratedIdsAgree(threads: seq<Thread>, s: Store, viewerId: int, ids: seq<int>)
    ensures forall i :: 0 <= i < |threads| ==> DecoratedIdIn(ids)(Decorator(s, viewerId)(threads[i])) == IdIn(ids)(threads[i])
  {
    forall i | 0 <= i < |threads| ensures DecoratedIdIn(ids)(Decorator(s, viewerId)(threads[i])) == IdIn(ids)(threads[i]) {
      DecoratedKeepsThread(threads[i], s, viewerId);
    }
  }

  /** The decorated rows of the live threads asked for hold exactly those threads, each decorated once. */
  lemma ByIdsMembers(s: Store, viewerId: int, ids: seq<int>)
    ensures var r := MapSeq(Filter(s.threads, LiveWithIdIn(ids)), Decorator(s, viewerId));
      && (forall d :: d in r ==> d.thread.id in ids && d.thread in s.threads && d.thread.deletedAt.None? && d == DecorateThread(d.thread, s, viewerId))
      && (forall t :: t in s.threads && t.deletedAt.None? && t.id in ids ==> DecorateThread(t, s, viewerId) in r)
  {
    var live := Filter(s.threads, LiveWithIdIn(ids));
    var f := Decorator(s, viewerId);
    MapSeqMembers(live, f);
    forall d: DecoratedThread | d in MapSeq(live, f)
      ensures d.thread.id in ids && d.thread in s.threads && d.thread.deletedAt.None? && d == DecorateThread(d.thread, s, viewerId)
    {
      var t :| t in live && d == f(t);
      DecoratedKeepsThread(t, s, viewerId);
    }
  }

  /** Fetching by id applies no state filter: a draft thread is returned. */
  lemma ByIdsReturnsDrafts(s: Store, viewerId: int, t: Thread)
    requires t in s.threads && t.deletedAt.None? && t.state == STATE_DRAFT
    ensures exists d :: d in DecoratedThreadsByIds(s, viewerId, [t.id]) && d.thread.state == STATE_DRAFT
  {
    assert DecorateThread(t, s, viewerId) in DecoratedThreadsByIds(s, viewerId, [t.id]);
  }

  /** The `where` clauses of `getThreadsCount` on the thread row itself. */
  predicate CountFilter(t: Thread, categoryIds: seq<int>, pinned: bool) {
    && t.state in ACCESSIBLE_STATES
    && t.pinned == pinned
    && t.deletedAt.None?
    && (|categoryIds| == 0 || t.categoryId in categoryIds)
  }

  /**
   * Rows a thread contributes to `COUNT(threads.id)`: without a follow flag
   * one; with a flag the left join gives one row per matching follow row
   * (or one null row), which `true` keeps when non-null and `false` when null.
   */
  function CountedRows(t: Thread, s: Store, viewerId: int, followed: Option<bool>): nat {
    var k := Count(s.threadFollows, FollowedBy(t.id, viewerId));
    match followed
    case None => 1
    case Some(true) => k
    case Some(false) => if k == 0 then 1 else 0
  }

  function CountOver(threads: seq<Thread>, s: Store, viewerId: int, categoryIds: seq<int>, pinned: bool, followed: Option<bool>): nat {
    if threads == [] then 0
    else
      (if CountFilter(threads[0], categoryIds, pinned) then CountedRows(threads[0], s, viewerId, followed) else 0)
        + CountOver(threads[1..], s, viewerId, categoryIds, pinned, followed)
  }

  /** `getThreadsCount(categoryIds, pinned, followed)` for viewer `viewerId`. */
  function ThreadsCount(s: Store, viewerId: int, categoryIds: seq<int>, pinned: bool, followed: Option<bool>): nat {
    CountOver(s.threads, s, viewerId, categoryIds, pinned, followed)
  }

  /** The follow table holds at most one row per (thread, follower). */
  ghost predicate UniqueFollows(rows: seq<ThreadFollow>) {
    forall i, j :: 0 <= i < j < |rows| ==>
      !(rows[i].threadId == rows[j].threadId && rows[i].followerId == rows[j].followerId)
  }

  lemma UniqueFollowsCount(rows: seq<ThreadFollow>, threadId: int, viewerId: int)
    requires UniqueFollows(rows)
    ensures Count(rows, FollowedBy(threadId, viewerId)) <= 1
  {
    AtMostOneCount(rows, FollowedBy(threadId, viewerId));
  }

  /** With a unique follow table, the count over any threads is the number of their rows the tri-state listing filter keeps. */
  lemma {:induction false} IntendedCountOverMatchesListing(
    threads: seq<Thread>, s: Store, viewerId: int, categoryIds: seq<int>, pinned: bool, followed: Option<bool>)
    requires UniqueFollows(s.threadFollows)
    ensures CountOver(threads, s, viewerId, categoryIds, pinned, followed)
      == |Filter(DecorateAll(threads, s, viewerId), IntendedListingFilter(categoryIds, pinned, followed))|
  {
    if threads != [] {
      var t := threads[0];
      var f := IntendedListingFilter(categoryIds, pinned, followed);
      var rest := DecorateAll(threads[1..], s, viewerId);
      var head: seq<DecoratedThread> := if t.deletedAt.None? then [DecorateThread(t, s, viewerId)] else [];
      assert DecorateAll(threads, s, viewerId) == head + rest;
      FilterAppend(head, rest, f);
      assert |Filter(head + rest, f)| == |Filter(head, f)| + |Filter(rest, f)|;
      IntendedCountOverMatchesListing(threads[1..], s, viewerId, categoryIds, pinned, followed);
      HeadContribution(t, s, viewerId, categoryIds, pinned, followed);
      assert CountOver(threads, s, viewerId, categoryIds, pinned, followed)
        == (if CountFilter(t, categoryIds, pinned) then CountedRows(t, s, viewerId, followed) else 0)
         + CountOver(threads[1..], s, viewerId, categoryIds, pinned, followed);
    }
  }

  /** With no `false` flag the listing's own filter and the tri-state one keep the same rows, so the count matches the listing. */
  lemma CountOverMatchesListing(
    threads: seq<Thread>, s: Store, viewerId: int, categoryIds: seq<int>, pinned: bool, followed: Option<bool>)
    requires UniqueFollows(s.threadFollows)
    requires followed != Some(false)
    ensures CountOver(threads, s, viewerId, categoryIds, pinned, followed)
      == |Filter(DecorateAll(threads, s, viewerId), ListingFilter(categoryIds, pinned, followed))|
  {
    IntendedCountOverMatchesListing(threads, s, viewerId, categoryIds, pinned, followed);
    FilterCongruent(DecorateAll(threads, s, viewerId), ListingFilter(categoryIds, pinned, followed), IntendedListingFilter(categoryIds, pinned, followed));
  }

  lemma DecoratedFollowFlag(t: Thread, s: Store, viewerId: int)
    ensures DecorateThread(t, s, viewerId).thread == t
    ensures DecorateThread(t, s, viewerId).isFollowed == (Count(s.threadFollows, FollowedBy(t.id, viewerId)) > 0)
  {
  }

  /** What one thread contributes to the tri-state listing and to the count agree. */
  lemma HeadContribution(t: Thread, s: Store, viewerId: int, categoryIds: seq<int>, pinned: bool, followed: Option<bool>)
    requires UniqueFollows(s.threadFollows)
    ensures var head: seq<DecoratedThread> := if t.deletedAt.None? then [DecorateThread(t, s, viewerId)] else [];
      |Filter(head, IntendedListingFilter(categoryIds, pinned, followed))|
        == if CountFilter(t, categoryIds, pinned) then CountedRows(t, s, viewerId, followed) else 0
  {
    if t.deletedAt.None? {
      UniqueFollowsCount(s.threadFollows, t.id, viewerId);
      DecoratedFollowFlag(t, s, viewerId);
      RowContribution(DecorateThread(t, s, viewerId), t, s, viewerId, categoryIds, pinned, followed);
    }
  }

  /** A row carrying thread `t` and its follow flag passes the tri-state filter as often as the count counts `t`. */
  lemma RowContribution(d: DecoratedThread, t: Thread, s: Store, viewerId: int, categoryIds: seq<int>, pinned: bool, followed: Option<bool>)
    requires d.thread == t && t.deletedAt.None?
    requires Count(s.threadFollows, FollowedBy(t.id, viewerId)) <= 1
    requires d.isFollowed == (Count(s.threadFollows, FollowedBy(t.id, viewerId)) > 0)
    ensures |Filter([d], IntendedListingFilter(categoryIds, pinned, followed))|
      == if CountFilter(t, categoryIds, pinned) then CountedRows(t, s, viewerId, followed) else 0
  {
    var f := IntendedListingFilter(categoryIds, pinned, followed);
    assert Filter([d], f) == if f(d) then [d] else [] by {
      assert [d][1..] == [];
    }
  }

  /**
   * When the follow table is unique per (thread, viewer), the count without a
   * follow flag or with `true` is the length of the unpaginated listing.
   */
  lemma CountMatchesListing(s: Store, viewerId: int, categoryIds: seq<int>, pinned: bool, followed: Option<bool>)
    requires UniqueFollows(s.threadFollows)
    requires followed != Some(false)
    ensures ThreadsCount(s, viewerId, categoryIds, pinned, followed)
      == |FullListing(s, viewerId, categoryIds, pinned, followed)|
  {
    CountOverMatchesListing(s.threads, s, viewerId, categoryIds, pinned, followed);
  }

  /**
   * With a unique follow table, `getThreadsCount` equals the number of
   * decorated rows the tri-state listing filter keeps, for every flag.
   */
  lemma IntendedCountMatchesListing(s: Store, viewerId: int, categoryIds: seq<int>, pinned: bool, followed: Option<bool>)
    requires UniqueFollows(s.threadFollows)
    ensures ThreadsCount(s, viewerId, categoryIds, pinned, followed)
      == |Filter(DecoratedQuery(s, viewerId), IntendedListingFilter(categoryIds, pinned, followed))|
  {
    IntendedCountOverMatchesListing(s.threads, s, viewerId, categoryIds, pinned, followed);
  }

  /**
   * `getDecoratedThreads` ignores `followed === false` while
   * `getThreadsCount` keeps only unfollowed threads: one followed thread is
   * listed but not counted.
   */
  lemma FalseFlagListsFollowedThread()
    ensures var t := Thread(1, 1, "t", STATE_PUBLISHED, false, 7, None);
      var s := Store([t], [], [], [ThreadFollow(1, 1, 7)]);
      ThreadsCount(s, 7, [], false, Some(false)) == 0
      && |FullListing(s, 7, [], false, Some(false))| == 1
  {
    var t := Thread(1, 1, "t", STATE_PUBLISHED, false, 7, None);
    var s := Store([t], [], [], [ThreadFollow(1, 1, 7)]);
    assert s.threadFollows[1..] == [];
    assert Count(s.threadFollows, FollowedBy(1, 7)) == 1;
    assert s.threads[1..] == [];
    assert ThreadsCount(s, 7, [], false, Some(false)) == CountedRows(t, s, 7, Some(false)) + CountOver([], s, 7, [], false, Some(false));
    var d := DecorateThread(t, s, 7);
    assert DecorateAll(s.threads[1..], s, 7) == [];
    assert DecoratedQuery(s, 7) == [d] + [];
    assert ListingFilter([], false, Some(false))(d);
    ListingOfOne(s, 7, [], false, Some(false), d);
  }

  /** With a unique follow table, followed and not-followed threads partition the unflagged count. */
  lemma {:induction false} CountPartitions(
    threads: seq<Thread>, s: Store, viewerId: int, categoryIds: seq<int>, pinned: bool)
    requires UniqueFollows(s.threadFollows)
    ensures CountOver(threads, s, viewerId, categoryIds, pinned, None)
      == CountOver(threads, s, viewerId, categoryIds, pinned, Some(true))
       + CountOver(threads, s, viewerId, categoryIds, pinned, Some(false))
  {
    if threads != [] {
      UniqueFollowsCount(s.threadFollows, threads[0].id, viewerId);
      CountPartitions(threads[1..], s, viewerId, categoryIds, pinned);
    }
  }

  /** A duplicated follow row is counted twice by the `true` count: the join is not de-duplicated. */
  lemma DuplicateFollowCountedTwice()
    ensures var t := Thread(1, 1, "t", STATE_PUBLISHED, false, 7, None);
      var s := Store([t], [], [], [ThreadFollow(1, 1, 7), ThreadFollow(2, 1, 7)]);
      ThreadsCount(s, 7, [], false, Some(true)) == 2
      && |FullListing(s, 7, [], false, Some(true))| == 1
  {
    var t := Thread(1, 1, "t", STATE_PUBLISHED, false, 7, None);
    var s := Store([t], [], [], [ThreadFollow(1, 1, 7), ThreadFollow(2, 1, 7)]);
    DuplicateFollowRows(t, s);
    DuplicateFollowListedOnce(t, s);
  }

  lemma DuplicateFollowRows(t: Thread, s: Store)
    requires t == Thread(1, 1, "t", STATE_PUBLISHED, false, 7, None)
    requires s == Store([t], [], [], [ThreadFollow(1, 1, 7), ThreadFollow(2, 1, 7)])
    ensures ThreadsCount(s, 7, [], false, Some(true)) == 2
  {
    TwoFollowRows(s.threadFollows);
    assert s.threads[1..] == [];
    assert CountFilter(t, [], false);
    assert ThreadsCount(s, 7, [], false, Some(true)) == CountedRows(t, s, 7, Some(true)) + CountOver([], s, 7, [], false, Some(true));
  }

  lemma TwoFollowRows(rows: seq<ThreadFollow>)
    requires rows == [ThreadFollow(1, 1, 7), ThreadFollow(2, 1, 7)]
    ensures Count(rows, FollowedBy(1, 7)) == 2
  {
    assert rows[1..][1..] == [];
  }

  lemma DuplicateFollowListedOnce(t: Thread, s: Store)
    requires t == Thread(1, 1, "t", STATE_PUBLISHED, false, 7, None)
    requires s == Store([t], [], [], [ThreadFollow(1, 1, 7), ThreadFollow(2, 1, 7)])
    ensures |FullListing(s, 7, [], false, Some(true))| == 1
  {
    TwoFollowRows(s.threadFollows);
    var d := DecorateThread(t, s, 7);
    assert s.threads[1..] == [];
    assert DecorateAll(s.threads[1..], s, 7) == [];
    assert DecoratedQuery(s, 7) == [d] + [];
    assert ListingFilter([], false, Some(true))(d);
    ListingOfOne(s, 7, [], false, Some(true), d);
  }

  /** A listing whose filter keeps one decorated row has one row. */
  lemma ListingOfOne(s: Store, viewerId: int, categoryIds: seq<int>, pinned: bool, followed: Option<bool>, d: DecoratedThread)
    requires DecoratedQuery(s, viewerId) == [d] && ListingFilter(categoryIds, pinned, followed)(d)
    ensures |FullListing(s, viewerId, categoryIds, pinned, followed)| == 1
  {
    var full := FullListing(s, viewerId, categoryIds, pinned, followed);
    assert Filter([d], ListingFilter(categoryIds, pinned, followed)) == [d];
    assert |full| == |multiset(full)| == |multiset([d])| == 1;
  }
}
