/**
 * `createSearchIndexes`: a chunked scan of the live threads in ascending id
 * order. Each chunk of at most `CHUNK_SIZE` rows is decorated with its
 * authors and turned into search index rows that are inserted as one batch.
 *
 * The inserted batches are the method's result. The clock is read once per
 * chunk; it is a parameter giving the time at which chunk `page` runs.
 */
module ThreadSearchIndex {
  import opened Entities
  import opened Collections
  import Sorting
  import Pagination
  import ThreadRepository
  import ThreadUserDecorator

  datatype SearchIndexRow = SearchIndexRow(
    highValue: Option<string>,
    mediumValue: string,
    lowValue: string,
    threadId: int,
    postId: Option<int>,
    createdAt: int,
    updatedAt: int)

  predicate IdOrder(a: Thread, b: Thread) {
    a.id <= b.id
  }

  lemma IdOrderIsTotalPreorder()
    ensures Sorting.TotalPreorder(IdOrder)
  {
  }

  function Live(): Thread -> bool {
    (t: Thread) => t.deletedAt.None?
  }

  /** The scanned query: every thread without `deleted_at`, ordered by id. */
  function IndexedThreads(threads: seq<Thread>): (r: seq<Thread>)
    ensures Sorting.SortedBy(r, IdOrder)
    ensures forall t :: t in r <==> t in threads && t.deletedAt.None?
    ensures multiset(r) <= multiset(threads)
    ensures |r| == Count(threads, Live())
  {
    IdOrderIsTotalPreorder();
    var live := Filter(threads, Live());
    Sorting.SortByMembers(live, IdOrder);
    Sorting.SortBy(live, IdOrder)
  }

  /** The index row of one thread: its title, its author's display name, no post. */
  function IndexRow(t: Thread, directory: map<int, User>, accessLevelOf: int -> string, defaultAvatarUrl: string, now: int): SearchIndexRow {
    var d := ThreadUserDecorator.DecorateRow(ThreadUserDecorator.ThreadRow(t, None), directory, accessLevelOf, defaultAvatarUrl);
    SearchIndexRow(None, t.title, d.authorDisplayName, t.id, None, now, now)
  }

  /**
   * Every row the rebuild inserts, in insertion order, when the query
   * returns `q`: the k-th thread is indexed by chunk `k / CHUNK_SIZE + 1`, at
   * that chunk's time.
   */
  function ExpectedIndex(q: seq<Thread>, directory: map<int, User>, accessLevelOf: int -> string, defaultAvatarUrl: string, clock: int -> int)
    : (e: seq<SearchIndexRow>)
    ensures |e| == |q|
    ensures forall k :: 0 <= k < |e| ==> e[k] == IndexRow(q[k], directory, accessLevelOf, defaultAvatarUrl, clock(k / ThreadRepository.CHUNK_SIZE + 1))
  {
    seq(|q|, k requires 0 <= k < |q| =>
      IndexRow(q[k], directory, accessLevelOf, defaultAvatarUrl, clock(k / ThreadRepository.CHUNK_SIZE + 1)))
  }

  /**
   * The chunk callback: wraps the rows in entities, decorates them with
   * their authors and builds one index row per decorated thread, all
   * stamped with the time the chunk runs. The decorator is the source's, so
   * a chunk holding a thread whose author the provider does not know fails
   * (`None`) before anything is inserted.
   */
  method IndexChunk(results: seq<Thread>, directory: map<int, User>, accessLevelOf: int -> string, defaultAvatarUrl: string, now: int)
    returns (chunk: Option<seq<SearchIndexRow>>)
    ensures chunk.None? <==> exists j :: 0 <= j < |results| && results[j].authorId !in directory
    ensures chunk.Some? ==> |chunk.value| == |results|
    ensures chunk.Some? ==> forall j :: 0 <= j < |results| ==> chunk.value[j] == IndexRow(results[j], directory, accessLevelOf, defaultAvatarUrl, now)
  {
    var entities: seq<ThreadUserDecorator.ThreadRow> := [];
    for i := 0 to |results|
      invariant |entities| == i
      invariant forall j :: 0 <= j < i ==> entities[j] == ThreadUserDecorator.ThreadRow(results[j], None)
    {
      entities := entities + [ThreadUserDecorator.ThreadRow(results[i], None)];
    }
    ChunkOutcome(results, entities, directory, accessLevelOf, defaultAvatarUrl, now);
    var outcome := ThreadUserDecorator.DecorateAsWritten(entities, directory, accessLevelOf, defaultAvatarUrl);
    if outcome.None? {
      return None;
    }
    var decorated := outcome.value;
    var rows: seq<SearchIndexRow> := [];
    for i := 0 to |decorated|
      invariant |rows| == i
      invariant forall j :: 0 <= j < i ==> rows[j] == IndexRow(results[j], directory, accessLevelOf, defaultAvatarUrl, now)
    {
      var d := decorated[i];
      rows := rows + [SearchIndexRow(None, d.row.thread.title, d.authorDisplayName, d.row.thread.id, None, now, now)];
    }
    chunk := Some(rows);
  }

  /** What the source's decorator returns for the entities of a chunk, stated in terms of the chunk's threads. */
  lemma ChunkOutcome(results: seq<Thread>, entities: seq<ThreadUserDecorator.ThreadRow>, directory: map<int, User>,
                     accessLevelOf: int -> string, defaultAvatarUrl: string, now: int)
    requires |entities| == |results|
    requires forall j :: 0 <= j < |results| ==> entities[j] == ThreadUserDecorator.ThreadRow(results[j], None)
    ensures var o := ThreadUserDecorator.DecorateAsWritten(entities, directory, accessLevelOf, defaultAvatarUrl);
      && (o.None? <==> exists j :: 0 <= j < |results| && results[j].authorId !in directory)
      && (o.Some? ==> |o.value| == |results|)
      && (o.Some? ==> forall j :: 0 <= j < |results| ==>
            IndexRow(results[j], directory, accessLevelOf, defaultAvatarUrl, now)
            == SearchIndexRow(None, o.value[j].row.thread.title, o.value[j].authorDisplayName, o.value[j].row.thread.id, None, now, now))
  {
    ThreadUserDecorator.DecorateAsWrittenOutcome(entities, directory, accessLevelOf, defaultAvatarUrl);
    var o := ThreadUserDecorator.DecorateAsWritten(entities, directory, accessLevelOf, defaultAvatarUrl);
    if o.None? {
      var j :| 0 <= j < |entities| && entities[j].thread.authorId !in directory;
      assert results[j].authorId !in directory;
    } else {
      forall j | 0 <= j < |results| ensures results[j].authorId in directory {
        assert entities[j].thread == results[j];
      }
    }
  }

  /** The rows of page `page` of the query, indexed at that page's time, are the expected rows at its offset. */
  lemma PageIsExpectedSlice(q: seq<Thread>, directory: map<int, User>, accessLevelOf: int -> string, defaultAvatarUrl: string, clock: int -> int,
                            page: nat, chunk: seq<SearchIndexRow>)
    requires page >= 1
    requires var results := Pagination.Paginate(q, ThreadRepository.CHUNK_SIZE, page);
      |chunk| == |results|
      && forall j :: 0 <= j < |results| ==> chunk[j] == IndexRow(results[j], directory, accessLevelOf, defaultAvatarUrl, clock(page))
    ensures var e := ExpectedIndex(q, directory, accessLevelOf, defaultAvatarUrl, clock);
      var off := Pagination.Offset(ThreadRepository.CHUNK_SIZE, page);
      chunk != [] ==> off + |chunk| <= |e| && e[off..off + |chunk|] == chunk
  {
    var e := ExpectedIndex(q, directory, accessLevelOf, defaultAvatarUrl, clock);
    var stamp := (t: Thread, p: int) => IndexRow(t, directory, accessLevelOf, defaultAvatarUrl, clock(p));
    Pagination.PageOfStamped(q, e, ThreadRepository.CHUNK_SIZE, page, stamp, chunk);
  }

  lemma PrefixGrows<R>(e: seq<R>, off: nat, chunk: seq<R>)
    requires off + |chunk| <= |e| && e[off..off + |chunk|] == chunk
    ensures e[..off + |chunk|] == e[..off] + chunk
  {
  }

  /** The position in `q` of the first thread whose author the provider does not know, or `|q|` when it knows every author. */
  function FirstUnknownAuthor(q: seq<Thread>, directory: map<int, User>): (f: nat)
    ensures f <= |q|
    ensures forall k :: 0 <= k < f ==> q[k].authorId in directory
    ensures f < |q| ==> q[f].authorId !in directory
  {
    if q == [] then 0
    else if q[0].authorId !in directory then 0
    else 1 + FirstUnknownAuthor(q[1..], directory)
  }

  /**
   * How many rows of the query end up indexed: all of them when every
   * author is known, otherwise the rows of the full chunks before the chunk
   * holding the first unknown author.
   */
  function StoredRows(q: seq<Thread>, directory: map<int, User>): (n: nat)
    ensures n <= FirstUnknownAuthor(q, directory) <= |q|
    ensures FirstUnknownAuthor(q, directory) == |q| ==> n == |q|
    ensures FirstUnknownAuthor(q, directory) < |q| ==>
      n % ThreadRepository.CHUNK_SIZE == 0 && FirstUnknownAuthor(q, directory) < n + ThreadRepository.CHUNK_SIZE
  {
    var f := FirstUnknownAuthor(q, directory);
    if f == |q| then |q| else f / ThreadRepository.CHUNK_SIZE * ThreadRepository.CHUNK_SIZE
  }

  /**
   * The rebuild. The chunk loop reads page after page of the query until a
   * page comes back empty or short; every non-empty page is decorated and
   * inserted as one batch. A chunk whose decoration fails ends the rebuild
   * (`completed` false), with the batches of the earlier chunks inserted.
   */
  method CreateSearchIndexes(threads: seq<Thread>, directory: map<int, User>, accessLevelOf: int -> string, defaultAvatarUrl: string, clock: int -> int)
    returns (batches: seq<seq<SearchIndexRow>>, completed: bool)
    ensures completed <==> forall t :: t in threads && t.deletedAt.None? ==> t.authorId in directory
    ensures Flatten(batches) == ExpectedIndex(IndexedThreads(threads), directory, accessLevelOf, defaultAvatarUrl, clock)[..StoredRows(IndexedThreads(threads), directory)]
    ensures forall k :: 0 <= k < |batches| ==> 1 <= |batches[k]| <= ThreadRepository.CHUNK_SIZE
    ensures forall k :: 0 <= k < |batches| - 1 ==> |batches[k]| == ThreadRepository.CHUNK_SIZE
  {
    var q := IndexedThreads(threads);
    batches, completed := IndexQuery(q, directory, accessLevelOf, defaultAvatarUrl, clock);
    AllKnownIffNoneUnknown(threads, directory);
  }

  /** The live threads' authors are all known exactly when the id-ordered scan has no unknown author. */
  lemma AllKnownIffNoneUnknown(threads: seq<Thread>, directory: map<int, User>)
    ensures (FirstUnknownAuthor(IndexedThreads(threads), directory) == |IndexedThreads(threads)|)
      <==> forall t :: t in threads && t.deletedAt.None? ==> t.authorId in directory
  {
    var q := IndexedThreads(threads);
    if FirstUnknownAuthor(q, directory) == |q| {
      forall t | t in threads && t.deletedAt.None? ensures t.authorId in directory {
        assert t in q;
      }
    } else {
      assert q[FirstUnknownAuthor(q, directory)] in q;
    }
  }

  /** The chunk loop over the rows `query` returns. */
  method IndexQuery(query: seq<Thread>, directory: map<int, User>, accessLevelOf: int -> string, defaultAvatarUrl: string, clock: int -> int)
    returns (batches: seq<seq<SearchIndexRow>>, completed: bool)
    ensures completed <==> FirstUnknownAuthor(query, directory) == |query|
    ensures Flatten(batches) == ExpectedIndex(query, directory, accessLevelOf, defaultAvatarUrl, clock)[..StoredRows(query, directory)]
    ensures forall k :: 0 <= k < |batches| ==> 1 <= |batches[k]| <= ThreadRepository.CHUNK_SIZE
    ensures forall k :: 0 <= k < |batches| - 1 ==> |batches[k]| == ThreadRepository.CHUNK_SIZE
  {
    ghost var expected := ExpectedIndex(query, directory, accessLevelOf, defaultAvatarUrl, clock);
    ghost var f := FirstUnknownAuthor(query, directory);
    batches := [];
    var page: nat := 1;
    ghost var off: nat := 0;
    while true
      invariant page >= 1 && |batches| == page - 1
      invariant off == Pagination.Offset(ThreadRepository.CHUNK_SIZE, page) && off <= |expected|
      invariant off <= f
      invariant Flatten(batches) == expected[..off]
      invariant forall k :: 0 <= k < |batches| ==> |batches[k]| == ThreadRepository.CHUNK_SIZE
      decreases |expected| - off
    {
      var results := Pagination.Paginate(query, ThreadRepository.CHUNK_SIZE, page);
      if |results| == 0 {
        LastPage(query, directory, page, results);
        WholePrefix(expected, off);
        return batches, true;
      }
      var chunk := IndexChunk(results, directory, accessLevelOf, defaultAvatarUrl, clock(page));
      if chunk.None? {
        FailingChunk(query, directory, page, results);
        return batches, false;
      }
      var rows := chunk.value;
      ChunkExtends(query, directory, accessLevelOf, defaultAvatarUrl, clock, page, results, batches, rows);
      batches := batches + [rows];
      if |results| < ThreadRepository.CHUNK_SIZE {
        LastPage(query, directory, page, results);
        WholePrefix(expected, off + |rows|);
        return batches, true;
      }
      Pagination.OffsetNext(ThreadRepository.CHUNK_SIZE, page);
      page := page + 1;
      off := off + |rows|;
    }
  }

  /** Inserting the rows of a chunk whose authors are all known extends the stored prefix of the expected rows by that chunk. */
  lemma ChunkExtends(query: seq<Thread>, directory: map<int, User>, accessLevelOf: int -> string, defaultAvatarUrl: string, clock: int -> int,
                     page: nat, results: seq<Thread>, batches: seq<seq<SearchIndexRow>>, rows: seq<SearchIndexRow>)
    requires page >= 1 && results == Pagination.Paginate(query, ThreadRepository.CHUNK_SIZE, page) && results != []
    requires |rows| == |results|
    requires forall j :: 0 <= j < |results| ==> rows[j] == IndexRow(results[j], directory, accessLevelOf, defaultAvatarUrl, clock(page))
    requires forall j :: 0 <= j < |results| ==> results[j].authorId in directory
    requires Pagination.Offset(ThreadRepository.CHUNK_SIZE, page) <= FirstUnknownAuthor(query, directory)
    requires Flatten(batches) == ExpectedIndex(query, directory, accessLevelOf, defaultAvatarUrl, clock)[..Pagination.Offset(ThreadRepository.CHUNK_SIZE, page)]
    ensures Pagination.Offset(ThreadRepository.CHUNK_SIZE, page) + |rows| <= FirstUnknownAuthor(query, directory)
    ensures Flatten(batches + [rows]) == ExpectedIndex(query, directory, accessLevelOf, defaultAvatarUrl, clock)[..Pagination.Offset(ThreadRepository.CHUNK_SIZE, page) + |rows|]
  {
    var expected := ExpectedIndex(query, directory, accessLevelOf, defaultAvatarUrl, clock);
    NoUnknownInChunk(query, directory, page, results);
    PageIsExpectedSlice(query, directory, accessLevelOf, defaultAvatarUrl, clock, page, rows);
    FlattenSnoc(batches, rows);
    PrefixGrows(expected, Pagination.Offset(ThreadRepository.CHUNK_SIZE, page), rows);
  }

  /** A page whose threads all have known authors moves the first unknown author past it. */
  lemma NoUnknownInChunk(query: seq<Thread>, directory: map<int, User>, page: nat, results: seq<Thread>)
    requires page >= 1 && results == Pagination.Paginate(query, ThreadRepository.CHUNK_SIZE, page) && results != []
    requires Pagination.Offset(ThreadRepository.CHUNK_SIZE, page) <= FirstUnknownAuthor(query, directory)
    requires forall j :: 0 <= j < |results| ==> results[j].authorId in directory
    ensures Pagination.Offset(ThreadRepository.CHUNK_SIZE, page) + |results| <= FirstUnknownAuthor(query, directory)
  {
  }

  /** A short page whose rows all precede the first unknown author ends the scan with every author known. */
  lemma LastPage(query: seq<Thread>, directory: map<int, User>, page: nat, results: seq<Thread>)
    requires page >= 1 && results == Pagination.Paginate(query, ThreadRepository.CHUNK_SIZE, page)
    requires |results| < ThreadRepository.CHUNK_SIZE
    requires Pagination.Offset(ThreadRepository.CHUNK_SIZE, page) + |results| <= FirstUnknownAuthor(query, directory)
    ensures Pagination.Offset(ThreadRepository.CHUNK_SIZE, page) + |results| == |query|
    ensures FirstUnknownAuthor(query, directory) == StoredRows(query, directory) == |query|
  {
  }

  /** A page holding an unknown author is the chunk holding the first one, and the rows before it are the stored ones. */
  lemma FailingChunk(query: seq<Thread>, directory: map<int, User>, page: nat, results: seq<Thread>)
    requires page >= 1 && results == Pagination.Paginate(query, ThreadRepository.CHUNK_SIZE, page)
    requires Pagination.Offset(ThreadRepository.CHUNK_SIZE, page) <= FirstUnknownAuthor(query, directory)
    requires exists j :: 0 <= j < |results| && results[j].authorId !in directory
    ensures FirstUnknownAuthor(query, directory) < |query|
    ensures StoredRows(query, directory) == Pagination.Offset(ThreadRepository.CHUNK_SIZE, page)
  {
    var off := Pagination.Offset(ThreadRepository.CHUNK_SIZE, page);
    var j :| 0 <= j < |results| && results[j].authorId !in directory;
    assert results[j] == query[off + j];
    UnknownBound(query, directory, off + j);
    StoredRowsInChunk(query, directory, page - 1);
  }

  /** When the first unknown author lies in the chunk starting at `m * CHUNK_SIZE`, the rows stored are those before that chunk. */
  lemma StoredRowsInChunk(query: seq<Thread>, directory: map<int, User>, m: nat)
    requires m * 100 <= FirstUnknownAuthor(query, directory) < m * 100 + 100
    requires FirstUnknownAuthor(query, directory) < |query|
    ensures StoredRows(query, directory) == m * ThreadRepository.CHUNK_SIZE
  {
    ChunkStart(FirstUnknownAuthor(query, directory), m);
  }

  /** A thread with an unknown author bounds the first one. */
  lemma UnknownBound(query: seq<Thread>, directory: map<int, User>, k: nat)
    requires k < |query| && query[k].authorId !in directory
    ensures FirstUnknownAuthor(query, directory) <= k
  {
  }

  /** A position in the chunk starting at `m * CHUNK_SIZE` rounds down to that start. */
  lemma ChunkStart(f: nat, m: nat)
    requires m * ThreadRepository.CHUNK_SIZE <= f < m * ThreadRepository.CHUNK_SIZE + ThreadRepository.CHUNK_SIZE
    ensures f / ThreadRepository.CHUNK_SIZE * ThreadRepository.CHUNK_SIZE == m * ThreadRepository.CHUNK_SIZE
  {
    assert f / 100 == m;
  }

  lemma WholePrefix<R>(e: seq<R>, n: nat)
    requires n == |e|
    ensures e[..n] == e
  {
  }

  // ---------------------------------------------------------------------
  // What the index holds

  /** Every live thread's author is known to the provider. */
  ghost predicate LiveAuthorsKnown(threads: seq<Thread>, directory: map<int, User>) {
    forall t :: t in threads && t.deletedAt.None? ==> t.authorId in directory
  }

  /**
   * An index row describes thread `t`: no high value, the title as medium
   * value, the author's display name as low value, the thread's id, no
   * post, and one timestamp for both dates.
   */
  ghost predicate Describes(row: SearchIndexRow, t: Thread, directory: map<int, User>) {
    && row.highValue.None?
    && row.mediumValue == t.title
    && t.authorId in directory
    && row.lowValue == directory[t.authorId].displayName
    && row.threadId == t.id
    && row.postId.None?
    && row.createdAt == row.updatedAt
  }

  /** Every row the rebuild stores describes the live thread at its position in the scan. */
  lemma StoredRowsDescribeLiveThreads(threads: seq<Thread>, directory: map<int, User>, accessLevelOf: int -> string, defaultAvatarUrl: string, clock: int -> int)
    ensures var q := IndexedThreads(threads);
      var e := ExpectedIndex(q, directory, accessLevelOf, defaultAvatarUrl, clock);
      forall k :: 0 <= k < StoredRows(q, directory) ==> q[k] in threads && q[k].deletedAt.None? && Describes(e[k], q[k], directory)
  {
    var q := IndexedThreads(threads);
    var e := ExpectedIndex(q, directory, accessLevelOf, defaultAvatarUrl, clock);
    forall k | 0 <= k < StoredRows(q, directory) ensures q[k] in threads && q[k].deletedAt.None? && Describes(e[k], q[k], directory) {
      assert q[k] in q;
      ThreadUserDecorator.DecoratedAuthorFields(ThreadUserDecorator.ThreadRow(q[k], None), directory, accessLevelOf, defaultAvatarUrl);
    }
  }

  /**
   * When the provider knows every live thread's author, the rebuild stores
   * as many rows as live threads, the k-th describing the k-th live thread
   * in id order.
   */
  lemma IndexRowsDescribeLiveThreads(threads: seq<Thread>, directory: map<int, User>, accessLevelOf: int -> string, defaultAvatarUrl: string, clock: int -> int)
    requires LiveAuthorsKnown(threads, directory)
    ensures var q := IndexedThreads(threads);
      var e := ExpectedIndex(q, directory, accessLevelOf, defaultAvatarUrl, clock);
      && StoredRows(q, directory) == |e| == Count(threads, Live())
      && forall k :: 0 <= k < |e| ==> q[k] in threads && q[k].deletedAt.None? && Describes(e[k], q[k], directory)
  {
    AllKnownIffNoneUnknown(threads, directory);
    StoredRowsDescribeLiveThreads(threads, directory, accessLevelOf, defaultAvatarUrl, clock);
  }

  /** When the provider knows every live thread's author, every live thread is indexed. */
  lemma EveryLiveThreadIndexed(threads: seq<Thread>, directory: map<int, User>, accessLevelOf: int -> string, defaultAvatarUrl: string, clock: int -> int, t: Thread)
    requires LiveAuthorsKnown(threads, directory)
    requires t in threads && t.deletedAt.None?
    ensures var q := IndexedThreads(threads);
      var e := ExpectedIndex(q, directory, accessLevelOf, defaultAvatarUrl, clock);
      exists k :: 0 <= k < StoredRows(q, directory) && e[k].threadId == t.id
  {
    var q := IndexedThreads(threads);
    var e := ExpectedIndex(q, directory, accessLevelOf, defaultAvatarUrl, clock);
    AllKnownIffNoneUnknown(threads, directory);
    assert t in q;
    var k :| 0 <= k < |q| && q[k] == t;
    assert e[k].threadId == t.id;
  }

  /**
   * When some live thread's author is unknown, the rebuild stops at the
   * chunk holding the first such thread: it stores whole chunks only, fewer
   * rows than there are live threads, and never the row of that thread.
   */
  lemma PartialRebuild(threads: seq<Thread>, directory: map<int, User>)
    requires !LiveAuthorsKnown(threads, directory)
    ensures var q := IndexedThreads(threads);
      var n := StoredRows(q, directory);
      var f := FirstUnknownAuthor(q, directory);
      && n % ThreadRepository.CHUNK_SIZE == 0
      && n <= f < n + ThreadRepository.CHUNK_SIZE
      && f < |q| == Count(threads, Live())
      && q[f].authorId !in directory
  {
    AllKnownIffNoneUnknown(threads, directory);
  }

  /** Concretely: 150 live threads whose 120th has an unknown author leave the first chunk of 100 rows indexed. */
  lemma SecondChunkFails()
    ensures var q := seq(150, i => Thread(i + 1, 1, "t", STATE_PUBLISHED, false, if i == 119 then 2 else 1, None));
      StoredRows(q, map[1 := User("a", None, 0)]) == 100
  {
    var q := seq(150, i => Thread(i + 1, 1, "t", STATE_PUBLISHED, false, if i == 119 then 2 else 1, None));
    var directory := map[1 := User("a", None, 0)];
    assert q[119].authorId !in directory;
    assert FirstUnknownAuthor(q, directory) == 119 by {
      FirstUnknownAt(q, directory, 119);
    }
  }

  /** The first unknown author is at `f` when every thread before `f` has a known author and the one at `f` does not. */
  lemma FirstUnknownAt(q: seq<Thread>, directory: map<int, User>, f: nat)
    requires f < |q| && q[f].authorId !in directory
    requires forall k :: 0 <= k < f ==> q[k].authorId in directory
    ensures FirstUnknownAuthor(q, directory) == f
  {
  }

  /** With unique thread ids, the index rows come in strictly increasing thread id order: no thread is indexed twice. */
  lemma IndexedOnce(threads: seq<Thread>, directory: map<int, User>, accessLevelOf: int -> string, defaultAvatarUrl: string, clock: int -> int)
    requires UniqueThreadIds(threads)
    ensures var e := ExpectedIndex(IndexedThreads(threads), directory, accessLevelOf, defaultAvatarUrl, clock);
      forall i, j :: 0 <= i < j < |e| ==> e[i].threadId < e[j].threadId
  {
    var q := IndexedThreads(threads);
    var e := ExpectedIndex(IndexedThreads(threads), directory, accessLevelOf, defaultAvatarUrl, clock);
    UniqueKeysInSubMultiset(threads, q, (t: Thread) => t.id);
    forall i, j | 0 <= i < j < |e| ensures e[i].threadId < e[j].threadId {
      assert IdOrder(q[i], q[j]);
    }
  }
}
