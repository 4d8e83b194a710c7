/**
 * `->limit($amount)->skip($amount * ($page - 1))` over an ordered result set.
 * Pages are 1-indexed; the query builder never emits a negative offset, so a
 * page below 1 reads from the start.
 */
module Pagination {
  import Sorting

  function Offset(amount: nat, page: int): nat {
    if page >= 1 then amount * (page - 1) else 0
  }

  /** Consecutive pages start `amount` rows apart. */
  lemma OffsetNext(amount: nat, page: int)
    requires page >= 1
    ensures Offset(amount, page + 1) == Offset(amount, page) + amount
  {
  }

  /** The page `page` of size `amount` of the ordered rows `s`. */
  function Paginate<T>(s: seq<T>, amount: nat, page: int): (r: seq<T>)
    ensures |r| <= amount
    ensures Offset(amount, page) >= |s| ==> r == []
    ensures Offset(amount, page) < |s| ==> |r| == if Offset(amount, page) + amount <= |s| then amount else |s| - Offset(amount, page)
    ensures forall i :: 0 <= i < |r| ==> r[i] == s[Offset(amount, page) + i]
  {
    var off := Offset(amount, page);
    if off >= |s| then []
    else if off + amount <= |s| then s[off..off + amount]
    else s[off..]
  }

  /** Every row of a page is a row of the result. */
  lemma PageMembers<T>(s: seq<T>, amount: nat, page: int, x: T)
    requires x in Paginate(s, amount, page)
    ensures x in s
  {
    var r := Paginate(s, amount, page);
    var k :| 0 <= k < |r| && r[k] == x;
    assert x == s[Offset(amount, page) + k];
  }

  /** A page of an ordered result keeps its order. */
  lemma PageOfSorted<T>(s: seq<T>, le: (T, T) -> bool, amount: nat, page: int)
    requires Sorting.SortedBy(s, le)
    ensures Sorting.SortedBy(Paginate(s, amount, page), le)
  {
    var off := Offset(amount, page);
    if off < |s| {
      var hi := if off + amount <= |s| then off + amount else |s|;
      assert Paginate(s, amount, page) == s[off..hi];
      SliceSorted(s, le, off, hi);
    }
  }

  lemma SliceSorted<T>(s: seq<T>, le: (T, T) -> bool, lo: nat, hi: nat)
    requires Sorting.SortedBy(s, le) && lo <= hi <= |s|
    ensures Sorting.SortedBy(s[lo..hi], le)
  {
    forall i, j | 0 <= i < j < hi - lo ensures le(s[lo..hi][i], s[lo..hi][j]) {
      assert s[lo..hi][i] == s[lo + i] && s[lo..hi][j] == s[lo + j];
    }
  }

  /** Row `j` of page `page` lies in page `page`: its position divided by the page size is `page - 1`. */
  lemma PositionInPage(amount: nat, page: int, j: int)
    requires amount > 0 && page >= 1 && 0 <= j < amount
    ensures (Offset(amount, page) + j) / amount == page - 1
  {
    var p := page - 1;
    var x := amount * p + j;
    var d := x / amount;
    var m := x % amount;
    assert x == amount * d + m && 0 <= m < amount;
    assert amount * d == amount * p + amount * (d - p);
    if d > p {
      MulAtLeast(amount, d - p);
    } else if d < p {
      MulAtLeast(amount, p - d);
    }
  }

  /**
   * Rows stamped with the number of the page they are read in: stamping
   * page `page` row by row gives the slice of the stamped whole result at
   * that page's offset.
   */
  lemma PageOfStamped<T, R>(q: seq<T>, e: seq<R>, amount: nat, page: int, stamp: (T, int) -> R, chunk: seq<R>)
    requires amount > 0 && page >= 1
    requires |e| == |q| && forall k :: 0 <= k < |q| ==> e[k] == stamp(q[k], k / amount + 1)
    requires |chunk| == |Paginate(q, amount, page)|
    requires forall j :: 0 <= j < |chunk| ==> chunk[j] == stamp(Paginate(q, amount, page)[j], page)
    ensures chunk != [] ==> Offset(amount, page) + |chunk| <= |e|
    ensures chunk != [] ==> e[Offset(amount, page)..Offset(amount, page) + |chunk|] == chunk
  {
    var off := Offset(amount, page);
    var r := Paginate(q, amount, page);
    if chunk != [] {
      forall j | 0 <= j < |chunk| ensures e[off + j] == chunk[j] {
        PositionInPage(amount, page, j);
        assert r[j] == q[off + j];
      }
      assert e[off..off + |chunk|] == chunk;
    }
  }

  /** Pages 1 .. n, concatenated in order. */
  function PagesUpTo<T>(s: seq<T>, amount: nat, n: nat): seq<T> {
    if n == 0 then [] else PagesUpTo(s, amount, n - 1) + Paginate(s, amount, n)
  }

  /**
   * Reading pages 1 .. n one after the other yields exactly the first
   * `n * amount` rows (or all rows): nothing is skipped and nothing repeats.
   */
  lemma {:induction false} PagesUpToIsPrefix<T>(s: seq<T>, amount: nat, n: nat)
    ensures PagesUpTo(s, amount, n) == s[..if n * amount <= |s| then n * amount else |s|]
  {
    if n > 0 {
      PagesUpToIsPrefix(s, amount, n - 1);
      var prev := if (n - 1) * amount <= |s| then (n - 1) * amount else |s|;
      var cur := if n * amount <= |s| then n * amount else |s|;
      assert Offset(amount, n) == (n - 1) * amount;
      assert n * amount == (n - 1) * amount + amount;
      assert s[..cur] == s[..prev] + s[prev..cur];
    }
  }

  /** The number of pages needed to show every row. */
  function PageCount(total: nat, amount: nat): nat
    requires amount > 0
  {
    (total + amount - 1) / amount
  }

  /** The pages 1 .. PageCount together are the whole ordered result, each row once. */
  lemma PagesCoverAll<T>(s: seq<T>, amount: nat)
    requires amount > 0
    ensures PagesUpTo(s, amount, PageCount(|s|, amount)) == s
    ensures Paginate(s, amount, PageCount(|s|, amount) + 1) == []
  {
    var n := PageCount(|s|, amount);
    PagesUpToIsPrefix(s, amount, n);
    CeilingCovers(|s|, amount);
    assert Offset(amount, n + 1) == amount * n;
  }

  /** Two different pages never share a row position. */
  lemma PagesDisjoint<T>(s: seq<T>, amount: nat, p: int, q: int, i: nat, j: nat)
    requires 1 <= p < q
    requires i < |Paginate(s, amount, p)| && j < |Paginate(s, amount, q)|
    ensures Offset(amount, p) + i < Offset(amount, q) + j
  {
    var d := q - p;
    assert amount * (q - 1) == amount * (p - 1) + amount * d;
    MulAtLeast(amount, d);
  }

  lemma MulAtLeast(a: nat, d: int)
    requires d >= 1
    ensures a * d >= a
  {
    assert a * d == a + a * (d - 1);
  }

  lemma CeilingCovers(total: nat, amount: nat)
    requires amount > 0
    ensures PageCount(total, amount) * amount >= total
  {
    var t := total + amount - 1;
    var n := t / amount;
    var r := t % amount;
    assert t == n * amount + r && r < amount;
  }

  /** Twelve rows in pages of five: 5, 5 and 2 rows, then nothing. */
  lemma TwelveRowsInPagesOfFive<T>(s: seq<T>)
    requires |s| == 12
    ensures |Paginate(s, 5, 1)| == 5 && |Paginate(s, 5, 2)| == 5 && |Paginate(s, 5, 3)| == 2
    ensures Paginate(s, 5, 3) == s[10..]
    ensures Paginate(s, 5, 4) == []
    ensures Paginate(s, 5, 1) + Paginate(s, 5, 2) + Paginate(s, 5, 3) == s
  {
    assert s == s[..5] + s[5..10] + s[10..];
  }
}
