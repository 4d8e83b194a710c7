/**
 * Small sequence and map helpers shared by the repository, decorator and
 * service models: filtering a result set, counting, de-duplicating ids the
 * way `array_unique` does, restricting a provider directory to the ids of a
 * batch call, and concatenating inserted batches.
 */
module Collections {

  /** The rows of `s` that satisfy `keep`, in their original order (a SQL `where`). */
  function Filter<T(!new)>(s: seq<T>, keep: T -> bool): (r: seq<T>)
    ensures |r| <= |s|
    ensures forall x :: x in r <==> x in s && keep(x)
    ensures multiset(r) <= multiset(s)
  {
    if s == [] then []
    else
      assert s == [s[0]] + s[1..];
      if keep(s[0]) then [s[0]] + Filter(s[1..], keep)
      else Filter(s[1..], keep)
  }

  lemma {:induction false} FilterAppend<T(!new)>(a: seq<T>, b: seq<T>, keep: T -> bool)
    ensures Filter(a + b, keep) == Filter(a, keep) + Filter(b, keep)
  {
    if a == [] {
      assert a + b == b;
    } else {
      assert (a + b)[1..] == a[1..] + b;
      FilterAppend(a[1..], b, keep);
    }
  }

  /** A filter every row passes returns the rows unchanged. */
  lemma {:induction false} FilterKeepsAll<T(!new)>(s: seq<T>, keep: T -> bool)
    requires forall i :: 0 <= i < |s| ==> keep(s[i])
    ensures Filter(s, keep) == s
  {
    if s != [] {
      FilterKeepsAll(s[1..], keep);
    }
  }

  /** Two conditions that agree on every row of `s` filter it alike. */
  lemma {:induction false} FilterCongruent<T(!new)>(s: seq<T>, p: T -> bool, q: T -> bool)
    requires forall i :: 0 <= i < |s| ==> p(s[i]) == q(s[i])
    ensures Filter(s, p) == Filter(s, q)
  {
    if s != [] {
      FilterCongruent(s[1..], p, q);
    }
  }

  /** Filtering by two conditions in turn is filtering by their conjunction. */
  lemma {:induction false} FilterFilter<T(!new)>(s: seq<T>, p: T -> bool, q: T -> bool, both: T -> bool)
    requires forall i :: 0 <= i < |s| ==> both(s[i]) == (p(s[i]) && q(s[i]))
    ensures Filter(Filter(s, p), q) == Filter(s, both)
  {
    if s != [] {
      assert forall i :: 0 <= i < |s| - 1 ==> s[1..][i] == s[i + 1];
      FilterFilter(s[1..], p, q, both);
    }
  }

  /** `f` applied to every element of `s`, in order. */
  function MapSeq<A, B>(s: seq<A>, f: A -> B): (r: seq<B>)
    ensures |r| == |s|
    ensures forall k :: 0 <= k < |s| ==> r[k] == f(s[k])
  {
    if s == [] then [] else [f(s[0])] + MapSeq(s[1..], f)
  }

  /** The elements of a mapped sequence are the images of the elements of the sequence. */
  lemma MapSeqMembers<A, B>(s: seq<A>, f: A -> B)
    ensures forall y :: y in MapSeq(s, f) ==> exists x :: x in s && y == f(x)
    ensures forall x :: x in s ==> f(x) in MapSeq(s, f)
  {
    var r := MapSeq(s, f);
    forall y | y in r ensures exists x :: x in s && y == f(x) {
      var k :| 0 <= k < |r| && r[k] == y;
      assert s[k] in s;
    }
    forall x | x in s ensures f(x) in r {
      var k :| 0 <= k < |s| && s[k] == x;
      assert r[k] == f(x);
    }
  }

  /** Filtering mapped elements is mapping the filtered elements, when the two conditions agree. */
  lemma {:induction false} FilterMapSeq<A(!new), B(!new)>(s: seq<A>, f: A -> B, keep: B -> bool, keepSource: A -> bool)
    requires forall i :: 0 <= i < |s| ==> keep(f(s[i])) == keepSource(s[i])
    ensures Filter(MapSeq(s, f), keep) == MapSeq(Filter(s, keepSource), f)
  {
    if s != [] {
      var m := MapSeq(s, f);
      assert m[1..] == MapSeq(s[1..], f);
      FilterMapSeq(s[1..], f, keep, keepSource);
      var tail := Filter(s[1..], keepSource);
      assert ([s[0]] + tail)[1..] == tail;
    }
  }

  /** Number of elements of `s` satisfying `p` (a SQL `COUNT(*)` with a `where`). */
  function Count<T(!new)>(s: seq<T>, p: T -> bool): (n: nat)
    ensures n <= |s|
    ensures n == 0 <==> forall i :: 0 <= i < |s| ==> !p(s[i])
    ensures n == |Filter(s, p)|
  {
    if s == [] then 0
    else (if p(s[0]) then 1 else 0) + Count(s[1..], p)
  }

  lemma {:induction false} CountAppend<T(!new)>(a: seq<T>, b: seq<T>, p: T -> bool)
    ensures Count(a + b, p) == Count(a, p) + Count(b, p)
  {
    FilterAppend(a, b, p);
  }

  /** Two sequences whose elements agree on `p` position by position have equally many elements satisfying it. */
  lemma {:induction false} CountPositionwise<T(!new)>(a: seq<T>, b: seq<T>, p: T -> bool)
    requires |a| == |b| && forall i :: 0 <= i < |a| ==> p(a[i]) == p(b[i])
    ensures Count(a, p) == Count(b, p)
  {
    if a != [] {
      assert forall i :: 0 <= i < |a| - 1 ==> a[1..][i] == a[i + 1] && b[1..][i] == b[i + 1];
      CountPositionwise(a[1..], b[1..], p);
    }
  }

  /** Replacing one element changes the count by what the old and new elements contribute. */
  lemma CountUpdate<T(!new)>(s: seq<T>, k: int, v: T, p: T -> bool)
    requires 0 <= k < |s|
    ensures Count(s[k := v], p) + (if p(s[k]) then 1 else 0) == Count(s, p) + (if p(v) then 1 else 0)
  {
    var before := s[..k];
    var after := s[k + 1..];
    assert s == before + [s[k]] + after;
    assert s[k := v] == before + [v] + after;
    CountAppend(before + [s[k]], after, p);
    CountAppend(before, [s[k]], p);
    CountAppend(before + [v], after, p);
    CountAppend(before, [v], p);
    assert [s[k]][1..] == [] && [v][1..] == [];
  }

  /** At most one element of `s` satisfies `p`. */
  ghost predicate AtMostOne<T>(s: seq<T>, p: T -> bool) {
    forall i, j :: 0 <= i < j < |s| && p(s[i]) ==> !p(s[j])
  }

  lemma {:induction false} AtMostOneCount<T(!new)>(s: seq<T>, p: T -> bool)
    requires AtMostOne(s, p)
    ensures Count(s, p) <= 1
  {
    if s != [] {
      assert AtMostOne(s[1..], p) by {
        forall i, j | 0 <= i < j < |s[1..]| && p(s[1..][i])
          ensures !p(s[1..][j])
        {
          assert s[1..][i] == s[i + 1] && s[1..][j] == s[j + 1];
        }
      }
      AtMostOneCount(s[1..], p);
      if p(s[0]) {
        assert forall j :: 0 <= j < |s[1..]| ==> !p(s[1..][j]) by {
          forall j | 0 <= j < |s[1..]| ensures !p(s[1..][j]) {
            assert s[1..][j] == s[j + 1];
          }
        }
      }
    }
  }

  /** No value occurs twice. */
  ghost predicate NoDuplicates<T>(s: seq<T>) {
    forall i, j :: 0 <= i < j < |s| ==> s[i] != s[j]
  }

  /** Two positions holding the same value make it occur at least twice. */
  lemma TwoPositionsTwice<T>(s: seq<T>, i: int, j: int)
    requires 0 <= i < j < |s| && s[i] == s[j]
    ensures multiset(s)[s[i]] >= 2
  {
    assert s == s[..i] + [s[i]] + s[i + 1..j] + [s[j]] + s[j + 1..];
  }

  /** No two rows share a key: the shape of a table whose primary key is `key`. */
  ghost predicate UniqueKeys<T>(s: seq<T>, key: T -> int) {
    forall i, j :: 0 <= i < j < |s| ==> key(s[i]) != key(s[j])
  }

  /** In a table with unique keys every row occurs at most once. */
  lemma {:induction false} KeyedRowOccursOnce<T>(s: seq<T>, key: T -> int, x: T)
    requires UniqueKeys(s, key)
    ensures multiset(s)[x] <= 1
  {
    if s != [] {
      assert s == [s[0]] + s[1..];
      assert UniqueKeys(s[1..], key) by {
        forall i, j | 0 <= i < j < |s[1..]| ensures key(s[1..][i]) != key(s[1..][j]) {
          assert s[1..][i] == s[i + 1] && s[1..][j] == s[j + 1];
        }
      }
      KeyedRowOccursOnce(s[1..], key, x);
      if s[0] == x {
        forall k | 0 <= k < |s[1..]| ensures s[1..][k] != x {
          assert s[1..][k] == s[k + 1];
        }
      }
    }
  }

  /** In a table with unique keys, two different rows have different keys. */
  lemma DistinctRowsDistinctKeys<T>(s: seq<T>, key: T -> int, x: T, y: T)
    requires UniqueKeys(s, key)
    requires x in s && y in s && x != y
    ensures key(x) != key(y)
  {
    var a :| 0 <= a < |s| && s[a] == x;
    var b :| 0 <= b < |s| && s[b] == y;
    if a > b {
      assert key(s[b]) != key(s[a]);
    }
  }

  /** Rows drawn from a table with unique keys, each at most as often as there, have unique keys. */
  lemma UniqueKeysInSubMultiset<T>(s: seq<T>, q: seq<T>, key: T -> int)
    requires UniqueKeys(s, key)
    requires multiset(q) <= multiset(s)
    ensures UniqueKeys(q, key)
    ensures forall x :: x in q ==> x in s
  {
    forall i, j | 0 <= i < j < |q| ensures key(q[i]) != key(q[j]) {
      assert q[i] in multiset(s) && q[j] in multiset(s);
      if q[i] == q[j] {
        TwoPositionsTwice(q, i, j);
        KeyedRowOccursOnce(s, key, q[i]);
      } else {
        DistinctRowsDistinctKeys(s, key, q[i], q[j]);
      }
    }
    forall x | x in q ensures x in s {
      assert x in multiset(q);
    }
  }

  /**
   * `array_unique`: keeps the first occurrence of every value, in order.
   * `seen` are the values already kept by the caller.
   */
  function DistinctFrom<T(==,!new)>(s: seq<T>, seen: set<T>): (r: seq<T>)
    ensures NoDuplicates(r)
    ensures forall x :: x in r <==> x in s && x !in seen
  {
    if s == [] then []
    else if s[0] in seen then DistinctFrom(s[1..], seen)
    else [s[0]] + DistinctFrom(s[1..], seen + {s[0]})
  }

  function Distinct<T(==,!new)>(s: seq<T>): (r: seq<T>)
    ensures NoDuplicates(r)
    ensures forall x :: x in r <==> x in s
    ensures |r| <= |s|
  {
    DistinctLength(s, {});
    DistinctFrom(s, {})
  }

  lemma {:induction false} DistinctLength<T(!new)>(s: seq<T>, seen: set<T>)
    ensures |DistinctFrom(s, seen)| <= |s|
  {
    if s != [] {
      DistinctLength(s[1..], if s[0] in seen then seen else seen + {s[0]});
    }
  }

  /** A batch provider call: the entries of `directory` whose keys were asked for. */
  function Restrict<K(!new), V>(directory: map<K, V>, ids: set<K>): (m: map<K, V>)
    ensures forall k :: k in m <==> k in ids && k in directory
    ensures forall k :: k in m ==> m[k] == directory[k]
  {
    map k | k in ids && k in directory :: directory[k]
  }

  /** Rows of all inserted batches, in insertion order. */
  function Flatten<T>(batches: seq<seq<T>>): seq<T>
  {
    if batches == [] then [] else Flatten(batches[..|batches| - 1]) + batches[|batches| - 1]
  }

  lemma FlattenSnoc<T>(batches: seq<seq<T>>, b: seq<T>)
    ensures Flatten(batches + [b]) == Flatten(batches) + b
  {
    assert (batches + [b])[..|batches|] == batches;
  }
}
