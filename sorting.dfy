/**
 * The ordering and sorting the completion service gets from the Java library (List.sort,
 * Stream.sorted, Stream.limit), specified as an insertion sort by a caller-supplied order.
 */
module Sorting {

  ghost predicate TotalPreorder<T(!new)>(le: (T, T) -> bool) {
    (forall a, b :: le(a, b) || le(b, a)) &&
    (forall a, b, c :: le(a, b) && le(b, c) ==> le(a, c))
  }

  predicate SortedBy<T>(s: seq<T>, le: (T, T) -> bool) {
    forall i, j :: 0 <= i < j < |s| ==> le(s[i], s[j])
  }

  /** Inserts `x` before the first element it is not ordered after. */
  function InsertBy<T>(x: T, s: seq<T>, le: (T, T) -> bool): (r: seq<T>)
    ensures multiset(r) == multiset(s) + multiset{x}
    ensures |r| == |s| + 1
  {
    if s == [] then [x]
    else if le(x, s[0]) then [x] + s
    else
      assert s == [s[0]] + s[1..];
      [s[0]] + InsertBy(x, s[1..], le)
  }

  function SortBy<T>(s: seq<T>, le: (T, T) -> bool): (r: seq<T>)
    ensures multiset(r) == multiset(s)
    ensures |r| == |s|
  {
    if s == [] then []
    else
      assert s == [s[0]] + s[1..];
      InsertBy(s[0], SortBy(s[1..], le), le)
  }

  lemma {:induction false} InsertBySorted<T(!new)>(x: T, s: seq<T>, le: (T, T) -> bool)
    requires TotalPreorder(le)
    requires SortedBy(s, le)
    ensures SortedBy(InsertBy(x, s, le), le)
  {
    if s != [] && !le(x, s[0]) {
      InsertBySorted(x, s[1..], le);
      var r := InsertBy(x, s[1..], le);
      assert SortedBy(s[1..], le) by {
        forall i, j | 0 <= i < j < |s[1..]| ensures le(s[1..][i], s[1..][j]) {
          assert s[1..][i] == s[i + 1] && s[1..][j] == s[j + 1];
        }
      }
      forall k | 0 <= k < |r| ensures le(s[0], r[k]) {
        assert r[k] in multiset(r);
        if r[k] == x {
          assert le(x, s[0]) || le(s[0], x);
        } else {
          assert r[k] in multiset(s[1..]);
          var m :| 0 <= m < |s[1..]| && s[1..][m] == r[k];
          assert s[m + 1] == r[k];
        }
      }
      var t := [s[0]] + r;
      forall i, j | 0 <= i < j < |t| ensures le(t[i], t[j]) {
        if i == 0 {
          assert t[j] == r[j - 1];
        } else {
          assert t[i] == r[i - 1] && t[j] == r[j - 1];
        }
      }
    }
  }

  lemma {:induction false} SortBySorted<T(!new)>(s: seq<T>, le: (T, T) -> bool)
    requires TotalPreorder(le)
    ensures SortedBy(SortBy(s, le), le)
  {
    if s != [] {
      SortBySorted(s[1..], le);
      InsertBySorted(s[0], SortBy(s[1..], le), le);
    }
  }

  lemma SortedPrefix<T>(s: seq<T>, n: nat, le: (T, T) -> bool)
    requires SortedBy(s, le)
    ensures SortedBy(Take(s, n), le)
  {
  }

  /** Stream.limit(n). */
  function Take<T>(s: seq<T>, n: nat): (r: seq<T>)
    ensures |r| == if n < |s| then n else |s|
    ensures r <= s
  {
    if n < |s| then s[..n] else s
  }

  /** Stream.filter. */
  function Filter<T(!new)>(s: seq<T>, keep: T -> bool): (r: seq<T>)
    ensures |r| <= |s|
    ensures forall x :: x in r <==> x in s && keep(x)
  {
    if s == [] then []
    else if keep(s[0]) then [s[0]] + Filter(s[1..], keep)
    else Filter(s[1..], keep)
  }

  /** The elements of `s` that `le` ranks level with `k`, in their order in `s`. */
  function Level<T(!new)>(s: seq<T>, k: T, le: (T, T) -> bool): (r: seq<T>)
    ensures forall y :: y in r <==> y in s && le(k, y) && le(y, k)
  {
    if s == [] then []
    else (if le(k, s[0]) && le(s[0], k) then [s[0]] else []) + Level(s[1..], k, le)
  }

  /** Inserting keeps the elements level with any `k` in order, `x` first among them when it is one. */
  lemma {:induction false} InsertByStable<T(!new)>(x: T, s: seq<T>, k: T, le: (T, T) -> bool)
    requires TotalPreorder(le)
    ensures Level(InsertBy(x, s, le), k, le) ==
      if le(k, x) && le(x, k) then [x] + Level(s, k, le) else Level(s, k, le)
  {
    if s == [] {
    } else if le(x, s[0]) {
      assert ([x] + s)[1..] == s;
    } else {
      InsertByStable(x, s[1..], k, le);
      var t := [s[0]] + InsertBy(x, s[1..], le);
      assert t[1..] == InsertBy(x, s[1..], le);
      if le(k, x) && le(x, k) {
        assert !le(k, s[0]);
      }
    }
  }

  /** The sort is stable: elements ranked level keep their order. */
  lemma {:induction false} SortByStable<T(!new)>(s: seq<T>, k: T, le: (T, T) -> bool)
    requires TotalPreorder(le)
    ensures Level(SortBy(s, le), k, le) == Level(s, k, le)
  {
    if s != [] {
      SortByStable(s[1..], k, le);
      InsertByStable(s[0], SortBy(s[1..], le), k, le);
    }
  }
}
