/**
 * Sorting and filtering of the lists the registry and the queries hand out:
 * `Collections.sort` and `Stream.sorted` are stable sorts under a comparator, and
 * `Stream.filter` keeps the matching elements in order.
 */
module Sorting {

  /** The comparator's `<= 0` relation: total and transitive. */
  ghost predicate TotalPreorder<T(!new)>(leq: (T, T) -> bool) {
    && (forall x, y :: leq(x, y) || leq(y, x))
    && (forall x, y, z :: leq(x, y) && leq(y, z) ==> leq(x, z))
  }

  ghost predicate Sorted<T>(s: seq<T>, leq: (T, T) -> bool) {
    forall i, j :: 0 <= i < j < |s| ==> leq(s[i], s[j])
  }

  /** Inserts `x` before the first element it does not follow. */
  function Insert<T(!new)>(x: T, s: seq<T>, leq: (T, T) -> bool): (r: seq<T>)
    requires TotalPreorder(leq) && Sorted(s, leq)
    ensures Sorted(r, leq)
    ensures multiset(r) == multiset(s) + multiset{x}
  {
    if |s| == 0 || leq(x, s[0]) then
      [x] + s
    else
      var t := Insert(x, s[1..], leq);
      assert s == [s[0]] + s[1..];
      assert forall j :: 0 <= j < |t| ==> leq(s[0], t[j]) by {
        forall j | 0 <= j < |t| ensures leq(s[0], t[j]) {
          assert t[j] in multiset(t);
          if t[j] != x {
            assert t[j] in multiset(s[1..]);
            var k :| 0 <= k < |s[1..]| && s[1..][k] == t[j];
            assert s[k + 1] == t[j];
          }
        }
      }
      [s[0]] + t
  }

  /** A stable insertion sort. */
  function Sort<T(!new)>(s: seq<T>, leq: (T, T) -> bool): (r: seq<T>)
    requires TotalPreorder(leq)
    ensures Sorted(r, leq)
    ensures multiset(r) == multiset(s)
  {
    if |s| == 0 then []
    else
      assert s == [s[0]] + s[1..];
      Insert(s[0], Sort(s[1..], leq), leq)
  }

  /** Sorting a list that is already in order leaves it exactly as it was. */
  lemma {:induction false} SortOfSorted<T(!new)>(s: seq<T>, leq: (T, T) -> bool)
    requires TotalPreorder(leq) && Sorted(s, leq)
    ensures Sort(s, leq) == s
  {
    if |s| > 0 {
      SortOfSorted(s[1..], leq);
      assert s == [s[0]] + s[1..];
    }
  }

  /**
   * Inserting `x` adds it to the elements `keep` selects ahead of them when it is selected
   * itself, provided the selected elements all compare equal.
   */
  lemma {:induction false} InsertFilter<T(!new)>(x: T, t: seq<T>, leq: (T, T) -> bool, keep: T -> bool)
    requires TotalPreorder(leq) && Sorted(t, leq)
    requires forall y, z :: keep(y) && keep(z) ==> leq(y, z)
    ensures Filter(Insert(x, t, leq), keep) == (if keep(x) then [x] else []) + Filter(t, keep)
    decreases |t|
  {
    if |t| == 0 || leq(x, t[0]) {
      assert Insert(x, t, leq) == [x] + t;
      FilterCons(x, t, keep);
    } else {
      assert t == [t[0]] + t[1..];
      SortedTail(t, leq);
      InsertFilter(x, t[1..], leq, keep);
      var rest := Insert(x, t[1..], leq);
      assert Insert(x, t, leq) == [t[0]] + rest;
      FilterCons(t[0], rest, keep);
      FilterCons(t[0], t[1..], keep);
      var kx: seq<T> := if keep(x) then [x] else [];
      var kt: seq<T> := if keep(t[0]) then [t[0]] else [];
      var tail := Filter(t[1..], keep);
      assert Filter(Insert(x, t, leq), keep) == kt + (kx + tail);
      assert Filter(t, keep) == kt + tail;
      assert !(keep(x) && keep(t[0]));
      SwapEmpty(kt, kx, tail);
    }
  }

  /** Two lists of which one is empty can be concatenated in either order. */
  lemma SwapEmpty<T>(a: seq<T>, b: seq<T>, c: seq<T>)
    requires a == [] || b == []
    ensures a + (b + c) == b + (a + c)
  {
    if a == [] {
      assert a + (b + c) == b + c && a + c == c;
    } else {
      assert b + c == c && b + (a + c) == a + c;
    }
  }

  /** Filtering a list with a given head: the head, if kept, then the filtered tail. */
  lemma FilterCons<T(!new)>(x: T, t: seq<T>, keep: T -> bool)
    ensures Filter([x] + t, keep) == (if keep(x) then [x] else []) + Filter(t, keep)
  {
    assert ([x] + t)[0] == x && ([x] + t)[1..] == t;
  }

  /**
   * Stability: the elements of any group that compare equal come out of the sort in the
   * order they went in.
   */
  lemma {:induction false} SortStable<T(!new)>(s: seq<T>, leq: (T, T) -> bool, keep: T -> bool)
    requires TotalPreorder(leq)
    requires forall y, z :: keep(y) && keep(z) ==> leq(y, z)
    ensures Filter(Sort(s, leq), keep) == Filter(s, keep)
  {
    if |s| > 0 {
      assert s == [s[0]] + s[1..];
      SortStable(s[1..], leq, keep);
      InsertFilter(s[0], Sort(s[1..], leq), leq, keep);
    }
  }

  /** `Stream.filter`: the elements satisfying `keep`, in their original order. */
  function Filter<T(!new)>(s: seq<T>, keep: T -> bool): (r: seq<T>)
    ensures forall x :: x in r <==> x in s && keep(x)
    ensures forall x :: multiset(r)[x] == if keep(x) then multiset(s)[x] else 0
    ensures |r| <= |s|
  {
    if |s| == 0 then []
    else
      assert s == [s[0]] + s[1..];
      (if keep(s[0]) then [s[0]] else []) + Filter(s[1..], keep)
  }

  /** The tail of a sorted list is sorted. */
  lemma SortedTail<T>(s: seq<T>, leq: (T, T) -> bool)
    requires |s| > 0 && Sorted(s, leq)
    ensures Sorted(s[1..], leq)
  {
    forall i, j | 0 <= i < j < |s[1..]| ensures leq(s[1..][i], s[1..][j]) {
      assert s[1..][i] == s[i + 1] && s[1..][j] == s[j + 1];
    }
  }

  /** A sorted list stays sorted behind an element that comes before all of it. */
  lemma SortedCons<T>(x: T, t: seq<T>, leq: (T, T) -> bool)
    requires Sorted(t, leq) && forall y :: y in t ==> leq(x, y)
    ensures Sorted([x] + t, leq)
  {
    var r := [x] + t;
    forall a, b | 0 <= a < b < |r| ensures leq(r[a], r[b]) {
      assert r[b] == t[b - 1];
      if a > 0 { assert r[a] == t[a - 1]; }
    }
  }

  /** Filtering keeps a sorted list sorted. */
  lemma {:induction false} FilterSorted<T(!new)>(s: seq<T>, keep: T -> bool, leq: (T, T) -> bool)
    requires Sorted(s, leq)
    ensures Sorted(Filter(s, keep), leq)
  {
    if |s| > 0 {
      SortedTail(s, leq);
      FilterSorted(s[1..], keep, leq);
      var t := Filter(s[1..], keep);
      if keep(s[0]) {
        forall y | y in t ensures leq(s[0], y) {
          var k :| 0 <= k < |s[1..]| && s[1..][k] == y;
          assert s[k + 1] == y;
        }
        SortedCons(s[0], t, leq);
      }
    }
  }
}
