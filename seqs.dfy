/** Small datatypes and sequence helpers shared by the spike engine. */
module Wrappers {
  datatype Option<+T> = None | Some(value: T)

  datatype Result<+R, +E> = Success(value: R) | Failure(error: E)
}

/**
 * Sequence vocabulary of the engine: order-preserving filters (the boolean masks
 * of the source), shifts (subtracting a reference time from every element),
 * concatenation of lists of lists, and `CountBelow`, which is what numpy's
 * `searchsorted(x, side='left')` returns on a sorted array.
 */
module Seqs {

  /** Non-decreasing sequence of integers (spike times as recorded). */
  predicate Sorted(s: seq<int>)
  {
    forall i, j :: 0 <= i < j < |s| ==> s[i] <= s[j]
  }

  /** No value occurs twice. */
  predicate Distinct(s: seq<int>)
  {
    forall i, j :: 0 <= i < j < |s| ==> s[i] != s[j]
  }

  /** The elements of `s` that satisfy `p`, in their original order. */
  function Filter<T>(s: seq<T>, p: T -> bool): (r: seq<T>)
    ensures |r| <= |s|
  {
    if s == [] then []
    else (if p(s[0]) then [s[0]] else []) + Filter(s[1..], p)
  }

  /** The filtered sequence holds exactly the elements of `s` that satisfy `p`. */
  lemma {:induction false} FilterMembers<T>(s: seq<T>, p: T -> bool)
    ensures forall i :: 0 <= i < |Filter(s, p)| ==> Filter(s, p)[i] in s && p(Filter(s, p)[i])
    ensures forall i :: 0 <= i < |s| && p(s[i]) ==> s[i] in Filter(s, p)
  {
    if s != [] {
      FilterMembers(s[1..], p);
      var r, t := Filter(s, p), Filter(s[1..], p);
      assert r == (if p(s[0]) then [s[0]] else []) + t;
      forall i | 0 <= i < |s| && p(s[i]) ensures s[i] in r {
        if i > 0 {
          assert s[i] == s[1..][i - 1];
        }
      }
    }
  }

  /** Every element of `s` minus `d`. */
  function Shift(s: seq<int>, d: int): seq<int>
  {
    seq(|s|, i requires 0 <= i < |s| => s[i] - d)
  }

  /** The lists of `ss`, concatenated in order. */
  function Flatten(ss: seq<seq<int>>): seq<int>
  {
    if ss == [] then [] else Flatten(ss[..|ss| - 1]) + ss[|ss| - 1]
  }

  /** Number of elements of `s` strictly below `x`. */
  function CountBelow(s: seq<int>, x: int): nat
  {
    |Filter(s, t => t < x)|
  }

  /** The elements of `s` in the half-open interval `[lo, hi)`, in order. */
  function InHalfOpen(s: seq<int>, lo: int, hi: int): seq<int>
  {
    Filter(s, t => lo <= t < hi)
  }

  /** The elements of `s` in the closed interval `[lo, hi]`, in order. */
  function InClosed(s: seq<int>, lo: int, hi: int): seq<int>
  {
    Filter(s, t => lo <= t <= hi)
  }

  // ---------------------------------------------------------------------
  // Filter

  lemma {:induction false} FilterAppend<T>(a: seq<T>, b: seq<T>, p: T -> bool)
    ensures Filter(a + b, p) == Filter(a, p) + Filter(b, p)
  {
    if a == [] {
      assert a + b == b;
    } else {
      var head := if p(a[0]) then [a[0]] else [];
      calc {
        Filter(a + b, p);
      == { assert (a + b)[0] == a[0] && (a + b)[1..] == a[1..] + b; }
        head + Filter(a[1..] + b, p);
      == { FilterAppend(a[1..], b, p); }
        head + (Filter(a[1..], p) + Filter(b, p));
      ==
        (head + Filter(a[1..], p)) + Filter(b, p);
      }
    }
  }

  /** Filtering a prefix one element longer adds at most that element. */
  lemma FilterSnoc<T>(s: seq<T>, i: nat, p: T -> bool)
    requires i < |s|
    ensures Filter(s[..i + 1], p) == Filter(s[..i], p) + (if p(s[i]) then [s[i]] else [])
  {
    assert s[..i + 1] == s[..i] + [s[i]];
    FilterAppend(s[..i], [s[i]], p);
    assert [s[i]][1..] == [];
  }

  /** Two predicates that agree on the elements of `s` filter `s` alike. */
  lemma {:induction false} FilterExt<T>(s: seq<T>, p: T -> bool, q: T -> bool)
    requires forall i :: 0 <= i < |s| ==> p(s[i]) == q(s[i])
    ensures Filter(s, p) == Filter(s, q)
  {
    if s != [] {
      assert forall i :: 0 <= i < |s| - 1 ==> s[1..][i] == s[i + 1];
      FilterExt(s[1..], p, q);
    }
  }

  /** Filtering twice is filtering once by the conjunction. */
  lemma {:induction false} FilterFilter<T>(s: seq<T>, p: T -> bool, q: T -> bool, pq: T -> bool)
    requires forall x :: pq(x) == (p(x) && q(x))
    ensures Filter(Filter(s, p), q) == Filter(s, pq)
  {
    if s != [] {
      var ft := Filter(s[1..], p);
      FilterFilter(s[1..], p, q, pq);
      if p(s[0]) {
        assert Filter(s, p) == [s[0]] + ft;
        FilterAppend([s[0]], ft, q);
        assert [s[0]][1..] == [];
      } else {
        assert Filter(s, p) == ft;
      }
    }
  }

  /** Splitting a predicate into two disjoint ones splits the filtered multiset. */
  lemma {:induction false} FilterDisjointUnion<T>(s: seq<T>, p: T -> bool, q: T -> bool, pq: T -> bool)
    requires forall x :: pq(x) == (p(x) || q(x))
    requires forall x :: !(p(x) && q(x))
    ensures multiset(Filter(s, pq)) == multiset(Filter(s, p)) + multiset(Filter(s, q))
  {
    if s != [] {
      FilterDisjointUnion(s[1..], p, q, pq);
    }
  }

  /** Any relation that holds between earlier and later elements of `s` still does after filtering. */
  lemma {:induction false} FilterKeepsOrder<T>(s: seq<T>, p: T -> bool, before: (T, T) -> bool)
    requires forall i, j :: 0 <= i < j < |s| ==> before(s[i], s[j])
    ensures forall i, j :: 0 <= i < j < |Filter(s, p)| ==> before(Filter(s, p)[i], Filter(s, p)[j])
  {
    if s != [] {
      var tail := s[1..];
      forall i, j | 0 <= i < j < |tail| ensures before(tail[i], tail[j]) {
        assert tail[i] == s[i + 1] && tail[j] == s[j + 1];
      }
      FilterKeepsOrder(tail, p, before);
      var ft := Filter(tail, p);
      if p(s[0]) {
        var r := Filter(s, p);
        assert r == [s[0]] + ft;
        forall i, j | 0 <= i < j < |r| ensures before(r[i], r[j]) {
          if i == 0 {
            assert r[j] == ft[j - 1];
            assert ft[j - 1] in tail by { FilterMembers(tail, p); }
            var m :| 0 <= m < |tail| && tail[m] == ft[j - 1];
            assert before(s[0], s[m + 1]);
          } else {
            assert r[i] == ft[i - 1] && r[j] == ft[j - 1];
          }
        }
      } else {
        assert Filter(s, p) == ft;
      }
    }
  }

  lemma SortedSlice(s: seq<int>, a: nat, b: nat)
    requires Sorted(s)
    requires a <= b <= |s|
    ensures Sorted(s[a..b])
  {
    forall i, j | 0 <= i < j < b - a ensures s[a..b][i] <= s[a..b][j] {
      assert s[a..b][i] == s[a + i] && s[a..b][j] == s[a + j];
    }
  }

  lemma SortedShift(s: seq<int>, d: int)
    requires Sorted(s)
    ensures Sorted(Shift(s, d))
  {
  }

  // ---------------------------------------------------------------------
  // CountBelow: the left insertion point of a sorted array

  lemma CountBelowCons(s: seq<int>, x: int)
    requires s != []
    ensures CountBelow(s, x) == (if s[0] < x then 1 else 0) + CountBelow(s[1..], x)
  {
  }

  /**
   * Any index `i` that separates the elements below `x` from the others is the
   * number of elements below `x`; the sequence need not be sorted for this.
   */
  lemma {:induction false} CountBelowAt(s: seq<int>, x: int, i: nat)
    requires i <= |s|
    requires forall j :: 0 <= j < i ==> s[j] < x
    requires forall j :: i <= j < |s| ==> x <= s[j]
    ensures CountBelow(s, x) == i
  {
    if s != [] {
      CountBelowCons(s, x);
      if i == 0 {
        CountBelowAt(s[1..], x, 0);
      } else {
        CountBelowAt(s[1..], x, i - 1);
      }
    }
  }

  /** On a sorted sequence, `CountBelow(s, x)` is the left insertion point of `x`. */
  lemma {:induction false} CountBelowSplits(s: seq<int>, x: int)
    requires Sorted(s)
    ensures CountBelow(s, x) <= |s|
    ensures forall j :: 0 <= j < CountBelow(s, x) ==> s[j] < x
    ensures forall j :: CountBelow(s, x) <= j < |s| ==> x <= s[j]
  {
    if s != [] {
      CountBelowCons(s, x);
      CountBelowSplits(s[1..], x);
      if x <= s[0] {
        assert CountBelow(s[1..], x) == 0 by {
          CountBelowAt(s[1..], x, 0);
        }
      }
    }
  }

  /** A larger key has at least as many elements below it. */
  lemma {:induction false} CountBelowMonotone(s: seq<int>, x: int, y: int)
    requires x <= y
    ensures CountBelow(s, x) <= CountBelow(s, y)
  {
    if s != [] {
      CountBelowCons(s, x);
      CountBelowCons(s, y);
      CountBelowMonotone(s[1..], x, y);
    }
  }

  /**
   * On a sorted sequence the spikes in `[lo, hi)` are the slice between the two
   * left insertion points: this is why two `searchsorted` calls count a bin.
   */
  lemma {:induction false} HalfOpenIsSlice(s: seq<int>, lo: int, hi: int)
    requires Sorted(s)
    requires lo <= hi
    ensures CountBelow(s, lo) <= CountBelow(s, hi)
    ensures InHalfOpen(s, lo, hi) == s[CountBelow(s, lo)..CountBelow(s, hi)]
  {
    CountBelowMonotone(s, lo, hi);
    CountBelowSplits(s, lo);
    CountBelowSplits(s, hi);
    FilterRun(s, t => lo <= t < hi, CountBelow(s, lo), CountBelow(s, hi));
  }

  lemma {:induction false} FilterNone<T>(s: seq<T>, p: T -> bool)
    requires forall j :: 0 <= j < |s| ==> !p(s[j])
    ensures Filter(s, p) == []
  {
    if s != [] {
      FilterNone(s[1..], p);
    }
  }

  lemma {:induction false} FilterAll<T>(s: seq<T>, p: T -> bool)
    requires forall j :: 0 <= j < |s| ==> p(s[j])
    ensures Filter(s, p) == s
  {
    if s != [] {
      FilterAll(s[1..], p);
    }
  }

  /** When `p` holds exactly on the index range `[a, b)`, filtering by `p` is slicing. */
  lemma {:induction false} FilterRun<T>(s: seq<T>, p: T -> bool, a: nat, b: nat)
    requires a <= b <= |s|
    requires forall j :: 0 <= j < a ==> !p(s[j])
    requires forall j :: a <= j < b ==> p(s[j])
    requires forall j :: b <= j < |s| ==> !p(s[j])
    ensures Filter(s, p) == s[a..b]
  {
    var x, y, z := s[..a], s[a..b], s[b..];
    assert s == x + y + z;
    assert forall j :: 0 <= j < |x| ==> x[j] == s[j];
    assert forall j :: 0 <= j < |y| ==> y[j] == s[a + j];
    assert forall j :: 0 <= j < |z| ==> z[j] == s[b + j];
    FilterNone(x, p);
    FilterAll(y, p);
    FilterNone(z, p);
    FilterAppend(x + y, z, p);
    FilterAppend(x, y, p);
  }

  /** The closed interval `[lo, hi]` of a sorted sequence is the slice up to the insertion point of `hi + 1`. */
  lemma ClosedIsSlice(s: seq<int>, lo: int, hi: int)
    requires Sorted(s)
    requires lo <= hi + 1
    ensures CountBelow(s, lo) <= CountBelow(s, hi + 1)
    ensures InClosed(s, lo, hi) == s[CountBelow(s, lo)..CountBelow(s, hi + 1)]
  {
    FilterExt(s, t => lo <= t <= hi, t => lo <= t < hi + 1);
    HalfOpenIsSlice(s, lo, hi + 1);
  }

  // ---------------------------------------------------------------------
  // Flatten

  lemma FlattenSnoc(ss: seq<seq<int>>, t: seq<int>)
    ensures Flatten(ss + [t]) == Flatten(ss) + t
  {
    assert (ss + [t])[..|ss|] == ss;
  }

  /** An element of the concatenation comes from one of the lists, and every list element is in it. */
  lemma {:induction false} FlattenMembers(ss: seq<seq<int>>, x: int)
    ensures x in Flatten(ss) <==> exists k :: 0 <= k < |ss| && x in ss[k]
  {
    if ss != [] {
      var init := ss[..|ss| - 1];
      FlattenMembers(init, x);
      if x in Flatten(ss) {
        if x !in ss[|ss| - 1] {
          var k :| 0 <= k < |init| && x in init[k];
          assert ss[k] == init[k];
        }
      } else {
        forall k | 0 <= k < |ss| ensures x !in ss[k] {
          if k < |ss| - 1 {
            assert ss[k] == init[k];
          }
        }
      }
    }
  }

  lemma {:induction false} FlattenAllEmpty(ss: seq<seq<int>>)
    requires forall k :: 0 <= k < |ss| ==> ss[k] == []
    ensures Flatten(ss) == []
  {
    if ss != [] {
      FlattenAllEmpty(ss[..|ss| - 1]);
    }
  }
}
