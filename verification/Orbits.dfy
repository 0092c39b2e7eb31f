/** Counting and repetition: what happens when one function is applied over and over. */
module Orbits {
  import opened Prelude

  function Iterate<T>(f: T -> T, x: T, n: nat): T {
    if n == 0 then x else f(Iterate(f, x, n - 1))
  }

  lemma {:induction false} SameAfter<T>(f: T -> T, x: T, i: nat, j: nat, n: nat)
    requires Iterate(f, x, i) == Iterate(f, x, j)
    ensures Iterate(f, x, i + n) == Iterate(f, x, j + n)
  {
    if n > 0 {
      SameAfter(f, x, i, j, n - 1);
    }
  }

  /** An orbit that repeats a value has no others than those before the repetition. */
  lemma {:induction false} OrbitStays<T>(f: T -> T, x: T, i: nat, j: nat, n: nat) returns (m: nat)
    requires i < j && Iterate(f, x, i) == Iterate(f, x, j)
    ensures m <= j && Iterate(f, x, m) == Iterate(f, x, n)
    decreases n
  {
    if n <= j {
      m := n;
    } else {
      var more: nat := n - j;
      SameAfter(f, x, i, j, more);
      m := OrbitStays(f, x, i, j, i + more);
    }
  }

  function Range(lo: int, hi: int): (r: set<int>)
    ensures forall x :: x in r <==> lo <= x < hi
    decreases hi - lo
  {
    if lo >= hi then {} else Range(lo, hi - 1) + {hi - 1}
  }

  lemma {:induction false} RangeSize(lo: int, hi: int)
    requires lo <= hi
    ensures |Range(lo, hi)| == hi - lo
    decreases hi - lo
  {
    if lo < hi {
      RangeSize(lo, hi - 1);
    }
  }

  lemma {:induction false} DistinctSize(s: seq<int>)
    requires forall i, j :: 0 <= i < j < |s| ==> s[i] != s[j]
    ensures |set x | x in s| == |s|
  {
    if s != [] {
      var n := |s| - 1;
      DistinctSize(s[..n]);
      assert s == s[..n] + [s[n]];
      assert (set x | x in s) == (set x | x in s[..n]) + {s[n]};
    }
  }

  /** More entries than values: two are equal. */
  lemma Pigeonhole(s: seq<int>, lo: int, hi: int) returns (i: nat, j: nat)
    requires lo <= hi && |s| > hi - lo && forall k :: 0 <= k < |s| ==> lo <= s[k] < hi
    ensures i < j < |s| && s[i] == s[j]
  {
    if forall i, j :: 0 <= i < j < |s| ==> s[i] != s[j] {
      DistinctSize(s);
      RangeSize(lo, hi);
      SubsetCount((set x | x in s), Range(lo, hi));
    }
    i, j :| 0 <= i < j < |s| && s[i] == s[j];
  }
}
