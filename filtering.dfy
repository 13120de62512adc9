/** Order-preserving filtering, as a Python list comprehension
    `[x for x in s if keep(x)]` does it, and the positions it keeps. */
module Filtering {

  function Filter<T>(s: seq<T>, keep: T -> bool): (kept: seq<T>)
    ensures |kept| <= |s|
    ensures forall k :: 0 <= k < |kept| ==> kept[k] in s && keep(kept[k])
    ensures forall i :: 0 <= i < |s| && keep(s[i]) ==> s[i] in kept
  {
    if s == [] then []
    else Filter(s[..|s| - 1], keep) + (if keep(s[|s| - 1]) then [s[|s| - 1]] else [])
  }

  /** The positions of `s` whose element satisfies `keep`, in increasing order. */
  function KeptIndices<T>(s: seq<T>, keep: T -> bool): (idx: seq<int>)
    ensures forall k :: 0 <= k < |idx| ==> 0 <= idx[k] < |s| && keep(s[idx[k]])
    ensures forall k, l :: 0 <= k < l < |idx| ==> idx[k] < idx[l]
    ensures forall i :: 0 <= i < |s| && keep(s[i]) ==> i in idx
  {
    if s == [] then []
    else KeptIndices(s[..|s| - 1], keep) + (if keep(s[|s| - 1]) then [|s| - 1] else [])
  }

  lemma FilterSingleton<T>(x: T, keep: T -> bool)
    ensures Filter([x], keep) == if keep(x) then [x] else []
  {
    assert [x][..0] == [];
  }

  /** Filtering distributes over concatenation. */
  lemma {:induction false} FilterConcat<T>(a: seq<T>, b: seq<T>, keep: T -> bool)
    ensures Filter(a + b, keep) == Filter(a, keep) + Filter(b, keep)
  {
    if b == [] {
      assert a + b == a;
    } else {
      var b' := b[..|b| - 1];
      FilterConcat(a, b', keep);
      assert (a + b)[..|a + b| - 1] == a + b';
      assert (a + b)[|a + b| - 1] == b[|b| - 1];
    }
  }

  /** Filtering a list with `x` in front. */
  lemma FilterCons<T>(x: T, s: seq<T>, keep: T -> bool)
    ensures Filter([x] + s, keep) == (if keep(x) then [x] else []) + Filter(s, keep)
  {
    FilterConcat([x], s, keep);
    FilterSingleton(x, keep);
  }

  /** Kept positions are listed in order, so their ranks compare as they do. */
  lemma KeptIndicesRankOrder<T>(s: seq<T>, keep: T -> bool, k: int, l: int)
    requires 0 <= k < |KeptIndices(s, keep)| && 0 <= l < |KeptIndices(s, keep)|
    requires KeptIndices(s, keep)[l] < KeptIndices(s, keep)[k]
    ensures l < k
  {
  }

  /** The filter yields exactly the elements at the kept positions, in order. */
  lemma {:induction false} FilterSelectsKeptIndices<T>(s: seq<T>, keep: T -> bool)
    ensures |Filter(s, keep)| == |KeptIndices(s, keep)|
    ensures forall k :: 0 <= k < |Filter(s, keep)| ==> Filter(s, keep)[k] == s[KeptIndices(s, keep)[k]]
  {
    if s != [] {
      var n := |s|;
      var init := s[..n - 1];
      FilterSelectsKeptIndices(init, keep);
      var f, idx := Filter(init, keep), KeptIndices(init, keep);
      var last := if keep(s[n - 1]) then [s[n - 1]] else [];
      var lastIdx := if keep(s[n - 1]) then [n - 1] else [];
      assert Filter(s, keep) == f + last;
      assert KeptIndices(s, keep) == idx + lastIdx;
      forall k | 0 <= k < |Filter(s, keep)|
        ensures Filter(s, keep)[k] == s[KeptIndices(s, keep)[k]]
      {
        if k < |f| {
          assert Filter(s, keep)[k] == f[k] && KeptIndices(s, keep)[k] == idx[k];
          assert init[idx[k]] == s[idx[k]];
        } else {
          assert Filter(s, keep)[k] == s[n - 1] && KeptIndices(s, keep)[k] == n - 1;
        }
      }
    }
  }

  /** The number of positions of `s` that `keep` accepts. */
  function CountKept<T>(s: seq<T>, keep: T -> bool): nat {
    if s == [] then 0
    else CountKept(s[..|s| - 1], keep) + (if keep(s[|s| - 1]) then 1 else 0)
  }

  lemma {:induction false} FilterLengthIsCount<T>(s: seq<T>, keep: T -> bool)
    ensures |Filter(s, keep)| == CountKept(s, keep)
  {
    if s != [] {
      FilterLengthIsCount(s[..|s| - 1], keep);
    }
  }

  /** Where `b` keeps an element only at positions where `a` keeps one,
      `b` keeps no more positions than `a`. */
  lemma {:induction false} CountShrinks<T>(a: seq<T>, b: seq<T>, keep: T -> bool)
    requires |a| == |b|
    requires forall j :: 0 <= j < |a| && keep(b[j]) ==> keep(a[j])
    ensures CountKept(b, keep) <= CountKept(a, keep)
  {
    if a != [] {
      var n := |a|;
      var a', b' := a[..n - 1], b[..n - 1];
      assert forall j :: 0 <= j < n - 1 ==> a'[j] == a[j] && b'[j] == b[j];
      CountShrinks(a', b', keep);
    }
  }

  /** ... and strictly fewer when `a` keeps position `i` and `b` does not. */
  lemma {:induction false} CountShrinksStrictly<T>(a: seq<T>, b: seq<T>, keep: T -> bool, i: int)
    requires |a| == |b|
    requires forall j :: 0 <= j < |a| && keep(b[j]) ==> keep(a[j])
    requires 0 <= i < |a| && keep(a[i]) && !keep(b[i])
    ensures CountKept(b, keep) < CountKept(a, keep)
  {
    var n := |a|;
    var a', b' := a[..n - 1], b[..n - 1];
    assert forall j :: 0 <= j < n - 1 ==> a'[j] == a[j] && b'[j] == b[j];
    if i == n - 1 {
      CountShrinks(a', b', keep);
    } else {
      CountShrinksStrictly(a', b', keep, i);
    }
  }

  /** The filter of `b` is then strictly shorter than that of `a`. */
  lemma FilterShrinksStrictly<T>(a: seq<T>, b: seq<T>, keep: T -> bool, i: int)
    requires |a| == |b|
    requires forall j :: 0 <= j < |a| && keep(b[j]) ==> keep(a[j])
    requires 0 <= i < |a| && keep(a[i]) && !keep(b[i])
    ensures |Filter(b, keep)| < |Filter(a, keep)|
  {
    CountShrinksStrictly(a, b, keep, i);
    FilterLengthIsCount(a, keep);
    FilterLengthIsCount(b, keep);
  }
}
