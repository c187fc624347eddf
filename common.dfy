/** Small value types and sequence helpers shared by the view models. */
module Common {

  datatype Option<T> = None | Some(value: T)

  /** The elements of `s` whose flag in `keep` is set. */
  ghost function Kept<T>(s: seq<T>, keep: seq<bool>): set<T>
    requires |keep| >= |s|
  {
    set i | 0 <= i < |s| && keep[i] :: s[i]
  }

  /** The number of set flags in `flags`. */
  function CountTrue(flags: seq<bool>): nat
    decreases |flags|
  {
    if flags == [] then 0
    else CountTrue(flags[..|flags| - 1]) + (if flags[|flags| - 1] then 1 else 0)
  }

  /** The elements of `s` whose flag in `keep` is true, in their original order:
      the list comprehension `[v for x, v in enumerate(s) if keep[x]]`.
      `keep` may be longer than `s`; a shorter one would raise an IndexError. */
  function KeepWhere<T>(s: seq<T>, keep: seq<bool>): (r: seq<T>)
    requires |keep| >= |s|
    ensures |r| <= |s|
    ensures forall i :: 0 <= i < |s| && keep[i] ==> s[i] in r
    ensures forall k :: 0 <= k < |r| ==> r[k] in Kept(s, keep)
    decreases |s|
  {
    if s == [] then []
    else
      var init := s[..|s| - 1];
      assert forall i :: 0 <= i < |init| ==> init[i] == s[i];
      assert Kept(init, keep) <= Kept(s, keep);
      assert keep[|s| - 1] ==> s[|s| - 1] in Kept(s, keep);
      KeepWhere(init, keep) + (if keep[|s| - 1] then [s[|s| - 1]] else [])
  }

  /** The filter keeps exactly as many elements as there are set flags, so
      each kept element appears once per set flag. */
  lemma {:induction false} KeepWhereLength<T>(s: seq<T>, keep: seq<bool>)
    requires |keep| >= |s|
    ensures |KeepWhere(s, keep)| == CountTrue(keep[..|s|])
    decreases |s|
  {
    if s != [] {
      KeepWhereLength(s[..|s| - 1], keep);
      assert keep[..|s|][..|s| - 1] == keep[..|s| - 1];
    }
  }

  /** Filtering distributes over concatenation: the kept elements of `a + b` are
      the kept elements of `a` followed by those of `b`, so the filter never
      reorders what it keeps. */
  lemma {:induction false} KeepWhereAppend<T>(a: seq<T>, ka: seq<bool>, b: seq<T>, kb: seq<bool>)
    requires |ka| == |a| && |kb| >= |b|
    ensures KeepWhere(a + b, ka + kb) == KeepWhere(a, ka) + KeepWhere(b, kb)
    decreases |b|
  {
    if b == [] {
      assert a + b == a;
      KeepWhereFlagsDrop(a, ka + kb, ka);
    } else {
      var b' := b[..|b| - 1];
      assert (a + b)[..|a + b| - 1] == a + b';
      KeepWhereAppend(a, ka, b', kb);
      assert (ka + kb)[|a + b| - 1] == kb[|b| - 1];
      assert (a + b)[|a + b| - 1] == b[|b| - 1];
    }
  }

  /** Two flag lists that agree on the first |s| positions filter `s` alike. */
  lemma {:induction false} KeepWhereFlagsDrop<T>(s: seq<T>, k1: seq<bool>, k2: seq<bool>)
    requires |k1| >= |s| && |k2| >= |s|
    requires forall i :: 0 <= i < |s| ==> k1[i] == k2[i]
    ensures KeepWhere(s, k1) == KeepWhere(s, k2)
    decreases |s|
  {
    if s != [] {
      KeepWhereFlagsDrop(s[..|s| - 1], k1, k2);
    }
  }
}
