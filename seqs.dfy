/**
 * Sequence operations shared by the model: a list comprehension with an `if`
 * (Filter), the positions it keeps (Positions), the first position that
 * satisfies a test (FirstIndex), `del xs[i]` (RemoveAt) and the nested
 * comprehension `[y for v in vs for y in v]` (Flatten).
 */
module Seqs {
  import opened Options

  ghost predicate Increasing(idx: seq<nat>)
  {
    forall i, j :: 0 <= i < j < |idx| ==> idx[i] < idx[j]
  }

  /** `[x for x in s if p(x)]`: the elements of `s` that pass `p`, in order. */
  function Filter<T(!new)>(p: T -> bool, s: seq<T>): (r: seq<T>)
    ensures |r| <= |s|
    ensures forall x :: x in r <==> x in s && p(x)
  {
    if s == [] then []
    else
      var init := s[..|s| - 1];
      assert s == init + [s[|s| - 1]];
      Filter(p, init) + (if p(s[|s| - 1]) then [s[|s| - 1]] else [])
  }

  /** The indices of the elements of `s` that pass `p`, in increasing order. */
  function Positions<T>(p: T -> bool, s: seq<T>): (idx: seq<nat>)
    ensures Increasing(idx)
    ensures forall k :: 0 <= k < |idx| ==> idx[k] < |s| && p(s[idx[k]])
    ensures forall i :: 0 <= i < |s| && p(s[i]) ==> i in idx
  {
    if s == [] then []
    else
      var init := s[..|s| - 1];
      assert forall i :: 0 <= i < |init| ==> init[i] == s[i];
      Positions(p, init) + (if p(s[|s| - 1]) then [|s| - 1] else [])
  }

  /**
   * Filter keeps its elements in their original order: the k-th element kept
   * is the element of `s` at the k-th position that passes `p`.
   */
  lemma {:induction false} FilterAtPositions<T(!new)>(p: T -> bool, s: seq<T>)
    ensures |Filter(p, s)| == |Positions(p, s)|
    ensures forall k :: 0 <= k < |Filter(p, s)| ==> Filter(p, s)[k] == s[Positions(p, s)[k]]
  {
    if s != [] {
      var init, last := s[..|s| - 1], s[|s| - 1];
      FilterAtPositions(p, init);
      var f, idx := Filter(p, init), Positions(p, init);
      assert Filter(p, s) == f + (if p(last) then [last] else []);
      assert Positions(p, s) == idx + (if p(last) then [|s| - 1] else []);
      forall k | 0 <= k < |Filter(p, s)|
        ensures Filter(p, s)[k] == s[Positions(p, s)[k]]
      {
        if k < |f| {
          assert f[k] == init[idx[k]] == s[idx[k]];
        }
      }
    }
  }

  /** A filter that keeps everything is the identity. */
  lemma {:induction false} FilterAll<T(!new)>(p: T -> bool, s: seq<T>)
    requires forall x :: x in s ==> p(x)
    ensures Filter(p, s) == s
  {
    if s != [] {
      var init := s[..|s| - 1];
      assert s == init + [s[|s| - 1]];
      FilterAll(p, init);
    }
  }

  /** Filtering a concatenation filters each part. */
  lemma {:induction false} FilterAppend<T(!new)>(p: T -> bool, a: seq<T>, b: seq<T>)
    ensures Filter(p, a + b) == Filter(p, a) + Filter(p, b)
  {
    if b != [] {
      var init := b[..|b| - 1];
      assert (a + b)[..|a + b| - 1] == a + init;
      FilterAppend(p, a, init);
    } else {
      assert a + b == a;
    }
  }

  /** An element that fails `p` leaves no trace in the filtered sequence. */
  lemma FilterDrops<T(!new)>(p: T -> bool, a: seq<T>, x: T, b: seq<T>)
    requires !p(x)
    ensures Filter(p, a + [x] + b) == Filter(p, a) + Filter(p, b)
  {
    var ax := a + [x];
    FilterAppend(p, ax, b);
    FilterAppend(p, a, [x]);
    FilterOneDropped(p, x);
  }

  lemma FilterOneDropped<T(!new)>(p: T -> bool, x: T)
    requires !p(x)
    ensures Filter(p, [x]) == []
  {
    assert [x][..0] == [];
  }

  /**
   * The first index whose element passes `p` (Python's "first element of a
   * filtering list comprehension"), or None when no element passes.
   */
  function FirstIndex<T>(p: T -> bool, s: seq<T>): (r: Option<nat>)
    ensures r.Some? ==> r.value < |s| && p(s[r.value])
    ensures r.Some? ==> forall j :: 0 <= j < r.value ==> !p(s[j])
    ensures r.None? <==> forall j :: 0 <= j < |s| ==> !p(s[j])
  {
    if s == [] then None
    else if p(s[0]) then Some(0)
    else match FirstIndex(p, s[1..])
      case None =>
        assert forall j :: 1 <= j < |s| ==> s[j] == s[1..][j - 1];
        None
      case Some(i) =>
        assert forall j :: 1 <= j <= i ==> s[j] == s[1..][j - 1];
        Some(i + 1)
  }

  /** `del s[i]`: the element at `i` is gone, everything else keeps its order. */
  function RemoveAt<T>(s: seq<T>, i: nat): (r: seq<T>)
    requires i < |s|
    ensures |r| == |s| - 1
    ensures forall k :: 0 <= k < i ==> r[k] == s[k]
    ensures forall k :: i <= k < |r| ==> r[k] == s[k + 1]
    ensures multiset(r) == multiset(s) - multiset{s[i]}
  {
    assert s == s[..i] + [s[i]] + s[i + 1..];
    s[..i] + s[i + 1..]
  }

  /** `[y for v in vs for y in v]`. */
  function Flatten<T(!new)>(vs: seq<seq<T>>): (r: seq<T>)
    ensures forall y :: y in r <==> exists v :: v in vs && y in v
  {
    if vs == [] then []
    else
      assert forall v :: v in vs <==> v == vs[0] || v in vs[1..];
      vs[0] + Flatten(vs[1..])
  }
}
