/** Version vectors: the only cross-machine ordering authority. */
module Vectors {

  /** Installation fingerprint to change counter; a missing key counts as zero. */
  type Vector = map<string, nat>

  datatype Comparison = Equal | Greater | Lesser | Concurrent

  function At(v: Vector, f: string): nat {
    if f in v then v[f] else 0
  }

  /** Every counter of `l` is at most the counter of `r`. */
  predicate Leq(l: Vector, r: Vector) {
    forall f | f in l :: l[f] <= At(r, f)
  }

  /** The same knowledge, whatever zero counters are written down. */
  predicate Same(l: Vector, r: Vector) {
    Leq(l, r) && Leq(r, l)
  }

  predicate Zero(v: Vector) {
    Leq(v, map[])
  }

  function Compare(l: Vector, r: Vector): Comparison {
    match (Leq(l, r), Leq(r, l))
    case (true, true) => Equal
    case (false, true) => Greater
    case (true, false) => Lesser
    case (false, false) => Concurrent
  }

  function Max(x: nat, y: nat): nat { if x < y then y else x }

  /** The element-wise maximum; a zero counter held by `r` alone is not written down. */
  function Merge(l: Vector, r: Vector): Vector {
    map f | f in l.Keys + r.Keys && (f in l || r[f] > 0) :: Max(At(l, f), At(r, f))
  }

  function Increment(v: Vector, f: string): Vector {
    v[f := At(v, f) + 1]
  }

  lemma LeqAt(l: Vector, r: Vector)
    ensures Leq(l, r) <==> forall f :: At(l, f) <= At(r, f)
  {
  }

  /** `Leq` is a preorder whose equivalence is `Same`. */
  lemma LeqTransitive(u: Vector, v: Vector, w: Vector)
    requires Leq(u, v) && Leq(v, w)
    ensures Leq(u, w)
  {
  }

  lemma MergeAt(l: Vector, r: Vector)
    ensures forall f :: At(Merge(l, r), f) == Max(At(l, f), At(r, f))
  {
  }

  /** `Merge` is the least upper bound. */
  lemma MergeLeast(l: Vector, r: Vector)
    ensures Leq(l, Merge(l, r)) && Leq(r, Merge(l, r))
    ensures forall u | Leq(l, u) && Leq(r, u) :: Leq(Merge(l, r), u)
  {
  }

  /** Both orders of merging record the same knowledge, although the maps may differ in zero counters. */
  lemma MergeSymmetric(l: Vector, r: Vector)
    ensures Same(Merge(l, r), Merge(r, l))
  {
  }

  lemma CompareMirror(l: Vector, r: Vector)
    ensures Compare(l, r) == Equal <==> Compare(r, l) == Equal
    ensures Compare(l, r) == Greater <==> Compare(r, l) == Lesser
    ensures Compare(l, r) == Lesser <==> Compare(r, l) == Greater
    ensures Compare(l, r) == Concurrent <==> Compare(r, l) == Concurrent
  {
  }

  /** Incrementing advances exactly one counter, so the result is strictly ahead. */
  lemma IncrementAhead(v: Vector, f: string)
    ensures Compare(Increment(v, f), v) == Greater
    ensures forall g :: At(Increment(v, f), g) == At(v, g) + (if g == f then 1 else 0)
  {
  }

  /** Two flags set over both maps, in any iteration order, decide the causal relation. */
  method CompareVectors(left: Vector, right: Vector) returns (c: Comparison)
    ensures c == Compare(left, right)
  {
    var leftGreater, rightGreater := false, false;
    var rest := left.Keys;
    while rest != {}
      invariant rest <= left.Keys
      invariant leftGreater <==> exists f :: f in left.Keys - rest && left[f] > At(right, f)
      invariant rightGreater <==> exists f :: f in left.Keys - rest && left[f] < At(right, f)
      decreases rest
    {
      var f :| f in rest;
      var count, other := left[f], At(right, f);
      if count > other {
        leftGreater := true;
      } else if count < other {
        rightGreater := true;
      }
      rest := rest - {f};
    }
    assert leftGreater <==> !Leq(left, right);
    rest := right.Keys;
    while rest != {}
      invariant rest <= right.Keys
      invariant rightGreater <==>
        (exists f :: f in left && left[f] < At(right, f))
            || (exists f :: f in right.Keys - rest && f !in left && right[f] > 0)
      decreases rest
    {
      var f :| f in rest;
      if f !in left && right[f] > 0 {
        rightGreater := true;
      }
      rest := rest - {f};
    }
    assert rightGreater <==> !Leq(right, left) by {
      if !rightGreater {
        forall f | f in right ensures right[f] <= At(left, f) { if f in left { assert At(right, f) == right[f]; } }
      }
    }
    c := if !leftGreater && !rightGreater then Equal
         else if leftGreater && !rightGreater then Greater
         else if !leftGreater then Lesser
         else Concurrent;
  }

  method MergeVectors(left: Vector, right: Vector) returns (merged: Vector)
    ensures merged == Merge(left, right)
  {
    merged := left;
    var rest := right.Keys;
    while rest != {}
      invariant rest <= right.Keys
      invariant merged.Keys == left.Keys + set f | f in right.Keys - rest && right[f] > At(left, f)
      invariant forall f | f in merged ::
        merged[f] == if f in rest then At(left, f) else Max(At(left, f), At(right, f))
      decreases rest
    {
      var f :| f in rest;
      if right[f] > At(merged, f) {
        merged := merged[f := right[f]];
      }
      rest := rest - {f};
    }
  }

  /** A fresh map; the argument keeps its value. */
  method IncrementVector(v: Vector, fingerprint: string) returns (result: Vector)
    ensures result == Increment(v, fingerprint)
  {
    result := v;
    result := result[fingerprint := At(result, fingerprint) + 1];
  }
}
