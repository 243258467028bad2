/**
 * Lexicographic index arithmetic for the children of a refined hypercube
 * cell (`compute_shift_within_children`, `get_child_offset`,
 * `get_child_offsets`, `get_child_offsets_general`).
 *
 * The DoFs of all 2^dim children are merged into one lexicographic patch
 * with n = fe_degree + 1 + fe_shift_1d points per direction; a child DoF
 * with per-direction position x_d lands at sum_d (x_d + shift_1d * bit_d) n^d,
 * where bit_d is bit d of the child number.
 */
module ChildIndexing {

  import opened Arithmetic

  function Pow(b: nat, e: nat): nat
  {
    if e == 0 then 1 else b * Pow(b, e - 1)
  }

  lemma PowPositive(b: nat, e: nat)
    requires b > 0
    ensures Pow(b, e) > 0
  {
    if e > 0 {
      PowPositive(b, e - 1);
    }
  }

  /** `GeometryInfo<dim>::max_children_per_cell`. */
  function MaxChildren(dim: nat): nat { Pow(2, dim) }

  /** Per-direction (tensor) index of a child: bit d of `child`, lowest direction first. */
  function ChildBits(child: nat, dim: nat): (b: seq<nat>)
    ensures |b| == dim
    ensures forall d :: 0 <= d < dim ==> b[d] <= 1
  {
    if dim == 0 then [] else [child % 2] + ChildBits(child / 2, dim - 1)
  }

  /** `child` halved d times (the running `tmp` of the source). */
  function Halved(x: nat, d: nat): nat
  {
    if d == 0 then x else Halved(x / 2, d - 1)
  }

  lemma {:induction false} ChildBitsSnoc(x: nat, d: nat)
    ensures ChildBits(x, d + 1) == ChildBits(x, d) + [Halved(x, d) % 2]
    ensures Halved(x, d + 1) == Halved(x, d) / 2
  {
    if d > 0 {
      ChildBitsSnoc(x / 2, d - 1);
    }
  }

  /** Offset of a child's block inside the patch: shift_1d * sum_d bit_d n^d, in Horner form. */
  function ShiftOf(bits: seq<nat>, s: nat, n: nat): nat
  {
    if |bits| == 0 then 0 else s * bits[0] + n * ShiftOf(bits[1..], s, n)
  }

  lemma {:induction false} ShiftOfSnoc(bits: seq<nat>, x: nat, s: nat, n: nat)
    ensures ShiftOf(bits + [x], s, n) == ShiftOf(bits, s, n) + Pow(n, |bits|) * s * x
  {
    if |bits| > 0 {
      var b := bits + [x];
      assert b[0] == bits[0] && b[1..] == bits[1..] + [x];
      ShiftOfSnoc(bits[1..], x, s, n);
      var t, u := ShiftOf(bits[1..], s, n), Pow(n, |bits| - 1);
      assert ShiftOf(b, s, n) == s * bits[0] + n * (t + u * s * x);
      MulAddDistrib(t, u * s * x, n);
      MulAssoc4(n, u, s, x);
    }
  }

  /** `compute_shift_within_children`: the offset of child `child` in the merged patch. */
  method ComputeShiftWithinChildren(child: nat, feShift1d: nat, feDegree: nat, dim: nat) returns (shift: nat)
    requires dim >= 1
    ensures shift == ShiftOf(ChildBits(child, dim), feShift1d, feDegree + 1 + feShift1d)
  {
    var cTensorIndex := new nat[dim];
    var tmp := child;
    var d := 0;
    while d < dim
      invariant 0 <= d <= dim
      invariant cTensorIndex[..d] == ChildBits(child, d)
      invariant tmp == Halved(child, d)
    {
      ChildBitsSnoc(child, d);
      cTensorIndex[d] := tmp % 2;
      assert cTensorIndex[..d + 1] == cTensorIndex[..d] + [tmp % 2];
      tmp := tmp / 2;
      d := d + 1;
    }
    ghost var bits := cTensorIndex[..];
    assert bits == ChildBits(child, dim);
    var n := feDegree + 1 + feShift1d;
    var factor := 1;
    shift := feShift1d * cTensorIndex[0];
    assert ShiftOf(cTensorIndex[..1], feShift1d, n) == feShift1d * cTensorIndex[0];
    d := 1;
    while d < dim
      invariant 1 <= d <= dim
      invariant factor == Pow(n, d - 1)
      invariant cTensorIndex[..] == bits
      invariant shift == ShiftOf(cTensorIndex[..d], feShift1d, n)
    {
      factor := factor * n;
      assert factor == Pow(n, d);
      ShiftOfSnoc(cTensorIndex[..d], cTensorIndex[d], feShift1d, n);
      assert cTensorIndex[..d + 1] == cTensorIndex[..d] + [cTensorIndex[d]];
      shift := shift + factor * feShift1d * cTensorIndex[d];
      d := d + 1;
    }
    assert cTensorIndex[..dim] == cTensorIndex[..];
  }

  /**
   * Position in the merged patch (n = p + s points per direction) of the
   * r-th scalar DoF (lexicographic, p points per direction) of the child
   * whose per-direction bits are `bits`.
   */
  function PatchIndex(r: nat, bits: seq<nat>, p: nat, s: nat): nat
    requires p > 0
    decreases |bits|
  {
    if |bits| == 0 then 0 else (r % p + s * bits[0]) + (p + s) * PatchIndex(r / p, bits[1..], p, s)
  }

  lemma PatchIndexStep(q: nat, i: nat, bits: seq<nat>, p: nat, s: nat)
    requires |bits| > 0 && i < p
    ensures PatchIndex(q * p + i, bits, p, s) == (i + s * bits[0]) + (p + s) * PatchIndex(q, bits[1..], p, s)
  {
    DivModUnique(q, i, p);
  }

  lemma BitTimes(s: nat, b: nat)
    requires b <= 1
    ensures s * b <= s
  {
    if b == 1 {
    }
  }

  lemma StepBound(i: nat, sb: nat, a: nat, p: nat, s: nat, bound: nat)
    requires i < p && sb <= s && a < bound
    ensures (i + sb) + (p + s) * a < (p + s) * bound
  {
    MulStrict(a, bound, p + s);
  }

  /** Inside the patch the child DoFs keep their lexicographic order. */
  lemma {:induction false} PatchIndexIncreasing(r1: nat, r2: nat, bits: seq<nat>, p: nat, s: nat)
    requires p > 0
    requires forall d :: 0 <= d < |bits| ==> bits[d] <= 1
    requires r1 < r2 < Pow(p, |bits|)
    ensures PatchIndex(r1, bits, p, s) < PatchIndex(r2, bits, p, s)
    decreases |bits|
  {
    var k := |bits|;
    assert k > 0;
    var tail := bits[1..];
    assert |tail| == k - 1;
    var q1, q2 := r1 / p, r2 / p;
    var i1, i2 := r1 % p, r2 % p;
    var a1 := PatchIndex(q1, tail, p, s);
    var a2 := PatchIndex(q2, tail, p, s);
    var sb := s * bits[0];
    assert PatchIndex(r1, bits, p, s) == (i1 + sb) + (p + s) * a1;
    assert PatchIndex(r2, bits, p, s) == (i2 + sb) + (p + s) * a2;
    Digits(r1, p);
    Digits(r2, p);
    assert q1 <= q2 by {
      if q1 > q2 {
        MulStrict(q2, q1, p);
      }
    }
    if q1 < q2 {
      assert q2 < Pow(p, k - 1) by {
        assert Pow(p, k) == p * Pow(p, k - 1);
        DivBound(r2, p, Pow(p, k - 1));
      }
      assert a1 < a2 by {
        assert forall d :: 0 <= d < |tail| ==> tail[d] <= 1;
        PatchIndexIncreasing(q1, q2, tail, p, s);
      }
      BitTimes(s, bits[0]);
      StepBound(i1, sb, a1, p, s, a2);
    }
  }

  /** Every child DoF lands inside the n^dim patch. */
  lemma {:induction false} PatchIndexBound(r: nat, bits: seq<nat>, p: nat, s: nat)
    requires p > 0
    requires forall d :: 0 <= d < |bits| ==> bits[d] <= 1
    requires r < Pow(p, |bits|)
    ensures PatchIndex(r, bits, p, s) < Pow(p + s, |bits|)
    decreases |bits|
  {
    var k := |bits|;
    if k > 0 {
      var tail := bits[1..];
      assert forall d :: 0 <= d < |tail| ==> tail[d] <= 1;
      var q, i := r / p, r % p;
      assert Pow(p, k) == p * Pow(p, k - 1);
      DivBound(r, p, Pow(p, k - 1));
      assert |tail| == k - 1 && q < Pow(p, k - 1);
      PatchIndexBound(q, tail, p, s);
      BitTimes(s, bits[0]);
      var a := PatchIndex(q, tail, p, s);
      assert PatchIndex(r, bits, p, s) == (i + s * bits[0]) + (p + s) * a;
      StepBound(i, s * bits[0], a, p, s, Pow(p + s, k - 1));
      assert Pow(p + s, k) == (p + s) * Pow(p + s, k - 1);
    }
  }

  /** How many values the k-loop (third direction) and j-loop (second direction) of the source run through. */
  function LoopExtent(p: nat, dim: nat, direction: nat): nat
  {
    if dim > direction then p else 1
  }

  /**
   * Value written to `local_dof_indices[m]`: component block m / p^dim times
   * n^dim, plus the patch position of the scalar DoF m % p^dim.
   */
  function OffsetAt(m: nat, bits: seq<nat>, p: nat, s: nat): nat
    requires p > 0
  {
    var P := Pow(p, |bits|);
    PowPositive(p, |bits|);
    var c: nat := m / P;
    c * Pow(p + s, |bits|) + PatchIndex(m % P, bits, p, s)
  }

  /** Number of offsets `get_child_offset` writes: n_components * p^dim. */
  function OffsetCount(size: nat, p: nat, dim: nat): nat
    requires p > 0
  {
    PowPositive(p, dim);
    (size / Pow(p, dim)) * Pow(p, dim)
  }

  /** The vector `get_child_offset` leaves behind (entries past n_components * p^dim keep their initial 0). */
  function ChildOffsetVector(child: nat, feShift1d: nat, feDegree: nat, dim: nat, size: nat): (v: seq<nat>)
    ensures |v| == size
  {
    var bits := ChildBits(child, dim);
    seq(size, m requires 0 <= m < size =>
      if m < OffsetCount(size, feDegree + 1, dim) then OffsetAt(m, bits, feDegree + 1, feShift1d) else 0)
  }

  lemma ThreeDigits(i: int, j: int, k: int, n: int, s: int, b0: int, b1: int, b2: int)
    ensures (i + s * b0) + n * ((j + s * b1) + n * ((k + s * b2) + n * 0))
         == i + j * n + k * n * n + (s * b0 + n * (s * b1 + n * (s * b2 + n * 0)))
  {
  }

  lemma TwoDigits(i: int, j: int, n: int, s: int, b0: int, b1: int)
    ensures (i + s * b0) + n * ((j + s * b1) + n * 0) == i + j * n + (s * b0 + n * (s * b1 + n * 0))
  {
  }

  lemma LoopExtents(p: nat, dim: nat)
    requires 1 <= dim <= 3
    ensures LoopExtent(p, dim, 2) * LoopExtent(p, dim, 1) * p == Pow(p, dim)
  {
    assert Pow(p, 1) == p;
    assert Pow(p, 2) == p * p;
  }

  lemma OffsetAtSplit(c: nat, r: nat, bits: seq<nat>, p: nat, s: nat)
    requires p > 0 && r < Pow(p, |bits|)
    ensures OffsetAt(c * Pow(p, |bits|) + r, bits, p, s) == c * Pow(p + s, |bits|) + PatchIndex(r, bits, p, s)
  {
    DivModUnique(c, r, Pow(p, |bits|));
  }

  lemma PatchDigits(k: nat, j: nat, i: nat, bits: seq<nat>, p: nat, s: nat)
    requires 1 <= |bits| <= 3 && p > 0
    requires k < LoopExtent(p, |bits|, 2) && j < LoopExtent(p, |bits|, 1) && i < p
    ensures PatchIndex((k * LoopExtent(p, |bits|, 1) + j) * p + i, bits, p, s)
         == k * (p + s) * (p + s) + j * (p + s) + i + ShiftOf(bits, s, p + s)
  {
    var n := p + s;
    var J := LoopExtent(p, |bits|, 1);
    var t := k * J + j;
    PatchIndexStep(t, i, bits, p, s);
    var b := bits[1..];
    if |bits| == 1 {
      assert t == 0 && PatchIndex(t, b, p, s) == 0;
      assert ShiftOf(bits, s, n) == s * bits[0] + n * 0;
    } else if |bits| == 2 {
      assert k == 0 && t == j;
      PatchIndexStep(0, j, b, p, s);
      assert PatchIndex(t, b, p, s) == (j + s * bits[1]) + n * 0;
      assert ShiftOf(b, s, n) == s * bits[1] + n * 0;
      TwoDigits(i, j, n, s, bits[0], bits[1]);
    } else {
      assert t == k * p + j;
      PatchIndexStep(k, j, b, p, s);
      PatchIndexStep(0, k, b[1..], p, s);
      assert PatchIndex(k, b[1..], p, s) == (k + s * bits[2]) + n * 0;
      assert ShiftOf(b[1..], s, n) == s * bits[2] + n * 0;
      ThreeDigits(i, j, k, n, s, bits[0], bits[1], bits[2]);
    }
  }

  /** The value the source's innermost loop body computes equals the offset of its linear index m. */
  lemma LoopBodyOffset(c: nat, k: nat, j: nat, i: nat, bits: seq<nat>, p: nat, s: nat)
    requires 1 <= |bits| <= 3 && p > 0
    requires k < LoopExtent(p, |bits|, 2) && j < LoopExtent(p, |bits|, 1) && i < p
    ensures (k * LoopExtent(p, |bits|, 1) + j) * p + i < Pow(p, |bits|)
    ensures OffsetAt(c * Pow(p, |bits|) + ((k * LoopExtent(p, |bits|, 1) + j) * p + i), bits, p, s)
         == c * Pow(p + s, |bits|) + k * (p + s) * (p + s) + j * (p + s) + i + ShiftOf(bits, s, p + s)
  {
    var K, J := LoopExtent(p, |bits|, 2), LoopExtent(p, |bits|, 1);
    var t := k * J + j;
    assert t * p + i < Pow(p, |bits|) by {
      LoopExtents(p, |bits|);
      MulStrict(k, K, J);
      MulStrict(t, K * J, p);
    }
    OffsetAtSplit(c, t * p + i, bits, p, s);
    PatchDigits(k, j, i, bits, p, s);
  }

  /** All offsets of one child are strictly increasing in m. */
  lemma OffsetAtIncreasing(m1: nat, m2: nat, bits: seq<nat>, p: nat, s: nat)
    requires p > 0
    requires forall d :: 0 <= d < |bits| ==> bits[d] <= 1
    requires m1 < m2
    ensures OffsetAt(m1, bits, p, s) < OffsetAt(m2, bits, p, s)
  {
    var P, N := Pow(p, |bits|), Pow(p + s, |bits|);
    PowPositive(p, |bits|);
    var c1, c2 := m1 / P, m2 / P;
    var r1, r2 := m1 % P, m2 % P;
    QuotientMonotone(m1, m2, P);
    assert OffsetAt(m1, bits, p, s) == c1 * N + PatchIndex(r1, bits, p, s);
    assert OffsetAt(m2, bits, p, s) == c2 * N + PatchIndex(r2, bits, p, s);
    if c1 == c2 {
      PatchIndexIncreasing(r1, r2, bits, p, s);
    } else {
      PatchIndexBound(r1, bits, p, s);
      MulStrict(c1, c2, N);
    }
  }

  /** ... and all lie below n_components * n^dim, the size of the merged patch. */
  lemma OffsetAtBound(m: nat, bits: seq<nat>, p: nat, s: nat, nComponents: nat)
    requires p > 0
    requires forall d :: 0 <= d < |bits| ==> bits[d] <= 1
    requires m < nComponents * Pow(p, |bits|)
    ensures OffsetAt(m, bits, p, s) < nComponents * Pow(p + s, |bits|)
  {
    var P, N := Pow(p, |bits|), Pow(p + s, |bits|);
    PowPositive(p, |bits|);
    DivBound(m, P, nComponents);
    PatchIndexBound(m % P, bits, p, s);
    MulStrict(m / P, nComponents, N);
  }

  lemma {:induction false} ZeroChildHasNoShift(dim: nat, p: nat, s: nat)
    requires p > 0
    ensures PatchIndex(0, ChildBits(0, dim), p, s) == 0
  {
    if dim > 0 {
      ZeroChildHasNoShift(dim - 1, p, s);
    }
  }

  /** Entries lo .. hi-1 of `a` agree with `target`; every other entry is as in `prev`. */
  ghost predicate WrittenBetween(a: seq<nat>, prev: seq<nat>, lo: nat, hi: nat, target: seq<nat>)
  {
    && |a| == |prev| && hi <= |target|
    && forall t :: 0 <= t < |a| ==> a[t] == if lo <= t < hi then target[t] else prev[t]
  }

  lemma WrittenCompose(a0: seq<nat>, a1: seq<nat>, a2: seq<nat>, lo: nat, mid: nat, hi: nat, target: seq<nat>)
    requires lo <= mid <= hi
    requires WrittenBetween(a1, a0, lo, mid, target) && WrittenBetween(a2, a1, mid, hi, target)
    ensures WrittenBetween(a2, a0, lo, hi, target)
  {
  }

  lemma NextPlane(k: nat, J: nat, p: nat)
    ensures (k * J) * p + J * p == ((k + 1) * J) * p
  {
    MulAddDistrib(k, 1, J);
    MulAddDistrib(k * J, J, p);
  }

  /** Linear positions of the source's loop counters, one function per loop level. */
  function LinePos(m0: nat, i: nat): nat { m0 + i }
  function PlanePos(m0: nat, j: nat, i: nat, p: nat): nat { m0 + j * p + i }
  function ComponentPos(m0: nat, k: nat, j: nat, i: nat, J: nat, p: nat): nat { m0 + (k * J + j) * p + i }

  /**
   * The innermost (x-direction) loop of `get_child_offset`, for fixed
   * component c and y-, z-positions j, k: p consecutive entries, advancing m
   * as the source does.
   */
  method WriteLine(a: array<nat>, c: nat, k: nat, j: nat, p: nat, n: nat, nScalarCellDofs: nat, shift: nat,
                   m0: nat, ghost target: seq<nat>)
    requires m0 + p <= a.Length && m0 + p <= |target|
    requires forall i :: 0 <= i < p && LinePos(m0, i) < |target| ==>
      target[LinePos(m0, i)] == c * nScalarCellDofs + k * n * n + j * n + i + shift
    modifies a
    ensures WrittenBetween(a[..], old(a[..]), m0, m0 + p, target)
  {
    var i, m := 0, m0;
    while i < p
      invariant 0 <= i <= p && m == m0 + i
      invariant WrittenBetween(a[..], old(a[..]), m0, m, target)
    {
      assert target[LinePos(m0, i)] == c * nScalarCellDofs + k * n * n + j * n + i + shift;
      a[m] := c * nScalarCellDofs + k * n * n + j * n + i + shift;
      i, m := i + 1, m + 1;
    }
  }

  /** The y-direction loop: for fixed c and k, J lines of p entries each. */
  method WritePlane(a: array<nat>, c: nat, k: nat, J: nat, p: nat, n: nat, nScalarCellDofs: nat, shift: nat,
                    m0: nat, ghost target: seq<nat>)
    requires m0 + J * p <= a.Length && m0 + J * p <= |target|
    requires forall j, i :: 0 <= j < J && 0 <= i < p && PlanePos(m0, j, i, p) < |target| ==>
      target[PlanePos(m0, j, i, p)] == c * nScalarCellDofs + k * n * n + j * n + i + shift
    modifies a
    ensures WrittenBetween(a[..], old(a[..]), m0, m0 + J * p, target)
  {
    var j, m := 0, m0;
    while j < J
      invariant 0 <= j <= J && m == m0 + j * p
      invariant WrittenBetween(a[..], old(a[..]), m0, m, target)
    {
      assert m + p <= m0 + J * p by {
        MulStrict(j, J, p);
      }
      assert m + p == m0 + (j + 1) * p by {
        MulAddDistrib(j, 1, p);
      }
      forall i | 0 <= i < p && LinePos(m, i) < |target|
        ensures target[LinePos(m, i)] == c * nScalarCellDofs + k * n * n + j * n + i + shift
      {
        assert LinePos(m, i) == PlanePos(m0, j, i, p);
      }
      ghost var before := a[..];
      WriteLine(a, c, k, j, p, n, nScalarCellDofs, shift, m, target);
      WrittenCompose(old(a[..]), before, a[..], m0, m, m + p, target);
      j, m := j + 1, m + p;
    }
  }

  /** The z-direction loop: for fixed component c, K planes of J lines. */
  method WriteComponent(a: array<nat>, c: nat, K: nat, J: nat, p: nat, n: nat, nScalarCellDofs: nat, shift: nat,
                        m0: nat, ghost target: seq<nat>)
    requires m0 + (K * J) * p <= a.Length && m0 + (K * J) * p <= |target|
    requires forall k, j, i :: 0 <= k < K && 0 <= j < J && 0 <= i < p && ComponentPos(m0, k, j, i, J, p) < |target| ==>
      target[ComponentPos(m0, k, j, i, J, p)] == c * nScalarCellDofs + k * n * n + j * n + i + shift
    modifies a
    ensures WrittenBetween(a[..], old(a[..]), m0, m0 + (K * J) * p, target)
  {
    var k, m := 0, m0;
    while k < K
      invariant 0 <= k <= K && m == m0 + (k * J) * p
      invariant WrittenBetween(a[..], old(a[..]), m0, m, target)
    {
      assert m + J * p <= m0 + (K * J) * p by {
        MulStrict(k, K, J);
        MulLe(k * J + J, K * J, p);
        MulAddDistrib(k * J, J, p);
      }
      assert m + J * p == m0 + ((k + 1) * J) * p by {
        NextPlane(k, J, p);
      }
      forall j, i | 0 <= j < J && 0 <= i < p && PlanePos(m, j, i, p) < |target|
        ensures target[PlanePos(m, j, i, p)] == c * nScalarCellDofs + k * n * n + j * n + i + shift
      {
        assert PlanePos(m, j, i, p) == ComponentPos(m0, k, j, i, J, p) by {
          MulAddDistrib(k * J, j, p);
        }
      }
      ghost var before := a[..];
      WritePlane(a, c, k, J, p, n, nScalarCellDofs, shift, m, target);
      WrittenCompose(old(a[..]), before, a[..], m0, m, m + J * p, target);
      k, m := k + 1, m + J * p;
    }
  }

  /** What one pass of the z-loop for component c must write, read off the digit definition. */
  lemma ComponentTargets(child: nat, feShift1d: nat, feDegree: nat, dim: nat, size: nat, c: nat)
    requires 1 <= dim <= 3
    requires (c + 1) * Pow(feDegree + 1, dim) <= size
    ensures var p, n := feDegree + 1, feDegree + 1 + feShift1d;
      var target := ChildOffsetVector(child, feShift1d, feDegree, dim, size);
      forall k, j, i :: 0 <= k < LoopExtent(p, dim, 2) && 0 <= j < LoopExtent(p, dim, 1) && 0 <= i < p ==>
        && ComponentPos(c * Pow(p, dim), k, j, i, LoopExtent(p, dim, 1), p) < |target|
        && target[ComponentPos(c * Pow(p, dim), k, j, i, LoopExtent(p, dim, 1), p)]
           == c * Pow(n, dim) + k * n * n + j * n + i + ShiftOf(ChildBits(child, dim), feShift1d, n)
  {
    var p, n := feDegree + 1, feDegree + 1 + feShift1d;
    PowPositive(p, dim);
    var P, K, J := Pow(p, dim), LoopExtent(p, dim, 2), LoopExtent(p, dim, 1);
    var bits := ChildBits(child, dim);
    var target := ChildOffsetVector(child, feShift1d, feDegree, dim, size);
    var count := OffsetCount(size, p, dim);
    assert c * P + P <= count by {
      DivLower(c + 1, P, size);
      MulLe(c + 1, size / P, P);
      MulAddDistrib(c, 1, P);
    }
    forall k, j, i | 0 <= k < K && 0 <= j < J && 0 <= i < p
      ensures ComponentPos(c * P, k, j, i, J, p) < |target|
      ensures target[ComponentPos(c * P, k, j, i, J, p)]
        == c * Pow(n, dim) + k * n * n + j * n + i + ShiftOf(bits, feShift1d, n)
    {
      LoopBodyOffset(c, k, j, i, bits, p, feShift1d);
      var pos := ComponentPos(c * P, k, j, i, J, p);
      assert pos == c * P + ((k * J + j) * p + i);
      assert pos < count;
    }
  }

  /**
   * `get_child_offset`: for child `child`, the patch position of each of its
   * DoFs, in lexicographic order, component by component.
   */
  method GetChildOffset(child: nat, feShift1d: nat, feDegree: nat, dim: nat, size: nat) returns (local: seq<nat>)
    requires 1 <= dim <= 3
    ensures local == ChildOffsetVector(child, feShift1d, feDegree, dim, size)
  {
    var p := feDegree + 1;
    var n := feDegree + 1 + feShift1d;
    var shift := ComputeShiftWithinChildren(child, feShift1d, feDegree, dim);
    PowPositive(p, dim);
    LoopExtents(p, dim);
    var nComponents := size / Pow(p, dim);
    var nScalarCellDofs := Pow(n, dim);
    var K, J := LoopExtent(p, dim, 2), LoopExtent(p, dim, 1);
    var P := Pow(p, dim);
    ghost var target := ChildOffsetVector(child, feShift1d, feDegree, dim, size);
    var a := new nat[size](_ => 0);
    var c, m := 0, 0;
    while c < nComponents
      invariant 0 <= c <= nComponents && m == c * P
      invariant WrittenBetween(a[..], seq(size, _ => 0), 0, m, target)
    {
      assert (c + 1) * P <= size by {
        MulStrict(c, nComponents, P);
        MulAddDistrib(c, 1, P);
        Digits(size, P);
      }
      ComponentTargets(child, feShift1d, feDegree, dim, size, c);
      ghost var before := a[..];
      WriteComponent(a, c, K, J, p, n, nScalarCellDofs, shift, m, target);
      WrittenCompose(seq(size, _ => 0), before, a[..], 0, m, m + P, target);
      MulAddDistrib(c, 1, P);
      c, m := c + 1, m + P;
    }
    local := a[..];
    assert OffsetCount(size, p, dim) == m;
  }

  /** The offsets of one child strictly increase, stay inside the patch, and child 0 starts at 0. */
  lemma ChildOffsetVectorProperties(child: nat, feShift1d: nat, feDegree: nat, dim: nat, size: nat)
    ensures var v := ChildOffsetVector(child, feShift1d, feDegree, dim, size);
      var count := OffsetCount(size, feDegree + 1, dim);
      && count <= size
      && (forall m1, m2 :: 0 <= m1 < m2 < count ==> v[m1] < v[m2])
      && (forall m :: 0 <= m < count ==>
            v[m] < (size / Pow(feDegree + 1, dim)) * Pow(feDegree + 1 + feShift1d, dim))
      && (child == 0 && count > 0 ==> v[0] == 0)
  {
    var p := feDegree + 1;
    var v := ChildOffsetVector(child, feShift1d, feDegree, dim, size);
    var bits := ChildBits(child, dim);
    PowPositive(p, dim);
    var P := Pow(p, dim);
    var count := OffsetCount(size, p, dim);
    assert count <= size by { assert size == (size / P) * P + size % P; }
    forall m1, m2 | 0 <= m1 < m2 < count ensures v[m1] < v[m2] {
      OffsetAtIncreasing(m1, m2, bits, p, feShift1d);
    }
    forall m | 0 <= m < count ensures v[m] < (size / P) * Pow(p + feShift1d, dim) {
      OffsetAtBound(m, bits, p, feShift1d, size / P);
    }
    if child == 0 && count > 0 {
      ZeroChildHasNoShift(dim, p, feShift1d);
      DivModUnique(0, 0, P);
    }
  }

  /** `get_child_offsets`: the offsets of every child, for the hypercube patch. */
  method GetChildOffsets(nDofsPerCellCoarse: nat, feShift1d: nat, feDegree: nat, dim: nat)
    returns (offsets: seq<seq<nat>>)
    requires 1 <= dim <= 3
    ensures |offsets| == MaxChildren(dim)
    ensures forall c :: 0 <= c < |offsets| ==>
      offsets[c] == ChildOffsetVector(c, feShift1d, feDegree, dim, nDofsPerCellCoarse)
  {
    offsets := [];
    var c := 0;
    while c < MaxChildren(dim)
      invariant 0 <= c <= MaxChildren(dim) && |offsets| == c
      invariant forall c' :: 0 <= c' < c ==>
        offsets[c'] == ChildOffsetVector(c', feShift1d, feDegree, dim, nDofsPerCellCoarse)
    {
      var local := GetChildOffset(c, feShift1d, feDegree, dim, nDofsPerCellCoarse);
      offsets := offsets + [local];
      c := c + 1;
    }
  }

  /**
   * `get_child_offsets_general`: for non-hypercube cells the children's DoFs
   * are simply stacked: child c, DoF d goes to c * n + d.
   */
  method GetChildOffsetsGeneral(nDofsPerCellCoarse: nat, dim: nat) returns (offsets: seq<seq<nat>>)
    ensures |offsets| == MaxChildren(dim)
    ensures forall c :: 0 <= c < |offsets| ==> |offsets[c]| == nDofsPerCellCoarse
    ensures forall c, d :: 0 <= c < |offsets| && 0 <= d < nDofsPerCellCoarse ==>
      offsets[c][d] == Stacked(c, d, nDofsPerCellCoarse)
  {
    var n := nDofsPerCellCoarse;
    offsets := [];
    var c, k := 0, 0;
    while c < MaxChildren(dim)
      invariant 0 <= c <= MaxChildren(dim) && |offsets| == c && k == c * n
      invariant forall c' :: 0 <= c' < c ==> |offsets[c']| == n
      invariant forall c', d :: 0 <= c' < c && 0 <= d < n ==> offsets[c'][d] == Stacked(c', d, n)
    {
      var row := new nat[n];
      var d := 0;
      while d < n
        invariant 0 <= d <= n && k == c * n + d
        invariant forall d' :: 0 <= d' < d ==> row[d'] == Stacked(c, d', n)
      {
        row[d] := k;
        d := d + 1;
        k := k + 1;
      }
      assert k == (c + 1) * n;
      offsets := offsets + [row[..]];
      c := c + 1;
    }
  }

  /** Position of DoF d of child c in the stacked (non-hypercube) layout with n DoFs per child. */
  function Stacked(c: nat, d: nat, n: nat): nat { c * n + d }

  /** The stacked layout gives every (child, DoF) pair its own position ... */
  lemma StackedInjective(c1: nat, d1: nat, c2: nat, d2: nat, n: nat)
    requires d1 < n && d2 < n
    requires Stacked(c1, d1, n) == Stacked(c2, d2, n)
    ensures c1 == c2 && d1 == d2
  {
    DivModUnique(c1, d1, n);
    DivModUnique(c2, d2, n);
  }

  /** ... and the positions fill exactly 0 .. children * n - 1. */
  lemma StackedOnto(x: nat, children: nat, n: nat)
    requires x < children * n
    ensures x / n < children && x % n < n && x == Stacked(x / n, x % n, n)
  {
    DivBound(x, n, children);
  }

  lemma StackedBound(c: nat, d: nat, children: nat, n: nat)
    requires c < children && d < n
    ensures Stacked(c, d, n) < children * n
  {
    MulStrict(c, children, n);
  }
}
