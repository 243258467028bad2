/**
 * `setup_weights`: the weights that make the transfer of a continuous
 * element count a DoF shared by several cells only once. Each DoF's weight
 * is the inverse of the number of cell slots it occupies, 0 for
 * constrained DoFs, and the weights are then laid out cell by cell in the
 * order of the schemes.
 */
module ContinuityWeights {
  import opened Arithmetic
  import opened SchemeSetup

  /** How many cell slots of `constraint_info_fine.dof_indices` hold DoF j. */
  function Valence(dofIndices: seq<nat>, j: nat): nat
  {
    multiset(dofIndices)[j]
  }

  /** `1 / x`, with 0 where the valence is 0 (no slot reads such an entry). */
  function Invert(x: real): real
  {
    if x == 0.0 then 0.0 else 1.0 / x
  }

  /** The weight of DoF j once step 1 of `setup_weights` is done. */
  function Weight(dofIndices: seq<nat>, constrainedLines: seq<nat>, j: nat): real
  {
    if j in constrainedLines then 0.0 else Invert(Valence(dofIndices, j) as real)
  }

  predicate IndicesBelow(dofIndices: seq<nat>, n: nat)
  {
    forall k :: 0 <= k < |dofIndices| ==> dofIndices[k] < n
  }

  /** `weight_vector.local_element(i) += 1` for every slot: the valence of each DoF. */
  method CountValence(w: array<real>, dofIndices: seq<nat>)
    requires IndicesBelow(dofIndices, w.Length)
    requires forall j :: 0 <= j < w.Length ==> w[j] == 0.0
    modifies w
    ensures forall j :: 0 <= j < w.Length ==> w[j] == Valence(dofIndices, j) as real
  {
    var k := 0;
    while k < |dofIndices|
      invariant 0 <= k <= |dofIndices|
      invariant forall j :: 0 <= j < w.Length ==> w[j] == multiset(dofIndices[..k])[j] as real
    {
      assert dofIndices[..k + 1] == dofIndices[..k] + [dofIndices[k]];
      w[dofIndices[k]] := w[dofIndices[k]] + 1.0;
      k := k + 1;
    }
    assert dofIndices[..k] == dofIndices;
  }

  /** Inverts every locally owned entry. */
  method InvertValence(w: array<real>)
    modifies w
    ensures forall j :: 0 <= j < w.Length ==> w[j] == Invert(old(w[j]))
  {
    var i := 0;
    while i < w.Length
      invariant 0 <= i <= w.Length
      invariant forall j :: 0 <= j < i ==> w[j] == Invert(old(w[j]))
      invariant forall j :: i <= j < w.Length ==> w[j] == old(w[j])
    {
      w[i] := Invert(w[i]);
      i := i + 1;
    }
  }

  /** Zeroes the entry of each constrained line that is locally owned. */
  method ClearConstrained(w: array<real>, constrainedLines: seq<nat>)
    modifies w
    ensures forall j :: 0 <= j < w.Length ==> w[j] == if j in constrainedLines then 0.0 else old(w[j])
  {
    var k := 0;
    while k < |constrainedLines|
      invariant 0 <= k <= |constrainedLines|
      invariant forall j :: 0 <= j < w.Length ==> w[j] == if j in constrainedLines[..k] then 0.0 else old(w[j])
    {
      assert constrainedLines[..k + 1] == constrainedLines[..k] + [constrainedLines[k]];
      if constrainedLines[k] < w.Length {
        w[constrainedLines[k]] := 0.0;
      }
      k := k + 1;
    }
    assert constrainedLines[..k] == constrainedLines;
  }

  /** The weight vector after step 1 of `setup_weights`, on a single rank. */
  method WeightVector(dofIndices: seq<nat>, constrainedLines: seq<nat>, nOwned: nat) returns (w: array<real>)
    requires IndicesBelow(dofIndices, nOwned)
    ensures w.Length == nOwned
    ensures forall j :: 0 <= j < nOwned ==> w[j] == Weight(dofIndices, constrainedLines, j)
  {
    w := new real[nOwned](_ => 0.0);
    CountValence(w, dofIndices);
    InvertValence(w);
    ClearConstrained(w, constrainedLines);
  }

  // ---------------------------------------------------------------------
  // Cell-major copy, batched by SIMD lanes
  // ---------------------------------------------------------------------

  /** Entry k of the copy: the weight of the DoF in slot k. */
  predicate CopiedUpTo(weights: array<real>, w: array<real>, dofIndices: seq<nat>, hi: nat)
    reads weights, w
    requires IndicesBelow(dofIndices, w.Length)
  {
    hi <= weights.Length && hi <= |dofIndices|
    && forall k :: 0 <= k < hi ==> weights[k] == w[dofIndices[k]]
  }

  /** The copy of one cell: slots offset .. offset + d. */
  method CopyCell(weights: array<real>, w: array<real>, dofIndices: seq<nat>, offset: nat, d: nat)
    requires weights != w && IndicesBelow(dofIndices, w.Length)
    requires offset + d <= weights.Length && offset + d <= |dofIndices|
    requires CopiedUpTo(weights, w, dofIndices, offset)
    modifies weights
    ensures CopiedUpTo(weights, w, dofIndices, offset + d)
    ensures forall k :: offset + d <= k < weights.Length ==> weights[k] == old(weights[k])
  {
    var i := 0;
    while i < d
      invariant 0 <= i <= d
      invariant CopiedUpTo(weights, w, dofIndices, offset + i)
      invariant forall k :: offset + d <= k < weights.Length ==> weights[k] == old(weights[k])
    {
      weights[offset + i] := w[dofIndices[offset + i]];
      i := i + 1;
    }
  }

  /** How many lanes of the batch starting at `cell` hold a cell (`n_lanes_filled`). */
  function LanesFilled(cell: nat, nCells: nat, nLanes: nat): nat
    requires cell < nCells
  {
    if cell + nLanes > nCells then nCells - cell else nLanes
  }

  /** One batch: `n_lanes_filled` cells, each advancing `offset` by d. */
  method CopyBatch(weights: array<real>, w: array<real>, dofIndices: seq<nat>, offset: nat, d: nat, nFilled: nat)
    returns (offset': nat)
    requires weights != w && IndicesBelow(dofIndices, w.Length)
    requires offset + nFilled * d <= weights.Length && offset + nFilled * d <= |dofIndices|
    requires CopiedUpTo(weights, w, dofIndices, offset)
    modifies weights
    ensures offset' == offset + nFilled * d
    ensures CopiedUpTo(weights, w, dofIndices, offset')
    ensures forall k :: offset' <= k < weights.Length ==> weights[k] == old(weights[k])
  {
    offset' := offset;
    var v := 0;
    while v < nFilled
      invariant 0 <= v <= nFilled
      invariant offset' == offset + v * d
      invariant CopiedUpTo(weights, w, dofIndices, offset')
      invariant forall k :: offset + nFilled * d <= k < weights.Length ==> weights[k] == old(weights[k])
    {
      MulAddDistrib(v, 1, d);
      MulLe(v + 1, nFilled, d);
      CopyCell(weights, w, dofIndices, offset', d);
      offset' := offset' + d;
      v := v + 1;
    }
  }

  /** All cells of one scheme, in batches of `nLanes`. */
  method CopyScheme(weights: array<real>, w: array<real>, dofIndices: seq<nat>, offset: nat, d: nat,
                    nCells: nat, nLanes: nat)
    returns (offset': nat)
    requires nLanes > 0
    requires weights != w && IndicesBelow(dofIndices, w.Length)
    requires offset + nCells * d <= weights.Length && offset + nCells * d <= |dofIndices|
    requires CopiedUpTo(weights, w, dofIndices, offset)
    modifies weights
    ensures offset' == offset + nCells * d
    ensures CopiedUpTo(weights, w, dofIndices, offset')
    ensures forall k :: offset' <= k < weights.Length ==> weights[k] == old(weights[k])
  {
    offset' := offset;
    var cell := 0;
    ghost var visited := 0;
    while cell < nCells
      invariant visited <= nCells && (visited < nCells ==> visited == cell) && (cell < nCells ==> visited == cell)
      invariant offset' == offset + visited * d
      invariant CopiedUpTo(weights, w, dofIndices, offset')
      invariant forall k :: offset + nCells * d <= k < weights.Length ==> weights[k] == old(weights[k])
      decreases nCells - visited
    {
      var nFilled := LanesFilled(cell, nCells, nLanes);
      MulAddDistrib(visited, nFilled, d);
      MulLe(visited + nFilled, nCells, d);
      offset' := CopyBatch(weights, w, dofIndices, offset', d, nFilled);
      visited := visited + nFilled;
      cell := cell + nLanes;
    }
  }

  /**
   * Step 2 of `setup_weights` without the compression: `weights[offset + i]`
   * is the weight of slot `offset + i`, scheme after scheme, cell after cell.
   */
  method CopyCellMajor(w: array<real>, dofIndices: seq<nat>, nDofsPerCellFine: seq<nat>, nCoarseCells: seq<nat>,
                       nLanes: nat)
    returns (weights: array<real>)
    requires nLanes > 0 && |nDofsPerCellFine| == |nCoarseCells|
    requires IndicesBelow(dofIndices, w.Length)
    requires SumFirst(BlockSizes(nDofsPerCellFine, nCoarseCells), |nCoarseCells|) <= |dofIndices|
    ensures weights.Length == |dofIndices|
    ensures var total := SumFirst(BlockSizes(nDofsPerCellFine, nCoarseCells), |nCoarseCells|);
      && (forall k :: 0 <= k < total ==> weights[k] == w[dofIndices[k]])
      && (forall k :: total <= k < |dofIndices| ==> weights[k] == 0.0)
  {
    ghost var sizes := BlockSizes(nDofsPerCellFine, nCoarseCells);
    weights := new real[|dofIndices|](_ => 0.0);
    var offset := 0;
    var s := 0;
    while s < |nCoarseCells|
      invariant 0 <= s <= |nCoarseCells|
      invariant offset == SumFirst(sizes, s)
      invariant CopiedUpTo(weights, w, dofIndices, offset)
      invariant forall k :: offset <= k < weights.Length ==> weights[k] == 0.0
    {
      SumFirstMono(sizes, s + 1, |sizes|);
      assert sizes[s] == nCoarseCells[s] * nDofsPerCellFine[s];
      offset := CopyScheme(weights, w, dofIndices, offset, nDofsPerCellFine[s], nCoarseCells[s], nLanes);
      s := s + 1;
    }
  }

  /**
   * `setup_weights`: nothing changes for a discontinuous fine element.
   * Otherwise every slot of `constraint_info_fine.dof_indices` that the
   * schemes cover receives the weight of its DoF, and the clean-up keeps
   * either these weights or the compressed ones. `compressedKept` says
   * whether `weights_compressed` survives the call: for a continuous
   * element exactly when it is FE_Q (`is_feq`) and the compression succeeds
   * on every cell (`everyCellCompresses`, the outcome of
   * `compute_weights_fe_q_dofs_by_entity`), in which case `weights` is
   * cleared; the contents of `weights_compressed` are not modelled.
   */
  method SetupWeights(fineElementIsContinuous: bool, isFeq: bool, everyCellCompresses: bool,
                      weightsBefore: seq<real>, dofIndices: seq<nat>,
                      constrainedLines: seq<nat>, nOwned: nat,
                      nDofsPerCellFine: seq<nat>, nCoarseCells: seq<nat>, nLanes: nat)
    returns (weights: seq<real>, compressedKept: bool)
    requires nLanes > 0 && |nDofsPerCellFine| == |nCoarseCells|
    requires IndicesBelow(dofIndices, nOwned)
    requires SumFirst(BlockSizes(nDofsPerCellFine, nCoarseCells), |nCoarseCells|) <= |dofIndices|
    ensures !fineElementIsContinuous ==> weights == weightsBefore && compressedKept
    ensures fineElementIsContinuous ==> (compressedKept <==> isFeq && everyCellCompresses)
    ensures fineElementIsContinuous && compressedKept ==> weights == []
    ensures fineElementIsContinuous && !compressedKept ==>
      var total := SumFirst(BlockSizes(nDofsPerCellFine, nCoarseCells), |nCoarseCells|);
      && |weights| == |dofIndices|
      && (forall k :: 0 <= k < total ==> weights[k] == Weight(dofIndices, constrainedLines, dofIndices[k]))
      && (forall k :: total <= k < |dofIndices| ==> weights[k] == 0.0)
  {
    if !fineElementIsContinuous {
      return weightsBefore, true;
    }
    var w := WeightVector(dofIndices, constrainedLines, nOwned);
    var a := CopyCellMajor(w, dofIndices, nDofsPerCellFine, nCoarseCells, nLanes);
    // `is_feq` stays set only while every cell compresses
    var feq := isFeq && everyCellCompresses;
    if feq {
      weights := [];
    } else {
      weights := a[..];
    }
    compressedKept := feq;
  }

  // ---------------------------------------------------------------------
  // What the weights achieve
  // ---------------------------------------------------------------------

  /** The sum of `weights[k]` over the slots k that hold DoF j. */
  function WeightOfCopies(weights: seq<real>, dofIndices: seq<nat>, j: nat): real
    requires |weights| == |dofIndices|
  {
    if |dofIndices| == 0 then 0.0
    else
      var last := |dofIndices| - 1;
      WeightOfCopies(weights[..last], dofIndices[..last], j) + (if dofIndices[last] == j then weights[last] else 0.0)
  }

  /** x added n times. */
  function Repeat(n: nat, x: real): (r: real)
  {
    if n == 0 then 0.0 else Repeat(n - 1, x) + x
  }

  lemma {:induction false} WeightOfEqualCopies(weights: seq<real>, dofIndices: seq<nat>, j: nat, x: real)
    requires |weights| == |dofIndices|
    requires forall k :: 0 <= k < |dofIndices| && dofIndices[k] == j ==> weights[k] == x
    ensures WeightOfCopies(weights, dofIndices, j) == Repeat(multiset(dofIndices)[j], x)
  {
    if |dofIndices| > 0 {
      var last := |dofIndices| - 1;
      WeightOfEqualCopies(weights[..last], dofIndices[..last], j, x);
      assert dofIndices == dofIndices[..last] + [dofIndices[last]];
    } else {
      assert dofIndices == [];
    }
  }

  lemma {:induction false} RepeatIsProduct(n: nat, x: real)
    ensures Repeat(n, x) == (n as real) * x
  {
    if n > 0 {
      RepeatIsProduct(n - 1, x);
      assert ((n - 1) as real) * x + x == (n as real) * x;
    }
  }

  lemma {:induction false} RepeatZero(n: nat)
    ensures Repeat(n, 0.0) == 0.0
  {
    if n > 0 {
      RepeatZero(n - 1);
    }
  }

  lemma InverseTimes(v: nat)
    requires v > 0
    ensures Repeat(v, Invert(v as real)) == 1.0
  {
    RepeatIsProduct(v, Invert(v as real));
  }

  /**
   * With every slot covered by the schemes, the copies of an unconstrained
   * DoF carry weights that add up to exactly 1, and those of a constrained
   * DoF add up to 0: the weighted sum over cells counts each DoF once.
   */
  lemma WeightsPartitionUnity(weights: seq<real>, dofIndices: seq<nat>, constrainedLines: seq<nat>, j: nat)
    requires |weights| == |dofIndices|
    requires forall k :: 0 <= k < |dofIndices| ==> weights[k] == Weight(dofIndices, constrainedLines, dofIndices[k])
    requires Valence(dofIndices, j) > 0
    ensures WeightOfCopies(weights, dofIndices, j) == if j in constrainedLines then 0.0 else 1.0
  {
    WeightOfEqualCopies(weights, dofIndices, j, Weight(dofIndices, constrainedLines, j));
    if j in constrainedLines {
      RepeatZero(Valence(dofIndices, j));
    } else {
      InverseTimes(Valence(dofIndices, j));
    }
  }

  /** Every slot reads the weight of a DoF of valence at least 1, never the undefined 1/0 of an unused DoF. */
  lemma SlotsHaveValence(dofIndices: seq<nat>, k: nat)
    requires k < |dofIndices|
    ensures Valence(dofIndices, dofIndices[k]) >= 1
  {
    assert dofIndices[k] in multiset(dofIndices);
  }
}
