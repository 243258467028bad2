/**
 * The vectorised cell loops of `prolongate_and_add_internal`,
 * `restrict_and_add_internal` and `interpolate`: schemes are visited in
 * order, the cells of a scheme in batches of `n_lanes`, the last batch
 * filling only `n_lanes_filled` lanes. The loop keeps `cell_counter`, the
 * position of the first cell of the batch among all coarse cells, and the
 * two weight cursors `weights` (one entry per fine DoF of a cell, advanced
 * lane by lane) and `weights_compressed` (advanced by 3^dim per batch).
 *
 * The numeric work on a batch (reading, the tensor-product kernels,
 * writing) is not modelled; a batch is recorded with the counters the
 * kernels receive.
 */
module CellLoop {
  import opened Arithmetic
  import opened SchemeSetup
  import opened ContinuityWeights
  import opened ChildIndexing

  /** Which weights the fine side multiplies by. */
  datatype Weighting = Unweighted | PerDof | Compressed(stride: nat)

  /**
   * The loop's inputs: `n_coarse_cells` and `n_dofs_per_cell_fine` of each
   * scheme, whether a scheme with cells is processed at all, `n_lanes`, and
   * the weighting.
   */
  datatype Setup = Setup(nCoarseCells: seq<nat>, nDofsPerCellFine: seq<nat>, active: seq<bool>,
                         nLanes: nat, weighting: Weighting)

  /**
   * One batch as the kernels see it: its scheme, its first cell within the
   * scheme, `cell_counter`, `n_lanes_filled`, and the two weight cursors.
   */
  datatype Batch = Batch(scheme: nat, cell: nat, counter: nat, lanes: nat, weights: nat, compressed: nat)

  /** Only the interpolation skips schemes, and it applies no weights. */
  predicate Valid(L: Setup)
  {
    |L.nDofsPerCellFine| == |L.nCoarseCells| && |L.active| == |L.nCoarseCells| && L.nLanes > 0
    && (L.weighting.Unweighted? || forall s :: 0 <= s < |L.active| ==> L.active[s])
  }

  /** The loop of `prolongate_and_add_internal` and `restrict_and_add_internal`. */
  function TransferLoop(nCoarseCells: seq<nat>, nDofsPerCellFine: seq<nat>, nLanes: nat,
                        fineElementIsContinuous: bool, nCompressed: nat, dim: nat): Setup
  {
    Setup(nCoarseCells, nDofsPerCellFine, seq(|nCoarseCells|, _ => true), nLanes,
          if !fineElementIsContinuous then Unweighted
          else if nCompressed > 0 then Compressed(Pow(3, dim))
          else PerDof)
  }

  /** The loop of `interpolate`: a scheme without DoFs on either side is skipped. */
  function InterpolationLoop(nCoarseCells: seq<nat>, nDofsPerCellFine: seq<nat>, nDofsPerCellCoarse: seq<nat>,
                             nLanes: nat): Setup
    requires |nDofsPerCellFine| == |nCoarseCells| && |nDofsPerCellCoarse| == |nCoarseCells|
  {
    Setup(nCoarseCells, nDofsPerCellFine,
          seq(|nCoarseCells|, s requires 0 <= s < |nCoarseCells| => nDofsPerCellFine[s] != 0 && nDofsPerCellCoarse[s] != 0),
          nLanes, Unweighted)
  }

  /** The entry of `weights` for cell `cell` of scheme s: the cell-major offset that `setup_weights` fills. */
  function WeightsAt(L: Setup, s: nat, cell: nat): nat
    requires Valid(L) && s < |L.nCoarseCells|
  {
    if L.weighting.PerDof? then SumFirst(BlockSizes(L.nDofsPerCellFine, L.nCoarseCells), s) + cell * L.nDofsPerCellFine[s]
    else 0
  }

  /** Scheme s yields no batch: it has no cells or it is skipped. */
  predicate Idle(L: Setup, s: nat)
    requires Valid(L) && s < |L.nCoarseCells|
  {
    !L.active[s] || L.nCoarseCells[s] == 0
  }

  predicate IdleBetween(L: Setup, lo: nat, hi: nat)
    requires Valid(L)
  {
    forall s :: lo <= s < hi ==> s < |L.nCoarseCells| && Idle(L, s)
  }

  /** A batch lies inside one processed scheme, starts at a multiple of `n_lanes` and is numbered cell-major. */
  predicate Placed(L: Setup, b: Batch)
    requires Valid(L)
  {
    b.scheme < |L.nCoarseCells| && L.active[b.scheme] && b.cell < L.nCoarseCells[b.scheme]
    && b.cell % L.nLanes == 0
    && b.lanes == LanesFilled(b.cell, L.nCoarseCells[b.scheme], L.nLanes)
    && b.counter == SumFirst(L.nCoarseCells, b.scheme) + b.cell
    && b.weights == WeightsAt(L, b.scheme, b.cell)
  }

  /** `weights_compressed` after k batches: k strides in. */
  function CompressedAfter(L: Setup, k: nat): nat
  {
    if L.weighting.Compressed? then k * L.weighting.stride else 0
  }

  /** The k-th batch of the loop reads `weights_compressed` k strides in. */
  predicate CompressedAt(L: Setup, b: Batch, k: nat)
  {
    b.compressed == CompressedAfter(L, k)
  }

  /** The batch ends its scheme. */
  predicate Ends(L: Setup, b: Batch)
    requires Valid(L)
  {
    b.scheme < |L.nCoarseCells| && b.cell + b.lanes == L.nCoarseCells[b.scheme]
  }

  /** b2 is the batch after b1: the next lanes of the same scheme, or the first of the next scheme that yields one. */
  predicate Follows(L: Setup, b1: Batch, b2: Batch)
    requires Valid(L)
  {
    (b2.scheme == b1.scheme && b2.cell == b1.cell + b1.lanes)
    || (b1.scheme < b2.scheme && Ends(L, b1) && b2.cell == 0 && IdleBetween(L, b1.scheme + 1, b2.scheme))
  }

  /** The batches of schemes 0..s-1, in loop order. */
  predicate Prefix(L: Setup, bs: seq<Batch>, s: nat)
    requires Valid(L)
  {
    (forall k :: 0 <= k < |bs| ==> Placed(L, bs[k]) && bs[k].scheme < s && CompressedAt(L, bs[k], k))
    && (forall k :: 0 <= k < |bs| - 1 ==> Follows(L, bs[k], bs[k + 1]))
    && (if |bs| == 0 then IdleBetween(L, 0, s)
        else (bs[0].cell == 0 && IdleBetween(L, 0, bs[0].scheme)
              && Ends(L, bs[|bs| - 1]) && IdleBetween(L, bs[|bs| - 1].scheme + 1, s)))
  }

  /** The whole loop. */
  predicate Schedule(L: Setup, bs: seq<Batch>)
    requires Valid(L)
  {
    Prefix(L, bs, |L.nCoarseCells|)
  }

  /** The first batches of scheme s, covering its cells below `done`: batch j starts at cell j * n_lanes. */
  predicate RunSoFar(L: Setup, s: nat, k0: nat, ns: seq<Batch>, done: nat)
    requires Valid(L)
  {
    (forall j :: 0 <= j < |ns| ==>
       ns[j].scheme == s && ns[j].cell == j * L.nLanes && Placed(L, ns[j]) && CompressedAt(L, ns[j], k0 + j))
    && (forall j :: 0 <= j < |ns| - 1 ==> ns[j + 1].cell == ns[j].cell + ns[j].lanes)
    && (if |ns| == 0 then done == 0 else ns[|ns| - 1].cell + ns[|ns| - 1].lanes == done)
  }

  /** All batches of one processed scheme with cells. */
  predicate SchemeRun(L: Setup, s: nat, k0: nat, ns: seq<Batch>)
    requires Valid(L)
  {
    s < |L.nCoarseCells| && |ns| > 0 && RunSoFar(L, s, k0, ns, L.nCoarseCells[s])
  }

  /** `weights` after all cells of schemes 0..s-1. */
  function WeightsAfter(L: Setup, s: nat): nat
    requires Valid(L) && s <= |L.nCoarseCells|
  {
    if L.weighting.PerDof? then SumFirst(BlockSizes(L.nDofsPerCellFine, L.nCoarseCells), s) else 0
  }

  /** The batch that starts at cell `|ns| * n_lanes` extends the run. */
  lemma ExtendRun(L: Setup, s: nat, k0: nat, ns: seq<Batch>, done: nat, b: Batch)
    requires Valid(L) && s < |L.nCoarseCells| && L.active[s]
    requires RunSoFar(L, s, k0, ns, done) && done == b.cell
    requires b.scheme == s && b.cell == |ns| * L.nLanes && b.cell < L.nCoarseCells[s]
    requires b.lanes == LanesFilled(b.cell, L.nCoarseCells[s], L.nLanes)
    requires b.counter == SumFirst(L.nCoarseCells, s) + b.cell && b.weights == WeightsAt(L, s, b.cell)
    requires CompressedAt(L, b, k0 + |ns|)
    ensures RunSoFar(L, s, k0, ns + [b], done + b.lanes)
  {
    DivModUnique(|ns|, 0, L.nLanes);
    assert Placed(L, b);
    var ns' := ns + [b];
    forall j | 0 <= j < |ns'|
      ensures ns'[j].scheme == s && ns'[j].cell == j * L.nLanes && Placed(L, ns'[j]) && CompressedAt(L, ns'[j], k0 + j)
    {
      if j < |ns| {
        assert ns'[j] == ns[j];
      }
    }
  }

  /** One batch of the per-DoF weighting: the lane loop advances `weights` by a cell's DoFs per lane. */
  method AdvanceLanes(w0: nat, d: nat, nFilled: nat) returns (w: nat)
    ensures w == w0 + nFilled * d
  {
    w := w0;
    var v := 0;
    while v < nFilled
      invariant v <= nFilled && w == w0 + v * d
    {
      MulAddDistrib(v, 1, d);
      w := w + d;
      v := v + 1;
    }
  }

  /** The cells of a scheme with `nCells` cells that the batches before `cell` cover. */
  function Covered(cell: nat, nCells: nat): nat
  {
    if cell < nCells then cell else nCells
  }

  /** The state of the inner loop of scheme s before the batch at `cell`. */
  predicate InScheme(L: Setup, s: nat, k0: nat, ns: seq<Batch>, cell: nat, counter: nat, w: nat, c: nat)
    requires Valid(L)
  {
    s < |L.nCoarseCells| && cell == |ns| * L.nLanes
    && RunSoFar(L, s, k0, ns, Covered(cell, L.nCoarseCells[s]))
    && counter == SumFirst(L.nCoarseCells, s) + Covered(cell, L.nCoarseCells[s])
    && w == WeightsAt(L, s, Covered(cell, L.nCoarseCells[s]))
    && c == CompressedAfter(L, k0 + |ns|)
  }

  /** One pass of the inner loop: read, weight and write one batch, then advance the counters. */
  method NextBatch(L: Setup, s: nat, k0: nat, ns: seq<Batch>, cell: nat, counter: nat, w: nat, c: nat)
    returns (ns': seq<Batch>, counter': nat, w': nat, c': nat)
    requires Valid(L) && InScheme(L, s, k0, ns, cell, counter, w, c)
    requires L.active[s] && cell < L.nCoarseCells[s]
    ensures InScheme(L, s, k0, ns', cell + L.nLanes, counter', w', c')
    ensures counter' > counter
  {
    var n, d := L.nCoarseCells[s], L.nDofsPerCellFine[s];
    var nFilled := LanesFilled(cell, n, L.nLanes);
    var b := Batch(s, cell, counter, nFilled, w, c);
    w', c' := w, c;
    if L.weighting.Compressed? {
      c' := c + L.weighting.stride;
      MulAddDistrib(k0 + |ns|, 1, L.weighting.stride);
    } else if L.weighting.PerDof? {
      w' := AdvanceLanes(w, d, nFilled);
      MulAddDistrib(cell, nFilled, d);
    }
    ExtendRun(L, s, k0, ns, cell, b);
    ns' := ns + [b];
    counter' := counter + nFilled;
    MulAddDistrib(|ns|, 1, L.nLanes);
  }

  /** The inner loop over the cells of one scheme, `cell += n_lanes`. */
  method SchemeBatches(L: Setup, s: nat, k0: nat, counter0: nat, w0: nat, c0: nat)
    returns (ns: seq<Batch>, counter: nat, w: nat, c: nat)
    requires Valid(L) && s < |L.nCoarseCells| && L.active[s] && L.nCoarseCells[s] > 0
    requires counter0 == SumFirst(L.nCoarseCells, s) && w0 == WeightsAt(L, s, 0) && c0 == CompressedAfter(L, k0)
    ensures SchemeRun(L, s, k0, ns)
    ensures counter == counter0 + L.nCoarseCells[s]
    ensures w == WeightsAt(L, s, L.nCoarseCells[s])
    ensures c == CompressedAfter(L, k0 + |ns|)
  {
    ns, counter, w, c := [], counter0, w0, c0;
    var cell: nat := 0;
    while cell < L.nCoarseCells[s]
      invariant InScheme(L, s, k0, ns, cell, counter, w, c)
      decreases SumFirst(L.nCoarseCells, s) + L.nCoarseCells[s] - counter
    {
      ns, counter, w, c := NextBatch(L, s, k0, ns, cell, counter, w, c);
      cell := cell + L.nLanes;
    }
  }

  /** Appending the batches of scheme s extends the loop's prefix by one scheme. */
  lemma AppendScheme(L: Setup, bs: seq<Batch>, s: nat, ns: seq<Batch>)
    requires Valid(L)
    requires Prefix(L, bs, s) && SchemeRun(L, s, |bs|, ns)
    ensures Prefix(L, bs + ns, s + 1)
  {
    var all := bs + ns;
    forall k | 0 <= k < |all|
      ensures Placed(L, all[k]) && all[k].scheme < s + 1 && CompressedAt(L, all[k], k)
    {
      if k >= |bs| {
        assert all[k] == ns[k - |bs|];
      }
    }
    forall k | 0 <= k < |all| - 1
      ensures Follows(L, all[k], all[k + 1])
    {
      if k + 1 < |bs| {
        assert all[k] == bs[k] && all[k + 1] == bs[k + 1];
      } else if k + 1 == |bs| {
        assert all[k] == bs[k] && all[k + 1] == ns[0];
      } else {
        assert all[k] == ns[k - |bs|] && all[k + 1] == ns[k + 1 - |bs|];
      }
    }
    assert all[|all| - 1] == ns[|ns| - 1];
    assert all[0] == if |bs| == 0 then ns[0] else bs[0];
  }

  /** What the counters advance by over scheme s. */
  lemma SchemeAdvance(L: Setup, s: nat)
    requires Valid(L) && s < |L.nCoarseCells|
    ensures SumFirst(L.nCoarseCells, s + 1) == SumFirst(L.nCoarseCells, s) + L.nCoarseCells[s]
    ensures WeightsAt(L, s, 0) == WeightsAfter(L, s)
    ensures WeightsAt(L, s, L.nCoarseCells[s]) == WeightsAfter(L, s + 1)
    ensures Idle(L, s) ==> WeightsAfter(L, s + 1) == WeightsAfter(L, s)
  {
    var sizes := BlockSizes(L.nDofsPerCellFine, L.nCoarseCells);
    assert sizes[s] == L.nDofsPerCellFine[s] * L.nCoarseCells[s];
  }

  /** A scheme without batches extends the prefix as it is. */
  lemma SkipScheme(L: Setup, bs: seq<Batch>, s: nat)
    requires Valid(L) && s < |L.nCoarseCells| && Idle(L, s)
    requires Prefix(L, bs, s)
    ensures Prefix(L, bs, s + 1)
  {
  }

  /** The state of the scheme loop after schemes 0..s-1. */
  predicate Through(L: Setup, s: nat, batches: seq<Batch>, cellCounter: nat, weights: nat, compressed: nat)
    requires Valid(L)
  {
    s <= |L.nCoarseCells| && Prefix(L, batches, s)
    && cellCounter == SumFirst(L.nCoarseCells, s)
    && weights == WeightsAfter(L, s)
    && compressed == CompressedAfter(L, |batches|)
  }

  /** One pass of the scheme loop: skip the scheme or run its batches. */
  method NextScheme(L: Setup, s: nat, batches: seq<Batch>, cellCounter: nat, weights: nat, compressed: nat)
    returns (batches': seq<Batch>, cellCounter': nat, weights': nat, compressed': nat)
    requires Valid(L) && s < |L.nCoarseCells| && Through(L, s, batches, cellCounter, weights, compressed)
    ensures Through(L, s + 1, batches', cellCounter', weights', compressed')
  {
    SchemeAdvance(L, s);
    batches', cellCounter', weights', compressed' := batches, cellCounter, weights, compressed;
    if L.nCoarseCells[s] == 0 {
      SkipScheme(L, batches, s);
    } else if !L.active[s] {
      cellCounter' := cellCounter + L.nCoarseCells[s];
      SkipScheme(L, batches, s);
    } else {
      var ns;
      ns, cellCounter', weights', compressed' := SchemeBatches(L, s, |batches|, cellCounter, weights, compressed);
      AppendScheme(L, batches, s, ns);
      batches' := batches + ns;
    }
  }

  /**
   * The scheme loop. `cellCounter` ends at the number of coarse cells, every
   * batch is placed and follows its predecessor, and the cursors end past
   * the last weights.
   */
  method RunLoop(L: Setup) returns (batches: seq<Batch>, cellCounter: nat, weights: nat, compressed: nat)
    requires Valid(L)
    ensures Schedule(L, batches)
    ensures cellCounter == SumFirst(L.nCoarseCells, |L.nCoarseCells|)
    ensures weights == WeightsAfter(L, |L.nCoarseCells|)
    ensures compressed == CompressedAfter(L, |batches|)
  {
    batches, cellCounter, weights, compressed := [], 0, 0, 0;
    var s := 0;
    while s < |L.nCoarseCells|
      invariant Through(L, s, batches, cellCounter, weights, compressed)
    {
      batches, cellCounter, weights, compressed := NextScheme(L, s, batches, cellCounter, weights, compressed);
      s := s + 1;
    }
  }

  // ---------------------------------------------------------------------
  // What the schedule guarantees
  // ---------------------------------------------------------------------

  /** Every scheme is processed: the loops of prolongation and restriction. */
  predicate AllActive(L: Setup)
  {
    forall s :: 0 <= s < |L.active| ==> L.active[s]
  }

  /** The batch processes cell c of scheme s. */
  predicate Visits(b: Batch, s: nat, c: nat)
  {
    b.scheme == s && b.cell <= c < b.cell + b.lanes
  }

  /** A batch fills between 1 and `n_lanes` lanes, stays inside its scheme and is partial only at the scheme's end. */
  lemma BatchShape(L: Setup, b: Batch)
    requires Valid(L) && Placed(L, b)
    ensures 1 <= b.lanes <= L.nLanes && b.cell + b.lanes <= L.nCoarseCells[b.scheme]
    ensures b.lanes < L.nLanes ==> Ends(L, b)
  {
  }

  /** Cell counters of schemes without cells do not move. */
  lemma {:induction false} SumFirstFlat(values: seq<nat>, lo: nat, hi: nat)
    requires lo <= hi <= |values|
    requires forall s :: lo <= s < hi ==> values[s] == 0
    ensures SumFirst(values, lo) == SumFirst(values, hi)
    decreases hi
  {
    if lo < hi {
      SumFirstFlat(values, lo, hi - 1);
    }
  }

  /** With every scheme processed, the idle schemes are those without cells. */
  lemma IdleFlat(L: Setup, lo: nat, hi: nat)
    requires Valid(L) && AllActive(L) && lo <= hi <= |L.nCoarseCells| && IdleBetween(L, lo, hi)
    ensures SumFirst(L.nCoarseCells, lo) == SumFirst(L.nCoarseCells, hi)
  {
    forall s | lo <= s < hi
      ensures L.nCoarseCells[s] == 0
    {
      assert Idle(L, s) && L.active[s];
    }
    SumFirstFlat(L.nCoarseCells, lo, hi);
  }

  /**
   * Consecutive batches hand the cell counter on: the next batch starts after
   * the lanes of this one, exactly so when every scheme is processed, and
   * after the cells of the skipped schemes in between otherwise.
   */
  lemma CountersAdvance(L: Setup, bs: seq<Batch>, k: nat)
    requires Valid(L) && Schedule(L, bs) && k + 1 < |bs|
    ensures bs[k].counter + bs[k].lanes <= bs[k + 1].counter
    ensures AllActive(L) ==> bs[k + 1].counter == bs[k].counter + bs[k].lanes
  {
    var b1, b2 := bs[k], bs[k + 1];
    assert Placed(L, b1) && Placed(L, b2) && Follows(L, b1, b2);
    if b1.scheme < b2.scheme {
      SumFirstMono(L.nCoarseCells, b1.scheme + 1, b2.scheme);
      if AllActive(L) {
        IdleFlat(L, b1.scheme + 1, b2.scheme);
      }
    }
  }

  /**
   * When every scheme is processed (`prolongate_and_add_internal`,
   * `restrict_and_add_internal`), the batches cut the cell counters
   * 0..n-1 into consecutive pieces, n being the number of coarse cells.
   */
  lemma CountersTile(L: Setup, bs: seq<Batch>)
    requires Valid(L) && AllActive(L) && Schedule(L, bs)
    ensures forall k :: 0 <= k < |bs| - 1 ==> bs[k + 1].counter == bs[k].counter + bs[k].lanes
    ensures |bs| == 0 <==> SumFirst(L.nCoarseCells, |L.nCoarseCells|) == 0
    ensures |bs| > 0 ==> (bs[0].counter == 0
      && bs[|bs| - 1].counter + bs[|bs| - 1].lanes == SumFirst(L.nCoarseCells, |L.nCoarseCells|))
  {
    forall k | 0 <= k < |bs| - 1
      ensures bs[k + 1].counter == bs[k].counter + bs[k].lanes
    {
      CountersAdvance(L, bs, k);
    }
    CountersEnds(L, bs);
  }

  /** The first batch starts at counter 0 and the last ends at the number of coarse cells. */
  lemma CountersEnds(L: Setup, bs: seq<Batch>)
    requires Valid(L) && AllActive(L) && Schedule(L, bs)
    ensures |bs| == 0 <==> SumFirst(L.nCoarseCells, |L.nCoarseCells|) == 0
    ensures |bs| > 0 ==> (bs[0].counter == 0
      && bs[|bs| - 1].counter + bs[|bs| - 1].lanes == SumFirst(L.nCoarseCells, |L.nCoarseCells|))
  {
    var S := |L.nCoarseCells|;
    if |bs| == 0 {
      IdleFlat(L, 0, S);
    } else {
      var first, last := bs[0], bs[|bs| - 1];
      assert Placed(L, first) && Placed(L, last);
      IdleFlat(L, 0, first.scheme);
      IdleFlat(L, last.scheme + 1, S);
      SumFirstMono(L.nCoarseCells, first.scheme + 1, S);
    }
  }

  /** Every cell of a processed scheme before batch k is visited by an earlier batch. */
  lemma {:induction false} EarlierCellsVisited(L: Setup, bs: seq<Batch>, k: nat, s: nat, c: nat) returns (j: nat)
    requires Valid(L) && Schedule(L, bs) && k < |bs|
    requires s < |L.nCoarseCells| && !Idle(L, s) && c < L.nCoarseCells[s]
    requires s < bs[k].scheme || (s == bs[k].scheme && c < bs[k].cell)
    ensures j < k && Visits(bs[j], s, c)
  {
    if k == 0 {
      assert false;
    }
    var prev := bs[k - 1];
    assert Placed(L, prev) && Follows(L, prev, bs[k]);
    if s == prev.scheme && prev.cell <= c {
      j := k - 1;
    } else {
      j := EarlierCellsVisited(L, bs, k - 1, s, c);
    }
  }

  /** Every cell of a processed scheme is visited by some batch. */
  lemma VisitingBatch(L: Setup, bs: seq<Batch>, s: nat, c: nat) returns (k: nat)
    requires Valid(L) && Schedule(L, bs)
    requires s < |L.nCoarseCells| && L.active[s] && c < L.nCoarseCells[s]
    ensures k < |bs| && Visits(bs[k], s, c)
  {
    assert !Idle(L, s);
    if |bs| == 0 {
      assert false;
    }
    var last := bs[|bs| - 1];
    assert Placed(L, last);
    if s == last.scheme && last.cell <= c {
      k := |bs| - 1;
    } else {
      k := EarlierCellsVisited(L, bs, |bs| - 1, s, c);
    }
  }

  /** Later batches have larger counters, so no cell is visited twice. */
  lemma {:induction false} CountersIncrease(L: Setup, bs: seq<Batch>, k1: nat, k2: nat)
    requires Valid(L) && Schedule(L, bs) && k1 < k2 < |bs|
    ensures bs[k1].counter + bs[k1].lanes <= bs[k2].counter
    decreases k2
  {
    CountersAdvance(L, bs, k2 - 1);
    if k1 < k2 - 1 {
      CountersIncrease(L, bs, k1, k2 - 1);
      assert Placed(L, bs[k2 - 1]);
    }
  }

  /**
   * The cells the loop hands to the kernels: cell c of scheme s is visited by
   * exactly one batch when the scheme is processed, and by none when it is
   * skipped.
   */
  lemma VisitedOnce(L: Setup, bs: seq<Batch>, s: nat, c: nat)
    requires Valid(L) && Schedule(L, bs)
    requires s < |L.nCoarseCells| && c < L.nCoarseCells[s]
    ensures L.active[s] ==> exists k :: 0 <= k < |bs| && Visits(bs[k], s, c)
    ensures !L.active[s] ==> forall k :: 0 <= k < |bs| ==> !Visits(bs[k], s, c)
    ensures forall k1, k2 :: 0 <= k1 < k2 < |bs| ==> !(Visits(bs[k1], s, c) && Visits(bs[k2], s, c))
  {
    if L.active[s] {
      var k := VisitingBatch(L, bs, s, c);
    }
    forall k1, k2 | 0 <= k1 < k2 < |bs|
      ensures !(Visits(bs[k1], s, c) && Visits(bs[k2], s, c))
    {
      CountersIncrease(L, bs, k1, k2);
      assert Placed(L, bs[k1]) && Placed(L, bs[k2]);
    }
  }

  /**
   * With per-DoF weights, lane v of a batch multiplies by the `weights`
   * entries of its own cell, the block that `setup_weights` copied for that
   * cell, and all lanes stay below the end of the weights.
   */
  lemma LaneWeights(L: Setup, b: Batch, v: nat)
    requires Valid(L) && L.weighting.PerDof? && Placed(L, b) && v < b.lanes
    ensures var sizes := BlockSizes(L.nDofsPerCellFine, L.nCoarseCells); var d := L.nDofsPerCellFine[b.scheme];
      && b.weights + v * d == SumFirst(sizes, b.scheme) + (b.cell + v) * d
      && b.weights + v * d + d <= SumFirst(sizes, |sizes|)
  {
    var d := L.nDofsPerCellFine[b.scheme];
    MulAddDistrib(b.cell, v, d);
    CellRangeInsideScheme(L.nDofsPerCellFine, L.nCoarseCells, b.scheme, b.cell + v);
  }
}
