/**
 * Construction bookkeeping of the transfer schemes.
 *
 * A scheme groups the coarse cells that share one (coarse element, fine
 * element) pair. The geometric transfer has two schemes: 0 for cells that
 * are not refined (identity prolongation) and 1 for refined cells (2^dim
 * children). The polynomial transfer has one scheme per distinct pair of
 * active fe indices, numbered in ascending pair order. Every processed cell
 * receives a slot `cell_no`; the slots of one scheme are consecutive, and
 * the DoF indices of scheme s start at the exclusive prefix sum of the DoF
 * counts of the schemes before it.
 */
module SchemeSetup {

  import opened Arithmetic
  import opened Wrappers

  /** `numbers::invalid_unsigned_int` (the active level) or a multigrid level. */
  datatype Level = Active | OnLevel(level: nat)

  // ---------------------------------------------------------------------
  // Counting over the sequence of scheme keys of the processed cells
  // ---------------------------------------------------------------------

  /** How many of the keys equal v. */
  function CountEq(keys: seq<nat>, v: nat): nat
  {
    if |keys| == 0 then 0 else CountEq(keys[..|keys| - 1], v) + (if keys[|keys| - 1] == v then 1 else 0)
  }

  /** How many of the keys are below v. */
  function CountBelow(keys: seq<nat>, v: nat): nat
  {
    if |keys| == 0 then 0 else CountBelow(keys[..|keys| - 1], v) + (if keys[|keys| - 1] < v then 1 else 0)
  }

  predicate KeysBelow(keys: seq<nat>, S: nat)
  {
    forall k :: 0 <= k < |keys| ==> keys[k] < S
  }

  /** values[0] + ... + values[i-1]. */
  function SumFirst(values: seq<nat>, i: nat): nat
    requires i <= |values|
  {
    if i == 0 then 0 else SumFirst(values, i - 1) + values[i - 1]
  }

  lemma {:induction false} CountBelowNext(keys: seq<nat>, v: nat)
    ensures CountBelow(keys, v + 1) == CountBelow(keys, v) + CountEq(keys, v)
  {
    if |keys| > 0 {
      CountBelowNext(keys[..|keys| - 1], v);
    }
  }

  lemma {:induction false} CountBelowMono(keys: seq<nat>, a: nat, b: nat)
    requires a <= b
    ensures CountBelow(keys, a) <= CountBelow(keys, b)
  {
    if |keys| > 0 {
      CountBelowMono(keys[..|keys| - 1], a, b);
    }
  }

  lemma {:induction false} CountBelowAll(keys: seq<nat>, S: nat)
    requires KeysBelow(keys, S)
    ensures CountBelow(keys, S) == |keys|
  {
    if |keys| > 0 {
      CountBelowAll(keys[..|keys| - 1], S);
    }
  }

  lemma {:induction false} CountBelowAtMost(keys: seq<nat>, v: nat)
    ensures CountBelow(keys, v) <= |keys|
  {
    if |keys| > 0 {
      CountBelowAtMost(keys[..|keys| - 1], v);
    }
  }

  /** A prefix has at most as many keys equal to v as the whole sequence. */
  lemma {:induction false} CountEqPrefix(keys: seq<nat>, j: nat, v: nat)
    requires j <= |keys|
    ensures CountEq(keys[..j], v) <= CountEq(keys, v)
    decreases |keys|
  {
    if j < |keys| {
      var init := keys[..|keys| - 1];
      assert keys[..j] == init[..j];
      CountEqPrefix(init, j, v);
    } else {
      assert keys[..j] == keys;
    }
  }

  /** The counts of keys 0 .. S-1 add up to the keys below S. */
  lemma {:induction false} SumOfCounts(keys: seq<nat>, counts: seq<nat>, S: nat)
    requires S <= |counts|
    requires forall s :: 0 <= s < |counts| ==> counts[s] == CountEq(keys, s)
    ensures SumFirst(counts, S) == CountBelow(keys, S)
  {
    if S == 0 {
      CountBelowZero(keys);
    } else {
      SumOfCounts(keys, counts, S - 1);
      CountBelowNext(keys, S - 1);
    }
  }

  lemma {:induction false} CountBelowZero(keys: seq<nat>)
    ensures CountBelow(keys, 0) == 0
  {
    if |keys| > 0 {
      CountBelowZero(keys[..|keys| - 1]);
    }
  }

  /**
   * The slot `cell_no` given to the k-th processed cell: the cells of the
   * schemes before its own, plus the earlier cells of its own scheme.
   */
  function Slot(keys: seq<nat>, k: nat): nat
    requires k < |keys|
  {
    CountBelow(keys, keys[k]) + CountEq(keys[..k], keys[k])
  }

  /** Slots lie in 0 .. |keys|-1 and no two cells share one. */
  lemma SlotsInjective(keys: seq<nat>, k1: nat, k2: nat)
    requires k1 < |keys| && k2 < |keys|
    ensures Slot(keys, k1) < |keys|
    ensures k1 != k2 ==> Slot(keys, k1) != Slot(keys, k2)
  {
    SlotBelowNextScheme(keys, k1);
    CountBelowAtMost(keys, keys[k1] + 1);
    if k1 != k2 {
      var a, b := keys[k1], keys[k2];
      if a < b {
        SlotBelowNextScheme(keys, k1);
        CountBelowMono(keys, a + 1, b);
      } else if b < a {
        SlotBelowNextScheme(keys, k2);
        CountBelowMono(keys, b + 1, a);
      } else if k1 < k2 {
        EarlierCellEarlierSlot(keys, k1, k2);
      } else {
        EarlierCellEarlierSlot(keys, k2, k1);
      }
    }
  }

  /** A cell's slot stays below the first slot of the next scheme. */
  lemma SlotBelowNextScheme(keys: seq<nat>, k: nat)
    requires k < |keys|
    ensures Slot(keys, k) < CountBelow(keys, keys[k] + 1)
  {
    var v := keys[k];
    assert keys[..k + 1][..k] == keys[..k];
    CountEqPrefix(keys, k + 1, v);
    CountBelowNext(keys, v);
  }

  /** Within one scheme, cells keep their processing order. */
  lemma EarlierCellEarlierSlot(keys: seq<nat>, k1: nat, k2: nat)
    requires k1 < k2 < |keys| && keys[k1] == keys[k2]
    ensures Slot(keys, k1) < Slot(keys, k2)
  {
    var v := keys[k1];
    var pre := keys[..k2];
    assert pre[..k1 + 1] == keys[..k1 + 1] && keys[..k1 + 1][..k1] == keys[..k1];
    CountEqPrefix(pre, k1 + 1, v);
  }

  /** The slots of the first d processed cells. */
  function SlotsUpTo(keys: seq<nat>, d: nat): (r: seq<nat>)
    requires d <= |keys|
    ensures |r| == d
  {
    seq(d, t requires 0 <= t < d => Slot(keys, t))
  }

  lemma SlotsSnoc(keys: seq<nat>, d: nat)
    requires d < |keys|
    ensures SlotsUpTo(keys, d + 1) == SlotsUpTo(keys, d) + [Slot(keys, d)]
  {
  }

  // ---------------------------------------------------------------------
  // Exclusive prefix sums (n_dof_indices_fine, n_dof_indices_coarse, cell_no)
  // ---------------------------------------------------------------------

  /**
   * The two loops of the source: entry i+1 first receives values[i], then
   * the running sum is accumulated in place. Entry 0 stays 0.
   */
  method PrefixSums(values: seq<nat>) returns (ps: seq<nat>)
    ensures |ps| == |values| + 1
    ensures forall i :: 0 <= i <= |values| ==> ps[i] == SumFirst(values, i)
  {
    var a := new nat[|values| + 1](_ => 0);
    var i := 0;
    while i < |values|
      invariant 0 <= i <= |values|
      invariant a[0] == 0
      invariant forall t :: 1 <= t <= i ==> a[t] == values[t - 1]
    {
      a[i + 1] := values[i];
      i := i + 1;
    }
    i := 0;
    while i < |values|
      invariant 0 <= i <= |values|
      invariant forall t {:trigger a[t]} :: 0 <= t <= i ==> a[t] == SumFirst(values, t)
      invariant forall t {:trigger a[t]} :: i < t <= |values| ==> a[t] == values[t - 1]
    {
      a[i + 1] := a[i + 1] + a[i];
      i := i + 1;
    }
    ps := a[..];
  }

  lemma {:induction false} SumFirstMono(values: seq<nat>, i: nat, j: nat)
    requires i <= j <= |values|
    ensures SumFirst(values, i) <= SumFirst(values, j)
    decreases j
  {
    if i < j {
      SumFirstMono(values, i, j - 1);
    }
  }

  /** Per-scheme DoF block sizes: values[s] = n_dofs_per_cell[s] * n_coarse_cells[s]. */
  function BlockSizes(nDofsPerCell: seq<nat>, nCoarseCells: seq<nat>): (r: seq<nat>)
    requires |nDofsPerCell| == |nCoarseCells|
    ensures |r| == |nDofsPerCell|
  {
    seq(|nDofsPerCell|, s requires 0 <= s < |nDofsPerCell| => nDofsPerCell[s] * nCoarseCells[s])
  }

  /**
   * The DoF range of cell j of scheme s, starting at the scheme's prefix sum
   * plus j cells, lies inside the scheme's block, so the ranges of different
   * (scheme, cell) pairs never overlap and all lie below the total.
   */
  lemma CellRangeInsideScheme(nDofsPerCell: seq<nat>, nCoarseCells: seq<nat>, s: nat, j: nat)
    requires |nDofsPerCell| == |nCoarseCells| && s < |nDofsPerCell| && j < nCoarseCells[s]
    ensures var sizes := BlockSizes(nDofsPerCell, nCoarseCells);
      && SumFirst(sizes, s) + j * nDofsPerCell[s] + nDofsPerCell[s] <= SumFirst(sizes, s + 1)
      && SumFirst(sizes, s + 1) <= SumFirst(sizes, |sizes|)
  {
    var sizes := BlockSizes(nDofsPerCell, nCoarseCells);
    MulStrict(j, nCoarseCells[s], nDofsPerCell[s]);
    assert sizes[s] == nCoarseCells[s] * nDofsPerCell[s];
    SumFirstMono(sizes, s + 1, |sizes|);
  }

  // ---------------------------------------------------------------------
  // Geometric transfer: schemes 0 and 1
  // ---------------------------------------------------------------------

  /**
   * The scheme keys that `process_cells` produces: on the active level each
   * coarse cell is visited, a refined one through its children (scheme 1)
   * and an unrefined one directly (scheme 0); on a multigrid level only the
   * refined cells are visited.
   */
  function GeometricKeys(refined: seq<bool>, level: Level): (keys: seq<nat>)
    ensures KeysBelow(keys, 2)
  {
    if |refined| == 0 then []
    else
      var init := GeometricKeys(refined[..|refined| - 1], level);
      if refined[|refined| - 1] then init + [1]
      else if level.Active? then init + [0]
      else init
  }

  lemma {:induction false} GeometricKeysLength(refined: seq<bool>, level: Level)
    ensures level.Active? ==> |GeometricKeys(refined, level)| == |refined|
    ensures level.OnLevel? ==> CountEq(GeometricKeys(refined, level), 0) == 0
  {
    if |refined| > 0 {
      GeometricKeysLength(refined[..|refined| - 1], level);
    }
  }

  /**
   * Counting the coarse cells of each geometric scheme: the non-refined
   * callback counts into scheme 0, the refined one into scheme 1 for child 0
   * only.
   */
  method CountGeometricCells(refined: seq<bool>, level: Level, maxChildren: nat)
    returns (nCoarseCells0: nat, nCoarseCells1: nat)
    requires maxChildren > 0
    ensures nCoarseCells0 == CountEq(GeometricKeys(refined, level), 0)
    ensures nCoarseCells1 == CountEq(GeometricKeys(refined, level), 1)
  {
    nCoarseCells0, nCoarseCells1 := 0, 0;
    var k := 0;
    while k < |refined|
      invariant 0 <= k <= |refined|
      invariant nCoarseCells0 == CountEq(GeometricKeys(refined[..k], level), 0)
      invariant nCoarseCells1 == CountEq(GeometricKeys(refined[..k], level), 1)
    {
      assert refined[..k + 1][..k] == refined[..k];
      if refined[k] {
        var c := 0;
        ghost var before := nCoarseCells1;
        while c < maxChildren
          invariant 0 <= c <= maxChildren
          invariant nCoarseCells1 == if c == 0 then before else before + 1
        {
          if c == 0 {
            nCoarseCells1 := nCoarseCells1 + 1;
          }
          c := c + 1;
        }
      } else if level.Active? {
        nCoarseCells0 := nCoarseCells0 + 1;
      }
      k := k + 1;
    }
    assert refined[..k] == refined;
  }

  /**
   * On the active level every coarse cell is counted exactly once; on a
   * multigrid level scheme 0 is empty and scheme 1 holds the refined cells.
   */
  lemma GeometricCountsCoverCells(refined: seq<bool>, level: Level)
    ensures var keys := GeometricKeys(refined, level);
      && CountEq(keys, 0) + CountEq(keys, 1) == |keys|
      && (level.Active? ==> |keys| == |refined|)
      && (level.OnLevel? ==> CountEq(keys, 0) == 0)
  {
    var keys := GeometricKeys(refined, level);
    GeometricKeysLength(refined, level);
    CountBelowNext(keys, 0);
    CountBelowNext(keys, 1);
    CountBelowZero(keys);
    CountBelowAll(keys, 2);
  }

  /**
   * The slots of the geometric transfer: `cell_no_0` starts at 0 and
   * advances per unrefined cell; `cell_no_1` starts at the number of
   * unrefined cells and advances after the last child of a refined cell.
   */
  method GeometricCellSlots(refined: seq<bool>, level: Level, maxChildren: nat) returns (slots: seq<nat>)
    requires maxChildren > 0
    ensures var keys := GeometricKeys(refined, level);
      |slots| == |keys| && forall k :: 0 <= k < |keys| ==> slots[k] == Slot(keys, k)
  {
    var nCoarseCells0, nCoarseCells1 := CountGeometricCells(refined, level, maxChildren);
    ghost var keys := GeometricKeys(refined, level);
    CountBelowZero(keys);
    CountBelowNext(keys, 0);
    var cellNo0, cellNo1 := 0, nCoarseCells0;
    slots := [];
    ghost var done := 0;
    var k := 0;
    while k < |refined|
      invariant 0 <= k <= |refined|
      invariant done == |GeometricKeys(refined[..k], level)| <= |keys|
      invariant keys[..done] == GeometricKeys(refined[..k], level)
      invariant cellNo0 == CountEq(keys[..done], 0) && cellNo1 == nCoarseCells0 + CountEq(keys[..done], 1)
      invariant slots == SlotsUpTo(keys, done)
    {
      GeometricKeysAdvance(refined, level, k);
      if refined[k] {
        assert Slot(keys, done) == cellNo1;
        SlotsSnoc(keys, done);
        slots, cellNo1 := VisitChildren(slots, cellNo1, maxChildren);
        done := done + 1;
      } else if level.Active? {
        assert Slot(keys, done) == cellNo0;
        SlotsSnoc(keys, done);
        slots := slots + [cellNo0];
        cellNo0 := cellNo0 + 1;
        done := done + 1;
      }
      k := k + 1;
    }
    assert refined[..k] == refined;
    assert keys[..done] == keys;
  }

  /**
   * The child loop of a refined cell: the slot is taken, and `cell_no_1`
   * advanced, once, after the last child.
   */
  method VisitChildren(slots: seq<nat>, cellNo1: nat, maxChildren: nat) returns (slots': seq<nat>, cellNo1': nat)
    requires maxChildren > 0
    ensures slots' == slots + [cellNo1] && cellNo1' == cellNo1 + 1
  {
    slots', cellNo1' := slots, cellNo1;
    var c := 0;
    while c < maxChildren
      invariant 0 <= c <= maxChildren
      invariant c < maxChildren ==> slots' == slots && cellNo1' == cellNo1
      invariant c == maxChildren ==> slots' == slots + [cellNo1] && cellNo1' == cellNo1 + 1
    {
      if c + 1 == maxChildren {
        slots' := slots' + [cellNo1'];
        cellNo1' := cellNo1' + 1;
      }
      c := c + 1;
    }
  }

  /** One step of the cell loop of GeometricCellSlots, on the keys of the whole sequence. */
  lemma GeometricKeysAdvance(refined: seq<bool>, level: Level, k: nat)
    requires k < |refined|
    ensures var keys := GeometricKeys(refined, level);
      var pre := GeometricKeys(refined[..k], level);
      var d := |pre|;
      d <= |keys| && keys[..d] == pre
      && (refined[k] || level.Active? ==>
            d < |keys| && keys[d] == (if refined[k] then 1 else 0)
            && GeometricKeys(refined[..k + 1], level) == keys[..d + 1]
            && CountEq(keys[..d + 1], 0) == CountEq(pre, 0) + (if refined[k] then 0 else 1)
            && CountEq(keys[..d + 1], 1) == CountEq(pre, 1) + (if refined[k] then 1 else 0))
      && (!refined[k] && !level.Active? ==> GeometricKeys(refined[..k + 1], level) == pre)
  {
    var keys := GeometricKeys(refined, level);
    var pre := GeometricKeys(refined[..k], level);
    GeometricKeysStep(refined, level, k);
    GeometricKeysPrefix(refined, level, k);
    GeometricKeysPrefix(refined, level, k + 1);
    if refined[k] || level.Active? {
      var d := |pre|;
      assert keys[..d + 1][..d] == pre;
    }
  }

  /** One more coarse cell adds at most one key. */
  lemma GeometricKeysStep(refined: seq<bool>, level: Level, k: nat)
    requires k < |refined|
    ensures GeometricKeys(refined[..k + 1], level)
         == GeometricKeys(refined[..k], level)
            + (if refined[k] then [1] else if level.Active? then [0] else [])
  {
    assert refined[..k + 1][..k] == refined[..k];
  }

  /** The keys of a prefix of the cells are a prefix of the keys. */
  lemma {:induction false} GeometricKeysPrefix(refined: seq<bool>, level: Level, k: nat)
    requires k <= |refined|
    ensures var pre := GeometricKeys(refined[..k], level);
      |pre| <= |GeometricKeys(refined, level)| && pre == GeometricKeys(refined, level)[..|pre|]
    decreases |refined|
  {
    if k < |refined| {
      var init := refined[..|refined| - 1];
      assert refined[..k] == init[..k];
      GeometricKeysPrefix(init, level, k);
    } else {
      assert refined[..k] == refined;
    }
  }

  // ---------------------------------------------------------------------
  // Polynomial transfer: one scheme per (coarse fe index, fine fe index)
  // ---------------------------------------------------------------------

  /** The key of `fe_index_pairs`: (coarse active fe index, fine active fe index). */
  datatype FePair = FePair(coarse: nat, fine: nat)

  /** The order of `std::pair`: first component, then second. */
  predicate PairLess(a: FePair, b: FePair)
  {
    a.coarse < b.coarse || (a.coarse == b.coarse && a.fine < b.fine)
  }

  predicate StrictlyAscending(keys: seq<FePair>)
  {
    forall i, j :: 0 <= i < j < |keys| ==> PairLess(keys[i], keys[j])
  }

  /** `fe_index_pairs.emplace(p, 0)`: insert p at its ordered position unless present. */
  function Emplace(keys: seq<FePair>, p: FePair): (r: seq<FePair>)
    requires StrictlyAscending(keys)
    ensures StrictlyAscending(r)
    ensures forall q :: q in r <==> q in keys || q == p
    decreases |keys|
  {
    if |keys| == 0 then [p]
    else if keys[0] == p then keys
    else if PairLess(p, keys[0]) then [p] + keys
    else
      var rest := Emplace(keys[1..], p);
      assert forall q :: q in keys[1..] ==> PairLess(keys[0], q) by {
        forall q | q in keys[1..] ensures PairLess(keys[0], q) {
          var j :| 0 <= j < |keys[1..]| && keys[1..][j] == q;
          assert keys[j + 1] == q;
        }
      }
      [keys[0]] + rest
  }

  /**
   * The ordered map of the polynomial transfer: collect the pairs of all
   * processed cells, number them in ascending order, and count the coarse
   * cells of each scheme.
   */
  method GroupByFePair(cells: seq<FePair>) returns (keys: seq<FePair>, schemeOf: seq<nat>, nCoarseCells: seq<nat>)
    ensures StrictlyAscending(keys)
    ensures forall p :: p in keys <==> p in cells
    ensures |schemeOf| == |cells| && KeysBelow(schemeOf, |keys|)
    ensures forall k :: 0 <= k < |cells| ==> keys[schemeOf[k]] == cells[k]
    ensures |nCoarseCells| == |keys|
    ensures forall s :: 0 <= s < |keys| ==> nCoarseCells[s] == CountEq(schemeOf, s)
  {
    keys := [];
    var k := 0;
    while k < |cells|
      invariant 0 <= k <= |cells|
      invariant StrictlyAscending(keys)
      invariant forall p :: p in keys <==> p in cells[..k]
    {
      assert cells[..k + 1] == cells[..k] + [cells[k]];
      keys := Emplace(keys, cells[k]);
      k := k + 1;
    }
    assert cells[..k] == cells;
    schemeOf := seq(|cells|, k requires 0 <= k < |cells| => Position(keys, cells[k]));
    var counts := new nat[|keys|](_ => 0);
    k := 0;
    while k < |cells|
      invariant 0 <= k <= |cells|
      invariant forall s :: 0 <= s < |keys| ==> counts[s] == CountEq(schemeOf[..k], s)
    {
      assert schemeOf[..k + 1][..k] == schemeOf[..k];
      counts[schemeOf[k]] := counts[schemeOf[k]] + 1;
      k := k + 1;
    }
    assert schemeOf[..k] == schemeOf;
    nCoarseCells := counts[..];
  }

  /**
   * Every scheme of the polynomial transfer has at least one coarse cell, and
   * the counts add up to the number of processed cells.
   */
  lemma SchemeCountsCoverCells(cells: seq<FePair>, keys: seq<FePair>, schemeOf: seq<nat>, nCoarseCells: seq<nat>)
    requires StrictlyAscending(keys)
    requires forall p :: p in keys <==> p in cells
    requires |schemeOf| == |cells| && KeysBelow(schemeOf, |keys|)
    requires forall k :: 0 <= k < |cells| ==> keys[schemeOf[k]] == cells[k]
    requires |nCoarseCells| == |keys|
    requires forall s :: 0 <= s < |keys| ==> nCoarseCells[s] == CountEq(schemeOf, s)
    ensures forall s :: 0 <= s < |keys| ==> nCoarseCells[s] >= 1
    ensures SumFirst(nCoarseCells, |keys|) == |cells|
  {
    forall s | 0 <= s < |keys| ensures nCoarseCells[s] >= 1 {
      assert keys[s] in cells;
      var k :| 0 <= k < |cells| && cells[k] == keys[s];
      assert schemeOf[k] == s;
      CountEqPositive(schemeOf, k);
    }
    SumOfCounts(schemeOf, nCoarseCells, |keys|);
    CountBelowAll(schemeOf, |keys|);
  }

  lemma {:induction false} CountEqPositive(keys: seq<nat>, k: nat)
    requires k < |keys|
    ensures CountEq(keys, keys[k]) >= 1
  {
    assert keys[..k + 1][..k] == keys[..k];
    CountEqPrefix(keys, k + 1, keys[k]);
  }

  /**
   * The slots of the polynomial transfer: `cell_no[s+1]` receives scheme s's
   * cell count, the prefix sum gives each scheme's first slot, and every
   * processed cell takes `cell_no[scheme]` and advances it.
   */
  method PolynomialCellSlots(schemeOf: seq<nat>, nCoarseCells: seq<nat>) returns (slots: seq<nat>, nCells: nat)
    requires KeysBelow(schemeOf, |nCoarseCells|)
    requires forall s :: 0 <= s < |nCoarseCells| ==> nCoarseCells[s] == CountEq(schemeOf, s)
    ensures nCells == |schemeOf|
    ensures |slots| == |schemeOf| && forall k :: 0 <= k < |schemeOf| ==> slots[k] == Slot(schemeOf, k)
  {
    var S := |nCoarseCells|;
    var start := PrefixSums(nCoarseCells);
    forall s | 0 <= s <= S ensures start[s] == CountBelow(schemeOf, s) {
      SumOfCounts(schemeOf, nCoarseCells, s);
    }
    CountBelowAll(schemeOf, S);
    nCells := start[S];
    var cellNo := new nat[S + 1](i requires 0 <= i <= S => start[i]);
    slots := [];
    var k := 0;
    while k < |schemeOf|
      invariant 0 <= k <= |schemeOf| && |slots| == k
      invariant forall s :: 0 <= s < S ==> cellNo[s] == CountBelow(schemeOf, s) + CountEq(schemeOf[..k], s)
      invariant forall t :: 0 <= t < k ==> slots[t] == Slot(schemeOf, t)
    {
      assert schemeOf[..k + 1][..k] == schemeOf[..k];
      var fePairNo := schemeOf[k];
      slots := slots + [cellNo[fePairNo]];
      cellNo[fePairNo] := cellNo[fePairNo] + 1;
      k := k + 1;
    }
  }

  /**
   * The per-scheme sizes: DoFs per coarse and fine cell and the element
   * degrees, read from the two elements of the scheme's pair.
   */
  datatype SchemeSizes = SchemeSizes(nDofsPerCellCoarse: nat, nDofsPerCellFine: nat, degreeCoarse: nat, degreeFine: nat)

  method PolynomialSchemeSizes(keys: seq<FePair>, coarseDofs: seq<nat>, fineDofs: seq<nat>,
                               coarseDegree: seq<nat>, fineDegree: seq<nat>)
    returns (sizes: seq<SchemeSizes>)
    requires |coarseDofs| == |coarseDegree| && |fineDofs| == |fineDegree|
    requires forall s :: 0 <= s < |keys| ==> keys[s].coarse < |coarseDofs| && keys[s].fine < |fineDofs|
    ensures |sizes| == |keys|
    ensures forall s :: 0 <= s < |keys| ==>
      sizes[s] == SchemeSizes(coarseDofs[keys[s].coarse], fineDofs[keys[s].fine],
                              coarseDegree[keys[s].coarse], fineDegree[keys[s].fine])
  {
    sizes := [];
    var s := 0;
    while s < |keys|
      invariant 0 <= s <= |keys| && |sizes| == s
      invariant forall t :: 0 <= t < s ==>
        sizes[t] == SchemeSizes(coarseDofs[keys[t].coarse], fineDofs[keys[t].fine],
                                coarseDegree[keys[t].coarse], fineDegree[keys[t].fine])
    {
      var p := keys[s];
      sizes := sizes + [SchemeSizes(coarseDofs[p.coarse], fineDofs[p.fine], coarseDegree[p.coarse], fineDegree[p.fine])];
      s := s + 1;
    }
  }
}
