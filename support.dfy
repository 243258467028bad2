// Support-point tables of the non-nested two-level transfer: the
// de-duplicated (support point, DoF) pairs, their stable sort by support
// point and the compressed-row (CRS) layout built from them; the inverse map
// from owned support points to CRS rows; the averaging over point segments;
// and the scatter and gather through `n_components * j + c`.
//
// Single rank: the DoF partitioner's local numbering is the global one, so
// `dof_processed` is indexed by the global DoF index.

module SupportPoints {
  import opened Arithmetic

  // ---------------------------------------------------------------------
  // Collecting the unconstrained DoFs of each owned support point
  // ---------------------------------------------------------------------

  /**
   * A support point of a cell: its index in the support-point numbering and,
   * per vector component, the global index of the DoF located there (after
   * the lexicographic conversion, which is an input here).
   */
  datatype SupportPoint = SupportPoint(index: nat, dofs: seq<nat>)

  /** The support points of one active cell; `relevant` = locally owned or ghost. */
  datatype CellSupport = CellSupport(relevant: bool, points: seq<SupportPoint>)

  /** One entry `(local support point index, global DoF index)` of `support_point_dofs`. */
  datatype PointDof = PointDof(key: nat, dof: nat)

  /** The locally owned range `[first, first + size)` of the support-point partitioner. */
  predicate InLocalRange(first: nat, size: nat, g: nat)
  {
    first <= g < first + size
  }

  function DofsOf(s: seq<PointDof>): (r: seq<nat>)
    ensures |r| == |s| && forall i :: 0 <= i < |s| ==> r[i] == s[i].dof
  {
    seq(|s|, i requires 0 <= i < |s| => s[i].dof)
  }

  /** The pairs one support point offers, one per component, in component order. */
  function Components(key: nat, dofs: seq<nat>): (r: seq<PointDof>)
    ensures |r| == |dofs| && forall c :: 0 <= c < |dofs| ==> r[c] == PointDof(key, dofs[c])
  {
    seq(|dofs|, c requires 0 <= c < |dofs| => PointDof(key, dofs[c]))
  }

  function PointCandidates(p: SupportPoint, first: nat, size: nat): seq<PointDof>
  {
    if InLocalRange(first, size, p.index) then Components(p.index - first, p.dofs) else []
  }

  function PointsCandidates(points: seq<SupportPoint>, first: nat, size: nat): seq<PointDof>
  {
    if |points| == 0 then []
    else
      var n := |points| - 1;
      PointsCandidates(points[..n], first, size) + PointCandidates(points[n], first, size)
  }

  function CellCandidates(cell: CellSupport, first: nat, size: nat): seq<PointDof>
  {
    if cell.relevant then PointsCandidates(cell.points, first, size) else []
  }

  /** Every pair the cell loop looks at, in the order it looks at them. */
  function Candidates(cells: seq<CellSupport>, first: nat, size: nat): seq<PointDof>
  {
    if |cells| == 0 then []
    else
      var n := |cells| - 1;
      Candidates(cells[..n], first, size) + CellCandidates(cells[n], first, size)
  }

  /**
   * The pairs that survive: a pair is kept when its DoF has not been seen
   * before (`dof_processed`) and is not constrained. A constrained DoF is
   * still marked as processed.
   */
  function Kept(s: seq<PointDof>, constrained: set<nat>): seq<PointDof>
  {
    if |s| == 0 then []
    else
      var n := |s| - 1;
      Kept(s[..n], constrained)
      + (if s[n].dof !in DofSet(s[..n]) && s[n].dof !in constrained then [s[n]] else [])
  }

  /** The DoFs of a sequence of pairs, as a set. */
  function DofSet(s: seq<PointDof>): set<nat>
  {
    if |s| == 0 then {} else DofSet(s[..|s| - 1]) + {s[|s| - 1].dof}
  }

  /** `dof_processed[d]` holds exactly for the DoFs met so far. */
  predicate Marks(processed: seq<bool>, seen: seq<PointDof>)
  {
    forall d :: 0 <= d < |processed| ==> (processed[d] <==> d in DofSet(seen))
  }

  predicate DofsBelow(dofs: seq<nat>, n: nat)
  {
    forall c :: 0 <= c < |dofs| ==> dofs[c] < n
  }

  predicate CellsBelow(cells: seq<CellSupport>, n: nat)
  {
    forall i, j :: 0 <= i < |cells| && 0 <= j < |cells[i].points| ==> DofsBelow(cells[i].points[j].dofs, n)
  }

  lemma DofsSnoc(s: seq<PointDof>, x: PointDof)
    ensures DofsOf(s + [x]) == DofsOf(s) + [x.dof]
  {
    assert forall i :: 0 <= i < |s| ==> DofsOf(s + [x])[i] == DofsOf(s)[i];
  }

  lemma KeptSnoc(s: seq<PointDof>, x: PointDof, constrained: set<nat>)
    ensures Kept(s + [x], constrained)
      == Kept(s, constrained) + (if x.dof !in DofSet(s) && x.dof !in constrained then [x] else [])
    ensures DofSet(s + [x]) == DofSet(s) + {x.dof}
  {
    assert (s + [x])[..|s|] == s;
  }

  /** Marking one more DoF as processed. */
  lemma MarkStep(processed: seq<bool>, seen: seq<PointDof>, x: PointDof)
    requires Marks(processed, seen) && x.dof < |processed|
    ensures processed[x.dof] <==> x.dof in DofSet(seen)
    ensures Marks(processed[x.dof := true], seen + [x])
    ensures processed[x.dof] ==> Marks(processed, seen + [x])
  {
    KeptSnoc(seen, x, {});
  }

  /** The component loop of one owned support point (`support_point_dofs_comp`). */
  method CollectPoint(key: nat, dofs: seq<nat>, constrained: set<nat>, processed: seq<bool>,
                      ghost seen: seq<PointDof>)
    returns (comp: seq<PointDof>, processed': seq<bool>)
    requires Marks(processed, seen) && DofsBelow(dofs, |processed|)
    ensures |processed'| == |processed|
    ensures Marks(processed', seen + Components(key, dofs))
    ensures Kept(seen + Components(key, dofs), constrained) == Kept(seen, constrained) + comp
  {
    comp := [];
    processed' := processed;
    var c := 0;
    assert seen + Components(key, dofs[..0]) == seen;
    while c < |dofs|
      invariant 0 <= c <= |dofs| && |processed'| == |processed|
      invariant Marks(processed', seen + Components(key, dofs[..c]))
      invariant Kept(seen + Components(key, dofs[..c]), constrained) == Kept(seen, constrained) + comp
    {
      ghost var before := seen + Components(key, dofs[..c]);
      var x := PointDof(key, dofs[c]);
      assert seen + Components(key, dofs[..c + 1]) == before + [x];
      KeptSnoc(before, x, constrained);
      MarkStep(processed', before, x);
      if !processed'[dofs[c]] {
        if dofs[c] !in constrained {
          comp := comp + [x];
        }
        processed' := processed'[dofs[c] := true];
      }
      c := c + 1;
    }
    assert dofs[..c] == dofs;
  }

  /** One support point: only a point in the local range contributes. */
  method CollectLocalPoint(p: SupportPoint, first: nat, size: nat, constrained: set<nat>,
                           processed: seq<bool>, ghost seen: seq<PointDof>)
    returns (comp: seq<PointDof>, processed': seq<bool>)
    requires Marks(processed, seen) && DofsBelow(p.dofs, |processed|)
    ensures |processed'| == |processed|
    ensures Marks(processed', seen + PointCandidates(p, first, size))
    ensures Kept(seen + PointCandidates(p, first, size), constrained) == Kept(seen, constrained) + comp
  {
    if InLocalRange(first, size, p.index) {
      comp, processed' := CollectPoint(p.index - first, p.dofs, constrained, processed, seen);
    } else {
      assert seen + PointCandidates(p, first, size) == seen;
      comp, processed' := [], processed;
    }
  }

  lemma PointsCandidatesSnoc(points: seq<SupportPoint>, i: nat, first: nat, size: nat)
    requires i < |points|
    ensures PointsCandidates(points[..i + 1], first, size)
      == PointsCandidates(points[..i], first, size) + PointCandidates(points[i], first, size)
  {
    assert points[..i + 1][..i] == points[..i];
  }

  lemma CandidatesSnoc(cells: seq<CellSupport>, i: nat, first: nat, size: nat)
    requires i < |cells|
    ensures Candidates(cells[..i + 1], first, size)
      == Candidates(cells[..i], first, size) + CellCandidates(cells[i], first, size)
  {
    assert cells[..i + 1][..i] == cells[..i];
  }

  /** The support-point loop of one cell; only points in the local range contribute. */
  method CollectCell(points: seq<SupportPoint>, first: nat, size: nat, constrained: set<nat>,
                     processed: seq<bool>, ghost seen: seq<PointDof>)
    returns (added: seq<PointDof>, processed': seq<bool>)
    requires Marks(processed, seen)
    requires forall j :: 0 <= j < |points| ==> DofsBelow(points[j].dofs, |processed|)
    ensures |processed'| == |processed|
    ensures Marks(processed', seen + PointsCandidates(points, first, size))
    ensures Kept(seen + PointsCandidates(points, first, size), constrained) == Kept(seen, constrained) + added
  {
    added := [];
    processed' := processed;
    var i := 0;
    ghost var acc := seen;
    assert points[..0] == [];
    while i < |points|
      invariant 0 <= i <= |points| && |processed'| == |processed|
      invariant acc == seen + PointsCandidates(points[..i], first, size)
      invariant Collected(seen, acc, constrained, processed', added)
    {
      ghost var pc := PointCandidates(points[i], first, size);
      PointsCandidatesSnoc(points, i, first, size);
      var comp, next := CollectLocalPoint(points[i], first, size, constrained, processed', acc);
      CollectedStep(seen, acc, pc, constrained, next, added, comp);
      added := added + comp;
      processed' := next;
      acc := acc + pc;
      i := i + 1;
    }
    assert points[..i] == points;
  }

  /** The pairs seen so far are marked, and the kept ones past `seen` are `added`. */
  ghost predicate Collected(seen: seq<PointDof>, acc: seq<PointDof>, constrained: set<nat>,
                            processed: seq<bool>, added: seq<PointDof>)
  {
    Marks(processed, acc) && Kept(acc, constrained) == Kept(seen, constrained) + added
  }

  /** Extending what has been collected by the pairs of one more support point. */
  lemma CollectedStep(seen: seq<PointDof>, acc: seq<PointDof>, pc: seq<PointDof>, constrained: set<nat>,
                      next: seq<bool>, added: seq<PointDof>, comp: seq<PointDof>)
    requires Kept(acc, constrained) == Kept(seen, constrained) + added
    requires Marks(next, acc + pc) && Kept(acc + pc, constrained) == Kept(acc, constrained) + comp
    ensures Collected(seen, acc + pc, constrained, next, added + comp)
  {
  }

  /**
   * The cell loop of `support_point_indices_to_dof_indices`: the pairs of
   * `support_point_dofs` before sorting.
   */
  method CollectSupportPointDofs(cells: seq<CellSupport>, first: nat, size: nat, constrained: set<nat>, nDofs: nat)
    returns (pairs: seq<PointDof>)
    requires CellsBelow(cells, nDofs)
    ensures pairs == Kept(Candidates(cells, first, size), constrained)
  {
    var processed := seq(nDofs, d => false);
    pairs := [];
    var i := 0;
    assert cells[..0] == [];
    while i < |cells|
      invariant 0 <= i <= |cells| && |processed| == nDofs
      invariant Marks(processed, Candidates(cells[..i], first, size))
      invariant pairs == Kept(Candidates(cells[..i], first, size), constrained)
    {
      ghost var before := Candidates(cells[..i], first, size);
      CandidatesSnoc(cells, i, first, size);
      if cells[i].relevant {
        var added;
        added, processed := CollectCell(cells[i].points, first, size, constrained, processed, before);
        pairs := pairs + added;
      } else {
        assert before + CellCandidates(cells[i], first, size) == before;
      }
      i := i + 1;
    }
    assert cells[..i] == cells;
  }

  predicate DistinctDofs(s: seq<PointDof>)
  {
    forall i, j :: 0 <= i < j < |s| ==> s[i].dof != s[j].dof
  }

  /**
   * After de-duplication every DoF appears at most once, every kept pair is
   * one of the candidates with an unconstrained DoF, and every unconstrained
   * DoF met by the loop is kept.
   */
  lemma {:induction false} KeptProperties(s: seq<PointDof>, constrained: set<nat>)
    ensures DistinctDofs(Kept(s, constrained))
    ensures forall x :: x in Kept(s, constrained) ==> x in s && x.dof !in constrained
    ensures DofSet(Kept(s, constrained)) == DofSet(s) - constrained
  {
    if |s| > 0 {
      var n := |s| - 1;
      var pre := Kept(s[..n], constrained);
      KeptProperties(s[..n], constrained);
      assert s == s[..n] + [s[n]];
      KeptSnoc(s[..n], s[n], constrained);
      var k := Kept(s, constrained);
      forall x | x in k
        ensures x in s && x.dof !in constrained
      {
        if x in pre {
          assert x in s[..n];
        } else {
          assert x == s[n];
        }
      }
      if |k| > |pre| {
        assert k == pre + [s[n]];
        KeptSnoc(pre, s[n], constrained);
        DofSetMembers(pre);
        forall i, j | 0 <= i < j < |k|
          ensures k[i].dof != k[j].dof
        {
          if j == |pre| {
            assert k[i] == pre[i];
          }
        }
      } else {
        assert k == pre;
      }
    }
  }

  /** The dofs a sequence of pairs carries are the members of its DoF set. */
  lemma {:induction false} DofSetMembers(s: seq<PointDof>)
    ensures forall i :: 0 <= i < |s| ==> s[i].dof in DofSet(s)
    ensures forall d :: d in DofSet(s) ==> exists i :: 0 <= i < |s| && s[i].dof == d
  {
    if |s| > 0 {
      var n := |s| - 1;
      DofSetMembers(s[..n]);
      assert forall i :: 0 <= i < n ==> s[..n][i] == s[i];
    }
  }

  // ---------------------------------------------------------------------
  // Stable sort by support point
  // ---------------------------------------------------------------------

  predicate NondecreasingKeys(s: seq<PointDof>)
  {
    forall i, j :: 0 <= i < j < |s| ==> s[i].key <= s[j].key
  }

  /** Insert x in front of the first entry whose key is not smaller. */
  function InsertBefore(x: PointDof, t: seq<PointDof>): seq<PointDof>
  {
    if |t| == 0 || x.key <= t[0].key then [x] + t
    else [t[0]] + InsertBefore(x, t[1..])
  }

  /** `std::stable_sort` by `first` (insertion sort from the back). */
  function StableSort(s: seq<PointDof>): seq<PointDof>
  {
    if |s| == 0 then [] else InsertBefore(s[0], StableSort(s[1..]))
  }

  /** The pairs with key k, in their order. */
  function FilterKey(s: seq<PointDof>, k: nat): seq<PointDof>
  {
    if |s| == 0 then []
    else (if s[0].key == k then [s[0]] else []) + FilterKey(s[1..], k)
  }

  lemma {:induction false} InsertBeforePermutes(x: PointDof, t: seq<PointDof>)
    ensures multiset(InsertBefore(x, t)) == multiset(t) + multiset{x}
    ensures forall y :: y in InsertBefore(x, t) <==> y == x || y in t
    decreases |t|
  {
    if |t| > 0 && x.key > t[0].key {
      InsertBeforePermutes(x, t[1..]);
      assert t == [t[0]] + t[1..];
    }
  }

  lemma {:induction false} InsertBeforeSorted(x: PointDof, t: seq<PointDof>)
    requires NondecreasingKeys(t)
    ensures NondecreasingKeys(InsertBefore(x, t))
    decreases |t|
  {
    if |t| == 0 || x.key <= t[0].key {
      if |t| > 0 {
        assert forall j :: 0 <= j < |t| ==> t[0].key <= t[j].key;
      }
    } else {
      var r := InsertBefore(x, t[1..]);
      assert NondecreasingKeys(t[1..]);
      InsertBeforeSorted(x, t[1..]);
      InsertBeforePermutes(x, t[1..]);
      forall y | y in r
        ensures t[0].key <= y.key
      {
        if y != x {
          var j :| 0 <= j < |t[1..]| && t[1..][j] == y;
          assert t[j + 1] == y;
        }
      }
    }
  }

  lemma FilterCons(y: PointDof, t: seq<PointDof>, k: nat)
    ensures FilterKey([y] + t, k) == (if y.key == k then [y] else []) + FilterKey(t, k)
  {
    assert ([y] + t)[1..] == t;
  }

  /** Inserting x puts it in front of every pair with the same key. */
  lemma {:induction false} InsertBeforeFilter(x: PointDof, t: seq<PointDof>, k: nat)
    ensures FilterKey(InsertBefore(x, t), k) == (if x.key == k then [x] else []) + FilterKey(t, k)
    decreases |t|
  {
    if |t| == 0 || x.key <= t[0].key {
      FilterCons(x, t, k);
    } else {
      var r := InsertBefore(x, t[1..]);
      InsertBeforeFilter(x, t[1..], k);
      FilterCons(t[0], r, k);
      FilterCons(t[0], t[1..], k);
      assert [t[0]] + t[1..] == t;
    }
  }

  lemma {:induction false} InsertBeforeDistinct(x: PointDof, t: seq<PointDof>)
    requires DistinctDofs(t) && forall y :: y in t ==> y.dof != x.dof
    ensures DistinctDofs(InsertBefore(x, t))
    decreases |t|
  {
    if |t| == 0 || x.key <= t[0].key {
      assert forall j :: 0 <= j < |t| ==> t[j] in t;
    } else {
      var r := InsertBefore(x, t[1..]);
      assert DistinctDofs(t[1..]);
      InsertBeforeDistinct(x, t[1..]);
      InsertBeforePermutes(x, t[1..]);
      forall j | 0 <= j < |r|
        ensures r[j].dof != t[0].dof
      {
        assert r[j] in r;
        if r[j] != x {
          var i :| 0 <= i < |t[1..]| && t[1..][i] == r[j];
          assert t[i + 1] == r[j];
        }
      }
    }
  }

  /** The sort orders by key and permutes its input. */
  lemma {:induction false} StableSortSorted(s: seq<PointDof>)
    ensures NondecreasingKeys(StableSort(s))
    ensures multiset(StableSort(s)) == multiset(s)
  {
    if |s| > 0 {
      StableSortSorted(s[1..]);
      assert s == [s[0]] + s[1..];
      InsertBeforeSorted(s[0], StableSort(s[1..]));
      InsertBeforePermutes(s[0], StableSort(s[1..]));
    }
  }

  /** The pairs of each key keep their input order (the sort is stable). */
  lemma {:induction false} StableSortStable(s: seq<PointDof>, k: nat)
    ensures FilterKey(StableSort(s), k) == FilterKey(s, k)
  {
    if |s| > 0 {
      StableSortStable(s[1..], k);
      InsertBeforeFilter(s[0], StableSort(s[1..]), k);
    }
  }

  lemma {:induction false} StableSortDistinct(s: seq<PointDof>)
    requires DistinctDofs(s)
    ensures DistinctDofs(StableSort(s))
  {
    if |s| > 0 {
      var rest := StableSort(s[1..]);
      assert DistinctDofs(s[1..]);
      StableSortDistinct(s[1..]);
      StableSortSorted(s[1..]);
      forall y | y in rest
        ensures y.dof != s[0].dof
      {
        assert y in multiset(rest);
        var j :| 0 <= j < |s[1..]| && s[1..][j] == y;
        assert s[j + 1] == y;
      }
      InsertBeforeDistinct(s[0], rest);
    }
  }

  // ---------------------------------------------------------------------
  // CRS conversion
  // ---------------------------------------------------------------------

  predicate StrictlyIncreasing(s: seq<nat>)
  {
    forall i, j :: 0 <= i < j < |s| ==> s[i] < s[j]
  }

  predicate Nondecreasing(s: seq<nat>)
  {
    forall i, j :: 0 <= i < j < |s| ==> s[i] <= s[j]
  }

  /** Where run j starts: the end of run j - 1, or 0. */
  function Start(ends: seq<nat>, j: nat): nat
    requires j <= |ends|
  {
    if j == 0 then 0 else ends[j - 1]
  }

  /**
   * `keys`/`ends` cut the first n pairs of `s` into maximal runs of one key:
   * the ends strictly increase up to n and every position of run j carries
   * key `keys[j]`.
   */
  ghost predicate RunsUpTo(s: seq<PointDof>, n: nat, keys: seq<nat>, ends: seq<nat>)
  {
    n <= |s| && |keys| == |ends| && StrictlyIncreasing(ends)
    && (n == 0 <==> |ends| == 0)
    && (|ends| > 0 ==> 0 < ends[0] && ends[|ends| - 1] == n)
    && (forall j, p {:trigger s[p], keys[j]} :: 0 <= j < |keys| && Start(ends, j) <= p < ends[j] ==> s[p].key == keys[j])
    && (forall i, j :: 0 <= i < j < |keys| && j == i + 1 ==> keys[i] != keys[j])
  }

  /** The runs cover all of `s`. */
  ghost predicate Runs(s: seq<PointDof>, keys: seq<nat>, ends: seq<nat>)
  {
    RunsUpTo(s, |s|, keys, ends)
  }

  /**
   * The CRS while-loop: one `support_point_indices` entry per run of equal
   * support points, with `dof_ptrs` holding the run ends divided by the
   * number of components. `runEnds` names the run ends for the contract.
   */
  method ToCrs(sorted: seq<PointDof>, nComponents: nat)
    returns (supportPointIndices: seq<nat>, dofPtrs: seq<nat>, dofIndices: seq<nat>, ghost runEnds: seq<nat>)
    requires nComponents > 0
    ensures dofIndices == DofsOf(sorted)
    ensures Runs(sorted, supportPointIndices, runEnds)
    ensures |dofPtrs| == |supportPointIndices| + 1 && dofPtrs[0] == 0
    ensures forall j :: 0 <= j < |runEnds| ==> dofPtrs[j + 1] == runEnds[j] / nComponents
  {
    dofIndices := [];
    dofPtrs := [0];
    supportPointIndices := [];
    runEnds := [];
    var it := 0;
    while it < |sorted|
      invariant CrsState(sorted, nComponents, it, supportPointIndices, dofPtrs, dofIndices, runEnds)
    {
      var index := sorted[it].key;
      var start := it;
      ghost var prefix := dofIndices;
      it, dofIndices := CollectRun(sorted, it, dofIndices);
      var ptr: nat := |dofIndices| / nComponents;
      CrsStep(sorted, nComponents, start, it, supportPointIndices, dofPtrs, prefix, dofIndices, runEnds);
      supportPointIndices := supportPointIndices + [index];
      dofPtrs := dofPtrs + [ptr];
      runEnds := runEnds + [it];
    }
    assert forall q :: 0 <= q < |sorted| ==> dofIndices[q] == sorted[q].dof;
  }

  /** What the CRS loop has built after consuming the first `it` sorted pairs. */
  ghost predicate CrsState(sorted: seq<PointDof>, nComponents: nat, it: nat, keys: seq<nat>,
                           ptrs: seq<nat>, dofs: seq<nat>, ends: seq<nat>)
  {
    nComponents > 0 && it <= |sorted|
    && (0 < it < |sorted| ==> sorted[it - 1].key != sorted[it].key)
    && |dofs| == it && (forall q :: 0 <= q < it ==> dofs[q] == sorted[q].dof)
    && RunsUpTo(sorted, it, keys, ends)
    && (|keys| > 0 ==> keys[|keys| - 1] == sorted[it - 1].key)
    && |ptrs| == |keys| + 1 && ptrs[0] == 0
    && (forall j :: 0 <= j < |ends| ==> ptrs[j + 1] == ends[j] / nComponents)
  }

  /** One pass of the outer CRS loop: a complete run appended to the tables. */
  lemma CrsStep(sorted: seq<PointDof>, nComponents: nat, start: nat, it: nat, keys: seq<nat>,
                ptrs: seq<nat>, prefix: seq<nat>, dofs: seq<nat>, ends: seq<nat>)
    requires CrsState(sorted, nComponents, start, keys, ptrs, prefix, ends)
    requires start < it <= |sorted| && (it < |sorted| ==> sorted[it].key != sorted[start].key)
    requires forall p :: start <= p < it ==> sorted[p].key == sorted[start].key
    requires |dofs| == it && forall q :: 0 <= q < it ==> dofs[q] == sorted[q].dof
    ensures CrsState(sorted, nComponents, it, keys + [sorted[start].key], ptrs + [it / nComponents],
                     dofs, ends + [it])
  {
    RunsSnoc(sorted, keys, ends, start, it);
  }

  /** The inner CRS loop: copies the DoFs of the run that starts at `start`. */
  method CollectRun(sorted: seq<PointDof>, start: nat, dofs: seq<nat>) returns (it: nat, dofIndices: seq<nat>)
    requires start < |sorted| && |dofs| == start
    requires forall q :: 0 <= q < start ==> dofs[q] == sorted[q].dof
    ensures start < it <= |sorted| && (it < |sorted| ==> sorted[it].key != sorted[start].key)
    ensures forall p :: start <= p < it ==> sorted[p].key == sorted[start].key
    ensures |dofIndices| == it && forall q :: 0 <= q < it ==> dofIndices[q] == sorted[q].dof
  {
    it := start;
    dofIndices := dofs;
    while it < |sorted| && sorted[it].key == sorted[start].key
      invariant start <= it <= |sorted|
      invariant forall p :: start <= p < it ==> sorted[p].key == sorted[start].key
      invariant |dofIndices| == it && forall q :: 0 <= q < it ==> dofIndices[q] == sorted[q].dof
    {
      dofIndices := dofIndices + [sorted[it].dof];
      it := it + 1;
    }
  }

  /** Appending one complete run to the tables of a prefix. */
  lemma RunsSnoc(s: seq<PointDof>, keys: seq<nat>, ends: seq<nat>, start: nat, it: nat)
    requires start < it <= |s|
    requires RunsUpTo(s, start, keys, ends)
    requires |keys| > 0 ==> keys[|keys| - 1] == s[start - 1].key
    requires 0 < start ==> s[start - 1].key != s[start].key
    requires forall p :: start <= p < it ==> s[p].key == s[start].key
    ensures RunsUpTo(s, it, keys + [s[start].key], ends + [it])
  {
    var keys', ends' := keys + [s[start].key], ends + [it];
    assert Start(ends', |keys|) == start;
  }

  /** Run i is a non-empty block inside s whose first and last pairs carry its key. */
  lemma RunBounds(s: seq<PointDof>, keys: seq<nat>, ends: seq<nat>, i: nat)
    requires Runs(s, keys, ends) && i < |keys|
    ensures Start(ends, i) < ends[i] <= |s|
    ensures s[Start(ends, i)].key == keys[i] && s[ends[i] - 1].key == keys[i]
    ensures i + 1 < |keys| ==> ends[i] == Start(ends, i + 1) && keys[i] != keys[i + 1]
  {
    if i > 0 {
      assert ends[i - 1] < ends[i];
    }
    if i < |keys| - 1 {
      assert ends[i] < ends[|ends| - 1];
    }
  }

  /** On a sequence sorted by key the run keys strictly increase. */
  lemma RunKeysIncreasing(s: seq<PointDof>, keys: seq<nat>, ends: seq<nat>)
    requires NondecreasingKeys(s) && Runs(s, keys, ends)
    ensures StrictlyIncreasing(keys)
  {
    forall i, j | 0 <= i < j < |keys|
      ensures keys[i] < keys[j]
    {
      RunBounds(s, keys, ends, i);
      RunBounds(s, keys, ends, i + 1);
      RunBounds(s, keys, ends, j);
      var p, q, r := ends[i] - 1, ends[i], Start(ends, j);
      assert q <= r by {
        if i + 1 < j {
          assert ends[i] < ends[j - 1];
        }
      }
      assert s[p].key <= s[q].key;
      assert s[q].key <= s[r].key;
    }
  }

  /** In a sequence sorted by key, run j holds exactly the pairs of key `keys[j]`. */
  lemma RunIsFilter(s: seq<PointDof>, keys: seq<nat>, ends: seq<nat>, j: nat)
    requires NondecreasingKeys(s) && Runs(s, keys, ends) && j < |keys|
    ensures s[Start(ends, j)..ends[j]] == FilterKey(s, keys[j])
  {
    RunKeysIncreasing(s, keys, ends);
    RunBounds(s, keys, ends, j);
    var a, b := Start(ends, j), ends[j];
    forall p | 0 <= p < |s|
      ensures a <= p < b <==> s[p].key == keys[j]
    {
      if p < a {
        assert s[a - 1].key == keys[j - 1] by {
          assert Start(ends, j - 1) <= a - 1 < ends[j - 1] by {
            if j > 1 {
              assert ends[j - 2] < ends[j - 1];
            }
          }
        }
        assert s[p].key <= s[a - 1].key;
      }
      if b <= p {
        assert j + 1 < |keys|;
        assert s[b].key == keys[j + 1] by {
          assert ends[j + 1] > b;
        }
        assert s[b].key <= s[p].key;
      }
    }
    FilterBlock(s, keys[j], a, b);
  }

  /** Filtering by a key that occupies exactly the block [a, b) returns that block. */
  lemma {:induction false} FilterBlock(s: seq<PointDof>, k: nat, a: nat, b: nat)
    requires a <= b <= |s|
    requires forall p :: 0 <= p < |s| ==> (a <= p < b <==> s[p].key == k)
    ensures FilterKey(s, k) == s[a..b]
    decreases |s|
  {
    if |s| > 0 {
      if a == 0 && b > 0 {
        FilterBlock(s[1..], k, 0, b - 1);
        assert [s[0]] + s[1..][0..b - 1] == s[0..b];
      } else if a == 0 {
        FilterBlock(s[1..], k, 0, 0);
      } else {
        FilterBlock(s[1..], k, a - 1, b - 1);
        assert s[1..][a - 1..b - 1] == s[a..b];
      }
    }
  }

  /** Dividing increasing run ends by the component count gives non-decreasing `dof_ptrs` entries. */
  lemma PointersNondecreasing(dofPtrs: seq<nat>, ends: seq<nat>, d: nat)
    requires d > 0 && StrictlyIncreasing(ends)
    requires |dofPtrs| == |ends| + 1 && dofPtrs[0] == 0
    requires forall j :: 0 <= j < |ends| ==> dofPtrs[j + 1] == ends[j] / d
    ensures Nondecreasing(dofPtrs)
  {
    forall i, j | 0 <= i < j < |dofPtrs|
      ensures dofPtrs[i] <= dofPtrs[j]
    {
      if i > 0 {
        QuotientMonotone(ends[i - 1], ends[j - 1], d);
      }
    }
  }

  // ---------------------------------------------------------------------
  // The whole of support_point_indices_to_dof_indices
  // ---------------------------------------------------------------------

  /**
   * The tuple `(support_point_indices, dof_ptrs, dof_indices)`: support
   * points strictly increase, `dof_ptrs` starts at 0, never decreases and
   * ends at `|dof_indices| / n_components`, each DoF appears once and exactly
   * the unconstrained DoFs met appear, and the DoFs of each support point
   * form one block in the order the cell loop met them.
   */
  method SupportPointIndicesToDofIndices(cells: seq<CellSupport>, first: nat, size: nat,
                                         constrained: set<nat>, nDofs: nat, nComponents: nat)
    returns (supportPointIndices: seq<nat>, dofPtrs: seq<nat>, dofIndices: seq<nat>, ghost runEnds: seq<nat>)
    requires CellsBelow(cells, nDofs) && nComponents > 0
    ensures StrictlyIncreasing(supportPointIndices)
    ensures |dofPtrs| == |supportPointIndices| + 1 && dofPtrs[0] == 0 && Nondecreasing(dofPtrs)
    ensures dofPtrs[|supportPointIndices|] == |dofIndices| / nComponents
    ensures forall i, j :: 0 <= i < j < |dofIndices| ==> dofIndices[i] != dofIndices[j]
    ensures forall d :: d in dofIndices <==> d in DofSet(Candidates(cells, first, size)) && d !in constrained
    ensures |runEnds| == |supportPointIndices|
    ensures forall j :: 0 <= j < |runEnds| ==> dofPtrs[j + 1] == runEnds[j] / nComponents
    ensures forall j :: 0 <= j < |supportPointIndices| ==>
      Start(runEnds, j) <= runEnds[j] <= |dofIndices|
      && dofIndices[Start(runEnds, j)..runEnds[j]]
         == DofsOf(FilterKey(Kept(Candidates(cells, first, size), constrained), supportPointIndices[j]))
  {
    var pairs := CollectSupportPointDofs(cells, first, size, constrained, nDofs);
    KeptProperties(Candidates(cells, first, size), constrained);
    var sorted := StableSort(pairs);
    StableSortSorted(pairs);
    supportPointIndices, dofPtrs, dofIndices, runEnds := ToCrs(sorted, nComponents);
    RunKeysIncreasing(sorted, supportPointIndices, runEnds);
    PointersNondecreasing(dofPtrs, runEnds, nComponents);
    SortedDofs(pairs, dofIndices);
    CrsBlocks(pairs, supportPointIndices, runEnds, dofIndices);
  }

  /** Each run of the CRS layout of the sorted pairs holds the DoFs of one key, in collection order. */
  lemma CrsBlocks(pairs: seq<PointDof>, keys: seq<nat>, ends: seq<nat>, dofs: seq<nat>)
    requires NondecreasingKeys(StableSort(pairs)) && Runs(StableSort(pairs), keys, ends)
    requires dofs == DofsOf(StableSort(pairs))
    ensures forall j :: 0 <= j < |keys| ==>
      Start(ends, j) <= ends[j] <= |dofs|
      && dofs[Start(ends, j)..ends[j]] == DofsOf(FilterKey(pairs, keys[j]))
  {
    var sorted := StableSort(pairs);
    forall j | 0 <= j < |keys|
      ensures Start(ends, j) <= ends[j] <= |dofs|
      ensures dofs[Start(ends, j)..ends[j]] == DofsOf(FilterKey(pairs, keys[j]))
    {
      RunIsFilter(sorted, keys, ends, j);
      StableSortStable(pairs, keys[j]);
      var a, b := Start(ends, j), ends[j];
      assert dofs[a..b] == DofsOf(sorted[a..b]);
    }
  }

  /** The sorted DoFs are distinct and are exactly the DoFs of the kept pairs. */
  lemma SortedDofs(pairs: seq<PointDof>, dofs: seq<nat>)
    requires DistinctDofs(pairs) && dofs == DofsOf(StableSort(pairs))
    ensures forall i, j :: 0 <= i < j < |dofs| ==> dofs[i] != dofs[j]
    ensures forall d :: d in dofs <==> d in DofSet(pairs)
  {
    StableSortSorted(pairs);
    StableSortDistinct(pairs);
    DofsPermuted(pairs, StableSort(pairs));
  }

  /** Sorting keeps the DoFs carried, and their distinctness. */
  lemma DofsPermuted(pairs: seq<PointDof>, sorted: seq<PointDof>)
    requires multiset(sorted) == multiset(pairs) && DistinctDofs(sorted)
    ensures forall i, j :: 0 <= i < j < |sorted| ==> DofsOf(sorted)[i] != DofsOf(sorted)[j]
    ensures forall d :: d in DofsOf(sorted) <==> d in DofSet(pairs)
  {
    DofSetMembers(pairs);
    forall d
      ensures d in DofsOf(sorted) <==> d in DofSet(pairs)
    {
      if d in DofsOf(sorted) {
        var p :| 0 <= p < |sorted| && DofsOf(sorted)[p] == d;
        assert sorted[p] in multiset(pairs);
      }
      if d in DofSet(pairs) {
        var q :| 0 <= q < |pairs| && pairs[q].dof == d;
        assert pairs[q] in multiset(sorted);
        var p :| 0 <= p < |sorted| && sorted[p] == pairs[q];
        assert DofsOf(sorted)[p] == d;
      }
    }
  }
}
