/**
 * The fine side of the geometric transfer: the sizes of its two schemes and
 * how the DoFs of the children of a refined cell are merged into one
 * lexicographic patch (`level_dof_indices_fine_1`).
 */
module GeometricPatch {
  import opened Arithmetic
  import opened ChildIndexing

  // ---------------------------------------------------------------------
  // Scheme sizes
  // ---------------------------------------------------------------------

  /**
   * Scheme 0 holds unrefined cells (coarse and fine cell coincide), scheme 1
   * refined ones (the fine side is the patch of all 2^dim children).
   */
  datatype GeometricSchemes = GeometricSchemes(
    nDofsPerCellCoarse0: nat, nDofsPerCellFine0: nat, degreeCoarse0: nat, degreeFine0: nat,
    nDofsPerCellCoarse1: nat, nDofsPerCellFine1: nat, degreeCoarse1: nat, degreeFine1: nat)

  /**
   * The scheme sizes of `reinit_geometric_transfer`: a continuous Lagrange
   * element (FE_Q) shares the DoFs on the faces between children, any other
   * element keeps every child's DoFs apart.
   */
  function SchemeSizes(nDofsPerCell: nat, degree: nat, nComponents: nat, dim: nat, isFeQ: bool)
    : (s: GeometricSchemes)
    ensures s.nDofsPerCellCoarse0 == s.nDofsPerCellFine0 == s.nDofsPerCellCoarse1 == nDofsPerCell
    ensures s.degreeCoarse0 == s.degreeFine0 == s.degreeCoarse1 == degree
    ensures isFeQ ==> s.nDofsPerCellFine1 == nComponents * Pow(2 * degree + 1, dim) && s.degreeFine1 == 2 * degree
    ensures !isFeQ ==> s.nDofsPerCellFine1 == nDofsPerCell * MaxChildren(dim) && s.degreeFine1 == 2 * degree + 1
  {
    GeometricSchemes(
      nDofsPerCell, nDofsPerCell, degree, degree,
      nDofsPerCell,
      if isFeQ then nComponents * Pow(2 * degree + 1, dim) else nDofsPerCell * MaxChildren(dim),
      degree,
      if isFeQ then 2 * degree else 2 * degree + 1)
  }

  /** The shift of the 1-D child offsets: FE_Q children share their last/first layer, other elements do not. */
  function FeShift1D(degree: nat, isFeQ: bool): nat
  {
    if isFeQ then degree else degree + 1
  }

  lemma {:induction false} PowMul(a: nat, b: nat, e: nat)
    ensures Pow(a * b, e) == Pow(a, e) * Pow(b, e)
  {
    if e > 0 {
      PowMul(a, b, e - 1);
      assert Pow(a * b, e) == (a * b) * (Pow(a, e - 1) * Pow(b, e - 1));
    }
  }

  /**
   * On a hypercube cell of an element with `nComponents * (degree+1)^dim`
   * DoFs, every child offset `get_child_offsets` produces lies inside the
   * fine patch of scheme 1, for FE_Q and for any other element alike.
   */
  lemma ChildOffsetsFitPatch(degree: nat, nComponents: nat, dim: nat, isFeQ: bool, child: nat)
    requires 1 <= dim
    ensures var n := nComponents * Pow(degree + 1, dim);
      var v := ChildOffsetVector(child, FeShift1D(degree, isFeQ), degree, dim, n);
      forall m :: 0 <= m < n ==> v[m] < SchemeSizes(n, degree, nComponents, dim, isFeQ).nDofsPerCellFine1
  {
    var P := Pow(degree + 1, dim);
    var n := nComponents * P;
    var s := FeShift1D(degree, isFeQ);
    var N := Pow(degree + 1 + s, dim);
    PowPositive(degree + 1, dim);
    assert n / P == nComponents && OffsetCount(n, degree + 1, dim) == n by {
      DivModUnique(nComponents, 0, P);
    }
    ChildOffsetVectorProperties(child, s, degree, dim, n);
    assert nComponents * N == SchemeSizes(n, degree, nComponents, dim, isFeQ).nDofsPerCellFine1 by {
      if !isFeQ {
        assert degree + 1 + s == 2 * (degree + 1);
        PowMul(2, degree + 1, dim);
        SwapFactors(nComponents, MaxChildren(dim), P);
      }
    }
  }

  lemma SwapFactors(a: nat, b: nat, c: nat)
    ensures a * (b * c) == (a * c) * b
  {
  }

  // ---------------------------------------------------------------------
  // Merging the children of a refined cell
  // ---------------------------------------------------------------------

  /** An entry of `level_dof_indices_fine_1`: `numbers::invalid_dof_index` or a DoF index. */
  datatype DofEntry = Invalid | Dof(index: nat)

  /** One assignment `level_dof_indices_fine_1[pos] = val`. */
  datatype Write = Write(pos: nat, val: nat)

  function Invalids(size: nat): (r: seq<DofEntry>)
    ensures |r| == size && forall p :: 0 <= p < size ==> r[p] == Invalid
  {
    seq(size, _ => Invalid)
  }

  predicate WritesInside(ws: seq<Write>, size: nat)
  {
    forall k :: 0 <= k < |ws| ==> ws[k].pos < size
  }

  /** The assignments applied one after another: the last writer of a position wins. */
  function Apply(init: seq<DofEntry>, ws: seq<Write>): (r: seq<DofEntry>)
    requires WritesInside(ws, |init|)
    ensures |r| == |init|
  {
    if |ws| == 0 then init
    else Apply(init, ws[..|ws| - 1])[ws[|ws| - 1].pos := Dof(ws[|ws| - 1].val)]
  }

  /** The consistency the source asserts: two writes to one position write the same DoF. */
  predicate Consistent(ws: seq<Write>)
  {
    forall a, b :: 0 <= a < |ws| && 0 <= b < |ws| && ws[a].pos == ws[b].pos ==> ws[a].val == ws[b].val
  }

  /** The writes of one child: its DoF in lexicographic position i goes to patch position offs[i]. */
  predicate ChildShaped(dofs: seq<nat>, offs: seq<nat>, lex: seq<nat>, n: nat, size: nat)
  {
    n <= |lex| && n <= |offs|
    && (forall i :: 0 <= i < n ==> lex[i] < |dofs|)
    && (forall i :: 0 <= i < n ==> offs[i] < size)
  }

  function ChildWrites(dofs: seq<nat>, offs: seq<nat>, lex: seq<nat>, n: nat, size: nat): (r: seq<Write>)
    requires ChildShaped(dofs, offs, lex, n, size)
    ensures |r| == n && WritesInside(r, size)
  {
    seq(n, i requires 0 <= i < n => Write(offs[i], dofs[lex[i]]))
  }

  predicate PatchShaped(children: seq<seq<nat>>, offsets: seq<seq<nat>>, lex: seq<nat>, n: nat, size: nat)
  {
    |offsets| == |children|
    && forall c :: 0 <= c < |children| ==> ChildShaped(children[c], offsets[c], lex, n, size)
  }

  /** All writes of the children loop, child by child. */
  function AllWrites(children: seq<seq<nat>>, offsets: seq<seq<nat>>, lex: seq<nat>, n: nat, size: nat)
    : (r: seq<Write>)
    requires PatchShaped(children, offsets, lex, n, size)
    ensures WritesInside(r, size)
  {
    if |children| == 0 then []
    else
      var last := |children| - 1;
      AllWrites(children[..last], offsets[..last], lex, n, size)
        + ChildWrites(children[last], offsets[last], lex, n, size)
  }

  /**
   * Consistent writes leave every written position holding its DoF, and
   * every other position as it was.
   */
  lemma {:induction false} ApplyConsistent(init: seq<DofEntry>, ws: seq<Write>)
    requires WritesInside(ws, |init|) && Consistent(ws)
    ensures forall k :: 0 <= k < |ws| ==> Apply(init, ws)[ws[k].pos] == Dof(ws[k].val)
    ensures forall p :: 0 <= p < |init| && (forall k :: 0 <= k < |ws| ==> ws[k].pos != p) ==>
      Apply(init, ws)[p] == init[p]
  {
    if |ws| > 0 {
      var pre := ws[..|ws| - 1];
      assert Consistent(pre);
      ApplyConsistent(init, pre);
      forall p | 0 <= p < |init| && (forall k :: 0 <= k < |ws| ==> ws[k].pos != p)
        ensures Apply(init, ws)[p] == init[p]
      {
        assert forall k :: 0 <= k < |pre| ==> pre[k].pos == ws[k].pos;
      }
    }
  }

  /**
   * One more write keeps the writes consistent exactly when the position
   * holds `invalid_dof_index` or already the same DoF: the check the loop
   * performs before each assignment.
   */
  lemma ConsistentSnoc(size: nat, ws: seq<Write>, w: Write)
    requires WritesInside(ws, size) && w.pos < size && Consistent(ws)
    ensures Consistent(ws + [w]) <==>
      (Apply(Invalids(size), ws)[w.pos] == Invalid || Apply(Invalids(size), ws)[w.pos] == Dof(w.val))
  {
    var ws' := ws + [w];
    var e := Apply(Invalids(size), ws)[w.pos];
    ApplyConsistent(Invalids(size), ws);
    if e == Invalid {
      forall a, b | 0 <= a < |ws'| && 0 <= b < |ws'| && ws'[a].pos == ws'[b].pos
        ensures ws'[a].val == ws'[b].val
      {
        if a < |ws| && b < |ws| {
          assert ws'[a] == ws[a] && ws'[b] == ws[b];
        }
      }
    } else if e == Dof(w.val) {
      forall a, b | 0 <= a < |ws'| && 0 <= b < |ws'| && ws'[a].pos == ws'[b].pos
        ensures ws'[a].val == ws'[b].val
      {
        if a < |ws| {
          assert ws'[a] == ws[a];
        }
        if b < |ws| {
          assert ws'[b] == ws[b];
        }
      }
    } else {
      var k :| 0 <= k < |ws| && ws[k].pos == w.pos;
      assert ws'[k] == ws[k] && ws'[|ws|] == w;
    }
  }

  lemma ConsistentPrefix(ws: seq<Write>, w: Write)
    requires Consistent(ws + [w])
    ensures Consistent(ws)
  {
    assert forall k :: 0 <= k < |ws| ==> (ws + [w])[k] == ws[k];
  }

  /** One assignment of the child loop, with its check, against the writes so far. */
  lemma MergeStep(size: nat, ws: seq<Write>, w: Write, merged: seq<DofEntry>, consistent: bool)
    requires WritesInside(ws, size) && w.pos < size
    requires merged == Apply(Invalids(size), ws) && consistent == Consistent(ws)
    ensures WritesInside(ws + [w], size)
    ensures merged[w.pos := Dof(w.val)] == Apply(Invalids(size), ws + [w])
    ensures (consistent && (merged[w.pos] == Invalid || merged[w.pos] == Dof(w.val))) == Consistent(ws + [w])
  {
    assert WritesInside(ws + [w], size);
    assert (ws + [w])[..|ws|] == ws;
    if consistent {
      ConsistentSnoc(size, ws, w);
    } else if Consistent(ws + [w]) {
      ConsistentPrefix(ws, w);
    }
  }

  /**
   * The child loop of one refined cell: each of the child's DoFs is written
   * to its patch position, and the positions it overwrites are checked for
   * agreement.
   */
  method MergeChild(merged: seq<DofEntry>, consistent: bool, ghost ws: seq<Write>,
                    dofs: seq<nat>, offs: seq<nat>, lex: seq<nat>, n: nat)
    returns (merged': seq<DofEntry>, consistent': bool)
    requires ChildShaped(dofs, offs, lex, n, |merged|) && WritesInside(ws, |merged|)
    requires merged == Apply(Invalids(|merged|), ws) && consistent == Consistent(ws)
    ensures var ws' := ws + ChildWrites(dofs, offs, lex, n, |merged|);
      merged' == Apply(Invalids(|merged|), ws') && consistent' == Consistent(ws')
  {
    ghost var size := |merged|;
    ghost var cw := ChildWrites(dofs, offs, lex, n, size);
    merged', consistent' := merged, consistent;
    var i := 0;
    assert ws + cw[..0] == ws;
    while i < n
      invariant 0 <= i <= n && |merged'| == size
      invariant WritesInside(ws + cw[..i], size)
      invariant merged' == Apply(Invalids(size), ws + cw[..i])
      invariant consistent' == Consistent(ws + cw[..i])
    {
      var index := dofs[lex[i]];
      var w := Write(offs[i], index);
      ghost var before := ws + cw[..i];
      assert ws + cw[..i + 1] == before + [w] by {
        assert cw[..i + 1] == cw[..i] + [w];
      }
      MergeStep(size, before, w, merged', consistent');
      consistent' := consistent' && (merged'[offs[i]] == Invalid || merged'[offs[i]] == Dof(index));
      merged' := merged'[offs[i] := Dof(index)];
      i := i + 1;
    }
    assert cw[..n] == cw;
  }

  /**
   * The refined-cell branch of the index setup of the geometric transfer:
   * the patch starts all `invalid_dof_index`, the children are merged in
   * order, and `consistent` says whether the internal assertion holds
   * throughout.
   */
  method MergeChildren(children: seq<seq<nat>>, offsets: seq<seq<nat>>, lex: seq<nat>, n: nat, size: nat)
    returns (merged: seq<DofEntry>, consistent: bool)
    requires PatchShaped(children, offsets, lex, n, size)
    ensures var ws := AllWrites(children, offsets, lex, n, size);
      merged == Apply(Invalids(size), ws) && consistent == Consistent(ws)
  {
    merged := Invalids(size);
    consistent := true;
    var c := 0;
    while c < |children|
      invariant 0 <= c <= |children| && |merged| == size
      invariant PatchShaped(children[..c], offsets[..c], lex, n, size)
      invariant merged == Apply(Invalids(size), AllWrites(children[..c], offsets[..c], lex, n, size))
      invariant consistent == Consistent(AllWrites(children[..c], offsets[..c], lex, n, size))
    {
      ghost var ws := AllWrites(children[..c], offsets[..c], lex, n, size);
      merged, consistent := MergeChild(merged, consistent, ws, children[c], offsets[c], lex, n);
      assert children[..c + 1][..c] == children[..c] && offsets[..c + 1][..c] == offsets[..c];
      assert PatchShaped(children[..c + 1], offsets[..c + 1], lex, n, size);
      assert children[..c + 1][c] == children[c] && offsets[..c + 1][c] == offsets[c];
      c := c + 1;
    }
    assert children[..c] == children && offsets[..c] == offsets;
  }

  /** Every DoF of every child is among the writes of the loop. */
  lemma {:induction false} ChildWriteListed(children: seq<seq<nat>>, offsets: seq<seq<nat>>, lex: seq<nat>,
                                            n: nat, size: nat, c: nat, i: nat)
    requires PatchShaped(children, offsets, lex, n, size) && c < |children| && i < n
    ensures Write(offsets[c][i], children[c][lex[i]]) in AllWrites(children, offsets, lex, n, size)
  {
    var last := |children| - 1;
    var cw := ChildWrites(children[last], offsets[last], lex, n, size);
    var pre := AllWrites(children[..last], offsets[..last], lex, n, size);
    if c == last {
      assert (pre + cw)[|pre| + i] == cw[i];
    } else {
      assert children[..last][c] == children[c] && offsets[..last][c] == offsets[c];
      ChildWriteListed(children[..last], offsets[..last], lex, n, size, c, i);
      var k :| 0 <= k < |pre| && pre[k] == Write(offsets[c][i], children[c][lex[i]]);
      assert (pre + cw)[k] == pre[k];
    }
  }

  /** Every write of the loop comes from some child and DoF. */
  lemma {:induction false} WriteHasSource(children: seq<seq<nat>>, offsets: seq<seq<nat>>, lex: seq<nat>,
                                          n: nat, size: nat, k: nat)
    requires PatchShaped(children, offsets, lex, n, size)
    requires k < |AllWrites(children, offsets, lex, n, size)|
    ensures exists c, i :: (0 <= c < |children| && 0 <= i < n
      && AllWrites(children, offsets, lex, n, size)[k] == Write(offsets[c][i], children[c][lex[i]]))
  {
    var last := |children| - 1;
    var cw := ChildWrites(children[last], offsets[last], lex, n, size);
    var pre := AllWrites(children[..last], offsets[..last], lex, n, size);
    if k < |pre| {
      WriteHasSource(children[..last], offsets[..last], lex, n, size, k);
      var c, i :| 0 <= c < last && 0 <= i < n && pre[k] == Write(offsets[..last][c][i], children[..last][c][lex[i]]);
      assert (pre + cw)[k] == pre[k];
    } else {
      var i := k - |pre|;
      assert (pre + cw)[k] == cw[i];
    }
  }

  /** Some child's offset reaches patch position p. */
  predicate Reached(offsets: seq<seq<nat>>, n: nat, p: nat)
  {
    exists c, i :: 0 <= c < |offsets| && 0 <= i < n && i < |offsets[c]| && offsets[c][i] == p
  }

  /** Every child's DoF sits at that child's offset. */
  predicate HoldsChildDofs(merged: seq<DofEntry>, children: seq<seq<nat>>, offsets: seq<seq<nat>>, lex: seq<nat>, n: nat)
    requires PatchShaped(children, offsets, lex, n, |merged|)
  {
    forall c, i :: 0 <= c < |children| && 0 <= i < n ==> merged[offsets[c][i]] == Dof(children[c][lex[i]])
  }

  /**
   * When the assertion holds throughout, the merged patch holds each
   * child's DoF at that child's offset, and `invalid_dof_index` exactly at
   * the positions no child's offset reaches.
   */
  lemma ConsistentPatch(children: seq<seq<nat>>, offsets: seq<seq<nat>>, lex: seq<nat>, n: nat, size: nat)
    requires PatchShaped(children, offsets, lex, n, size)
    requires Consistent(AllWrites(children, offsets, lex, n, size))
    ensures var merged := Apply(Invalids(size), AllWrites(children, offsets, lex, n, size));
      && HoldsChildDofs(merged, children, offsets, lex, n)
      && (forall p :: 0 <= p < size ==> (merged[p] == Invalid <==> !Reached(offsets, n, p)))
  {
    var ws := AllWrites(children, offsets, lex, n, size);
    ApplyConsistent(Invalids(size), ws);
    forall c, i | 0 <= c < |children| && 0 <= i < n
      ensures Apply(Invalids(size), ws)[offsets[c][i]] == Dof(children[c][lex[i]])
    {
      ChildWriteListed(children, offsets, lex, n, size, c, i);
    }
    forall p | 0 <= p < size && !Reached(offsets, n, p)
      ensures forall k :: 0 <= k < |ws| ==> ws[k].pos != p
    {
      UnreachedUnwritten(children, offsets, lex, n, size, p);
    }
    forall p | 0 <= p < size && Reached(offsets, n, p)
      ensures Apply(Invalids(size), ws)[p] != Invalid
    {
      var c, i :| 0 <= c < |offsets| && 0 <= i < n && i < |offsets[c]| && offsets[c][i] == p;
      assert Apply(Invalids(size), ws)[offsets[c][i]] == Dof(children[c][lex[i]]);
    }
  }

  lemma UnreachedUnwritten(children: seq<seq<nat>>, offsets: seq<seq<nat>>, lex: seq<nat>, n: nat, size: nat, p: nat)
    requires PatchShaped(children, offsets, lex, n, size)
    requires !Reached(offsets, n, p)
    ensures var ws := AllWrites(children, offsets, lex, n, size);
      forall k :: 0 <= k < |ws| ==> ws[k].pos != p
  {
    var ws := AllWrites(children, offsets, lex, n, size);
    forall k | 0 <= k < |ws|
      ensures ws[k].pos != p
    {
      WriteHasSource(children, offsets, lex, n, size, k);
    }
  }

  /**
   * An unrefined cell is the one-child case with the identity offsets: the
   * gather `level_dof_indices_fine_0[i] = local_dof_indices[lex[i]]` is a
   * merge that is always consistent.
   */
  lemma UnrefinedCellMerge(dofs: seq<nat>, lex: seq<nat>, n: nat)
    requires n <= |lex| && forall i :: 0 <= i < n ==> lex[i] < |dofs|
    ensures var offs := seq(n, i => i);
      var ws := AllWrites([dofs], [offs], lex, n, n);
      Consistent(ws) && forall i :: 0 <= i < n ==> Apply(Invalids(n), ws)[i] == Dof(dofs[lex[i]])
  {
    var offs := seq(n, i => i);
    assert ChildShaped(dofs, offs, lex, n, n);
    SingleChildWrites(dofs, offs, lex, n, n);
    IdentityWrites(dofs, offs, lex, n);
  }

  lemma IdentityWrites(dofs: seq<nat>, offs: seq<nat>, lex: seq<nat>, n: nat)
    requires ChildShaped(dofs, offs, lex, n, n) && forall i :: 0 <= i < n ==> offs[i] == i
    ensures var cw := ChildWrites(dofs, offs, lex, n, n);
      Consistent(cw) && forall i :: 0 <= i < n ==> Apply(Invalids(n), cw)[i] == Dof(dofs[lex[i]])
  {
    var cw := ChildWrites(dofs, offs, lex, n, n);
    assert forall k :: 0 <= k < n ==> cw[k].pos == k && cw[k].val == dofs[lex[k]];
    ApplyConsistent(Invalids(n), cw);
  }

  lemma SingleChildWrites(dofs: seq<nat>, offs: seq<nat>, lex: seq<nat>, n: nat, size: nat)
    requires ChildShaped(dofs, offs, lex, n, size)
    ensures PatchShaped([dofs], [offs], lex, n, size)
    ensures AllWrites([dofs], [offs], lex, n, size) == ChildWrites(dofs, offs, lex, n, size)
  {
    assert [dofs][..0] == [] && [offs][..0] == [];
  }
}
