/**
 * The 1-D transfer matrices of a transfer scheme: the hierarchic-to-
 * lexicographic renumbering of a 1-D element, the restriction matrices with
 * the rows of non-additive DoFs shared with an earlier child removed
 * (`get_restriction_matrix`), and the packed row-major layout in which the
 * prolongation and restriction blocks of all children are stored.
 *
 * Matrices are sequences of rows of reals; the element's matrices are
 * inputs. The only test the code applies to an entry is "is it nonzero", and
 * sums are taken exactly.
 */
module TransferMatrices {

  import opened Arithmetic

  type Matrix = seq<seq<real>>

  /** `GeometryInfo<1>::vertices_per_cell`. */
  const VerticesPerCell1D: nat := 2

  predicate IsMatrix(m: Matrix, rows: nat, cols: nat)
  {
    |m| == rows && forall i :: 0 <= i < rows ==> |m[i]| == cols
  }

  /** One n-by-n matrix per child. */
  predicate IsFamily(mats: seq<Matrix>, n: nat)
  {
    forall c :: 0 <= c < |mats| ==> IsMatrix(mats[c], n, n)
  }

  predicate IndicesBelow(ix: seq<nat>, n: nat)
  {
    forall k :: 0 <= k < |ix| ==> ix[k] < n
  }

  function Zeros(n: nat): seq<real> { seq(n, _ => 0.0) }

  function Iota(n: nat): seq<nat> { seq(n, i => i) }

  // ---------------------------------------------------------------------
  // 1-D renumbering
  // ---------------------------------------------------------------------

  /**
   * Lexicographic position -> hierarchic DoF of a 1-D element with nv DoFs on
   * each vertex and L DoFs inside the line: left vertex, the line DoFs, right
   * vertex. The hierarchic numbering lists both vertices first.
   */
  function LexicographicToHierarchic(nv: nat, L: nat): seq<nat>
  {
    if nv == 0 then Iota(L) else [0] + seq(L, i => i + 2) + [1]
  }

  /** The inverse: hierarchic DoF -> lexicographic position. */
  function HierarchicToLexicographic(nv: nat, L: nat): seq<nat>
  {
    if nv == 0 then Iota(L) else [0, L + 1] + seq(L, i => i + 1)
  }

  /**
   * The `renumbering` vector built for the 1-D element (the same code builds
   * `renumbering_fine` and `renumbering_coarse` of the polynomial transfer).
   * The source asserts that a vertex holds at most one DoF; the element has
   * at least one DoF, since entry 0 is written unconditionally.
   */
  method Renumbering(nDofsPerVertex: nat, dofsPerLine: nat) returns (r: seq<nat>)
    requires nDofsPerVertex < 2
    requires VerticesPerCell1D * nDofsPerVertex + dofsPerLine > 0
    ensures r == LexicographicToHierarchic(nDofsPerVertex, dofsPerLine)
  {
    var n := VerticesPerCell1D * nDofsPerVertex + dofsPerLine;
    var a := new nat[n](_ => 0);
    a[0] := 0;
    var i := 0;
    while i < dofsPerLine
      invariant 0 <= i <= dofsPerLine
      invariant a[0] == 0
      invariant forall k :: nDofsPerVertex <= k < nDofsPerVertex + i ==> a[k] == nDofsPerVertex + k
    {
      a[i + nDofsPerVertex] := VerticesPerCell1D * nDofsPerVertex + i;
      i := i + 1;
    }
    if nDofsPerVertex > 0 {
      a[n - nDofsPerVertex] := nDofsPerVertex;
    }
    r := a[..];
  }

  /**
   * The renumbering is a permutation of 0 .. n-1, n = 2 nv + L: the two
   * tables are mutually inverse. Without vertex DoFs it is the identity; with
   * one DoF per vertex it keeps the left vertex first and moves the right
   * vertex (hierarchic DoF 1) to the last position.
   */
  lemma RenumberingIsPermutation(nv: nat, L: nat)
    requires nv < 2
    ensures var n := VerticesPerCell1D * nv + L;
      var lh, hl := LexicographicToHierarchic(nv, L), HierarchicToLexicographic(nv, L);
      && |lh| == n && |hl| == n
      && (forall i :: 0 <= i < n ==> lh[i] < n && hl[lh[i]] == i)
      && (forall v :: 0 <= v < n ==> hl[v] < n && lh[hl[v]] == v)
      && (nv == 0 ==> lh == Iota(n))
      && (nv == 1 ==> lh[0] == 0 && lh[n - 1] == 1)
  {
    var n := VerticesPerCell1D * nv + L;
    var lh, hl := LexicographicToHierarchic(nv, L), HierarchicToLexicographic(nv, L);
    if nv == 1 {
      forall i | 0 <= i < n ensures lh[i] < n && hl[lh[i]] == i {
        if i == 0 {
        } else if i <= L {
          assert lh[i] == i + 1;
        } else {
          assert lh[i] == 1;
        }
      }
      forall v | 0 <= v < n ensures hl[v] < n && lh[hl[v]] == v {
        if v == 0 {
        } else if v == 1 {
          assert hl[v] == L + 1;
        } else {
          assert hl[v] == v - 1;
        }
      }
    }
  }

  // ---------------------------------------------------------------------
  // get_restriction_matrix
  // ---------------------------------------------------------------------

  /**
   * Row i of child `child` duplicates a DoF already restricted by an earlier
   * child: the DoF is not additive and some child c < child has a nonzero
   * entry in row i.
   */
  predicate ClaimedEarlier(mats: seq<Matrix>, additive: seq<bool>, n: nat, child: nat, i: nat)
    requires IsFamily(mats, n) && child <= |mats| && i < n && |additive| == n
  {
    !additive[i] && exists c, j :: 0 <= c < child && 0 <= j < n && mats[c][i][j] != 0.0
  }

  /** The restriction matrix of child `child` with the claimed rows zeroed. */
  function ZeroedRestriction(mats: seq<Matrix>, additive: seq<bool>, n: nat, child: nat): (r: Matrix)
    requires IsFamily(mats, n) && child < |mats| && |additive| == n
    ensures IsMatrix(r, n, n)
  {
    seq(n, i requires 0 <= i < n => if ClaimedEarlier(mats, additive, n, child, i) then Zeros(n) else mats[child][i])
  }

  /**
   * What the restriction of one child keeps: child 0 keeps its whole matrix;
   * additive rows are never touched; a claimed row is zero; and a row that
   * differs from the element's row is a claimed one.
   */
  lemma ZeroedRestrictionRows(mats: seq<Matrix>, additive: seq<bool>, n: nat, child: nat)
    requires IsFamily(mats, n) && child < |mats| && |additive| == n
    ensures var r := ZeroedRestriction(mats, additive, n, child);
      && (child == 0 ==> r == mats[0])
      && (forall i :: 0 <= i < n && additive[i] ==> r[i] == mats[child][i])
      && (forall i :: 0 <= i < n && ClaimedEarlier(mats, additive, n, child, i) ==> r[i] == Zeros(n))
      && (forall i :: 0 <= i < n && r[i] != mats[child][i] ==> ClaimedEarlier(mats, additive, n, child, i))
  {
    var r := ZeroedRestriction(mats, additive, n, child);
    if child == 0 {
      assert forall i :: 0 <= i < n ==> !ClaimedEarlier(mats, additive, n, 0, i);
      assert |r| == |mats[0]|;
    }
  }

  /** The `do_zero` scan of one row of another child's matrix. */
  method RowHasNonzero(row: seq<real>) returns (doZero: bool)
    ensures doZero <==> exists j :: 0 <= j < |row| && row[j] != 0.0
  {
    doZero := false;
    var j := 0;
    while j < |row|
      invariant 0 <= j <= |row|
      invariant doZero <==> exists j' :: 0 <= j' < j && row[j'] != 0.0
    {
      if row[j] != 0.0 {
        doZero := true;
      }
      j := j + 1;
    }
  }

  /** Zero the entries of row i one by one. */
  method ZeroRow(m: Matrix, n: nat, i: nat) returns (r: Matrix)
    requires IsMatrix(m, n, n) && i < n
    ensures r == m[i := Zeros(n)]
  {
    r := m;
    var j := 0;
    while j < n
      invariant 0 <= j <= n && |r| == n && |r[i]| == n
      invariant forall k :: 0 <= k < n && k != i ==> r[k] == m[k]
      invariant forall t :: 0 <= t < n ==> r[i][t] == if t < j then 0.0 else m[i][t]
    {
      r := r[i := r[i][j := 0.0]];
      j := j + 1;
    }
    assert r[i] == Zeros(n);
  }

  lemma ClaimedStep(mats: seq<Matrix>, additive: seq<bool>, n: nat, child: nat, c: nat, i: nat)
    requires IsFamily(mats, n) && child < |mats| && |additive| == n && c < child && i < n
    ensures ClaimedEarlier(mats, additive, n, c + 1, i)
        <==> ClaimedEarlier(mats, additive, n, c, i)
             || (!additive[i] && exists j :: 0 <= j < n && mats[c][i][j] != 0.0)
  {
    if ClaimedEarlier(mats, additive, n, c + 1, i) {
      var c', j :| 0 <= c' < c + 1 && 0 <= j < n && mats[c'][i][j] != 0.0;
      if c' < c {
        assert ClaimedEarlier(mats, additive, n, c, i);
      }
    }
  }

  /**
   * `get_restriction_matrix`: start from the element's matrix of `child`,
   * then for every earlier child zero each non-additive row in which that
   * child's matrix has a nonzero entry.
   */
  method GetRestrictionMatrix(mats: seq<Matrix>, additive: seq<bool>, n: nat, child: nat) returns (matrix: Matrix)
    requires IsFamily(mats, n) && child < |mats| && |additive| == n
    ensures matrix == ZeroedRestriction(mats, additive, n, child)
  {
    matrix := mats[child];
    var cOther := 0;
    while cOther < child
      invariant 0 <= cOther <= child
      invariant IsMatrix(matrix, n, n)
      invariant forall i :: 0 <= i < n ==>
        matrix[i] == if ClaimedEarlier(mats, additive, n, cOther, i) then Zeros(n) else mats[child][i]
    {
      var matrixOther := mats[cOther];
      var i := 0;
      while i < n
        invariant 0 <= i <= n
        invariant IsMatrix(matrix, n, n)
        invariant forall k :: 0 <= k < n ==>
          matrix[k] == if ClaimedEarlier(mats, additive, n, if k < i then cOther + 1 else cOther, k)
                       then Zeros(n) else mats[child][k]
      {
        ClaimedStep(mats, additive, n, child, cOther, i);
        if !additive[i] {
          var doZero := RowHasNonzero(matrixOther[i]);
          if doZero {
            matrix := ZeroRow(matrix, n, i);
          }
        }
        i := i + 1;
      }
      cOther := cOther + 1;
    }
  }

  /** The zeroed restriction matrices of all children, in child order. */
  method RestrictionMatrices(mats: seq<Matrix>, additive: seq<bool>, n: nat) returns (rs: seq<Matrix>)
    requires IsFamily(mats, n) && |additive| == n
    ensures |rs| == |mats|
    ensures forall c :: 0 <= c < |mats| ==> rs[c] == ZeroedRestriction(mats, additive, n, c)
  {
    rs := [];
    var c := 0;
    while c < |mats|
      invariant 0 <= c <= |mats| && |rs| == c
      invariant forall c' :: 0 <= c' < c ==> rs[c'] == ZeroedRestriction(mats, additive, n, c')
    {
      var m := GetRestrictionMatrix(mats, additive, n, c);
      rs := rs + [m];
      c := c + 1;
    }
  }

  // ---------------------------------------------------------------------
  // Packed layout: entry (i, j) of child c at i * stride + j + c * shift
  // ---------------------------------------------------------------------

  /** r[i][j] = m[rowOf[i]][colOf[j]]: the matrix read through two renumberings. */
  function Gather(m: Matrix, rows: nat, cols: nat, rowOf: seq<nat>, colOf: seq<nat>): (r: Matrix)
    requires IsMatrix(m, rows, cols) && IndicesBelow(rowOf, rows) && IndicesBelow(colOf, cols)
    ensures IsMatrix(r, |rowOf|, |colOf|)
  {
    seq(|rowOf|, i requires 0 <= i < |rowOf| => seq(|colOf|, j requires 0 <= j < |colOf| => m[rowOf[i]][colOf[j]]))
  }

  /** r[i][j] = m[rowOf[j]][colOf[i]]: the transpose, read through two renumberings. */
  function GatherTransposed(m: Matrix, rows: nat, cols: nat, rowOf: seq<nat>, colOf: seq<nat>): (r: Matrix)
    requires IsMatrix(m, rows, cols) && IndicesBelow(rowOf, rows) && IndicesBelow(colOf, cols)
    ensures IsMatrix(r, |colOf|, |rowOf|)
  {
    seq(|colOf|, i requires 0 <= i < |colOf| => seq(|rowOf|, j requires 0 <= j < |rowOf| => m[rowOf[j]][colOf[i]]))
  }

  /** Position of entry (i, q) of a row-major vector with `stride` entries per row. */
  function Flat(i: nat, q: nat, stride: nat): nat { i * stride + q }

  /**
   * One child's pass over the packed vector: the R-by-C block `vals` lands in
   * columns offset .. offset+C-1 of each row, either overwriting (`=`) or
   * accumulating (`+=`); every other entry is kept.
   */
  function BlockUpdate(prev: seq<real>, vals: Matrix, R: nat, C: nat, stride: nat, offset: nat, accumulate: bool)
    : (r: seq<real>)
    requires IsMatrix(vals, R, C)
    ensures |r| == |prev|
  {
    seq(|prev|, t requires 0 <= t < |prev| =>
      if stride > 0 && t / stride < R && offset <= t % stride < offset + C then
        (if accumulate then prev[t] + vals[t / stride][t % stride - offset] else vals[t / stride][t % stride - offset])
      else prev[t])
  }

  predicate AllBlocks(blocks: seq<Matrix>, R: nat, C: nat)
  {
    forall c :: 0 <= c < |blocks| ==> IsMatrix(blocks[c], R, C)
  }

  /** The passes of children 0, 1, ..., in that order; child c writes at column offset c * shift. */
  function PackedBlocks(init: seq<real>, blocks: seq<Matrix>, R: nat, C: nat, stride: nat, shift: nat,
                        accumulate: bool): (r: seq<real>)
    requires AllBlocks(blocks, R, C)
    ensures |r| == |init|
    decreases |blocks|
  {
    if |blocks| == 0 then init
    else
      var c := |blocks| - 1;
      BlockUpdate(PackedBlocks(init, blocks[..c], R, C, stride, shift, accumulate), blocks[c], R, C, stride,
                  c * shift, accumulate)
  }

  /** Reading one entry of a block pass back through its row and column. */
  lemma BlockUpdateAt(prev: seq<real>, vals: Matrix, R: nat, C: nat, stride: nat, offset: nat, accumulate: bool,
                      i: nat, q: nat)
    requires IsMatrix(vals, R, C) && |prev| == R * stride && i < R && q < stride
    ensures Flat(i, q, stride) < |prev|
    ensures BlockUpdate(prev, vals, R, C, stride, offset, accumulate)[Flat(i, q, stride)]
         == if offset <= q < offset + C then
              (if accumulate then prev[Flat(i, q, stride)] + vals[i][q - offset] else vals[i][q - offset])
            else prev[Flat(i, q, stride)]
  {
    MulStrict(i, R, stride);
    DivModUnique(i, q, stride);
  }

  /** The row pass of `WriteBlock`: entries rowStart+offset .. rowStart+offset+C-1. */
  method WriteBlockRow(a: array<real>, row: seq<real>, C: nat, rowStart: nat, stride: nat, offset: nat,
                       accumulate: bool, ghost target: seq<real>)
    requires |row| == C && offset + C <= stride && rowStart + stride <= a.Length && |target| == a.Length
    requires forall t :: rowStart <= t < rowStart + stride ==>
      target[t] == if rowStart + offset <= t < rowStart + offset + C then
                     (if accumulate then a[t] + row[t - rowStart - offset] else row[t - rowStart - offset])
                   else a[t]
    modifies a
    ensures forall t :: 0 <= t < a.Length ==>
      a[t] == if rowStart <= t < rowStart + stride then target[t] else old(a[t])
  {
    var j := 0;
    while j < C
      invariant 0 <= j <= C
      invariant forall t :: 0 <= t < a.Length ==>
        a[t] == if rowStart + offset <= t < rowStart + offset + j then target[t] else old(a[t])
    {
      if accumulate {
        a[rowStart + offset + j] := a[rowStart + offset + j] + row[j];
      } else {
        a[rowStart + offset + j] := row[j];
      }
      j := j + 1;
    }
  }

  /** One child's block, row by row (the i- and j-loops of the source). */
  method WriteBlock(a: array<real>, vals: Matrix, R: nat, C: nat, stride: nat, offset: nat, accumulate: bool)
    requires IsMatrix(vals, R, C) && offset + C <= stride && a.Length == R * stride
    modifies a
    ensures a[..] == BlockUpdate(old(a[..]), vals, R, C, stride, offset, accumulate)
  {
    ghost var target := BlockUpdate(a[..], vals, R, C, stride, offset, accumulate);
    var i := 0;
    while i < R
      invariant 0 <= i <= R
      invariant forall t :: 0 <= t < a.Length ==> a[t] == if t < i * stride then target[t] else old(a[t])
    {
      MulStrict(i, R, stride);
      forall t | i * stride <= t < i * stride + stride
        ensures target[t] == if i * stride + offset <= t < i * stride + offset + C then
                  (if accumulate then a[t] + vals[i][t - i * stride - offset] else vals[i][t - i * stride - offset])
                else a[t]
      {
        DivModUnique(i, t - i * stride, stride);
      }
      WriteBlockRow(a, vals[i], C, i * stride, stride, offset, accumulate, target);
      MulAddDistrib(i, 1, stride);
      i := i + 1;
    }
    assert a[..] == target;
  }

  /** The c-loop over children: child c's block at column offset c * shift. */
  method FillBlocks(a: array<real>, blocks: seq<Matrix>, R: nat, C: nat, stride: nat, shift: nat, accumulate: bool)
    requires AllBlocks(blocks, R, C) && a.Length == R * stride
    requires |blocks| == 0 || (|blocks| - 1) * shift + C <= stride
    modifies a
    ensures a[..] == PackedBlocks(old(a[..]), blocks, R, C, stride, shift, accumulate)
  {
    var c := 0;
    while c < |blocks|
      invariant 0 <= c <= |blocks|
      invariant a[..] == PackedBlocks(old(a[..]), blocks[..c], R, C, stride, shift, accumulate)
    {
      MulLe(c, |blocks| - 1, shift);
      assert blocks[..c + 1][..c] == blocks[..c];
      WriteBlock(a, blocks[c], R, C, stride, c * shift, accumulate);
      c := c + 1;
    }
    assert blocks[..c] == blocks;
  }

  /** A fresh zero vector of R * stride entries filled by `FillBlocks`. */
  method PackBlocks(blocks: seq<Matrix>, R: nat, C: nat, stride: nat, shift: nat, accumulate: bool)
    returns (packed: seq<real>)
    requires AllBlocks(blocks, R, C)
    requires |blocks| == 0 || (|blocks| - 1) * shift + C <= stride
    ensures packed == PackedBlocks(Zeros(R * stride), blocks, R, C, stride, shift, accumulate)
  {
    var a := new real[R * stride](_ => 0.0);
    assert a[..] == Zeros(R * stride);
    FillBlocks(a, blocks, R, C, stride, shift, accumulate);
    packed := a[..];
  }

  // ---------------------------------------------------------------------
  // The three layouts of the source
  // ---------------------------------------------------------------------

  /** Column offset of child 1 in the 1-D patch: the shared vertex DoF of a continuous element is stored once. */
  function Shift1D(n: nat, nv: nat, isFeq: bool): nat
    requires nv <= n
  {
    if isFeq then n - nv else n
  }

  /** `n_child_dofs_1d`: DoFs of the two 1-D children together. */
  function ChildDofs1D(n: nat, nv: nat, isFeq: bool): nat
    requires nv <= n
  {
    if isFeq then 2 * n - nv else 2 * n
  }

  /** Child c's prolongation block of the hypercube scheme: entry (i, j) is P_c(ren[j], ren[i]). */
  function ProlongationBlocks1D(prolongation: seq<Matrix>, n: nat, ren: seq<nat>): (b: seq<Matrix>)
    requires IsFamily(prolongation, n) && IndicesBelow(ren, n)
    ensures |b| == |prolongation| && AllBlocks(b, |ren|, |ren|)
  {
    seq(|prolongation|, c requires 0 <= c < |prolongation| => GatherTransposed(prolongation[c], n, n, ren, ren))
  }

  /** Child c's restriction block of the hypercube scheme: entry (i, j) is R'_c(ren[i], ren[j]). */
  function RestrictionBlocks1D(restriction: seq<Matrix>, additive: seq<bool>, n: nat, ren: seq<nat>): (b: seq<Matrix>)
    requires IsFamily(restriction, n) && |additive| == n && IndicesBelow(ren, n)
    ensures |b| == |restriction| && AllBlocks(b, |ren|, |ren|)
  {
    seq(|restriction|, c requires 0 <= c < |restriction| =>
      Gather(ZeroedRestriction(restriction, additive, n, c), n, n, ren, ren))
  }

  /**
   * Hypercube cells, geometric transfer: `prolongation_matrix_1d` of scheme
   * 1, n rows of n_child_dofs_1d entries. Child c's block starts at column
   * c * shift, and a later child overwrites where the two children overlap.
   */
  method HypercubeProlongation1D(prolongation: seq<Matrix>, ren: seq<nat>, n: nat, nv: nat, isFeq: bool)
    returns (prolongation1d: seq<real>)
    requires |prolongation| == 2 && IsFamily(prolongation, n)
    requires |ren| == n && IndicesBelow(ren, n) && nv <= n
    ensures var nc, shift := ChildDofs1D(n, nv, isFeq), Shift1D(n, nv, isFeq);
      prolongation1d == PackedBlocks(Zeros(n * nc), ProlongationBlocks1D(prolongation, n, ren), n, n, nc, shift, false)
  {
    var shift := if isFeq then n - nv else n;
    var nChildDofs1d := if isFeq then n * 2 - nv else n * 2;
    assert (2 - 1) * shift == shift;
    prolongation1d := PackBlocks(ProlongationBlocks1D(prolongation, n, ren), n, n, nChildDofs1d, shift, false);
  }

  /**
   * Hypercube cells, geometric transfer: `restriction_matrix_1d` of scheme 1,
   * the two children's zeroed restriction matrices added into one patch.
   */
  method HypercubeRestriction1D(restriction: seq<Matrix>, additive: seq<bool>, ren: seq<nat>, n: nat, nv: nat,
                                isFeq: bool)
    returns (restriction1d: seq<real>)
    requires |restriction| == 2 && IsFamily(restriction, n) && |additive| == n
    requires |ren| == n && IndicesBelow(ren, n) && nv <= n
    ensures var nc, shift := ChildDofs1D(n, nv, isFeq), Shift1D(n, nv, isFeq);
      restriction1d == PackedBlocks(Zeros(n * nc), RestrictionBlocks1D(restriction, additive, n, ren), n, n, nc, shift, true)
  {
    var shift := if isFeq then n - nv else n;
    var nChildDofs1d := if isFeq then n * 2 - nv else n * 2;
    var rs := RestrictionMatrices(restriction, additive, n);
    var blocks := [Gather(rs[0], n, n, ren, ren), Gather(rs[1], n, n, ren, ren)];
    ghost var expected := RestrictionBlocks1D(restriction, additive, n, ren);
    assert blocks[0] == expected[0] && blocks[1] == expected[1];
    assert blocks == expected;
    assert (|blocks| - 1) * shift == shift;
    restriction1d := PackBlocks(blocks, n, n, nChildDofs1d, shift, true);
  }

  /** Two blocks, child 0 at column 0 and child 1 at column shift, read back at one entry. */
  lemma TwoBlocksAt(init: seq<real>, b0: Matrix, b1: Matrix, R: nat, C: nat, stride: nat, shift: nat,
                    accumulate: bool, i: nat, q: nat)
    requires IsMatrix(b0, R, C) && IsMatrix(b1, R, C) && |init| == R * stride && i < R && q < stride
    ensures Flat(i, q, stride) < |init|
    ensures var t := Flat(i, q, stride);
      var v0 := if q < C then (if accumulate then init[t] + b0[i][q] else b0[i][q]) else init[t];
      PackedBlocks(init, [b0, b1], R, C, stride, shift, accumulate)[t]
      == if shift <= q < shift + C then (if accumulate then v0 + b1[i][q - shift] else b1[i][q - shift]) else v0
  {
    var blocks := [b0, b1];
    assert blocks[..1] == [b0] && [b0][..0] == [];
    assert PackedBlocks(init, [], R, C, stride, shift, accumulate) == init;
    assert 0 * shift == 0;
    var p0 := PackedBlocks(init, [b0], R, C, stride, shift, accumulate);
    assert p0 == BlockUpdate(init, b0, R, C, stride, 0, accumulate);
    BlockUpdateAt(init, b0, R, C, stride, 0, accumulate, i, q);
    BlockUpdateAt(p0, b1, R, C, stride, shift, accumulate, i, q);
  }

  /**
   * Every entry of the packed 1-D prolongation: the last child whose block
   * covers column q wins, so on the overlap column of a continuous element
   * child 1's value is stored.
   */
  lemma HypercubeProlongationEntries(prolongation: seq<Matrix>, ren: seq<nat>, n: nat, nv: nat, isFeq: bool,
                                     i: nat, q: nat)
    requires |prolongation| == 2 && IsFamily(prolongation, n)
    requires |ren| == n && IndicesBelow(ren, n) && nv <= n
    requires i < n && q < ChildDofs1D(n, nv, isFeq)
    ensures var nc, shift := ChildDofs1D(n, nv, isFeq), Shift1D(n, nv, isFeq);
      var pm := PackedBlocks(Zeros(n * nc), ProlongationBlocks1D(prolongation, n, ren), n, n, nc, shift, false);
      && Flat(i, q, nc) < |pm|
      && pm[Flat(i, q, nc)] == if shift <= q then prolongation[1][ren[q - shift]][ren[i]]
                               else prolongation[0][ren[q]][ren[i]]
  {
    var nc, shift := ChildDofs1D(n, nv, isFeq), Shift1D(n, nv, isFeq);
    var blocks := ProlongationBlocks1D(prolongation, n, ren);
    assert blocks == [blocks[0], blocks[1]];
    TwoBlocksAt(Zeros(n * nc), blocks[0], blocks[1], n, n, nc, shift, false, i, q);
  }

  /** Every entry of the packed 1-D restriction: the sum of the contributions of both children. */
  lemma HypercubeRestrictionEntries(restriction: seq<Matrix>, additive: seq<bool>, ren: seq<nat>, n: nat, nv: nat,
                                    isFeq: bool, i: nat, q: nat)
    requires |restriction| == 2 && IsFamily(restriction, n) && |additive| == n
    requires |ren| == n && IndicesBelow(ren, n) && nv <= n
    requires i < n && q < ChildDofs1D(n, nv, isFeq)
    ensures var nc, shift := ChildDofs1D(n, nv, isFeq), Shift1D(n, nv, isFeq);
      var rm := PackedBlocks(Zeros(n * nc), RestrictionBlocks1D(restriction, additive, n, ren), n, n, nc, shift, true);
      var r0, r1 := ZeroedRestriction(restriction, additive, n, 0), ZeroedRestriction(restriction, additive, n, 1);
      && Flat(i, q, nc) < |rm|
      && rm[Flat(i, q, nc)] == (if q < n then r0[ren[i]][ren[q]] else 0.0)
                              + (if shift <= q then r1[ren[i]][ren[q - shift]] else 0.0)
  {
    var nc, shift := ChildDofs1D(n, nv, isFeq), Shift1D(n, nv, isFeq);
    var blocks := RestrictionBlocks1D(restriction, additive, n, ren);
    assert blocks == [blocks[0], blocks[1]];
    TwoBlocksAt(Zeros(n * nc), blocks[0], blocks[1], n, n, nc, shift, true, i, q);
  }

  /**
   * Non-hypercube cells, geometric transfer: the full `prolongation_matrix`
   * of scheme 1, n rows of n * n_children entries; child c's block starts at
   * column c * n, so blocks never overlap.
   */
  method NonHypercubeProlongation(prolongation: seq<Matrix>, n: nat) returns (prolongationMatrix: seq<real>)
    requires IsFamily(prolongation, n)
    ensures prolongationMatrix == PackedBlocks(Zeros(n * (n * |prolongation|)),
      ProlongationBlocks1D(prolongation, n, Iota(n)), n, n, n * |prolongation|, n, false)
  {
    var nChildren := |prolongation|;
    if nChildren > 0 {
      MulAddDistrib(nChildren - 1, 1, n);
    }
    prolongationMatrix := PackBlocks(ProlongationBlocks1D(prolongation, n, Iota(n)), n, n, n * nChildren, n, false);
  }

  /** The matching `restriction_matrix`, built from the zeroed restriction matrices. */
  method NonHypercubeRestriction(restriction: seq<Matrix>, additive: seq<bool>, n: nat)
    returns (restrictionMatrix: seq<real>)
    requires IsFamily(restriction, n) && |additive| == n
    ensures restrictionMatrix == PackedBlocks(Zeros(n * (n * |restriction|)),
      RestrictionBlocks1D(restriction, additive, n, Iota(n)), n, n, n * |restriction|, n, true)
  {
    var nChildren := |restriction|;
    if nChildren > 0 {
      MulAddDistrib(nChildren - 1, 1, n);
    }
    var rs := RestrictionMatrices(restriction, additive, n);
    var blocks := seq(nChildren, c requires 0 <= c < nChildren => Gather(rs[c], n, n, Iota(n), Iota(n)));
    assert blocks == RestrictionBlocks1D(restriction, additive, n, Iota(n));
    restrictionMatrix := PackBlocks(blocks, n, n, n * nChildren, n, true);
  }

  /**
   * Polynomial transfer between two hypercube elements: the 1-D projection
   * matrices, renumbered lexicographically and stored with one row per coarse
   * DoF (the running index k of the source is i * n_fine + j).
   */
  method PolynomialMatrices1D(coarseToFine: Matrix, fineToCoarse: Matrix, renFine: seq<nat>, renCoarse: seq<nat>)
    returns (prolongation1d: seq<real>, restriction1d: seq<real>)
    requires IsMatrix(coarseToFine, |renFine|, |renCoarse|) && IsMatrix(fineToCoarse, |renCoarse|, |renFine|)
    requires IndicesBelow(renFine, |renFine|) && IndicesBelow(renCoarse, |renCoarse|)
    ensures |prolongation1d| == |renCoarse| * |renFine| && |restriction1d| == |renCoarse| * |renFine|
    ensures forall i, j :: 0 <= i < |renCoarse| && 0 <= j < |renFine| ==>
      && Flat(i, j, |renFine|) < |renCoarse| * |renFine|
      && prolongation1d[Flat(i, j, |renFine|)] == coarseToFine[renFine[j]][renCoarse[i]]
      && restriction1d[Flat(i, j, |renFine|)] == fineToCoarse[renCoarse[i]][renFine[j]]
  {
    var nF, nC := |renFine|, |renCoarse|;
    var pBlock := GatherTransposed(coarseToFine, nF, nC, renFine, renCoarse);
    var rBlock := Gather(fineToCoarse, nC, nF, renCoarse, renFine);
    prolongation1d := PackBlocks([pBlock], nC, nF, nF, 0, false);
    restriction1d := PackBlocks([rBlock], nC, nF, nF, 0, false);
    forall i, j | 0 <= i < nC && 0 <= j < nF
      ensures Flat(i, j, nF) < nC * nF
      ensures prolongation1d[Flat(i, j, nF)] == coarseToFine[renFine[j]][renCoarse[i]]
      ensures restriction1d[Flat(i, j, nF)] == fineToCoarse[renCoarse[i]][renFine[j]]
    {
      assert [pBlock][..0] == [] && [rBlock][..0] == [];
      BlockUpdateAt(Zeros(nC * nF), pBlock, nC, nF, nF, 0, false, i, j);
      BlockUpdateAt(Zeros(nC * nF), rBlock, nC, nF, nF, 0, false, i, j);
    }
  }

  /** Non-hypercube prolongation: entry (i, j) of child c sits at column c * n + j and holds P_c(j, i). */
  lemma NonHypercubeProlongationEntries(prolongation: seq<Matrix>, n: nat, c: nat, i: nat, j: nat)
    requires IsFamily(prolongation, n) && c < |prolongation| && i < n && j < n
    ensures var nc := n * |prolongation|;
      var pm := PackedBlocks(Zeros(n * nc), ProlongationBlocks1D(prolongation, n, Iota(n)), n, n, nc, n, false);
      && Flat(i, c * n + j, nc) < |pm|
      && pm[Flat(i, c * n + j, nc)] == prolongation[c][j][i]
  {
    var nc := n * |prolongation|;
    var pb := ProlongationBlocks1D(prolongation, n, Iota(n));
    assert |pb| * n == nc;
    DisjointBlocksEntry(Zeros(n * nc), pb, n, nc, false, c, i, j);
  }

  /** Non-hypercube restriction: entry (i, j) of child c sits at column c * n + j and holds R'_c(i, j). */
  lemma NonHypercubeRestrictionEntries(restriction: seq<Matrix>, additive: seq<bool>, n: nat, c: nat, i: nat, j: nat)
    requires IsFamily(restriction, n) && |additive| == n && c < |restriction| && i < n && j < n
    ensures var nc := n * |restriction|;
      var rm := PackedBlocks(Zeros(n * nc), RestrictionBlocks1D(restriction, additive, n, Iota(n)), n, n, nc, n, true);
      && Flat(i, c * n + j, nc) < |rm|
      && rm[Flat(i, c * n + j, nc)] == ZeroedRestriction(restriction, additive, n, c)[i][j]
  {
    var nc := n * |restriction|;
    var rb := RestrictionBlocks1D(restriction, additive, n, Iota(n));
    assert |rb| * n == nc;
    DisjointBlocksEntry(Zeros(n * nc), rb, n, nc, true, c, i, j);
  }

  /** With column offset c * C for block c of width C, each entry is written by exactly one block. */
  lemma {:induction false} DisjointBlocksEntry(init: seq<real>, blocks: seq<Matrix>, C: nat, stride: nat,
                                               accumulate: bool, c: nat, i: nat, j: nat)
    requires AllBlocks(blocks, C, C) && |init| == C * stride && |blocks| * C <= stride
    requires (forall t :: 0 <= t < |init| ==> init[t] == 0.0)
    requires c < |blocks| && i < C && j < C
    ensures Flat(i, c * C + j, stride) < |init|
    ensures PackedBlocks(init, blocks, C, C, stride, C, accumulate)[Flat(i, c * C + j, stride)] == blocks[c][i][j]
    decreases |blocks|
  {
    var last := |blocks| - 1;
    var q := c * C + j;
    assert q < stride by {
      MulStrict(c, |blocks|, C);
    }
    var prefix := PackedBlocks(init, blocks[..last], C, C, stride, C, accumulate);
    BlockUpdateAt(prefix, blocks[last], C, C, stride, last * C, accumulate, i, q);
    if c == last {
      UntouchedByEarlier(init, blocks[..last], C, stride, accumulate, i, q);
    } else {
      assert |blocks[..last]| * C <= stride by {
        MulLe(last, |blocks|, C);
      }
      MulStrict(c, last, C);
      assert AllBlocks(blocks[..last], C, C);
      DisjointBlocksEntry(init, blocks[..last], C, stride, accumulate, c, i, j);
    }
  }

  /** Columns at or beyond |blocks| * C are never written, so they keep the initial zero. */
  lemma {:induction false} UntouchedByEarlier(init: seq<real>, blocks: seq<Matrix>, C: nat, stride: nat,
                                              accumulate: bool, i: nat, q: nat)
    requires AllBlocks(blocks, C, C) && |init| == C * stride
    requires (forall t :: 0 <= t < |init| ==> init[t] == 0.0)
    requires i < C && |blocks| * C <= q < stride
    ensures Flat(i, q, stride) < |init|
    ensures PackedBlocks(init, blocks, C, C, stride, C, accumulate)[Flat(i, q, stride)] == 0.0
    decreases |blocks|
  {
    MulStrict(i, C, stride);
    if |blocks| > 0 {
      var last := |blocks| - 1;
      var prefix := PackedBlocks(init, blocks[..last], C, C, stride, C, accumulate);
      MulAddDistrib(last, 1, C);
      assert AllBlocks(blocks[..last], C, C);
      UntouchedByEarlier(init, blocks[..last], C, stride, accumulate, i, q);
      BlockUpdateAt(prefix, blocks[last], C, C, stride, last * C, accumulate, i, q);
    }
  }
}
