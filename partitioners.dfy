/**
 * Partitioner bookkeeping of the two-level transfer on one rank:
 * `is_partitioner_contained`, the embedded partitioner, the in-place
 * remap of local DoF indices `global_to_local ∘ local_to_global` done by
 * `internal_enable_inplace_operations_if_possible`, and the list of
 * partitioners that `MGTransferMF::build` hands out.
 *
 * A partitioner owns the contiguous global range [first, first + nOwned)
 * and imports the ghost indices `ghosts`, kept in ascending order. Local
 * index i < nOwned stands for the owned index first + i, local index
 * nOwned + g for ghost number g.
 */
module Partitioners {
  import opened Wrappers

  datatype Partitioner = Partitioner(size: nat, first: nat, nOwned: nat, ghosts: seq<nat>)

  predicate Owns(p: Partitioner, g: nat)
  {
    p.first <= g < p.first + p.nOwned
  }

  predicate Ascending(s: seq<nat>)
  {
    forall i, j :: 0 <= i < j < |s| ==> s[i] < s[j]
  }

  predicate WellFormed(p: Partitioner)
  {
    p.first + p.nOwned <= p.size && Ascending(p.ghosts)
    && forall i :: 0 <= i < |p.ghosts| ==> p.ghosts[i] < p.size && !Owns(p, p.ghosts[i])
  }

  function LocalSize(p: Partitioner): nat
  {
    p.nOwned + |p.ghosts|
  }

  /** `local_to_global`. */
  function LocalToGlobal(p: Partitioner, i: nat): nat
    requires i < LocalSize(p)
  {
    if i < p.nOwned then p.first + i else p.ghosts[i - p.nOwned]
  }

  /** `global_to_local`; an index the rank neither owns nor imports has no local index. */
  function GlobalToLocal(p: Partitioner, g: nat): (r: Option<nat>)
    ensures r.Some? <==> Owns(p, g) || g in p.ghosts
    ensures r.Some? ==> r.value < LocalSize(p) && LocalToGlobal(p, r.value) == g
  {
    if Owns(p, g) then Some(g - p.first)
    else if g in p.ghosts then Some(p.nOwned + Position(p.ghosts, g))
    else None
  }

  /** Local numbering is a bijection onto the owned and ghost indices. */
  lemma LocalRoundTrip(p: Partitioner, i: nat)
    requires WellFormed(p) && i < LocalSize(p)
    ensures GlobalToLocal(p, LocalToGlobal(p, i)) == Some(i)
  {
    if i >= p.nOwned {
      var g := p.ghosts[i - p.nOwned];
      assert !Owns(p, g);
      var r := Position(p.ghosts, g);
      assert p.ghosts[r] == g;
    }
  }

  /**
   * `is_partitioner_contained`: an external partitioner is given, has the
   * same size and the same owned range, and imports every ghost of p.
   */
  function IsPartitionerContained(p: Partitioner, external: Option<Partitioner>): (r: bool)
  {
    if external.None? then false
    else if external.value.size != p.size then false
    else if (external.value.first, external.value.nOwned) != (p.first, p.nOwned) then false
    else forall g :: g in p.ghosts ==> g in external.value.ghosts
  }

  /** Containment means exactly that every local index of p has a local index in the external partitioner. */
  lemma ContainedIffTranslatable(p: Partitioner, e: Partitioner)
    requires WellFormed(p) && WellFormed(e) && e.size == p.size && e.first == p.first && e.nOwned == p.nOwned
    ensures IsPartitionerContained(p, Some(e))
      <==> forall i :: 0 <= i < LocalSize(p) ==> GlobalToLocal(e, LocalToGlobal(p, i)).Some?
  {
    if forall i :: 0 <= i < LocalSize(p) ==> GlobalToLocal(e, LocalToGlobal(p, i)).Some? {
      forall g | g in p.ghosts
        ensures g in e.ghosts
      {
        var k := Position(p.ghosts, g);
        assert LocalToGlobal(p, p.nOwned + k) == g;
        assert !Owns(e, g);
      }
    }
  }

  /** The new local index of local index i of p. */
  function Translate(p: Partitioner, e: Partitioner, i: nat): nat
    requires WellFormed(p) && WellFormed(e) && IsPartitionerContained(p, Some(e)) && i < LocalSize(p)
  {
    TranslateDefined(p, e, i);
    GlobalToLocal(e, LocalToGlobal(p, i)).value
  }

  /** Under containment every local index of p translates. */
  lemma TranslateDefined(p: Partitioner, e: Partitioner, i: nat)
    requires WellFormed(p) && WellFormed(e) && IsPartitionerContained(p, Some(e)) && i < LocalSize(p)
    ensures GlobalToLocal(e, LocalToGlobal(p, i)).Some?
  {
    ContainedIffTranslatable(p, e);
  }

  /** The translated index is local to e and names the same global index; distinct indices stay distinct. */
  lemma TranslateKeepsGlobal(p: Partitioner, e: Partitioner, i: nat, j: nat)
    requires WellFormed(p) && WellFormed(e) && IsPartitionerContained(p, Some(e)) && i < LocalSize(p) && j < LocalSize(p)
    ensures Translate(p, e, i) < LocalSize(e) && LocalToGlobal(e, Translate(p, e, i)) == LocalToGlobal(p, i)
    ensures Translate(p, e, i) == Translate(p, e, j) ==> i == j
  {
    LocalRoundTrip(p, i);
    LocalRoundTrip(p, j);
  }

  /** `for (auto &i : indices) i = external->global_to_local(partitioner->local_to_global(i))`. */
  method Remap(indices: array<nat>, p: Partitioner, e: Partitioner)
    requires WellFormed(p) && WellFormed(e) && IsPartitionerContained(p, Some(e))
    requires forall k :: 0 <= k < indices.Length ==> indices[k] < LocalSize(p)
    modifies indices
    ensures forall k :: 0 <= k < indices.Length ==> indices[k] == Translate(p, e, old(indices[k]))
  {
    var k := 0;
    while k < indices.Length
      invariant 0 <= k <= indices.Length
      invariant forall m :: 0 <= m < k ==> indices[m] == Translate(p, e, old(indices[m]))
      invariant forall m :: k <= m < indices.Length ==> indices[m] == old(indices[m])
    {
      TranslateDefined(p, e, indices[k]);
      var g := LocalToGlobal(p, indices[k]);
      indices[k] := GlobalToLocal(e, g).value;
      k := k + 1;
    }
  }

  /**
   * A partitioner that imports the ghosts of `own` but lays its ghost
   * entries out as the ghost set `ghostLayout` of a larger partitioner, so
   * that it acts on vectors built with the larger one.
   */
  datatype EmbeddedPartitioner = EmbeddedPartitioner(own: Partitioner, ghostLayout: seq<nat>)

  /**
   * `create_embedded_partitioner`: the owned range of the larger
   * partitioner, the ghosts of the smaller one, laid out in the ghost set of
   * the larger one (`set_ghost_indices(ghosts, larger_ghosts)`).
   */
  function Embedded(p: Partitioner, larger: Partitioner): (r: EmbeddedPartitioner)
    requires WellFormed(p) && WellFormed(larger) && IsPartitionerContained(p, Some(larger))
    ensures WellFormed(r.own) && IsPartitionerContained(r.own, Some(larger))
    ensures r.own.first == larger.first && r.own.nOwned == larger.nOwned && r.own.ghosts == p.ghosts
    ensures r.ghostLayout == larger.ghosts
    ensures forall k :: 0 <= k < |r.own.ghosts| ==> r.own.ghosts[k] in r.ghostLayout
  {
    EmbeddedPartitioner(Partitioner(larger.size, larger.first, larger.nOwned, p.ghosts), larger.ghosts)
  }

  /** The slot among the ghost entries of the larger vector where ghost number k of the embedded partitioner lives. */
  function GhostSlot(r: EmbeddedPartitioner, k: nat): (s: nat)
    requires k < |r.own.ghosts| && r.own.ghosts[k] in r.ghostLayout
    ensures s < |r.ghostLayout| && r.ghostLayout[s] == r.own.ghosts[k]
  {
    Position(r.ghostLayout, r.own.ghosts[k])
  }

  /** In an ascending sequence smaller entries come first. */
  lemma {:induction false} PositionMonotone(s: seq<nat>, x: nat, y: nat)
    requires Ascending(s) && x in s && y in s && x < y
    ensures Position(s, x) < Position(s, y)
  {
    if s[0] == x {
      assert s[0] != y;
    } else {
      assert s[0] != y by {
        var i := Position(s, x);
        assert s[0] < s[i];
      }
      assert Ascending(s[1..]) by {
        forall i, j | 0 <= i < j < |s[1..]|
          ensures s[1..][i] < s[1..][j]
        {
          assert s[1..][i] == s[i + 1] && s[1..][j] == s[j + 1];
        }
      }
      PositionMonotone(s[1..], x, y);
    }
  }

  /**
   * The embedded partitioner addresses the larger vector: ghost k has the
   * local index `n_owned + slot` there that the larger partitioner gives its
   * global index, and the ghosts keep their order inside the larger layout.
   */
  lemma EmbeddedGhostLayout(p: Partitioner, larger: Partitioner, k: nat, k2: nat)
    requires WellFormed(p) && WellFormed(larger) && IsPartitionerContained(p, Some(larger))
    requires k < k2 < |p.ghosts|
    ensures GlobalToLocal(larger, p.ghosts[k]) == Some(larger.nOwned + GhostSlot(Embedded(p, larger), k))
    ensures GhostSlot(Embedded(p, larger), k) < GhostSlot(Embedded(p, larger), k2)
  {
    assert !Owns(larger, p.ghosts[k]) by {
      assert !Owns(p, p.ghosts[k]);
    }
    PositionMonotone(larger.ghosts, p.ghosts[k], p.ghosts[k2]);
  }

  /**
   * `is_globally_compatible` on one rank: same size, same owned range and
   * the same ghost indices.
   */
  predicate Compatible(p: Partitioner, e: Partitioner)
  {
    p == e
  }

  /** The external partitioner is taken over: it is compatible, or it contains p. */
  predicate Adopts(p: Partitioner, e: Partitioner)
  {
    Compatible(p, e) || IsPartitionerContained(p, Some(e))
  }

  /** The partitioner a side ends with. */
  function Adopted(p: Partitioner, e: Partitioner): (r: Partitioner)
    ensures r == e || r == p
    ensures WellFormed(p) && WellFormed(e) ==> WellFormed(r)
  {
    if Adopts(p, e) then e else p
  }

  /** The embedded partitioner a side ends with: set only when the indices had to be renumbered. */
  function EmbeddedAfter(p: Partitioner, e: Partitioner, before: Option<EmbeddedPartitioner>): (r: Option<EmbeddedPartitioner>)
    requires WellFormed(p) && WellFormed(e)
    ensures r.Some? && r != before ==> (!Compatible(p, e) && IsPartitionerContained(p, Some(e))
      && r.value.own.ghosts == p.ghosts && r.value.own.first == e.first && r.value.own.nOwned == e.nOwned
      && r.value.ghostLayout == e.ghosts)
  {
    if !Compatible(p, e) && IsPartitionerContained(p, Some(e)) then Some(Embedded(p, e)) else before
  }

  /** The partitioners and DoF index arrays of one two-level transfer. */
  class TransferPartitioning {
    var partitionerCoarse: Partitioner
    var partitionerFine: Partitioner
    var embeddedCoarse: Option<EmbeddedPartitioner>
    var embeddedFine: Option<EmbeddedPartitioner>
    /** `vec_coarse.size() == 0` and `vec_fine.size() == 0`: the caller's vectors are used in place. */
    var coarseInPlace: bool
    var fineInPlace: bool
    var fineNeedsGhostUpdate: bool
    /** `constraint_info_coarse.dof_indices`, `constraint_info_coarse.plain_dof_indices` and `dof_indices_fine`. */
    var dofIndicesCoarse: array<nat>
    var plainDofIndicesCoarse: array<nat>
    var dofIndicesFine: array<nat>

    /** Every stored coarse index is a local index of the coarse partitioner. */
    ghost predicate CoarseValid()
      reads this, dofIndicesCoarse, plainDofIndicesCoarse
    {
      WellFormed(partitionerCoarse)
      && (forall k :: 0 <= k < dofIndicesCoarse.Length ==> dofIndicesCoarse[k] < LocalSize(partitionerCoarse))
      && (forall k :: 0 <= k < plainDofIndicesCoarse.Length ==> plainDofIndicesCoarse[k] < LocalSize(partitionerCoarse))
    }

    /** Every stored fine index is a local index of the fine partitioner. */
    ghost predicate FineValid()
      reads this, dofIndicesFine
    {
      WellFormed(partitionerFine)
      && forall k :: 0 <= k < dofIndicesFine.Length ==> dofIndicesFine[k] < LocalSize(partitionerFine)
    }

    ghost predicate Valid()
      reads this, dofIndicesCoarse, plainDofIndicesCoarse, dofIndicesFine
    {
      dofIndicesCoarse != plainDofIndicesCoarse && dofIndicesCoarse != dofIndicesFine
      && plainDofIndicesCoarse != dofIndicesFine
      && CoarseValid() && FineValid()
    }

    constructor (pc: Partitioner, pf: Partitioner, coarse: array<nat>, plain: array<nat>, fine: array<nat>)
      requires WellFormed(pc) && WellFormed(pf)
      requires coarse != plain && coarse != fine && plain != fine
      requires forall k :: 0 <= k < coarse.Length ==> coarse[k] < LocalSize(pc)
      requires forall k :: 0 <= k < plain.Length ==> plain[k] < LocalSize(pc)
      requires forall k :: 0 <= k < fine.Length ==> fine[k] < LocalSize(pf)
      ensures Valid() && partitionerCoarse == pc && partitionerFine == pf
      ensures dofIndicesCoarse == coarse && plainDofIndicesCoarse == plain && dofIndicesFine == fine
      ensures embeddedCoarse.None? && embeddedFine.None? && !coarseInPlace && !fineInPlace && fineNeedsGhostUpdate
    {
      partitionerCoarse, partitionerFine := pc, pf;
      embeddedCoarse, embeddedFine := None, None;
      coarseInPlace, fineInPlace := false, false;
      fineNeedsGhostUpdate := true;
      dofIndicesCoarse, plainDofIndicesCoarse, dofIndicesFine := coarse, plain, fine;
    }

    /**
     * `internal_enable_inplace_operations_if_possible`: each side adopts the
     * external partitioner when it is compatible or contains the current
     * one, renumbering the stored indices in the second case; whether the
     * fine vector needs a ghost update is decided from the fine partitioner
     * it had before. Every stored index still names the same global DoF.
     */
    method EnableInplaceOperations(externalCoarse: Partitioner, externalFine: Partitioner)
      requires Valid() && WellFormed(externalCoarse) && WellFormed(externalFine)
      modifies this, dofIndicesCoarse, plainDofIndicesCoarse, dofIndicesFine
      ensures Valid()
      ensures dofIndicesCoarse == old(dofIndicesCoarse) && plainDofIndicesCoarse == old(plainDofIndicesCoarse)
      ensures dofIndicesFine == old(dofIndicesFine)
      ensures fineNeedsGhostUpdate == (|old(partitionerFine).ghosts| > 0)
      ensures partitionerCoarse == Adopted(old(partitionerCoarse), externalCoarse)
      ensures coarseInPlace == (old(coarseInPlace) || Adopts(old(partitionerCoarse), externalCoarse))
      ensures embeddedCoarse == EmbeddedAfter(old(partitionerCoarse), externalCoarse, old(embeddedCoarse))
      ensures partitionerFine == Adopted(old(partitionerFine), externalFine)
      ensures fineInPlace == (old(fineInPlace) || Adopts(old(partitionerFine), externalFine))
      ensures embeddedFine == EmbeddedAfter(old(partitionerFine), externalFine, old(embeddedFine))
      ensures forall k :: 0 <= k < dofIndicesCoarse.Length ==>
        LocalToGlobal(partitionerCoarse, dofIndicesCoarse[k])
          == LocalToGlobal(old(partitionerCoarse), old(dofIndicesCoarse[k]))
      ensures forall k :: 0 <= k < plainDofIndicesCoarse.Length ==>
        LocalToGlobal(partitionerCoarse, plainDofIndicesCoarse[k])
          == LocalToGlobal(old(partitionerCoarse), old(plainDofIndicesCoarse[k]))
      ensures forall k :: 0 <= k < dofIndicesFine.Length ==>
        LocalToGlobal(partitionerFine, dofIndicesFine[k]) == LocalToGlobal(old(partitionerFine), old(dofIndicesFine[k]))
    {
      EnableCoarse(externalCoarse);
      fineNeedsGhostUpdate := |partitionerFine.ghosts| > 0;
      EnableFine(externalFine);
    }

    /** The coarse half: `dof_indices` and `plain_dof_indices` of the coarse constraint info. */
    method EnableCoarse(e: Partitioner)
      requires Valid() && WellFormed(e)
      modifies this, dofIndicesCoarse, plainDofIndicesCoarse
      ensures Valid()
      ensures dofIndicesCoarse == old(dofIndicesCoarse) && plainDofIndicesCoarse == old(plainDofIndicesCoarse)
      ensures dofIndicesFine == old(dofIndicesFine) && partitionerFine == old(partitionerFine)
      ensures fineInPlace == old(fineInPlace) && embeddedFine == old(embeddedFine)
      ensures fineNeedsGhostUpdate == old(fineNeedsGhostUpdate)
      ensures partitionerCoarse == Adopted(old(partitionerCoarse), e)
      ensures coarseInPlace == (old(coarseInPlace) || Adopts(old(partitionerCoarse), e))
      ensures embeddedCoarse == EmbeddedAfter(old(partitionerCoarse), e, old(embeddedCoarse))
      ensures forall k :: 0 <= k < dofIndicesCoarse.Length ==>
        LocalToGlobal(partitionerCoarse, dofIndicesCoarse[k])
          == LocalToGlobal(old(partitionerCoarse), old(dofIndicesCoarse[k]))
      ensures forall k :: 0 <= k < plainDofIndicesCoarse.Length ==>
        LocalToGlobal(partitionerCoarse, plainDofIndicesCoarse[k])
          == LocalToGlobal(old(partitionerCoarse), old(plainDofIndicesCoarse[k]))
    {
      if Compatible(partitionerCoarse, e) {
        coarseInPlace := true;
        partitionerCoarse := e;
      } else if IsPartitionerContained(partitionerCoarse, Some(e)) {
        coarseInPlace := true;
        Remap(dofIndicesCoarse, partitionerCoarse, e);
        Remap(plainDofIndicesCoarse, partitionerCoarse, e);
        RemapKeepsGlobal(dofIndicesCoarse[..], old(dofIndicesCoarse[..]), partitionerCoarse, e);
        RemapKeepsGlobal(plainDofIndicesCoarse[..], old(plainDofIndicesCoarse[..]), partitionerCoarse, e);
        embeddedCoarse := Some(Embedded(partitionerCoarse, e));
        partitionerCoarse := e;
      }
    }

    /** The fine half: `dof_indices_fine`. */
    method EnableFine(e: Partitioner)
      requires Valid() && WellFormed(e)
      modifies this, dofIndicesFine
      ensures Valid()
      ensures dofIndicesCoarse == old(dofIndicesCoarse) && plainDofIndicesCoarse == old(plainDofIndicesCoarse)
      ensures dofIndicesFine == old(dofIndicesFine) && partitionerCoarse == old(partitionerCoarse)
      ensures coarseInPlace == old(coarseInPlace) && embeddedCoarse == old(embeddedCoarse)
      ensures fineNeedsGhostUpdate == old(fineNeedsGhostUpdate)
      ensures partitionerFine == Adopted(old(partitionerFine), e)
      ensures fineInPlace == (old(fineInPlace) || Adopts(old(partitionerFine), e))
      ensures embeddedFine == EmbeddedAfter(old(partitionerFine), e, old(embeddedFine))
      ensures forall k :: 0 <= k < dofIndicesFine.Length ==>
        LocalToGlobal(partitionerFine, dofIndicesFine[k]) == LocalToGlobal(old(partitionerFine), old(dofIndicesFine[k]))
    {
      if Compatible(partitionerFine, e) {
        fineInPlace := true;
        partitionerFine := e;
      } else if IsPartitionerContained(partitionerFine, Some(e)) {
        fineInPlace := true;
        Remap(dofIndicesFine, partitionerFine, e);
        RemapKeepsGlobal(dofIndicesFine[..], old(dofIndicesFine[..]), partitionerFine, e);
        embeddedFine := Some(Embedded(partitionerFine, e));
        partitionerFine := e;
      }
    }
  }

  /** After the remap every index is local to e and names the global index it named before. */
  lemma RemapKeepsGlobal(after: seq<nat>, before: seq<nat>, p: Partitioner, e: Partitioner)
    requires WellFormed(p) && WellFormed(e) && IsPartitionerContained(p, Some(e)) && |after| == |before|
    requires forall k :: 0 <= k < |before| ==> before[k] < LocalSize(p)
    requires forall k :: 0 <= k < |after| ==> after[k] == Translate(p, e, before[k])
    ensures forall k :: 0 <= k < |after| ==> after[k] < LocalSize(e) && LocalToGlobal(e, after[k]) == LocalToGlobal(p, before[k])
  {
    forall k | 0 <= k < |after|
      ensures after[k] < LocalSize(e) && LocalToGlobal(e, after[k]) == LocalToGlobal(p, before[k])
    {
      TranslateKeepsGlobal(p, e, before[k], before[k]);
    }
  }

  /**
   * `MGTransferMF::build` without given partitioners: the coarse
   * partitioner of the first transfer, then the fine partitioner of every
   * transfer, level by level.
   */
  method BuildExternalPartitioners(coarse: seq<Partitioner>, fine: seq<Partitioner>) returns (external: seq<Partitioner>)
    requires |coarse| == |fine|
    ensures |coarse| == 0 ==> external == []
    ensures |coarse| > 0 ==> (|external| == |coarse| + 1 && external[0] == coarse[0]
      && forall l :: 0 <= l < |fine| ==> external[l + 1] == fine[l])
  {
    external := [];
    var l := 0;
    while l < |fine|
      invariant 0 <= l <= |fine|
      invariant l == 0 ==> external == []
      invariant l > 0 ==> (|external| == l + 1 && external[0] == coarse[0]
        && forall m :: 0 <= m < l ==> external[m + 1] == fine[m])
    {
      if l == 0 {
        external := external + [coarse[l]];
      }
      external := external + [fine[l]];
      l := l + 1;
    }
  }

  /**
   * When each transfer's coarse partitioner is the fine partitioner of the
   * transfer below, the list hands transfer l the pair (l, l + 1), which is
   * its own pair: handing the list back makes every transfer work in place
   * without renumbering.
   */
  lemma ExternalListIsOwnPairs(coarse: seq<Partitioner>, fine: seq<Partitioner>, external: seq<Partitioner>)
    requires |coarse| == |fine| > 0 && |external| == |coarse| + 1 && external[0] == coarse[0]
    requires forall l :: 0 <= l < |fine| ==> external[l + 1] == fine[l]
    requires forall l :: 0 < l < |coarse| ==> coarse[l] == fine[l - 1]
    ensures forall l :: 0 <= l < |coarse| ==>
      Compatible(coarse[l], external[l]) && Compatible(fine[l], external[l + 1])
  {
    forall l | 0 <= l < |coarse|
      ensures external[l] == coarse[l]
    {
      if l > 0 {
        assert external[l] == fine[l - 1];
      }
    }
  }
}
