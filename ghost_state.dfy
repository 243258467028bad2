/**
 * The ghost-entry bookkeeping of `prolongate_and_add`, `restrict_and_add`
 * and `interpolate`. Each works either in place on the caller's vectors or
 * on the internal `vec_fine` / `vec_coarse` (when these have size zero the
 * caller's vector is used directly). Around the cell loop the operations
 * import ghost values, zero, compress and clean up, each under its own
 * condition; the model follows those calls one by one on a two-flag
 * abstraction of every vector.
 *
 * Vector entries are not modelled, only `has_ghost_elements` and whether
 * ghost entries hold contributions that a `compress` still has to send.
 */
module GhostState {

  /**
   * `ghosted`: the ghost entries hold valid imported values
   * (`has_ghost_elements`); `pending`: they hold added contributions that
   * have not been sent to their owners.
   */
  datatype Vec = Vec(ghosted: bool, pending: bool)

  /** The caller's `src` and `dst`, and the internal `vec_fine` and `vec_coarse`. */
  datatype Vectors = Vectors(src: Vec, dst: Vec, fine: Vec, coarse: Vec)

  datatype Target = Src | Dst | Fine | Coarse

  /**
   * What the operation is built with: whether the internal fine and coarse
   * vectors are empty (so the caller's vector is used in place),
   * `vec_fine_needs_ghost_update`, and `fine_element_is_continuous`.
   */
  datatype Flags = Flags(fineInPlace: bool, coarseInPlace: bool, fineNeedsGhostUpdate: bool,
                         fineElementIsContinuous: bool)

  /** The vectors after the call, and the vector the cell loop read from as it was when the loop ran. */
  datatype Outcome = Outcome(after: Vectors, read: Vec)

  function Get(V: Vectors, t: Target): Vec
  {
    match t
    case Src => V.src
    case Dst => V.dst
    case Fine => V.fine
    case Coarse => V.coarse
  }

  function Put(V: Vectors, t: Target, v: Vec): (r: Vectors)
    ensures Get(r, t) == v
    ensures forall u :: u != t ==> Get(r, u) == Get(V, u)
  {
    match t
    case Src => V.(src := v)
    case Dst => V.(dst := v)
    case Fine => V.(fine := v)
    case Coarse => V.(coarse := v)
  }

  // ---------------------------------------------------------------------
  // The vector operations the transfer calls
  // ---------------------------------------------------------------------

  /** `copy_locally_owned_data_from`: only owned entries are overwritten; the ghost state is not touched. */
  function CopyOwned(V: Vectors, t: Target): Vectors
  {
    V
  }

  /** `update_ghost_values`. */
  function UpdateGhosts(V: Vectors, t: Target): Vectors
  {
    Put(V, t, Get(V, t).(ghosted := true))
  }

  /** `zero_out_ghost_values`: ghost entries are zeroed and the vector leaves the ghosted state. */
  function ZeroOutGhosts(V: Vectors, t: Target): Vectors
  {
    Put(V, t, Vec(false, false))
  }

  /** `set_ghost_state(false)`: the vector leaves the ghosted state, its ghost entries kept. */
  function ClearGhostState(V: Vectors, t: Target): Vectors
  {
    Put(V, t, Get(V, t).(ghosted := false))
  }

  /** `vector = 0`: every entry, the ghost entries included, becomes zero and the vector leaves the ghosted state. */
  function SetZero(V: Vectors, t: Target): Vectors
  {
    Put(V, t, Vec(false, false))
  }

  /** The cell loop writes into the vector; it leaves contributions in ghost entries when there are any. */
  function Write(V: Vectors, t: Target, intoGhosts: bool): Vectors
  {
    Put(V, t, Get(V, t).(pending := Get(V, t).pending || intoGhosts))
  }

  /** `compress(VectorOperation::add)`: sends the contributions, zeroes the ghost entries. */
  function Compress(V: Vectors, t: Target): Vectors
  {
    Put(V, t, Vec(false, false))
  }

  /** `dst += vec` or `dst.copy_locally_owned_data_from(vec)`: only owned entries of dst change. */
  function AddOwned(V: Vectors): Vectors
  {
    V
  }

  // ---------------------------------------------------------------------
  // The three operations
  // ---------------------------------------------------------------------

  /**
   * `prolongate_and_add`: the coarse `src` is read with valid ghost values,
   * the caller's `src` is left in the ghost state it came in, and no
   * contribution is left unsent in `dst`.
   */
  function ProlongateAndAdd(f: Flags, V: Vectors): (r: Outcome)
    requires !V.dst.pending
    ensures r.read.ghosted
    ensures r.after.src.ghosted == V.src.ghosted
    ensures !r.after.dst.pending
  {
    var useDstInPlace := f.fineInPlace;
    var useSrcInPlace := f.coarseInPlace;
    var fineT := if useDstInPlace then Dst else Fine;
    var coarseT := if useSrcInPlace then Src else Coarse;
    var srcGhostsHaveBeenSet := V.src.ghosted;
    var V1 := if !useSrcInPlace then CopyOwned(V, Coarse) else V;
    var V2 := if !useSrcInPlace || !srcGhostsHaveBeenSet then UpdateGhosts(V1, coarseT) else V1;
    var V3 := if !useDstInPlace then SetZero(V2, Fine) else V2;
    var read := Get(V3, coarseT);
    var V4 := Write(V3, fineT, f.fineNeedsGhostUpdate);
    var V5 := if f.fineNeedsGhostUpdate || !useDstInPlace then Compress(V4, fineT) else V4;
    var V6 := if !useDstInPlace then AddOwned(V5) else V5;
    var V7 := if useSrcInPlace && !srcGhostsHaveBeenSet then ZeroOutGhosts(V6, coarseT) else V6;
    Outcome(V7, read)
  }

  /**
   * `restrict_and_add`: the fine `src` is read with valid ghost values
   * whenever the fine vector has ghost entries, the caller's `src` is left in
   * the ghost state it came in, the internal fine vector ends without ghost
   * state, and every contribution to the coarse vector is sent.
   */
  function RestrictAndAdd(f: Flags, V: Vectors): (r: Outcome)
    requires !V.dst.pending
    ensures f.fineNeedsGhostUpdate ==> r.read.ghosted
    ensures r.after.src.ghosted == V.src.ghosted
    ensures !f.fineInPlace ==> !r.after.fine.ghosted
    ensures !r.after.dst.pending
  {
    var useSrcInPlace := f.fineInPlace;
    var useDstInPlace := f.coarseInPlace;
    var fineT := if useSrcInPlace then Src else Fine;
    var coarseT := if useDstInPlace then Dst else Coarse;
    var srcGhostsHaveBeenSet := V.src.ghosted;
    var needs := f.fineNeedsGhostUpdate;
    var V1 := if !useSrcInPlace then CopyOwned(V, Fine) else V;
    var V2 := if !useSrcInPlace || (needs && !srcGhostsHaveBeenSet) then UpdateGhosts(V1, fineT) else V1;
    var V3 := if !useDstInPlace then SetZero(V2, Coarse) else V2;
    var V4 := ZeroOutGhosts(V3, coarseT);
    var read := Get(V4, fineT);
    var V5 := Write(V4, coarseT, true);
    var V6 :=
      if !needs && !useSrcInPlace then ZeroOutGhosts(V5, fineT)
      else if needs && !useSrcInPlace then ClearGhostState(V5, fineT)
      else if needs && !srcGhostsHaveBeenSet then ZeroOutGhosts(V5, fineT)
      else V5;
    var V7 := Compress(V6, coarseT);
    var V8 := if !useDstInPlace then AddOwned(V7) else V7;
    Outcome(V8, read)
  }

  /**
   * `interpolate` as written: the in-place `src` is cleaned up when the fine
   * element is continuous, although its ghost values were imported when the
   * fine vector has ghost entries.
   */
  function InterpolateAsWritten(f: Flags, V: Vectors): (r: Outcome)
    ensures f.fineNeedsGhostUpdate ==> r.read.ghosted
    ensures !f.fineInPlace ==> !r.after.fine.ghosted
    ensures f.fineElementIsContinuous || !f.fineNeedsGhostUpdate ==> r.after.src.ghosted == V.src.ghosted
  {
    InterpolateWith(f, V, f.fineElementIsContinuous)
  }

  /**
   * `interpolate` with the clean-up condition of `restrict_and_add`: the
   * in-place `src` leaves the call in the ghost state it came in, whatever
   * the fine element.
   */
  function Interpolate(f: Flags, V: Vectors): (r: Outcome)
    ensures f.fineNeedsGhostUpdate ==> r.read.ghosted
    ensures r.after.src.ghosted == V.src.ghosted
    ensures !f.fineInPlace ==> !r.after.fine.ghosted
  {
    InterpolateWith(f, V, f.fineNeedsGhostUpdate)
  }

  /** The body of `interpolate`, with the condition under which an in-place `src` is cleaned up. */
  function InterpolateWith(f: Flags, V: Vectors, cleanUpInPlace: bool): Outcome
  {
    var useSrcInPlace := f.fineInPlace;
    var useDstInPlace := f.coarseInPlace;
    var fineT := if useSrcInPlace then Src else Fine;
    var coarseT := if useDstInPlace then Dst else Coarse;
    var srcGhostsHaveBeenSet := V.src.ghosted;
    var V1 := if !useSrcInPlace then CopyOwned(V, Fine) else V;
    var V2 := if !useSrcInPlace || (f.fineNeedsGhostUpdate && !srcGhostsHaveBeenSet) then UpdateGhosts(V1, fineT) else V1;
    var V3 := SetZero(V2, coarseT);
    var read := Get(V3, fineT);
    var V4 := Write(V3, coarseT, false);
    var V5 :=
      if !useSrcInPlace then ClearGhostState(V4, fineT)
      else if cleanUpInPlace && !srcGhostsHaveBeenSet then ZeroOutGhosts(V4, fineT)
      else V4;
    var V6 := if !useDstInPlace then AddOwned(V5) else V5;
    Outcome(V6, read)
  }

  /**
   * The discrepancy: a discontinuous fine element whose vector has ghost
   * entries, used in place with a `src` that arrives without ghost values,
   * leaves `interpolate` with `src` in the ghosted state.
   */
  lemma InterpolateLeavesSrcGhosted()
    ensures var f := Flags(true, true, true, false);
      var V := Vectors(Vec(false, false), Vec(false, false), Vec(false, false), Vec(false, false));
      InterpolateAsWritten(f, V).after.src.ghosted && !V.src.ghosted
  {
    var f := Flags(true, true, true, false);
    var V := Vectors(Vec(false, false), Vec(false, false), Vec(false, false), Vec(false, false));
    assert InterpolateWith(f, V, false).after.src == Vec(true, false);
  }

  /**
   * The two versions leave `src` in different ghost states exactly in that
   * case: in place, `src` without ghost values, a fine vector with ghost
   * entries and a discontinuous fine element.
   */
  lemma InterpolateVersionsDiffer(f: Flags, V: Vectors)
    ensures InterpolateAsWritten(f, V).after.src.ghosted != Interpolate(f, V).after.src.ghosted
      <==> f.fineInPlace && !V.src.ghosted && f.fineNeedsGhostUpdate && !f.fineElementIsContinuous
  {
  }
}
