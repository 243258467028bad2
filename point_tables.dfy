/*
 * The locally owned support points of the non-nested transfer
 * (`collect_unconstrained_unique_support_points`): the inverse table
 * `indices_state`, which maps the local index of an owned support point to
 * its position in `support_point_indices`, and the cell loop that stores the
 * coordinates of each support point the first time a cell reports it.
 *
 * Coordinates come from `FEValues` and are an opaque type parameter `P`
 * here; a cell's support points arrive as one flat sequence of queries in
 * cell order.
 */
module PointTables {
  import opened SupportPoints
  import opened Wrappers

  /** An entry of `indices_state`: `numbers::invalid_unsigned_int` or a position. */
  datatype Slot = Invalid | Index(i: nat)

  /** One quadrature point of a cell: the global index of its support point and its coordinates. */
  datatype Query<P> = Query(index: nat, point: P)

  /** `state` is the inverse of `local`: a slot names a position of `local` holding it, or is invalid. */
  ghost predicate InverseOf(state: seq<Slot>, local: seq<nat>)
  {
    (forall k :: 0 <= k < |state| ==> (state[k] == Invalid <==> k !in local))
    && (forall k :: 0 <= k < |state| && state[k].Index? ==> state[k].i < |local| && local[state[k].i] == k)
  }

  /** The loop `indices_state[local_support_point_indices[i]] = i` over a table of invalid slots. */
  method BuildIndexState(nOwned: nat, local: seq<nat>) returns (state: seq<Slot>)
    requires forall i :: 0 <= i < |local| ==> local[i] < nOwned
    ensures |state| == nOwned && InverseOf(state, local)
  {
    state := seq(nOwned, _ => Invalid);
    var i := 0;
    while i < |local|
      invariant 0 <= i <= |local| && |state| == nOwned
      invariant InverseOf(state, local[..i])
    {
      assert local[..i + 1] == local[..i] + [local[i]];
      state := state[local[i] := Index(i)];
      i := i + 1;
    }
    assert local[..i] == local;
  }

  /** On distinct indices the table inverts `local` exactly. */
  lemma InverseIndexing(state: seq<Slot>, local: seq<nat>)
    requires InverseOf(state, local) && StrictlyIncreasing(local)
    requires forall i :: 0 <= i < |local| ==> local[i] < |state|
    ensures forall i :: 0 <= i < |local| ==> state[local[i]] == Index(i)
  {
    forall i | 0 <= i < |local|
      ensures state[local[i]] == Index(i)
    {
      var k := local[i];
      assert k in local;
    }
  }

  /** A query reports the owned support point with local index k. */
  predicate Hits<P>(q: Query<P>, first: nat, size: nat, k: nat)
  {
    InLocalRange(first, size, q.index) && q.index - first == k
  }

  /** The coordinates of the first query that reports local index k. */
  function FirstHit<P>(qs: seq<Query<P>>, first: nat, size: nat, k: nat): Option<P>
  {
    if |qs| == 0 then None
    else
      var n := |qs| - 1;
      var r := FirstHit(qs[..n], first, size, k);
      if r.Some? then r else if Hits(qs[n], first, size, k) then Some(qs[n].point) else None
  }

  /** `FirstHit` finds a query exactly when one reports k, and the one it finds is the earliest. */
  lemma {:induction false} FirstHitIsFirst<P>(qs: seq<Query<P>>, first: nat, size: nat, k: nat)
    ensures FirstHit(qs, first, size, k).Some? <==> exists j :: 0 <= j < |qs| && Hits(qs[j], first, size, k)
    ensures FirstHit(qs, first, size, k).Some? ==>
      exists j :: 0 <= j < |qs| && Hits(qs[j], first, size, k)
        && qs[j].point == FirstHit(qs, first, size, k).value
        && forall j' :: 0 <= j' < j ==> !Hits(qs[j'], first, size, k)
  {
    if |qs| > 0 {
      var n := |qs| - 1;
      FirstHitIsFirst(qs[..n], first, size, k);
      assert forall j :: 0 <= j < n ==> qs[..n][j] == qs[j];
      if FirstHit(qs[..n], first, size, k).None? && Hits(qs[n], first, size, k) {
        assert forall j' :: 0 <= j' < n ==> !Hits(qs[..n][j'], first, size, k);
      }
    }
  }

  /** Whether some query among `qs` reported local index k. */
  predicate Reported<P>(qs: seq<Query<P>>, first: nat, size: nat, k: nat)
  {
    exists j :: 0 <= j < |qs| && Hits(qs[j], first, size, k)
  }

  /** The coordinates stored for position i: the first report of its support point, else `origin`. */
  function StoredPoint<P>(qs: seq<Query<P>>, first: nat, size: nat, k: nat, origin: P): P
  {
    match FirstHit(qs, first, size, k)
    case Some(p) => p
    case None => origin
  }

  /**
   * The cell loop: a query on an owned support point whose slot is still
   * valid stores its coordinates at that slot's position and invalidates the
   * slot, so later reports of the same point are ignored.
   */
  method StorePoints<P>(local: seq<nat>, state0: seq<Slot>, qs: seq<Query<P>>, first: nat, origin: P)
    returns (points: seq<P>, state: seq<Slot>)
    requires InverseOf(state0, local) && StrictlyIncreasing(local)
    requires forall i :: 0 <= i < |local| ==> local[i] < |state0|
    ensures |points| == |local| && |state| == |state0|
    ensures forall i :: 0 <= i < |local| ==> points[i] == StoredPoint(qs, first, |state0|, local[i], origin)
    ensures forall k :: 0 <= k < |state| ==>
      state[k] == (if Reported(qs, first, |state0|, k) then Invalid else state0[k])
  {
    InverseIndexing(state0, local);
    var size := |state0|;
    points := seq(|local|, _ => origin);
    state := state0;
    var t := 0;
    while t < |qs|
      invariant 0 <= t <= |qs| && |points| == |local| && |state| == size
      invariant forall i :: 0 <= i < |local| ==> points[i] == StoredPoint(qs[..t], first, size, local[i], origin)
      invariant forall k :: 0 <= k < size ==>
        state[k] == (if Reported(qs[..t], first, size, k) then Invalid else state0[k])
    {
      StoreStep(qs, t, first, size);
      if InLocalRange(first, size, qs[t].index) {
        var index := qs[t].index - first;
        ReportedFound(qs[..t], first, size, index);
        if state[index] != Invalid {
          var pos := state[index].i;
          assert local[pos] == index;
          points := points[pos := qs[t].point];
          state := state[index := Invalid];
        } else if !Reported(qs[..t], first, size, index) {
          assert index !in local;
        }
      }
      t := t + 1;
    }
    assert qs[..t] == qs;
  }

  /**
   * The owned-point part of `collect_unconstrained_unique_support_points`:
   * `points[i]` holds the coordinates of support point
   * `local_support_point_indices[i]` as first reported by a cell.
   */
  method CollectOwnedPoints<P>(nOwned: nat, first: nat, local: seq<nat>, qs: seq<Query<P>>, origin: P)
    returns (points: seq<P>)
    requires StrictlyIncreasing(local) && forall i :: 0 <= i < |local| ==> local[i] < nOwned
    ensures |points| == |local|
    ensures forall i :: 0 <= i < |local| ==> points[i] == StoredPoint(qs, first, nOwned, local[i], origin)
  {
    var state := BuildIndexState(nOwned, local);
    var cleared;
    points, cleared := StorePoints(local, state, qs, first, origin);
  }

  /** Extending the processed queries by query t. */
  lemma StoreStep<P>(qs: seq<Query<P>>, t: nat, first: nat, size: nat)
    requires t < |qs|
    ensures forall k :: (FirstHit(qs[..t + 1], first, size, k)
      == (if FirstHit(qs[..t], first, size, k).Some? then FirstHit(qs[..t], first, size, k)
          else if Hits(qs[t], first, size, k) then Some(qs[t].point) else None))
    ensures forall k :: (Reported(qs[..t + 1], first, size, k)
      <==> Reported(qs[..t], first, size, k) || Hits(qs[t], first, size, k))
  {
    assert qs[..t + 1][..t] == qs[..t];
    forall k
      ensures Reported(qs[..t + 1], first, size, k) <==> Reported(qs[..t], first, size, k) || Hits(qs[t], first, size, k)
    {
      if Reported(qs[..t + 1], first, size, k) {
        var j :| 0 <= j < t + 1 && Hits(qs[..t + 1][j], first, size, k);
        if j < t {
          assert qs[..t][j] == qs[j];
        }
      }
      if Reported(qs[..t], first, size, k) {
        var j :| 0 <= j < t && Hits(qs[..t][j], first, size, k);
        assert qs[..t + 1][j] == qs[j];
      }
      if Hits(qs[t], first, size, k) {
        assert qs[..t + 1][t] == qs[t];
      }
    }
  }

  /** A support point has been reported exactly when `FirstHit` finds a report. */
  lemma ReportedFound<P>(seen: seq<Query<P>>, first: nat, size: nat, k: nat)
    ensures FirstHit(seen, first, size, k).Some? <==> Reported(seen, first, size, k)
  {
    FirstHitIsFirst(seen, first, size, k);
  }
}
