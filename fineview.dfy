/**
 * The fine-DoF-handler view of the global-coarsening transfer, reduced to
 * its data: the flat message in which a rank sends the DoFs of requested
 * cells, its parsing on the receiving side, the grouping of requested
 * cells by owner, the `has_cell_any_children` decision and the check that
 * every coarse cell is found in the fine mesh.
 */
module FineView {
  import opened Wrappers
  import SchemeSetup

  /** What is sent per cell: its active fe index and its DoF indices. */
  datatype CellDofs = CellDofs(feIndex: nat, dofs: seq<nat>)

  // ---------------------------------------------------------------------
  // Message format
  // ---------------------------------------------------------------------

  /** The entries one cell contributes: `push_back(active_fe_index)`, then the DoFs. */
  function Pack(c: CellDofs): seq<nat>
  {
    [c.feIndex] + c.dofs
  }

  /** The whole message: the cells' entries, one cell after another. */
  function Flatten(cells: seq<CellDofs>): seq<nat>
  {
    if |cells| == 0 then [] else Pack(cells[0]) + Flatten(cells[1..])
  }

  lemma {:induction false} FlattenSnoc(cells: seq<CellDofs>, c: CellDofs)
    ensures Flatten(cells + [c]) == Flatten(cells) + Pack(c)
  {
    if |cells| == 0 {
      assert [c][1..] == [];
    } else {
      assert (cells + [c])[1..] == cells[1..] + [c];
      FlattenSnoc(cells[1..], c);
    }
  }

  /** The sender's loop over the requested cells. */
  method EncodeCells(cells: seq<CellDofs>) returns (buffer: seq<nat>)
    ensures buffer == Flatten(cells)
  {
    buffer := [];
    var i := 0;
    while i < |cells|
      invariant 0 <= i <= |cells|
      invariant buffer == Flatten(cells[..i])
    {
      assert cells[..i + 1] == cells[..i] + [cells[i]];
      FlattenSnoc(cells[..i], cells[i]);
      buffer := buffer + [cells[i].feIndex];
      buffer := buffer + cells[i].dofs;
      i := i + 1;
    }
    assert cells[..i] == cells;
  }

  /**
   * Reading `count` cells from position k: the fe index, then as many DoFs
   * as an element of that index has. A message that ends early or names an
   * fe index that does not exist yields `None` (the source would read past
   * the end of the buffer or fail in `get_fe`).
   */
  function ParseFrom(buffer: seq<nat>, k: nat, count: nat, nDofsPerCell: seq<nat>): (r: Option<seq<CellDofs>>)
    ensures r.Some? ==> |r.value| == count
    decreases count
  {
    if count == 0 then Some([])
    else if k >= |buffer| || buffer[k] >= |nDofsPerCell| || k + 1 + nDofsPerCell[buffer[k]] > |buffer| then None
    else
      var fe := buffer[k];
      var next := k + 1 + nDofsPerCell[fe];
      match ParseFrom(buffer, next, count - 1, nDofsPerCell)
      case None => None
      case Some(rest) => Some([CellDofs(fe, buffer[k + 1..next])] + rest)
  }

  /** `map[ids[i]] = cells[i]` for i = 0, 1, ...: a later id overrides an earlier equal one. */
  function Store(m: map<nat, CellDofs>, ids: seq<nat>, cells: seq<CellDofs>): map<nat, CellDofs>
    requires |ids| == |cells|
  {
    if |ids| == 0 then m
    else Store(m, ids[..|ids| - 1], cells[..|cells| - 1])[ids[|ids| - 1] := cells[|cells| - 1]]
  }

  /** The receiver's result: the map with the parsed cells stored under the requested ids. */
  function Decoded(buffer: seq<nat>, ids: seq<nat>, nDofsPerCell: seq<nat>, m: map<nat, CellDofs>)
    : Option<map<nat, CellDofs>>
  {
    match ParseFrom(buffer, 0, |ids|, nDofsPerCell)
    case None => None
    case Some(cells) => Some(Store(m, ids, cells))
  }

  function Prepend(done: seq<CellDofs>, rest: Option<seq<CellDofs>>): Option<seq<CellDofs>>
  {
    match rest
    case None => None
    case Some(v) => Some(done + v)
  }

  /** The receiver's loop with its cursor k over one message. */
  method DecodeMessage(buffer: seq<nat>, ids: seq<nat>, nDofsPerCell: seq<nat>, m: map<nat, CellDofs>)
    returns (r: Option<map<nat, CellDofs>>)
    ensures r == Decoded(buffer, ids, nDofsPerCell, m)
  {
    var k: nat := 0;
    var m' := m;
    ghost var done: seq<CellDofs> := [];
    ghost var full := ParseFrom(buffer, 0, |ids|, nDofsPerCell);
    if full.Some? {
      assert [] + full.value == full.value;
    }
    var i := 0;
    while i < |ids|
      invariant 0 <= i <= |ids| && |done| == i
      invariant ParseFrom(buffer, 0, |ids|, nDofsPerCell) == Prepend(done, ParseFrom(buffer, k, |ids| - i, nDofsPerCell))
      invariant m' == Store(m, ids[..i], done)
    {
      if k >= |buffer| || buffer[k] >= |nDofsPerCell| || k + 1 + nDofsPerCell[buffer[k]] > |buffer| {
        return None;
      }
      var activeFeIndex := buffer[k];
      ghost var start := k;
      k := k + 1;
      var indices;
      indices, k := ReadDofs(buffer, k, nDofsPerCell[activeFeIndex]);
      var cell := CellDofs(activeFeIndex, indices);
      ParseStep(buffer, start, |ids| - i, nDofsPerCell, done);
      StoreSnoc(m, ids, done, cell, i);
      m' := m'[ids[i] := cell];
      done := done + [cell];
      i := i + 1;
    }
    assert ids[..i] == ids && done + [] == done;
    return Some(m');
  }

  /** Reading one more cell moves it from the unread rest to the cells read so far. */
  lemma ParseStep(buffer: seq<nat>, k: nat, count: nat, nDofsPerCell: seq<nat>, done: seq<CellDofs>)
    requires count > 0 && k < |buffer| && buffer[k] < |nDofsPerCell| && k + 1 + nDofsPerCell[buffer[k]] <= |buffer|
    ensures var next := k + 1 + nDofsPerCell[buffer[k]];
      Prepend(done, ParseFrom(buffer, k, count, nDofsPerCell))
      == Prepend(done + [CellDofs(buffer[k], buffer[k + 1..next])], ParseFrom(buffer, next, count - 1, nDofsPerCell))
  {
    var next := k + 1 + nDofsPerCell[buffer[k]];
    var cell := CellDofs(buffer[k], buffer[k + 1..next]);
    var rest := ParseFrom(buffer, next, count - 1, nDofsPerCell);
    if rest.Some? {
      assert done + ([cell] + rest.value) == (done + [cell]) + rest.value;
    }
  }

  lemma StoreSnoc(m: map<nat, CellDofs>, ids: seq<nat>, done: seq<CellDofs>, cell: CellDofs, i: nat)
    requires i < |ids| && |done| == i
    ensures Store(m, ids[..i + 1], done + [cell]) == Store(m, ids[..i], done)[ids[i] := cell]
  {
    assert ids[..i + 1][..i] == ids[..i] && (done + [cell])[..i] == done;
  }

  /** `indices[j] = buffer[k]` for the n DoFs of one cell, advancing the cursor. */
  method ReadDofs(buffer: seq<nat>, k: nat, n: nat) returns (indices: seq<nat>, k': nat)
    requires k + n <= |buffer|
    ensures k' == k + n && indices == buffer[k..k']
  {
    indices := [];
    k' := k;
    var j := 0;
    while j < n
      invariant 0 <= j <= n && k' == k + j
      invariant indices == buffer[k..k']
    {
      indices := indices + [buffer[k']];
      j := j + 1;
      k' := k' + 1;
    }
  }

  /** A cell is well formed when its fe index exists and it has that element's number of DoFs. */
  predicate WellShaped(cells: seq<CellDofs>, nDofsPerCell: seq<nat>)
  {
    forall i :: 0 <= i < |cells| ==>
      cells[i].feIndex < |nDofsPerCell| && |cells[i].dofs| == nDofsPerCell[cells[i].feIndex]
  }

  lemma {:induction false} ParseFlatten(pre: seq<nat>, cells: seq<CellDofs>, rest: seq<nat>, nDofsPerCell: seq<nat>)
    requires WellShaped(cells, nDofsPerCell)
    ensures ParseFrom(pre + Flatten(cells) + rest, |pre|, |cells|, nDofsPerCell) == Some(cells)
    decreases |cells|
  {
    if |cells| > 0 {
      var c := cells[0];
      var pre' := pre + Pack(c);
      var buffer := pre + Flatten(cells) + rest;
      assert buffer == pre' + Flatten(cells[1..]) + rest;
      assert buffer[|pre|] == c.feIndex;
      var next := |pre| + 1 + nDofsPerCell[c.feIndex];
      assert next == |pre'|;
      assert buffer[|pre| + 1..next] == c.dofs;
      assert WellShaped(cells[1..], nDofsPerCell) by {
        assert forall i :: 0 <= i < |cells| - 1 ==> cells[1..][i] == cells[i + 1];
      }
      ParseFlatten(pre', cells[1..], rest, nDofsPerCell);
      assert [c] + cells[1..] == cells;
    }
  }

  /**
   * Round trip: when sender and receiver agree on the number of DoFs per fe
   * index and on the list of ids, the receiver stores exactly the sent
   * (fe index, DoFs) pair under each id.
   */
  lemma MessageRoundTrip(cells: seq<CellDofs>, ids: seq<nat>, nDofsPerCell: seq<nat>, m: map<nat, CellDofs>)
    requires |ids| == |cells| && WellShaped(cells, nDofsPerCell)
    ensures Decoded(Flatten(cells), ids, nDofsPerCell, m) == Some(Store(m, ids, cells))
  {
    ParseFlatten([], cells, [], nDofsPerCell);
    assert [] + Flatten(cells) + [] == Flatten(cells);
  }

  predicate Distinct(ids: seq<nat>)
  {
    forall i, j :: 0 <= i < j < |ids| ==> ids[i] != ids[j]
  }

  /** With distinct ids, each id maps to its own cell and every other key keeps its old entry. */
  lemma {:induction false} StoreLookup(m: map<nat, CellDofs>, ids: seq<nat>, cells: seq<CellDofs>)
    requires |ids| == |cells| && Distinct(ids)
    ensures forall x :: x in Store(m, ids, cells) <==> x in m || x in ids
    ensures forall i :: 0 <= i < |ids| ==> Store(m, ids, cells)[ids[i]] == cells[i]
    ensures forall x :: x in m && x !in ids ==> Store(m, ids, cells)[x] == m[x]
  {
    if |ids| > 0 {
      var n := |ids| - 1;
      assert Distinct(ids[..n]);
      StoreLookup(m, ids[..n], cells[..n]);
      assert ids == ids[..n] + [ids[n]];
      forall i | 0 <= i < n
        ensures Store(m, ids, cells)[ids[i]] == cells[i]
      {
        assert ids[..n][i] == ids[i] && cells[..n][i] == cells[i];
      }
    }
  }

  // ---------------------------------------------------------------------
  // Remote ids grouped by owner
  // ---------------------------------------------------------------------

  /** The remote ids owned by rank r, in the order of the remote index set. */
  function IdsOwnedBy(owners: seq<nat>, remote: seq<nat>, r: nat): seq<nat>
    requires |owners| == |remote|
  {
    if |owners| == 0 then []
    else
      var n := |owners| - 1;
      IdsOwnedBy(owners[..n], remote[..n], r) + (if owners[n] == r then [remote[n]] else [])
  }

  /** `rank_to_ids` as a whole: one group per owning rank. */
  function Groups(owners: seq<nat>, remote: seq<nat>): map<nat, seq<nat>>
    requires |owners| == |remote|
  {
    map r | r in owners :: IdsOwnedBy(owners, remote, r)
  }

  /** `rank_to_ids[is_dst_remote_owners[i]].push_back(is_dst_remote.nth_index_in_set(i))`. */
  method GroupByOwner(owners: seq<nat>, remote: seq<nat>) returns (rankToIds: map<nat, seq<nat>>)
    requires |owners| == |remote|
    ensures forall r :: r in rankToIds <==> r in owners
    ensures forall r :: r in rankToIds ==> rankToIds[r] == IdsOwnedBy(owners, remote, r)
  {
    rankToIds := map[];
    var i := 0;
    assert owners[..0] == [];
    while i < |owners|
      invariant 0 <= i <= |owners|
      invariant rankToIds == Groups(owners[..i], remote[..i])
    {
      GroupsSnoc(owners, remote, i);
      var ids := if owners[i] in rankToIds then rankToIds[owners[i]] else [];
      rankToIds := rankToIds[owners[i] := ids + [remote[i]]];
      i := i + 1;
    }
    assert owners[..i] == owners && remote[..i] == remote;
  }

  lemma GroupsSnoc(owners: seq<nat>, remote: seq<nat>, i: nat)
    requires |owners| == |remote| && i < |owners|
    ensures var g := Groups(owners[..i], remote[..i]);
      Groups(owners[..i + 1], remote[..i + 1])
      == g[owners[i] := (if owners[i] in g then g[owners[i]] else []) + [remote[i]]]
  {
    var o, rm := owners[..i], remote[..i];
    assert owners[..i + 1][..i] == o && remote[..i + 1][..i] == rm;
    assert owners[..i + 1] == o + [owners[i]];
    var g, h := Groups(o, rm), Groups(owners[..i + 1], remote[..i + 1]);
    var q := owners[i];
    var expected := g[q := (if q in g then g[q] else []) + [remote[i]]];
    if q !in o {
      IdsOwnedByAbsent(o, rm, q);
    }
    forall r | r in h
      ensures r in expected && h[r] == expected[r]
    {
      assert IdsOwnedBy(owners[..i + 1], remote[..i + 1], r)
        == IdsOwnedBy(o, rm, r) + (if q == r then [remote[i]] else []);
    }
    assert h == expected;
  }

  /** A rank that owns no remote id has an empty group. */
  lemma {:induction false} IdsOwnedByAbsent(owners: seq<nat>, remote: seq<nat>, r: nat)
    requires |owners| == |remote| && r !in owners
    ensures IdsOwnedBy(owners, remote, r) == []
  {
    if |owners| > 0 {
      var n := |owners| - 1;
      assert forall k :: 0 <= k < n ==> owners[..n][k] == owners[k];
      IdsOwnedByAbsent(owners[..n], remote[..n], r);
    }
  }

  predicate StrictlyIncreasing(s: seq<nat>)
  {
    forall i, j :: 0 <= i < j < |s| ==> s[i] < s[j]
  }

  /**
   * The group of rank r holds exactly the remote ids that r owns, and keeps
   * the ascending order of the remote index set.
   */
  lemma {:induction false} IdsOwnedByContents(owners: seq<nat>, remote: seq<nat>, r: nat)
    requires |owners| == |remote|
    ensures forall x :: x in IdsOwnedBy(owners, remote, r) <==>
      exists i :: 0 <= i < |owners| && owners[i] == r && remote[i] == x
    ensures StrictlyIncreasing(remote) ==> StrictlyIncreasing(IdsOwnedBy(owners, remote, r))
  {
    if |owners| > 0 {
      var n := |owners| - 1;
      var pre := IdsOwnedBy(owners[..n], remote[..n], r);
      IdsOwnedByContents(owners[..n], remote[..n], r);
      forall x
        ensures x in IdsOwnedBy(owners, remote, r) <==>
          exists i :: 0 <= i < |owners| && owners[i] == r && remote[i] == x
      {
        if x in IdsOwnedBy(owners, remote, r) && x !in pre {
          assert owners[n] == r && remote[n] == x;
        }
        if exists i :: 0 <= i < |owners| && owners[i] == r && remote[i] == x {
          var i :| 0 <= i < |owners| && owners[i] == r && remote[i] == x;
          if i < n {
            assert owners[..n][i] == r && remote[..n][i] == x;
          }
        }
      }
      if StrictlyIncreasing(remote) {
        assert StrictlyIncreasing(remote[..n]);
        forall y | y in pre
          ensures y < remote[n]
        {
          var i :| 0 <= i < n && owners[..n][i] == r && remote[..n][i] == y;
        }
        if owners[n] == r {
          var all := pre + [remote[n]];
          forall i, j | 0 <= i < j < |all|
            ensures all[i] < all[j]
          {
            if j == |pre| {
              assert all[i] == pre[i] && pre[i] in pre;
            } else {
              assert all[i] == pre[i] && all[j] == pre[j];
            }
          }
        }
      }
    }
  }

  /**
   * The sender walks its index set of requested cells in ascending order;
   * the receiver's list for that rank is ascending too. When both hold the
   * same ids, they are the same list, entry by entry.
   */
  lemma {:induction false} AscendingListsAgree(a: seq<nat>, b: seq<nat>)
    requires StrictlyIncreasing(a) && StrictlyIncreasing(b)
    requires forall x :: x in a <==> x in b
    ensures a == b
    decreases |a|
  {
    if |a| > 0 {
      assert a[0] in b;
    }
    if |b| > 0 {
      assert b[0] in a;
    }
    if |a| > 0 && |b| > 0 {
      FirstElementsAgree(a, b);
      TailSubset(a, b);
      TailSubset(b, a);
      AscendingListsAgree(a[1..], b[1..]);
      assert a == [a[0]] + a[1..] && b == [b[0]] + b[1..];
    } else if |a| == 0 && |b| == 0 {
      assert a == [] && b == [];
    }
  }

  lemma FirstElementsAgree(a: seq<nat>, b: seq<nat>)
    requires StrictlyIncreasing(a) && StrictlyIncreasing(b) && |a| > 0 && |b| > 0
    requires a[0] in b && b[0] in a
    ensures a[0] == b[0]
  {
    var i :| 0 <= i < |b| && b[i] == a[0];
    var j :| 0 <= j < |a| && a[j] == b[0];
    assert b[0] <= b[i] && a[0] <= a[j];
  }

  lemma TailSubset(a: seq<nat>, b: seq<nat>)
    requires StrictlyIncreasing(a) && StrictlyIncreasing(b) && |a| > 0 && |b| > 0 && a[0] == b[0]
    requires forall x :: x in a ==> x in b
    ensures StrictlyIncreasing(a[1..])
    ensures forall x :: x in a[1..] ==> x in b[1..]
  {
    forall x | x in a[1..]
      ensures x in b[1..]
    {
      var i :| 0 <= i < |a[1..]| && a[1..][i] == x;
      assert a[i + 1] == x && a[0] < x;
      assert x in b;
      var t :| 0 <= t < |b| && b[t] == x;
      assert b[1..][t - 1] == x;
    }
  }

  // ---------------------------------------------------------------------
  // Cell lookup
  // ---------------------------------------------------------------------

  /** The outcome of `has_cell_any_children`, with the internal-error throw as its own case. */
  datatype ChildrenOutcome = Children(any: bool) | InternalError

  predicate SomeChildPresent(childIds: seq<nat>, owned: set<nat>, remote: set<nat>)
  {
    exists i :: 0 <= i < |childIds| && (childIds[i] in owned || childIds[i] in remote)
  }

  /**
   * `has_cell_any_children`: true as soon as one child id is locally owned
   * or remote; otherwise the cell itself must be present, and the answer is
   * false.
   */
  method HasCellAnyChildren(id: nat, childIds: seq<nat>, owned: set<nat>, remote: set<nat>)
    returns (r: ChildrenOutcome)
    ensures SomeChildPresent(childIds, owned, remote) ==> r == Children(true)
    ensures !SomeChildPresent(childIds, owned, remote) ==>
      r == if id in owned || id in remote then Children(false) else InternalError
  {
    var i := 0;
    while i < |childIds|
      invariant 0 <= i <= |childIds|
      invariant forall t :: 0 <= t < i ==> childIds[t] !in owned && childIds[t] !in remote
    {
      var j := childIds[i];
      if j in owned {
        return Children(true);
      }
      if j in remote {
        return Children(true);
      }
      i := i + 1;
    }
    if !(id in owned || id in remote) {
      return InternalError;
    }
    return Children(false);
  }

  /**
   * The DoFs a cell view reports: those of the local DoF handler for an
   * owned cell, the received ones for a remote cell (`map.at`, which fails
   * on a missing id), and failure for a cell that is neither.
   */
  function CellView(id: nat, owned: set<nat>, remote: set<nat>,
                    local: map<nat, CellDofs>, received: map<nat, CellDofs>): (r: Option<CellDofs>)
    ensures id in owned && id in local ==> r == Some(local[id])
    ensures id !in owned && id in remote && id in received ==> r == Some(received[id])
    ensures id !in owned && id !in remote ==> r == None
  {
    if id in owned then (if id in local then Some(local[id]) else None)
    else if id in remote then (if id in received then Some(received[id]) else None)
    else None
  }

  /**
   * A remote cell whose message was received and parsed is viewed with the
   * DoFs its owner packed for it.
   */
  lemma RemoteCellViewed(cells: seq<CellDofs>, ids: seq<nat>, nDofsPerCell: seq<nat>,
                         owned: set<nat>, remote: set<nat>, local: map<nat, CellDofs>, i: nat)
    requires |ids| == |cells| && WellShaped(cells, nDofsPerCell) && Distinct(ids)
    requires i < |ids| && ids[i] !in owned && ids[i] in remote
    ensures var received := Decoded(Flatten(cells), ids, nDofsPerCell, map[]);
      received.Some? && CellView(ids[i], owned, remote, local, received.value) == Some(cells[i])
  {
    MessageRoundTrip(cells, ids, nDofsPerCell, map[]);
    StoreLookup(map[], ids, cells);
  }

  // ---------------------------------------------------------------------
  // Completeness check: every coarse cell must be found in the fine mesh
  // ---------------------------------------------------------------------

  /** A coarse cell: its translated id, its printed id, whether finer levels exist, its children's ids. */
  datatype CoarseCell = CoarseCell(id: nat, name: string, hasFinerLevel: bool, childIds: seq<nat>)

  /** The cell itself, or (below the finest level) one of its children, is on the fine side. */
  predicate Found(cell: CoarseCell, owned: set<nat>, remote: set<nat>)
  {
    cell.id in owned || cell.id in remote
    || (cell.hasFinerLevel && SomeChildPresent(cell.childIds, owned, remote))
  }

  /** The names of the cells that are not found, in the order of the cells. */
  function Missing(cells: seq<CoarseCell>, owned: set<nat>, remote: set<nat>): seq<string>
  {
    if |cells| == 0 then []
    else
      var n := |cells| - 1;
      Missing(cells[..n], owned, remote) + (if Found(cells[n], owned, remote) then [] else [cells[n].name])
  }

  /** The `flag |= ...` loop over a cell's children. */
  method AnyChildPresent(childIds: seq<nat>, owned: set<nat>, remote: set<nat>) returns (flag: bool)
    ensures flag == SomeChildPresent(childIds, owned, remote)
  {
    flag := false;
    var i := 0;
    while i < |childIds|
      invariant 0 <= i <= |childIds|
      invariant flag == exists t :: 0 <= t < i && (childIds[t] in owned || childIds[t] in remote)
    {
      flag := flag || childIds[i] in remote || childIds[i] in owned;
      i := i + 1;
    }
  }

  /** `coarse_operation_check` over all coarse cells, collecting `not_found_cells_local`. */
  method NotFoundCells(cells: seq<CoarseCell>, owned: set<nat>, remote: set<nat>) returns (notFound: seq<string>)
    ensures notFound == Missing(cells, owned, remote)
  {
    notFound := [];
    var k := 0;
    while k < |cells|
      invariant 0 <= k <= |cells|
      invariant notFound == Missing(cells[..k], owned, remote)
    {
      var cell := cells[k];
      var flag := cell.id in remote || cell.id in owned;
      if cell.hasFinerLevel {
        var anyChild := AnyChildPresent(cell.childIds, owned, remote);
        flag := flag || anyChild;
      }
      assert cells[..k + 1][..k] == cells[..k];
      if !flag {
        notFound := notFound + [cell.name];
      }
      k := k + 1;
    }
    assert cells[..k] == cells;
  }

  lemma {:induction false} MissingExactly(cells: seq<CoarseCell>, owned: set<nat>, remote: set<nat>)
    ensures forall s :: s in Missing(cells, owned, remote) <==>
      exists k :: 0 <= k < |cells| && !Found(cells[k], owned, remote) && cells[k].name == s
  {
    if |cells| > 0 {
      var n := |cells| - 1;
      MissingExactly(cells[..n], owned, remote);
      forall s
        ensures s in Missing(cells, owned, remote) <==>
          exists k :: 0 <= k < |cells| && !Found(cells[k], owned, remote) && cells[k].name == s
      {
        if exists k :: 0 <= k < |cells| && !Found(cells[k], owned, remote) && cells[k].name == s {
          var k :| 0 <= k < |cells| && !Found(cells[k], owned, remote) && cells[k].name == s;
          if k < n {
            assert cells[..n][k] == cells[k];
          }
        }
        if s in Missing(cells[..n], owned, remote) {
          var k :| 0 <= k < n && !Found(cells[..n][k], owned, remote) && cells[..n][k].name == s;
          assert cells[k] == cells[..n][k];
        }
      }
    }
  }

  // ---------------------------------------------------------------------
  // Sorting the names (std::sort on std::string)
  // ---------------------------------------------------------------------

  /** The order of `std::string`: character by character, a proper prefix first. */
  predicate StrLe(a: string, b: string)
  {
    if |a| == 0 then true
    else if |b| == 0 then false
    else if a[0] != b[0] then a[0] < b[0]
    else StrLe(a[1..], b[1..])
  }

  lemma {:induction false} StrLeTotal(a: string, b: string)
    ensures StrLe(a, b) || StrLe(b, a)
  {
    if |a| > 0 && |b| > 0 && a[0] == b[0] {
      StrLeTotal(a[1..], b[1..]);
    }
  }

  lemma {:induction false} StrLeTrans(a: string, b: string, c: string)
    requires StrLe(a, b) && StrLe(b, c)
    ensures StrLe(a, c)
  {
    if |a| > 0 && |b| > 0 && |c| > 0 && a[0] == b[0] && b[0] == c[0] {
      StrLeTrans(a[1..], b[1..], c[1..]);
    }
  }

  predicate SortedStrings(s: seq<string>)
  {
    forall i, j :: 0 <= i < j < |s| ==> StrLe(s[i], s[j])
  }

  function InsertString(x: string, s: seq<string>): (r: seq<string>)
    requires SortedStrings(s)
    ensures SortedStrings(r) && multiset(r) == multiset(s) + multiset{x}
  {
    if |s| == 0 then [x]
    else if StrLe(x, s[0]) then
      InsertFront(x, s);
      [x] + s
    else
      var rest := InsertString(x, s[1..]);
      InsertBehind(x, s, rest);
      [s[0]] + rest
  }

  lemma InsertFront(x: string, s: seq<string>)
    requires SortedStrings(s) && |s| > 0 && StrLe(x, s[0])
    ensures SortedStrings([x] + s)
  {
    forall j | 0 <= j < |s|
      ensures StrLe(x, s[j])
    {
      if j > 0 {
        StrLeTrans(x, s[0], s[j]);
      }
    }
    assert forall i :: 0 < i < |s| + 1 ==> ([x] + s)[i] == s[i - 1];
  }

  lemma InsertBehind(x: string, s: seq<string>, rest: seq<string>)
    requires SortedStrings(s) && |s| > 0 && !StrLe(x, s[0])
    requires SortedStrings(rest) && multiset(rest) == multiset(s[1..]) + multiset{x}
    ensures SortedStrings([s[0]] + rest) && multiset([s[0]] + rest) == multiset(s) + multiset{x}
  {
    StrLeTotal(x, s[0]);
    assert s == [s[0]] + s[1..];
    forall j | 0 <= j < |rest|
      ensures StrLe(s[0], rest[j])
    {
      assert rest[j] in multiset(rest);
      if rest[j] != x {
        assert rest[j] in multiset(s[1..]);
        var t :| 0 <= t < |s[1..]| && s[1..][t] == rest[j];
        assert s[t + 1] == rest[j];
      }
    }
    assert forall i :: 0 < i < |rest| + 1 ==> ([s[0]] + rest)[i] == rest[i - 1];
  }

  function SortStrings(s: seq<string>): (r: seq<string>)
    ensures SortedStrings(r) && multiset(r) == multiset(s)
  {
    if |s| == 0 then []
    else
      assert s == s[..|s| - 1] + [s[|s| - 1]];
      InsertString(s[|s| - 1], SortStrings(s[..|s| - 1]))
  }

  /**
   * The outcome of the completeness check. It runs only when the coarse side
   * is the active level; on a multigrid level nothing is checked. On the
   * active level there is no error when every coarse cell is found,
   * otherwise the error lists the missing cells in sorted order.
   */
  function NotFoundReport(levelCoarse: SchemeSetup.Level, cells: seq<CoarseCell>, owned: set<nat>, remote: set<nat>): (r: Option<seq<string>>)
    ensures levelCoarse.OnLevel? ==> r.None?
    ensures levelCoarse.Active? ==> (r.None? <==> forall k :: 0 <= k < |cells| ==> Found(cells[k], owned, remote))
    ensures r.Some? ==> SortedStrings(r.value) && multiset(r.value) == multiset(Missing(cells, owned, remote))
  {
    if levelCoarse.OnLevel? then None
    else
      var missing := Missing(cells, owned, remote);
      MissingExactly(cells, owned, remote);
      if |missing| == 0 then
        assert forall k :: 0 <= k < |cells| ==> cells[k].name !in missing;
        None
      else
        assert missing[0] in missing;
        Some(SortStrings(missing))
  }
}
