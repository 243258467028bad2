/**
 * Which transfer a two-level transfer is built as. A level argument is
 * either the active level (`numbers::invalid_unsigned_int`) or a multigrid
 * level. Whether two DoF handlers, or their triangulations, are the same
 * object is given as a boolean.
 */
module TransferSelection {

  import opened SchemeSetup

  /**
   * `p_transfer_involves_repartitioning`: the two sides live on different
   * levels or on different triangulations.
   */
  function PTransferInvolvesRepartitioning(levelFine: Level, levelCoarse: Level, sameTriangulation: bool): (r: bool)
  {
    if levelFine != levelCoarse then true
    else if !sameTriangulation then true
    else false
  }

  /** A transfer between two handlers of one triangulation on one level involves no repartitioning, and any other does. */
  lemma RepartitioningExactlyWhenApart(levelFine: Level, levelCoarse: Level, sameTriangulation: bool)
    ensures !PTransferInvolvesRepartitioning(levelFine, levelCoarse, sameTriangulation)
      <==> levelFine == levelCoarse && sameTriangulation
  {
  }

  /** What the fine triangulation has at the id of a coarse cell. */
  datatype FineCell = Absent | Leaf(subdomain: nat) | Refined(firstChildSubdomain: nat)

  /** A locally visited coarse cell: its subdomain and what the fine triangulation has at its id. */
  datatype CoarseCell = CoarseCell(subdomain: nat, fine: FineCell)

  /**
   * The coarse cell is present in the fine triangulation, and the fine cell,
   * or its first child if it is refined, belongs to the coarse cell's
   * subdomain.
   */
  predicate FirstChildAgrees(c: CoarseCell)
  {
    match c.fine
    case Absent => false
    case Leaf(s) => s == c.subdomain
    case Refined(s) => s == c.subdomain
  }

  /** The cell loop of the two-handler branch (the reduction over ranks is the value on one rank). */
  method FirstChildPolicyHolds(cells: seq<CoarseCell>) returns (flag: bool)
    ensures flag <==> forall i :: 0 <= i < |cells| ==> FirstChildAgrees(cells[i])
  {
    flag := true;
    var i := 0;
    while i < |cells|
      invariant 0 <= i <= |cells|
      invariant flag <==> forall j :: 0 <= j < i ==> FirstChildAgrees(cells[j])
    {
      match cells[i].fine {
        case Absent =>
          flag := false;
        case Leaf(s) =>
          if s != cells[i].subdomain {
            flag := false;
          }
        case Refined(s) =>
          if s != cells[i].subdomain {
            flag := false;
          }
      }
      i := i + 1;
    }
  }

  /**
   * The single-handler branch of `h_transfer_uses_first_child_policy`:
   * both levels are multigrid levels, the fine one directly above the
   * coarse one, of the same handler.
   */
  function SingleHandlerFirstChild(levelFine: Level, levelCoarse: Level, sameDofHandler: bool): (r: bool)
  {
    if levelFine.Active? || levelCoarse.Active? then false
    else if levelCoarse.level + 1 != levelFine.level then false
    else if !sameDofHandler then false
    else true
  }

  /** `h_transfer_uses_first_child_policy`. */
  method HTransferUsesFirstChildPolicy(levelFine: Level, levelCoarse: Level, sameDofHandler: bool,
                                       cells: seq<CoarseCell>) returns (r: bool)
    ensures levelFine.Active? && levelCoarse.Active? ==>
      (r <==> forall i :: 0 <= i < |cells| ==> FirstChildAgrees(cells[i]))
    ensures !(levelFine.Active? && levelCoarse.Active?) ==>
      r == SingleHandlerFirstChild(levelFine, levelCoarse, sameDofHandler)
  {
    if levelFine.Active? && levelCoarse.Active? {
      r := FirstChildPolicyHolds(cells);
    } else {
      r := SingleHandlerFirstChild(levelFine, levelCoarse, sameDofHandler);
    }
  }

  /**
   * On one handler the first-child policy holds exactly between consecutive
   * multigrid levels; such a pair always involves repartitioning in the
   * sense of `p_transfer_involves_repartitioning`, so the two tests never
   * both describe a transfer within one level.
   */
  lemma SingleHandlerFirstChildExactly(levelFine: Level, levelCoarse: Level, sameTriangulation: bool)
    ensures SingleHandlerFirstChild(levelFine, levelCoarse, true)
      <==> levelFine.OnLevel? && levelCoarse.OnLevel? && levelFine.level == levelCoarse.level + 1
    ensures SingleHandlerFirstChild(levelFine, levelCoarse, true)
      ==> PTransferInvolvesRepartitioning(levelFine, levelCoarse, sameTriangulation)
  {
  }

  datatype Kind = Polynomial | Geometric

  /**
   * `reinit`: a transfer with a multigrid level on either side is
   * polynomial; between two active levels it is polynomial exactly when
   * every locally owned active coarse cell is also a locally owned active
   * fine cell (the identical-mesh test), and geometric otherwise.
   * Cells are given by their ids.
   */
  method ChooseTransfer(levelFine: Level, levelCoarse: Level, ownedFine: set<nat>, ownedCoarse: seq<nat>)
    returns (kind: Kind)
    ensures kind == Polynomial <==> (levelFine.OnLevel? || levelCoarse.OnLevel?
      || forall i :: 0 <= i < |ownedCoarse| ==> ownedCoarse[i] in ownedFine)
  {
    var doPolynomialTransfer := levelFine.OnLevel? || levelCoarse.OnLevel?;
    if !doPolynomialTransfer {
      var allCellsFound := true;
      var i := 0;
      while i < |ownedCoarse|
        invariant 0 <= i <= |ownedCoarse|
        invariant allCellsFound <==> forall j :: 0 <= j < i ==> ownedCoarse[j] in ownedFine
      {
        // the owner of cell ownedCoarse[i] among the fine cells, invalid if none
        var found := ownedCoarse[i] in ownedFine;
        allCellsFound := allCellsFound && found;
        i := i + 1;
      }
      doPolynomialTransfer := allCellsFound;
    }
    kind := if doPolynomialTransfer then Polynomial else Geometric;
  }
}
