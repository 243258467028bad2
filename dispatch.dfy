/**
 * Degree dispatch of the cell-wise tensor-product kernels
 * (`CellTransferFactory::run` and `fast_polynomial_transfer_supported`).
 *
 * The factory tries deg = 1, 2, ..., 9 in turn and, for each deg, six
 * patterns of (fine degree, coarse degree). The first match instantiates the
 * kernel with compile-time degrees; when none matches, the run-time ("slow")
 * kernel is used.
 */
module CellTransferDispatch {

  /** `CellTransferFactory::max_degree`. */
  const MaxDegree: nat := 9

  /** Which kernel the factory selected, with the compile-time degrees of a fast kernel. */
  datatype Path = FastPath(templateFine: nat, templateCoarse: nat) | SlowPath

  function Max(a: nat, b: nat): nat { if a >= b then a else b }

  /** The six patterns that the factory tests for one value of `deg`. */
  predicate MatchesAt(fine: nat, coarse: nat, deg: nat)
  {
    || (fine == 2 * deg && coarse == deg)
    || (fine == 2 * deg + 1 && coarse == deg)
    || (fine == deg && coarse == Max(deg / 2, 1))
    || (fine == deg && coarse == deg)
    || (fine == deg && deg >= 1 && coarse == Max(deg - 1, 1))
    || (fine == deg && coarse == 1)
  }

  /** Some deg in lo..MaxDegree matches. */
  predicate MatchesFrom(fine: nat, coarse: nat, lo: nat)
  {
    exists deg :: lo <= deg <= MaxDegree && MatchesAt(fine, coarse, deg)
  }

  /**
   * One step of the recursive template dispatch `run<Fu, deg>`. A fast path
   * is chosen exactly when some deg' >= deg matches, and the compile-time
   * degrees it instantiates are always the run-time degrees.
   */
  function Run(fine: nat, coarse: nat, deg: nat): (p: Path)
    requires 1 <= deg <= MaxDegree
    ensures p.FastPath? <==> MatchesFrom(fine, coarse, deg)
    ensures p.FastPath? ==> p.templateFine == fine && p.templateCoarse == coarse
    decreases MaxDegree - deg
  {
    if fine == 2 * deg && coarse == deg then
      assert MatchesAt(fine, coarse, deg); FastPath(2 * deg, deg)             // h-MG (FE_Q)
    else if fine == 2 * deg + 1 && coarse == deg then
      assert MatchesAt(fine, coarse, deg); FastPath(2 * deg + 1, deg)         // h-MG
    else if fine == deg && coarse == Max(deg / 2, 1) then
      assert MatchesAt(fine, coarse, deg); FastPath(deg, Max(deg / 2, 1))     // p-MG: bisection
    else if fine == deg && coarse == deg then
      assert MatchesAt(fine, coarse, deg); FastPath(deg, deg)                 // identity
    else if fine == deg && coarse == Max(deg - 1, 1) then
      assert MatchesAt(fine, coarse, deg); FastPath(deg, Max(deg - 1, 1))     // p-MG: decrement
    else if fine == deg && coarse == 1 then
      assert MatchesAt(fine, coarse, deg); FastPath(deg, 1)                   // p-MG: jump to 1
    else if deg < MaxDegree then
      var p := Run(fine, coarse, deg + 1);
      assert MatchesFrom(fine, coarse, deg) ==> MatchesFrom(fine, coarse, deg + 1) by {
        if MatchesFrom(fine, coarse, deg) {
          var d :| deg <= d <= MaxDegree && MatchesAt(fine, coarse, d);
          assert d != deg;
        }
      }
      p
    else
      assert !MatchesAt(fine, coarse, deg);
      SlowPath
  }

  /** `fast_polynomial_transfer_supported`: the dispatch starting at deg = 1 took the fast path. */
  function FastPolynomialTransferSupported(fine: nat, coarse: nat): (r: bool)
    ensures r <==> exists deg :: 1 <= deg <= MaxDegree && MatchesAt(fine, coarse, deg)
  {
    Run(fine, coarse, 1).FastPath?
  }

  /** Closed form of the table: which (fine, coarse) pairs have a fast kernel. */
  predicate FastPairClosedForm(fine: nat, coarse: nat)
  {
    || (1 <= coarse <= MaxDegree && (fine == 2 * coarse || fine == 2 * coarse + 1))
    || (1 <= fine <= MaxDegree &&
        (coarse == Max(fine / 2, 1) || coarse == fine || coarse == Max(fine - 1, 1) || coarse == 1))
  }

  lemma FastPolynomialTransferClosedForm(fine: nat, coarse: nat)
    ensures FastPolynomialTransferSupported(fine, coarse) <==> FastPairClosedForm(fine, coarse)
  {
    if FastPairClosedForm(fine, coarse) {
      if 1 <= coarse <= MaxDegree && (fine == 2 * coarse || fine == 2 * coarse + 1) {
        assert MatchesAt(fine, coarse, coarse);
      } else {
        assert MatchesAt(fine, coarse, fine);
      }
    }
  }

  /** A fine degree 0 never has a fast kernel: it falls to the slow path. */
  lemma NoFastPathForDegreeZero(coarse: nat)
    ensures !FastPolynomialTransferSupported(0, coarse)
  {
    FastPolynomialTransferClosedForm(0, coarse);
  }

  /**
   * The refinement scheme of a geometric transfer has fine degree 2k (FE_Q)
   * or 2k+1 (other elements) over coarse degree k: its fast kernel exists
   * exactly for 1 <= k <= 9.
   */
  lemma GeometricSchemeFastPath(k: nat, isFeq: bool)
    ensures FastPolynomialTransferSupported(if isFeq then 2 * k else 2 * k + 1, k) <==> 1 <= k <= MaxDegree
  {
    var fine := if isFeq then 2 * k else 2 * k + 1;
    FastPolynomialTransferClosedForm(fine, k);
  }

  /** p-multigrid degree sequences (halving, decrementing, jump to 1, identity) are fast up to degree 9. */
  lemma PolynomialSchemeFastPath(fine: nat)
    requires 1 <= fine <= MaxDegree
    ensures FastPolynomialTransferSupported(fine, Max(fine / 2, 1))
    ensures FastPolynomialTransferSupported(fine, Max(fine - 1, 1))
    ensures FastPolynomialTransferSupported(fine, fine)
    ensures FastPolynomialTransferSupported(fine, 1)
  {
    assert MatchesAt(fine, Max(fine / 2, 1), fine);
    assert MatchesAt(fine, Max(fine - 1, 1), fine);
    assert MatchesAt(fine, fine, fine);
    assert MatchesAt(fine, 1, fine);
  }
}
