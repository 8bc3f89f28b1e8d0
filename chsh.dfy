/**
 * CHSH analysis of a polarisation-correlation sheet: the orthogonal
 * polarisation of a label, the orthogonal analyser angle, the
 * exactly-one-row lookup of a correlation reading, the correlation value
 * E(alpha, beta) and the Bell parameter S, all over nominal values.
 */
module Chsh {
  import opened Wrappers
  import opened Select
  import opened Uncertain

  /** One row of the sheet: polariser label, analyser angle in degrees, mean correlation and its deviation. */
  datatype Row = Row(alpha: string, beta: real, value: real, error: real)

  type Table = seq<Row>

  datatype Error =
    | UnknownPolarisation(polarisation: string) // KeyError from the polarisation map
    | LookupFailed(alpha: string, beta: real) // ValueError: not exactly one row for the key
    | ZeroDivision                             // ZeroDivisionError in E's quotient

  /** Orthogonal polarisation of each known label. */
  const ALPHA_PERP: map<string, string> := map["H" := "V", "V" := "H", "+" := "-", "-" := "+"]

  function AlphaPerp(alpha: string): (r: Result<string, Error>)
    ensures r.Ok? <==> alpha in {"H", "V", "+", "-"}
    ensures r.Ok? ==> r.value in {"H", "V", "+", "-"}
    ensures r.Err? ==> r.error == UnknownPolarisation(alpha)
  {
    if alpha in ALPHA_PERP then Ok(ALPHA_PERP[alpha]) else Err(UnknownPolarisation(alpha))
  }

  /** The polarisation map is an involution without fixed points. */
  lemma AlphaPerpInvolution(alpha: string)
    requires AlphaPerp(alpha).Ok?
    ensures AlphaPerp(alpha).value != alpha
    ensures AlphaPerp(AlphaPerp(alpha).value) == Ok(alpha)
  {
  }

  /** The orthogonal analyser angle, in degrees (no reduction modulo 180). */
  function BetaPerp(beta: real): (r: real)
    ensures r - beta == 90.0
  {
    beta + 90.0
  }

  predicate Matches(row: Row, alpha: string, beta: real) {
    row.alpha == alpha && row.beta == beta
  }

  /**
   * Row `i` is the only row of `t` for the key (alpha, beta). This is
   * `Select.ExactlyAt` for the key's mask, spelled out so that the contracts
   * below say it without a function value.
   */
  ghost predicate OnlyRow(t: Table, alpha: string, beta: real, i: int) {
    && 0 <= i < |t|
    && Matches(t[i], alpha, beta)
    && forall j :: 0 <= j < |t| && j != i ==> !Matches(t[j], alpha, beta)
  }

  /** The reading of the one row with key (alpha, beta); fails on zero or several rows. */
  function CValue(t: Table, alpha: string, beta: real): (r: Result<Reading, Error>)
    ensures r.Ok? <==> exists i :: OnlyRow(t, alpha, beta, i)
    ensures forall i :: OnlyRow(t, alpha, beta, i) ==> r == Ok(Reading(t[i].value, t[i].error))
    ensures r.Err? ==> r.error == LookupFailed(alpha, beta)
  {
    var p := (row: Row) => Matches(row, alpha, beta);
    assert forall i :: OnlyRow(t, alpha, beta, i) <==> ExactlyAt(t, p, i);
    match TheOnly(t, p)
    case Some(row) => Ok(Reading(row.value, row.error))
    case None => Err(LookupFailed(alpha, beta))
  }

  /** The label is known and all four readings E(alpha, beta) needs are present exactly once. */
  predicate Measured(t: Table, alpha: string, beta: real) {
    && AlphaPerp(alpha).Ok?
    && CValue(t, alpha, beta).Ok?
    && CValue(t, AlphaPerp(alpha).value, beta).Ok?
    && CValue(t, alpha, BetaPerp(beta)).Ok?
    && CValue(t, AlphaPerp(alpha).value, BetaPerp(beta)).Ok?
  }

  function Rate(t: Table, alpha: string, beta: real): real
    requires CValue(t, alpha, beta).Ok?
  {
    CValue(t, alpha, beta).value.nominal
  }

  /** Sum of the four nominal readings: E's denominator. */
  function Total(t: Table, alpha: string, beta: real): real
    requires Measured(t, alpha, beta)
  {
    var ap := AlphaPerp(alpha).value;
    Rate(t, alpha, beta) + Rate(t, ap, BetaPerp(beta)) + Rate(t, ap, beta) + Rate(t, alpha, BetaPerp(beta))
  }

  /** Parallel readings minus crossed readings: E's numerator. */
  function Balance(t: Table, alpha: string, beta: real): real
    requires Measured(t, alpha, beta)
  {
    var ap := AlphaPerp(alpha).value;
    Rate(t, alpha, beta) + Rate(t, ap, BetaPerp(beta)) - Rate(t, ap, beta) - Rate(t, alpha, BetaPerp(beta))
  }

  /** The correlation value E(alpha, beta), nominal part. */
  function EValue(t: Table, alpha: string, beta: real): (r: Result<real, Error>)
    ensures r.Ok? <==> Measured(t, alpha, beta) && Total(t, alpha, beta) != 0.0
    ensures r.Ok? ==> r.value == Balance(t, alpha, beta) / Total(t, alpha, beta)
    ensures r.Err? ==> (r.error == ZeroDivision <==> Measured(t, alpha, beta))
    ensures r.Err? && r.error.UnknownPolarisation? ==> r.error.polarisation == alpha && CValue(t, alpha, beta).Ok?
    ensures r.Err? && r.error.LookupFailed? ==> CValue(t, r.error.alpha, r.error.beta).Err?
    ensures r.Err? && !r.error.ZeroDivision? ==>
      r == if CValue(t, alpha, beta).Err? then Err(CValue(t, alpha, beta).error)
           else if AlphaPerp(alpha).Err? then Err(AlphaPerp(alpha).error)
           else if CValue(t, AlphaPerp(alpha).value, beta).Err? then Err(CValue(t, AlphaPerp(alpha).value, beta).error)
           else if CValue(t, alpha, BetaPerp(beta)).Err? then Err(CValue(t, alpha, BetaPerp(beta)).error)
           else Err(CValue(t, AlphaPerp(alpha).value, BetaPerp(beta)).error)
  {
    var cab :- CValue(t, alpha, beta);
    var ap :- AlphaPerp(alpha);
    var capb :- CValue(t, ap, beta);
    var cabp :- CValue(t, alpha, BetaPerp(beta));
    var capbp :- CValue(t, ap, BetaPerp(beta));
    var numerator := cab.nominal + capbp.nominal - capb.nominal - cabp.nominal;
    var denominator := cab.nominal + capbp.nominal + capb.nominal + cabp.nominal;
    if denominator == 0.0 then Err(ZeroDivision) else Ok(numerator / denominator)
  }

  /**
   * E reads only its four keys: tables that agree on the readings of those
   * keys give the same E.
   */
  lemma EValueReadsFourKeys(t: Table, u: Table, alpha: string, beta: real)
    requires AlphaPerp(alpha).Ok?
    requires CValue(t, alpha, beta) == CValue(u, alpha, beta)
    requires CValue(t, AlphaPerp(alpha).value, beta) == CValue(u, AlphaPerp(alpha).value, beta)
    requires CValue(t, alpha, BetaPerp(beta)) == CValue(u, alpha, BetaPerp(beta))
    requires CValue(t, AlphaPerp(alpha).value, BetaPerp(beta)) == CValue(u, AlphaPerp(alpha).value, BetaPerp(beta))
    ensures EValue(t, alpha, beta) == EValue(u, alpha, beta)
  {
  }

  /** Swapping the polariser for its orthogonal one flips the sign of E. */
  lemma EValuePerpNegates(t: Table, alpha: string, beta: real)
    requires AlphaPerp(alpha).Ok?
    ensures EValue(t, AlphaPerp(alpha).value, beta).Ok? == EValue(t, alpha, beta).Ok?
    ensures EValue(t, alpha, beta).Ok? ==>
      EValue(t, AlphaPerp(alpha).value, beta).value == -EValue(t, alpha, beta).value
  {
    AlphaPerpInvolution(alpha);
    var ap := AlphaPerp(alpha).value;
    if Measured(t, alpha, beta) {
      assert Measured(t, ap, beta);
      assert Total(t, ap, beta) == Total(t, alpha, beta);
      assert Balance(t, ap, beta) == -Balance(t, alpha, beta);
    } else {
      assert !Measured(t, ap, beta);
    }
  }

  /** With no crossed coincidences the correlation is perfect. */
  lemma EValuePerfectCorrelation(t: Table, alpha: string, beta: real)
    requires Measured(t, alpha, beta)
    requires Rate(t, AlphaPerp(alpha).value, beta) == 0.0
    requires Rate(t, alpha, BetaPerp(beta)) == 0.0
    requires Total(t, alpha, beta) != 0.0
    ensures EValue(t, alpha, beta) == Ok(1.0)
  {
    var total := Total(t, alpha, beta);
    assert Balance(t, alpha, beta) == total;
    assert total / total == 1.0;
  }

  /** Non-negative readings give a correlation between -1 and 1. */
  lemma EValueBounded(t: Table, alpha: string, beta: real)
    requires forall i :: 0 <= i < |t| ==> t[i].value >= 0.0
    requires EValue(t, alpha, beta).Ok?
    ensures -1.0 <= EValue(t, alpha, beta).value <= 1.0
  {
    var ap := AlphaPerp(alpha).value;
    RateNonNegative(t, alpha, beta);
    RateNonNegative(t, ap, beta);
    RateNonNegative(t, alpha, BetaPerp(beta));
    RateNonNegative(t, ap, BetaPerp(beta));
    var e, total := EValue(t, alpha, beta).value, Total(t, alpha, beta);
    var balance := Balance(t, alpha, beta);
    assert total > 0.0;
    assert -total <= balance <= total;
    QuotientBounds(balance, total);
  }

  lemma QuotientBounds(b: real, d: real)
    requires d > 0.0 && -d <= b <= d
    ensures -1.0 <= b / d <= 1.0
  {
    var q := b / d;
    assert q * d == b;
  }

  lemma RateNonNegative(t: Table, alpha: string, beta: real)
    requires forall i :: 0 <= i < |t| ==> t[i].value >= 0.0
    requires CValue(t, alpha, beta).Ok?
    ensures Rate(t, alpha, beta) >= 0.0
  {
    var i :| OnlyRow(t, alpha, beta, i);
  }

  /** The Bell parameter S = E(H, 22.5) + E(+, 22.5) - E(H, 67.5) + E(+, 67.5). */
  function BellParameter(t: Table): (r: Result<real, Error>)
    ensures r.Ok? <==>
      && EValue(t, "H", 22.5).Ok? && EValue(t, "+", 22.5).Ok?
      && EValue(t, "H", 67.5).Ok? && EValue(t, "+", 67.5).Ok?
    ensures r.Err? ==>
      r == if EValue(t, "H", 22.5).Err? then EValue(t, "H", 22.5)
           else if EValue(t, "+", 22.5).Err? then EValue(t, "+", 22.5)
           else if EValue(t, "H", 67.5).Err? then EValue(t, "H", 67.5)
           else EValue(t, "+", 67.5)
    ensures r.Ok? ==>
      r.value == EValue(t, "H", 22.5).value + EValue(t, "+", 22.5).value
               - EValue(t, "H", 67.5).value + EValue(t, "+", 67.5).value
  {
    var eH22 :- EValue(t, "H", 22.5);
    var ePlus22 :- EValue(t, "+", 22.5);
    var eH67 :- EValue(t, "H", 67.5);
    var ePlus67 :- EValue(t, "+", 67.5);
    Ok(eH22 + ePlus22 - eH67 + ePlus67)
  }

  /** Non-negative readings bound |S| by 4, twice the classical bound. */
  lemma BellParameterBounded(t: Table)
    requires forall i :: 0 <= i < |t| ==> t[i].value >= 0.0
    requires BellParameter(t).Ok?
    ensures -4.0 <= BellParameter(t).value <= 4.0
  {
    EValueBounded(t, "H", 22.5);
    EValueBounded(t, "+", 22.5);
    EValueBounded(t, "H", 67.5);
    EValueBounded(t, "+", 67.5);
  }
}
