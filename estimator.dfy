/**
 * The report computed when the user asks for it: estimated cumulative feed
 * consumption for the day, estimated weight for the real consumption, the
 * deviations of the real values from the estimates, and the feed conversion.
 */
module Estimator {
  import opened Wrappers
  import opened Polynomial
  import opened CoefficientTable

  /** What the user enters: line, sex, day, real consumption, real weight. */
  datatype Query = Query(raza: string, sexo: string, dia: int, consumoReal: real, pesoReal: real)

  datatype Report = Report(
    consumoEstimado: real,
    pesoEstimado: real,
    diffCons: real,
    pctDiffCons: real,
    diffPeso: real,
    pctDiffPeso: real,
    conversion: real)

  /** Which lookup found no row; the day table is consulted first. */
  datatype Missing = DayToConsumptionMissing | ConsumptionToWeightMissing

  /** The input widgets' minima: day at least 14, both real values at least 0.01. */
  predicate ValidQuery(q: Query)
  {
    q.dia >= 14 && q.consumoReal >= 0.01 && q.pesoReal >= 0.01
  }

  /**
   * The difference as a percentage of the estimate, or exactly 0 when the
   * estimate is 0 (the guard replaces the division by zero).
   */
  function PctDiff(diff: real, estimate: real): (p: real)
    ensures estimate == 0.0 ==> p == 0.0
    ensures estimate != 0.0 ==> p * estimate == 100.0 * diff
  {
    if estimate != 0.0 then 100.0 * diff / estimate else 0.0
  }

  /** Consumption per unit of weight, or exactly 0 when the weight is 0. */
  function FeedConversion(consumo: real, peso: real): (c: real)
    ensures peso == 0.0 ==> c == 0.0
    ensures peso != 0.0 ==> c * peso == consumo
  {
    if peso != 0.0 then consumo / peso else 0.0
  }

  /** The metrics computed from the estimates and the real values. */
  function Compare(consumoEstimado: real, pesoEstimado: real, consumoReal: real, pesoReal: real): (r: Report)
    ensures r.consumoEstimado == consumoEstimado && r.pesoEstimado == pesoEstimado
    ensures r.consumoEstimado + r.diffCons == consumoReal
    ensures r.pesoEstimado + r.diffPeso == pesoReal
    ensures r.pctDiffCons == PctDiff(r.diffCons, consumoEstimado)
    ensures r.pctDiffPeso == PctDiff(r.diffPeso, pesoEstimado)
    ensures r.conversion == FeedConversion(consumoReal, pesoReal)
  {
    var diffCons := consumoReal - consumoEstimado;
    var diffPeso := pesoReal - pesoEstimado;
    Report(consumoEstimado, pesoEstimado,
           diffCons, PctDiff(diffCons, consumoEstimado),
           diffPeso, PctDiff(diffPeso, pesoEstimado),
           FeedConversion(consumoReal, pesoReal))
  }

  /**
   * The whole calculation: look up the day-to-consumption polynomial and
   * evaluate it at the day, then look up the consumption-to-weight
   * polynomial and evaluate it at the REAL consumption, then compare. A
   * missing key in either table fails the calculation, the day table first.
   */
  function Estimate(diaCons: Table, consPeso: Table, q: Query): (r: Result<Report, Missing>)
    requires ValidQuery(q)
    ensures r.Failure? <==> Lookup(diaCons, q.raza, q.sexo).None? || Lookup(consPeso, q.raza, q.sexo).None?
    ensures r.Failure? ==> (r.error == DayToConsumptionMissing <==> Lookup(diaCons, q.raza, q.sexo).None?)
    ensures r.Success? ==> r.value.consumoEstimado + r.value.diffCons == q.consumoReal
    ensures r.Success? ==> r.value.pesoEstimado + r.value.diffPeso == q.pesoReal
    ensures r.Success? ==> r.value.conversion * q.pesoReal == q.consumoReal
  {
    match Lookup(diaCons, q.raza, q.sexo)
    case None => Failure(DayToConsumptionMissing)
    case Some(coeffsDiaCons) =>
      var consumoEstimado := Horner(coeffsDiaCons, q.dia as real);
      match Lookup(consPeso, q.raza, q.sexo)
      case None => Failure(ConsumptionToWeightMissing)
      case Some(coeffsConsPeso) =>
        var pesoEstimado := Horner(coeffsConsPeso, q.consumoReal);
        Success(Compare(consumoEstimado, pesoEstimado, q.consumoReal, q.pesoReal))
  }

  /** The degree-4 polynomial of a row, written out term by term. */
  function RowPoly(row: Row, x: real): real
  {
    row.coef4 * Pow(x, 4) + row.coef3 * Pow(x, 3) + row.coef2 * Pow(x, 2) + row.coef1 * x + row.coef0
  }

  /**
   * With first matching rows `i` (day table) and `j` (weight table), the
   * estimates are those rows' polynomials at the day and at the real
   * consumption, and the report compares the real values with them.
   */
  lemma EstimateFromRows(diaCons: Table, consPeso: Table, q: Query, i: int, j: int)
    requires ValidQuery(q)
    requires IsFirstMatch(diaCons, q.raza, q.sexo, i)
    requires IsFirstMatch(consPeso, q.raza, q.sexo, j)
    ensures Estimate(diaCons, consPeso, q)
         == Success(Compare(RowPoly(diaCons[i], q.dia as real), RowPoly(consPeso[j], q.consumoReal),
                            q.consumoReal, q.pesoReal))
  {
    LookupFirstMatch(diaCons, q.raza, q.sexo, i);
    LookupFirstMatch(consPeso, q.raza, q.sexo, j);
    var a, b := diaCons[i], consPeso[j];
    HornerDegree4(a.coef4, a.coef3, a.coef2, a.coef1, a.coef0, q.dia as real);
    HornerDegree4(b.coef4, b.coef3, b.coef2, b.coef1, b.coef0, q.consumoReal);
    assert Horner(Coeffs(a), q.dia as real) == RowPoly(a, q.dia as real);
    assert Horner(Coeffs(b), q.consumoReal) == RowPoly(b, q.consumoReal);
  }

  /**
   * The estimated weight depends on the real consumption and not on the
   * estimated one: changing the day table (and so the estimated
   * consumption) leaves the estimated weight unchanged.
   */
  lemma WeightIndependentOfDayTable(diaCons1: Table, diaCons2: Table, consPeso: Table, q: Query)
    requires ValidQuery(q)
    requires Estimate(diaCons1, consPeso, q).Success? && Estimate(diaCons2, consPeso, q).Success?
    ensures Estimate(diaCons1, consPeso, q).value.pesoEstimado
         == Estimate(diaCons2, consPeso, q).value.pesoEstimado
  {
  }

  /**
   * A worked example: line "LineA", sex "M", day polynomial 2*day + 10 and
   * weight polynomial 0.5*consumption. Day 15 gives an estimated
   * consumption of 40; a real consumption of 20 gives an estimated weight of
   * 10; a real weight of 12 is 2 above it, 20 percent.
   */
  lemma WorkedExample()
    ensures var diaCons := [Row("LineA", "M", 10.0, 2.0, 0.0, 0.0, 0.0)];
            var consPeso := [Row("LineA", "M", 0.0, 0.5, 0.0, 0.0, 0.0)];
            Estimate(diaCons, consPeso, Query("LineA", "M", 15, 20.0, 12.0))
            == Success(Report(40.0, 10.0, -20.0, -50.0, 2.0, 20.0, 20.0 / 12.0))
  {
    var diaCons := [Row("LineA", "M", 10.0, 2.0, 0.0, 0.0, 0.0)];
    var consPeso := [Row("LineA", "M", 0.0, 0.5, 0.0, 0.0, 0.0)];
    var q := Query("LineA", "M", 15, 20.0, 12.0);
    EstimateFromRows(diaCons, consPeso, q, 0, 0);
    assert Pow(15.0, 1) == 15.0;
    assert Pow(20.0, 1) == 20.0;
  }
}
