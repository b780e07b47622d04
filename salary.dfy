/** The `Salary` record and its conversion to roubles (`currency_to_rur`, `get_salary`). */
module Salaries {
  import opened Wrappers
  import opened Text

  /** Bounds and gross flag as text; the currency is a rate-table key once the record is formatted. */
  datatype Salary = Salary(salaryFrom: string, salaryTo: string, salaryGross: Option<string>, salaryCurrency: string)

  /** The fixed exchange-rate table, roubles per unit, keyed by the Russian currency name. */
  const CurrencyToRub: map<string, real> := map[
    "Манаты" := 35.68,
    "Белорусские рубли" := 23.91,
    "Евро" := 59.90,
    "Грузинский лари" := 21.74,
    "Киргизский сом" := 0.76,
    "Тенге" := 0.13,
    "Рубли" := 1.0,
    "Гривны" := 1.64,
    "Доллары" := 60.66,
    "Узбекский сум" := 0.0055
  ]

  lemma RatesArePositive()
    ensures forall k :: k in CurrencyToRub ==> CurrencyToRub[k] > 0.0
  {
  }

  /** Both bounds are digit strings once their spaces are removed, as `int()` needs here. */
  predicate HasNumeralBounds(s: Salary) {
    IsNumeral(RemoveSpaces(s.salaryFrom)) && IsNumeral(RemoveSpaces(s.salaryTo))
  }

  function BoundFrom(s: Salary): nat requires HasNumeralBounds(s) { ParseNat(RemoveSpaces(s.salaryFrom)) }
  function BoundTo(s: Salary): nat requires HasNumeralBounds(s) { ParseNat(RemoveSpaces(s.salaryTo)) }

  /** Both bounds converted at `rate` roubles per unit. */
  function Convert(s: Salary, rate: real): (real, real)
    requires HasNumeralBounds(s)
  {
    (BoundFrom(s) as real * rate, BoundTo(s) as real * rate)
  }

  /**
   * `currency_to_rur`: both bounds in roubles. A currency that is not a key of the rate
   * table is the source's lookup failure (a KeyError).
   */
  function CurrencyToRur(s: Salary): (r: Option<(real, real)>)
    requires HasNumeralBounds(s)
    ensures r.Some? <==> s.salaryCurrency in CurrencyToRub
    ensures r.Some? ==> r.value == Convert(s, CurrencyToRub[s.salaryCurrency])
  {
    if s.salaryCurrency !in CurrencyToRub then None
    else Some(Convert(s, CurrencyToRub[s.salaryCurrency]))
  }

  /** Converted bounds are non-negative and in the order of the bounds themselves. */
  lemma CurrencyToRurOrder(s: Salary)
    requires HasNumeralBounds(s) && s.salaryCurrency in CurrencyToRub
    ensures var p := CurrencyToRur(s).value;
      0.0 <= p.0 && 0.0 <= p.1 && (p.0 <= p.1 <==> BoundFrom(s) <= BoundTo(s))
  {
    var rate := CurrencyToRub[s.salaryCurrency];
    RatesArePositive();
    assert rate > 0.0;
    ScaleOrder(BoundFrom(s), BoundTo(s), rate);
  }

  /** At a positive rate converted amounts are non-negative and keep their order. */
  lemma ScaleOrder(x: nat, y: nat, rate: real)
    requires rate > 0.0
    ensures 0.0 <= x as real * rate && 0.0 <= y as real * rate
    ensures x as real * rate <= y as real * rate <==> x <= y
  {
    var d := (y as real - x as real) * rate;
    assert y as real * rate - x as real * rate == d;
    if x <= y {
      assert d >= 0.0;
    } else {
      assert d < 0.0;
    }
  }

  /** The midpoint of two converted amounts lies between them and is their mean, converted. */
  lemma ScaleMidpoint(x: nat, y: nat, rate: real)
    ensures var p0, p1 := x as real * rate, y as real * rate; var m := (p0 + p1) / 2.0;
      && (p0 <= m <= p1 || p1 <= m <= p0) && m - p0 == p1 - m
      && m == (x + y) as real * rate / 2.0
  {
    assert x as real * rate + y as real * rate == (x + y) as real * rate;
  }

  /**
   * `get_salary`: the midpoint of the two converted bounds, which is the rate times the
   * mean of the two integer bounds.
   */
  function GetSalary(s: Salary): (r: Option<real>)
    requires HasNumeralBounds(s)
    ensures r.Some? <==> s.salaryCurrency in CurrencyToRub
    ensures r.Some? ==>
      var p := CurrencyToRur(s).value;
      (p.0 <= r.value <= p.1 || p.1 <= r.value <= p.0) && r.value - p.0 == p.1 - r.value
    ensures r.Some? ==>
      r.value == (BoundFrom(s) + BoundTo(s)) as real * CurrencyToRub[s.salaryCurrency] / 2.0
  {
    match CurrencyToRur(s)
    case None => None
    case Some(p) =>
      ScaleMidpoint(BoundFrom(s), BoundTo(s), CurrencyToRub[s.salaryCurrency]);
      Some((p.0 + p.1) / 2.0)
  }

  /** Zero bounds give a zero salary in every currency of the table. */
  lemma ZeroBoundsZeroSalary(gross: Option<string>, currency: string)
    requires currency in CurrencyToRub
    ensures GetSalary(Salary("0", "0", gross, currency)) == Some(0.0)
  {
    var s := Salary("0", "0", gross, currency);
    assert RemoveSpaces("0") == "0" by {
      assert "0"[1..] == "";
    }
    assert ParseNat("0") == 0;
  }
}
