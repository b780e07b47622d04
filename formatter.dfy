/**
 * `InputConnect.info_formatter`: each vacancy's salary bounds lose their fractional part, its
 * currency code becomes the Russian currency name the rate table is keyed by, and its
 * publication date is cut to the year.
 */
module Formatter {
  import opened Wrappers
  import opened Seqs
  import opened Text
  import opened Salaries
  import opened DataSets

  /** `dic_currency`: ISO-style currency codes of the export to the keys of the rate table. */
  const CurrencyCodes: map<string, string> := map[
    "AZN" := "Манаты",
    "BYR" := "Белорусские рубли",
    "EUR" := "Евро",
    "GEL" := "Грузинский лари",
    "KGS" := "Киргизский сом",
    "KZT" := "Тенге",
    "RUR" := "Рубли",
    "UAH" := "Гривны",
    "USD" := "Доллары",
    "UZS" := "Узбекский сум"
  ]

  /** Every code names a currency the rate table knows. */
  lemma CodesNameRates()
    ensures forall code :: code in CurrencyCodes ==> CurrencyCodes[code] in CurrencyToRub
  {
  }

  /** No two codes name the same currency. */
  lemma CodesDistinct()
    ensures forall a, b :: a in CurrencyCodes && b in CurrencyCodes && a != b ==> CurrencyCodes[a] != CurrencyCodes[b]
  {
  }

  /** Every currency of the rate table has a code. */
  lemma RatesHaveCodes()
    ensures forall k :: k in CurrencyToRub ==> exists code :: code in CurrencyCodes && CurrencyCodes[code] == k
  {
    assert CurrencyCodes["AZN"] == "Манаты";
    assert CurrencyCodes["BYR"] == "Белорусские рубли";
    assert CurrencyCodes["EUR"] == "Евро";
    assert CurrencyCodes["GEL"] == "Грузинский лари";
    assert CurrencyCodes["KGS"] == "Киргизский сом";
    assert CurrencyCodes["KZT"] == "Тенге";
    assert CurrencyCodes["RUR"] == "Рубли";
    assert CurrencyCodes["UAH"] == "Гривны";
    assert CurrencyCodes["USD"] == "Доллары";
    assert CurrencyCodes["UZS"] == "Узбекский сум";
  }

  /** Where `s[:len(s) - 2]` ends: Python counts a negative end from the back, and stops at 0. */
  function CutTwo(s: string): nat {
    if |s| >= 2 then |s| - 2 else 0
  }

  /**
   * `formatter_string_number`: a number without a `.` is kept; one with a `.` anywhere loses its
   * last two characters (meant for a trailing `.0`).
   */
  function FormatStringNumber(s: string): (r: string)
    ensures '.' !in s ==> r == s
    ensures '.' in s ==> r == s[..CutTwo(s)]
    ensures r <= s && |s| - 2 <= |r|
  {
    IndexOfChar(s, '.');
    if IndexOf(s, ".") == -1 then s else s[..CutTwo(s)]
  }

  /** A whole number is kept, and the same number written with `.0` comes back to it. */
  lemma WholeNumberKept(d: string)
    requires IsNumeral(d)
    ensures FormatStringNumber(d) == d
    ensures FormatStringNumber(d + ".0") == d
  {
    assert '.' !in d;
    assert (d + ".0")[|d|] == '.';
    assert (d + ".0")[..|d|] == d;
  }

  /** With two decimals the cut keeps the point: "120.00" becomes "120.", which is no longer a number. */
  lemma TwoDecimalsKeepPoint(d: string)
    requires IsNumeral(d)
    ensures FormatStringNumber(d + ".00") == d + "."
    ensures !IsNumeral(FormatStringNumber(d + ".00"))
  {
    var s := d + ".00";
    assert s[|d|] == '.';
    assert s[..|d| + 1] == d + ".";
    assert !IsDigit((d + ".")[|d|]);
  }

  /** `formatter_published_at`: the first four characters, the year of an ISO date. */
  function FormatPublishedAt(s: string): (r: string)
    ensures r <= s && |r| == Min(4, |s|)
  {
    s[..Min(4, |s|)]
  }

  /** Cutting a date to its year twice is cutting it once. */
  lemma FormatPublishedAtIdempotent(s: string)
    ensures FormatPublishedAt(FormatPublishedAt(s)) == FormatPublishedAt(s)
  {
  }

  /** A date that starts with four digits is cut to a numeral `int()` accepts. */
  lemma PublishedAtIsYear(s: string)
    requires |s| >= 4 && forall i :: 0 <= i < 4 ==> IsDigit(s[i])
    ensures IsNumeral(FormatPublishedAt(s))
  {
  }

  /**
   * `formatter_salary`: a new salary whose bounds are trimmed, whose gross flag is dropped and whose
   * currency is the rate-table name of the code. An unknown code is the source's `KeyError`.
   */
  function FormatSalary(s: Salary): (r: Option<Salary>)
    ensures r.Some? <==> s.salaryCurrency in CurrencyCodes
    ensures r.Some? ==> r.value.salaryCurrency in CurrencyToRub && r.value.salaryGross.None?
    ensures r.Some? ==> r.value.salaryFrom <= s.salaryFrom && r.value.salaryTo <= s.salaryTo
    ensures r.Some? ==> r.value.salaryCurrency == CurrencyCodes[s.salaryCurrency]
    ensures r.Some? ==> r.value.salaryFrom == FormatStringNumber(s.salaryFrom)
    ensures r.Some? ==> r.value.salaryTo == FormatStringNumber(s.salaryTo)
  {
    if s.salaryCurrency !in CurrencyCodes then None
    else
      CodesNameRates();
      Some(Salary(FormatStringNumber(s.salaryFrom), FormatStringNumber(s.salaryTo), None,
                  CurrencyCodes[s.salaryCurrency]))
  }

  /**
   * A salary with a known code whose bounds are whole numbers, written with or without `.0`,
   * formats to one that `get_salary` converts: its bounds parse and its currency has a rate.
   */
  lemma FormattedSalaryConverts(s: Salary, from: string, to: string)
    requires s.salaryCurrency in CurrencyCodes
    requires IsNumeral(from) && (s.salaryFrom == from || s.salaryFrom == from + ".0")
    requires IsNumeral(to) && (s.salaryTo == to || s.salaryTo == to + ".0")
    ensures var f := FormatSalary(s).value;
      && f.salaryFrom == from && f.salaryTo == to
      && HasNumeralBounds(f) && GetSalary(f).Some?
      && BoundFrom(f) == ParseNat(from) && BoundTo(f) == ParseNat(to)
  {
    WholeNumberKept(from);
    WholeNumberKept(to);
    NumeralHasNoSpace(from);
    NumeralHasNoSpace(to);
  }

  /** Such a salary is converted at the rate of the currency its code names, at the midpoint of its bounds. */
  lemma FormattedSalaryRate(s: Salary, from: string, to: string)
    requires s.salaryCurrency in CurrencyCodes
    requires IsNumeral(from) && (s.salaryFrom == from || s.salaryFrom == from + ".0")
    requires IsNumeral(to) && (s.salaryTo == to || s.salaryTo == to + ".0")
    ensures var f := FormatSalary(s).value;
      && f.salaryCurrency == CurrencyCodes[s.salaryCurrency] && HasNumeralBounds(f) && GetSalary(f).Some?
      && GetSalary(f).value == (ParseNat(from) + ParseNat(to)) as real * CurrencyToRub[f.salaryCurrency] / 2.0
  {
    FormattedSalaryConverts(s, from, to);
    var f := FormatSalary(s).value;
    MidpointAt(f, ParseNat(from) + ParseNat(to), CurrencyToRub[f.salaryCurrency]);
  }

  lemma MidpointAt(f: Salary, n: nat, rate: real)
    requires HasNumeralBounds(f) && f.salaryCurrency in CurrencyToRub
    requires BoundFrom(f) + BoundTo(f) == n && CurrencyToRub[f.salaryCurrency] == rate
    ensures GetSalary(f).Some? && GetSalary(f).value == n as real * rate / 2.0
  {
  }

  lemma NumeralHasNoSpace(d: string)
    requires IsNumeral(d)
    ensures RemoveSpaces(d) == d
  {
    assert ' ' !in d;
  }

  /** `v` holds the formatted forms of the salary and date it had before. */
  predicate Formatted(v: Vacancy, oldSalary: Salary, oldPublishedAt: string)
    reads v
  {
    FormatSalary(oldSalary).Some? && v.salary == FormatSalary(oldSalary).value
    && v.publishedAt == FormatPublishedAt(oldPublishedAt)
  }

  /**
   * `info_formatter`: formats the vacancies in list order, replacing only `salary` and
   * `published_at`. The result is how many were formatted: all of them, or the index of the first
   * vacancy whose currency code is unknown, where the source's `KeyError` stops the loop. That
   * vacancy and every later one are left as they were.
   */
  method InfoFormatter(vs: seq<Vacancy>) returns (formatted: nat)
    requires Distinct(vs)
    modifies set v | v in vs
    ensures formatted <= |vs|
    ensures formatted == |vs| <==> forall i :: 0 <= i < |vs| ==> old(vs[i].salary.salaryCurrency) in CurrencyCodes
    ensures formatted < |vs| ==> old(vs[formatted].salary.salaryCurrency) !in CurrencyCodes
    ensures forall i :: 0 <= i < formatted ==> Formatted(vs[i], old(vs[i].salary), old(vs[i].publishedAt))
    ensures forall i :: formatted <= i < |vs| ==> vs[i].salary == old(vs[i].salary) && vs[i].publishedAt == old(vs[i].publishedAt)
  {
    formatted := 0;
    while formatted < |vs|
      invariant formatted <= |vs|
      invariant forall i :: 0 <= i < formatted ==> Formatted(vs[i], old(vs[i].salary), old(vs[i].publishedAt))
      invariant forall i :: formatted <= i < |vs| ==> vs[i].salary == old(vs[i].salary) && vs[i].publishedAt == old(vs[i].publishedAt)
    {
      var vacancy := vs[formatted];
      var salary := FormatSalary(vacancy.salary);
      if salary.None? {
        return;
      }
      vacancy.salary := salary.value;
      vacancy.publishedAt := FormatPublishedAt(vacancy.publishedAt);
      formatted := formatted + 1;
    }
  }
}
