/**
 * `InputConnect.info_finder`: one pass over the formatted vacancies fills the six tables, and
 * `info_calculating` turns them into the report. The tables the loop builds are, after every
 * vacancy, the tables defined from the records read so far.
 */
module Finder {
  import opened Wrappers
  import opened Text
  import opened Dicts
  import opened Salaries
  import opened DataSets
  import opened Accumulation
  import opened Calculating

  /** The salary bounds and the year are digit strings, as `int()` needs them. */
  predicate Parsable(v: Vacancy)
    reads v
  {
    HasNumeralBounds(v.salary) && IsNumeral(v.publishedAt)
  }

  /** The currency has a rate; otherwise `get_salary` raises `KeyError`. */
  predicate Known(v: Vacancy)
    reads v
  {
    v.salary.salaryCurrency in CurrencyToRub
  }

  /** What the pass reads from a vacancy. */
  function EntryOf(v: Vacancy): Entry
    reads v
    requires Parsable(v) && Known(v)
  {
    Entry(v.name, v.areaName, ParseNat(v.publishedAt), GetSalary(v.salary).value)
  }

  function EntriesOf(vs: seq<Vacancy>): (es: seq<Entry>)
    reads set v | v in vs
    requires forall v :: v in vs ==> Parsable(v) && Known(v)
    ensures |es| == |vs|
  {
    if vs == [] then [] else EntriesOf(vs[..|vs| - 1]) + [EntryOf(vs[|vs| - 1])]
  }

  lemma EntriesSnoc(vs: seq<Vacancy>, i: int)
    requires 0 <= i < |vs| && forall v :: v in vs[..i] ==> Parsable(v) && Known(v)
    requires Parsable(vs[i]) && Known(vs[i])
    ensures forall v :: v in vs[..i + 1] ==> Parsable(v) && Known(v)
    ensures EntriesOf(vs[..i + 1]) == EntriesOf(vs[..i]) + [EntryOf(vs[i])]
  {
    assert vs[..i + 1] == vs[..i] + [vs[i]];
    assert vs[..i + 1][..i] == vs[..i];
  }

  /** The tables of a run list the same years, and the same areas; the branches below test one for all. */
  lemma SameKeys(es: seq<Entry>, parameter: string)
    ensures SelectedSalaryByYear(es, parameter).keys == SalaryByYear(es).keys
    ensures CountByYear(es).keys == SalaryByYear(es).keys
    ensures SelectedCountByYear(es, parameter).keys == SalaryByYear(es).keys
    ensures CountByCity(es).keys == SalaryByCity(es).keys
  {
    TablesAgree(es, parameter);
  }

  /**
   * The first half of the year step: a year not yet in `salary_level_by_years` enters all four
   * year tables, the selected ones at zero; a known year adds the salary to its pair and count.
   */
  method OpenYear(salaryByYear: Dict<int, Stat>, selectedSalaryByYear: Dict<int, Stat>,
                  countByYear: Dict<int, nat>, selectedCountByYear: Dict<int, nat>,
                  e: Entry, parameter: string, ghost es: seq<Entry>)
    returns (salaryByYear': Dict<int, Stat>, selectedSalaryByYear': Dict<int, Stat>,
             countByYear': Dict<int, nat>, selectedCountByYear': Dict<int, nat>)
    requires salaryByYear == SalaryByYear(es) && selectedSalaryByYear == SelectedSalaryByYear(es, parameter)
    requires countByYear == CountByYear(es) && selectedCountByYear == SelectedCountByYear(es, parameter)
    ensures salaryByYear' == SalaryByYear(es + [e]) && countByYear' == CountByYear(es + [e])
    ensures selectedSalaryByYear' == SetDefault(selectedSalaryByYear, e.year, Stat(0.0, 0))
    ensures selectedCountByYear' == SetDefault(selectedCountByYear, e.year, 0)
  {
    SameKeys(es, parameter);
    selectedSalaryByYear', selectedCountByYear' := selectedSalaryByYear, selectedCountByYear;
    if e.year !in salaryByYear.vals {
      salaryByYear' := Put(salaryByYear, e.year, Stat(e.salary, 1));
      countByYear' := Put<int, nat>(countByYear, e.year, 1);
      selectedSalaryByYear' := Put(selectedSalaryByYear, e.year, Stat(0.0, 0));
      selectedCountByYear' := Put<int, nat>(selectedCountByYear, e.year, 0);
    } else {
      var level := salaryByYear.vals[e.year];
      salaryByYear' := Put(salaryByYear, e.year, Add(level, e.salary));
      countByYear' := Put<int, nat>(countByYear, e.year, countByYear.vals[e.year] + 1);
    }
    assert salaryByYear' == SalaryByYear(es + [e]) by { SalaryByYearStep(es, e); }
    assert countByYear' == CountByYear(es + [e]) by { CountByYearStep(es, e); }
  }

  /** The second half of the year step on the salary pairs: a name containing `parameter` adds the salary to its year. */
  method SelectSalary(selectedSalaryByYear: Dict<int, Stat>, e: Entry, parameter: string, ghost es: seq<Entry>)
    returns (selectedSalaryByYear': Dict<int, Stat>)
    requires selectedSalaryByYear == SetDefault(SelectedSalaryByYear(es, parameter), e.year, Stat(0.0, 0))
    ensures selectedSalaryByYear' == SelectedSalaryByYear(es + [e], parameter)
  {
    SelectedSalaryByYearStep(es, e, parameter);
    selectedSalaryByYear' := selectedSalaryByYear;
    if Contains(e.name, parameter) {
      var level := selectedSalaryByYear.vals[e.year];
      selectedSalaryByYear' := Put(selectedSalaryByYear, e.year, Add(level, e.salary));
    }
  }

  /** The second half of the year step on the counts: a name containing `parameter` counts one more for its year. */
  method SelectCount(selectedCountByYear: Dict<int, nat>, e: Entry, parameter: string, ghost es: seq<Entry>)
    returns (selectedCountByYear': Dict<int, nat>)
    requires selectedCountByYear == SetDefault<int, nat>(SelectedCountByYear(es, parameter), e.year, 0)
    ensures selectedCountByYear' == SelectedCountByYear(es + [e], parameter)
  {
    SelectedCountByYearStep(es, e, parameter);
    selectedCountByYear' := selectedCountByYear;
    if Contains(e.name, parameter) {
      var count: nat := selectedCountByYear.vals[e.year];
      selectedCountByYear' := Put<int, nat>(selectedCountByYear, e.year, count + 1);
    }
  }

  /** The city half of the loop body: a new area opens both city tables, a known one adds to them. */
  method CityStep(salaryByCity: Dict<string, Stat>, countByCity: Dict<string, nat>, e: Entry, ghost es: seq<Entry>)
    returns (salaryByCity': Dict<string, Stat>, countByCity': Dict<string, nat>)
    requires salaryByCity == SalaryByCity(es) && countByCity == CountByCity(es)
    ensures salaryByCity' == SalaryByCity(es + [e]) && countByCity' == CountByCity(es + [e])
  {
    SalaryByCityStep(es, e);
    CountByCityStep(es, e);
    if e.area !in salaryByCity.vals {
      countByCity' := Put<string, nat>(countByCity, e.area, 1);
      salaryByCity' := Put(salaryByCity, e.area, Stat(e.salary, 1));
    } else {
      var level := salaryByCity.vals[e.area];
      salaryByCity' := Put(salaryByCity, e.area, Add(level, e.salary));
      countByCity' := Put<string, nat>(countByCity, e.area, countByCity.vals[e.area] + 1);
    }
  }

  /** The loop body of `info_finder` once the vacancy has been read: the year step, then the city step. */
  method AddEntry(tables: Tables, e: Entry, parameter: string, ghost es: seq<Entry>) returns (tables': Tables)
    requires tables == TablesOf(es, parameter)
    ensures tables' == TablesOf(es + [e], parameter)
  {
    var salaryByYear, selectedSalaryByYear, countByYear, selectedCountByYear :=
      OpenYear(tables.salaryByYear, tables.selectedSalaryByYear, tables.countByYear, tables.selectedCountByYear,
               e, parameter, es);
    selectedSalaryByYear := SelectSalary(selectedSalaryByYear, e, parameter, es);
    selectedCountByYear := SelectCount(selectedCountByYear, e, parameter, es);
    var salaryByCity, countByCity := CityStep(tables.salaryByCity, tables.countByCity, e, es);
    tables' := Tables(salaryByYear, selectedSalaryByYear, countByYear, selectedCountByYear, salaryByCity, countByCity);
  }

  /**
   * The loop of `info_finder`. It stops with the source's `KeyError` (`None`) exactly when some
   * vacancy's currency has no rate; otherwise the six tables are those of all the records.
   */
  method FillTables(vs: seq<Vacancy>, parameter: string) returns (r: Option<Tables>)
    requires forall v :: v in vs ==> Parsable(v)
    ensures r.None? <==> exists v :: v in vs && !Known(v)
    ensures r.Some? ==> (forall v :: v in vs ==> Known(v)) && r.value == TablesOf(EntriesOf(vs), parameter)
  {
    var tables := Tables(Empty(), Empty(), Empty(), Empty(), Empty(), Empty());
    assert tables == TablesOf([], parameter);
    var i := 0;
    ghost var es: seq<Entry> := [];
    while i < |vs|
      invariant 0 <= i <= |vs|
      invariant forall v :: v in vs[..i] ==> Parsable(v) && Known(v)
      invariant es == EntriesOf(vs[..i])
      invariant tables == TablesOf(es, parameter)
    {
      var item := vs[i];
      assert item in vs;
      if item.salary.salaryCurrency !in CurrencyToRub {
        return None;
      }
      var e := Entry(item.name, item.areaName, ParseNat(item.publishedAt), GetSalary(item.salary).value);
      EntriesSnoc(vs, i);
      ghost var read := es;
      es, i := es + [e], i + 1;
      tables := AddEntry(tables, e, parameter, read);
    }
    assert vs[..i] == vs;
    r := Some(tables);
  }

  /**
   * `info_finder`: the tables of one pass, handed to `info_calculating` with the number of
   * vacancies as the total. `None` is the `KeyError` of a currency without a rate.
   */
  method InfoFinder(vs: seq<Vacancy>, parameter: string) returns (r: Option<Report>)
    requires forall v :: v in vs ==> Parsable(v)
    ensures r.None? <==> exists v :: v in vs && !Known(v)
    ensures r.Some? ==> (forall v :: v in vs ==> Known(v)) && IsReport(r.value, TablesOf(EntriesOf(vs), parameter), |vs|)
  {
    var tables := FillTables(vs, parameter);
    if tables.None? {
      return None;
    }
    if |vs| == 0 {
      assert Areas([]) == [];
    }
    var report := InfoCalculating(tables.value, |vs|);
    r := Some(report);
  }
}
