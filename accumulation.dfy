/**
 * What the six tables of `info_finder` hold after its pass over the vacancies, defined directly
 * from the records (the records of a year, of a city, those whose name contains the search
 * string), and how one more record changes each table: exactly the branch the loop body takes.
 */
module Accumulation {
  import opened Seqs
  import opened Dicts
  import opened Text

  /** A `(sum, count)` pair of salaries. */
  datatype Stat = Stat(sum: real, count: nat)

  /** What the pass reads from one vacancy: its name, city, year and salary in roubles. */
  datatype Entry = Entry(name: string, area: string, year: int, salary: real)

  /** The six tables in the order `info_finder` hands them on. */
  datatype Tables = Tables(
    salaryByYear: Dict<int, Stat>,
    selectedSalaryByYear: Dict<int, Stat>,
    countByYear: Dict<int, nat>,
    selectedCountByYear: Dict<int, nat>,
    salaryByCity: Dict<string, Stat>,
    countByCity: Dict<string, nat>)

  /** `s` with one more salary added. */
  function Add(s: Stat, salary: real): Stat {
    Stat(s.sum + salary, s.count + 1)
  }

  function Years(es: seq<Entry>): (r: seq<int>)
    ensures |r| == |es| && forall i :: 0 <= i < |es| ==> r[i] == es[i].year
  {
    seq(|es|, i requires 0 <= i < |es| => es[i].year)
  }

  function Areas(es: seq<Entry>): (r: seq<string>)
    ensures |r| == |es| && forall i :: 0 <= i < |es| ==> r[i] == es[i].area
  {
    seq(|es|, i requires 0 <= i < |es| => es[i].area)
  }

  /** The records of year `y`, in order. */
  function OfYear(es: seq<Entry>, y: int): seq<Entry> {
    if es == [] then []
    else OfYear(es[..|es| - 1], y) + (if es[|es| - 1].year == y then [es[|es| - 1]] else [])
  }

  /** The records of city `c`, in order. */
  function OfCity(es: seq<Entry>, c: string): seq<Entry> {
    if es == [] then []
    else OfCity(es[..|es| - 1], c) + (if es[|es| - 1].area == c then [es[|es| - 1]] else [])
  }

  /** The records whose name contains the search string (`parameter in item.name`), in order. */
  function Selected(es: seq<Entry>, parameter: string): seq<Entry> {
    if es == [] then []
    else Selected(es[..|es| - 1], parameter) + (if Contains(es[|es| - 1].name, parameter) then [es[|es| - 1]] else [])
  }

  function Total(es: seq<Entry>): real {
    if es == [] then 0.0 else Total(es[..|es| - 1]) + es[|es| - 1].salary
  }

  /** The `(sum, count)` pair of a run of records. */
  function StatOf(es: seq<Entry>): Stat {
    Stat(Total(es), |es|)
  }

  // The tables, defined from the records.

  /** `salary_level_by_years`: each year, in order of first appearance, with the pair of its records. */
  function SalaryByYear(es: seq<Entry>): Dict<int, Stat> {
    RawDict(Dedup(Years(es)), SalaryByYearMap(es))
  }

  function SalaryByYearMap(es: seq<Entry>): map<int, Stat> {
    map y | y in Years(es) :: StatOf(OfYear(es, y))
  }

  /** `selected_vacancy_salary_year`: each year with the pair of its records whose name matches. */
  function SelectedSalaryByYear(es: seq<Entry>, parameter: string): Dict<int, Stat> {
    RawDict(Dedup(Years(es)), SelectedSalaryByYearMap(es, parameter))
  }

  function SelectedSalaryByYearMap(es: seq<Entry>, parameter: string): map<int, Stat> {
    map y | y in Years(es) :: StatOf(Selected(OfYear(es, y), parameter))
  }

  /** `count_vacancies_by_year`: each year with the number of its records. */
  function CountByYear(es: seq<Entry>): Dict<int, nat> {
    RawDict(Dedup(Years(es)), CountByYearMap(es))
  }

  function CountByYearMap(es: seq<Entry>): map<int, nat> {
    map y | y in Years(es) :: |OfYear(es, y)|
  }

  /** `selected_vacancy_year_count`: each year with the number of its records whose name matches. */
  function SelectedCountByYear(es: seq<Entry>, parameter: string): Dict<int, nat> {
    RawDict(Dedup(Years(es)), SelectedCountByYearMap(es, parameter))
  }

  function SelectedCountByYearMap(es: seq<Entry>, parameter: string): map<int, nat> {
    map y | y in Years(es) :: |Selected(OfYear(es, y), parameter)|
  }

  /** `salary_levels_by_city`: each city, in order of first appearance, with the pair of its records. */
  function SalaryByCity(es: seq<Entry>): Dict<string, Stat> {
    RawDict(Dedup(Areas(es)), SalaryByCityMap(es))
  }

  function SalaryByCityMap(es: seq<Entry>): map<string, Stat> {
    map c | c in Areas(es) :: StatOf(OfCity(es, c))
  }

  /** `count_vacancies_by_city`: each city with the number of its records. */
  function CountByCity(es: seq<Entry>): Dict<string, nat> {
    RawDict(Dedup(Areas(es)), CountByCityMap(es))
  }

  function CountByCityMap(es: seq<Entry>): map<string, nat> {
    map c | c in Areas(es) :: |OfCity(es, c)|
  }

  function TablesOf(es: seq<Entry>, parameter: string): Tables {
    Tables(SalaryByYear(es), SelectedSalaryByYear(es, parameter), CountByYear(es),
           SelectedCountByYear(es, parameter), SalaryByCity(es), CountByCity(es))
  }

  // One more record.

  lemma LastOf<T>(s: seq<T>, x: T)
    ensures (s + [x])[..|s|] == s && (s + [x])[|s|] == x
  {
  }

  lemma StatSnoc(s: seq<Entry>, e: Entry)
    ensures StatOf(s + [e]) == Add(StatOf(s), e.salary)
  {
    LastOf(s, e);
  }

  lemma SelectedSnoc(s: seq<Entry>, e: Entry, parameter: string)
    ensures Selected(s + [e], parameter) ==
      if Contains(e.name, parameter) then Selected(s, parameter) + [e] else Selected(s, parameter)
  {
    LastOf(s, e);
    assert Selected(s, parameter) + [] == Selected(s, parameter);
  }

  /** A year no record has has no records. */
  lemma {:induction false} OfAbsentYear(es: seq<Entry>, y: int)
    requires y !in Years(es)
    ensures OfYear(es, y) == []
  {
    if es != [] {
      assert Years(es[..|es| - 1]) == Years(es)[..|es| - 1];
      OfAbsentYear(es[..|es| - 1], y);
    }
  }

  /** A city no record has has no records. */
  lemma {:induction false} OfAbsentCity(es: seq<Entry>, c: string)
    requires c !in Areas(es)
    ensures OfCity(es, c) == []
  {
    if es != [] {
      assert Areas(es[..|es| - 1]) == Areas(es)[..|es| - 1];
      OfAbsentCity(es[..|es| - 1], c);
    }
  }

  /** One more record: the years read so far, in order and without repeats. */
  lemma YearsSnoc(es: seq<Entry>, e: Entry)
    ensures Years(es + [e]) == Years(es) + [e.year]
    ensures Dedup(Years(es + [e])) == if e.year in Years(es) then Dedup(Years(es)) else Dedup(Years(es)) + [e.year]
  {
    LastOf(es, e);
    assert Years(es + [e]) == Years(es) + [e.year];
    assert Years(es + [e])[..|es|] == Years(es);
  }

  /** One more record: the cities read so far, in order and without repeats. */
  lemma AreasSnoc(es: seq<Entry>, e: Entry)
    ensures Areas(es + [e]) == Areas(es) + [e.area]
    ensures Dedup(Areas(es + [e])) == if e.area in Areas(es) then Dedup(Areas(es)) else Dedup(Areas(es)) + [e.area]
  {
    LastOf(es, e);
    assert Areas(es + [e]) == Areas(es) + [e.area];
    assert Areas(es + [e])[..|es|] == Areas(es);
  }

  /** One more record joins the records of its own year and of no other. */
  lemma OfYearSnoc(es: seq<Entry>, e: Entry, y: int)
    ensures OfYear(es + [e], y) == if e.year == y then OfYear(es, y) + [e] else OfYear(es, y)
  {
    LastOf(es, e);
    assert OfYear(es, y) + [] == OfYear(es, y);
  }

  /** One more record joins the records of its own city and of no other. */
  lemma OfCitySnoc(es: seq<Entry>, e: Entry, c: string)
    ensures OfCity(es + [e], c) == if e.area == c then OfCity(es, c) + [e] else OfCity(es, c)
  {
    LastOf(es, e);
    assert OfCity(es, c) + [] == OfCity(es, c);
  }

  lemma UpdateTwice<K, V>(m: map<K, V>, k: K, a: V, b: V)
    ensures m[k := a][k := b] == m[k := b]
  {
  }

  lemma MapExt<K, V>(n: map<K, V>, m: map<K, V>)
    requires n.Keys == m.Keys
    requires forall k :: k in n ==> n[k] == m[k]
    ensures n == m
  {
  }

  /**
   * `salary_level_by_years` after one more record: a new year enters with `(salary, 1)`, a known
   * year's pair grows by the salary and by one.
   */
  lemma SalaryByYearStep(es: seq<Entry>, e: Entry)
    ensures var d := SalaryByYear(es);
      SalaryByYear(es + [e]) ==
        if e.year !in d.vals then Put(d, e.year, Stat(e.salary, 1))
        else Put(d, e.year, Add(d.vals[e.year], e.salary))
  {
    YearsSnoc(es, e);
    SalaryByYearMapStep(es, e);
  }

  lemma SalaryByYearMapStep(es: seq<Entry>, e: Entry)
    ensures var m := SalaryByYearMap(es);
      SalaryByYearMap(es + [e]) == m[e.year := if e.year in m then Add(m[e.year], e.salary) else Stat(e.salary, 1)]
  {
    var m, n := SalaryByYearMap(es), SalaryByYearMap(es + [e]);
    var w := m[e.year := if e.year in m then Add(m[e.year], e.salary) else Stat(e.salary, 1)];
    YearsSnoc(es, e);
    forall y | y in n ensures n[y] == w[y] {
      SalaryByYearAt(es, e, y);
    }
    MapExt(n, w);
  }

  lemma SalaryByYearAt(es: seq<Entry>, e: Entry, y: int)
    requires y in SalaryByYearMap(es + [e])
    ensures var m := SalaryByYearMap(es);
      SalaryByYearMap(es + [e])[y] == m[e.year := if e.year in m then Add(m[e.year], e.salary) else Stat(e.salary, 1)][y]
  {
    YearsSnoc(es, e);
    OfYearSnoc(es, e, y);
    if y == e.year {
      if y !in Years(es) {
        OfAbsentYear(es, y);
      }
      StatSnoc(OfYear(es, y), e);
    }
  }

  /** `count_vacancies_by_year` after one more record: a new year enters with 1, a known year's count grows by one. */
  lemma CountByYearStep(es: seq<Entry>, e: Entry)
    ensures var d := CountByYear(es);
      CountByYear(es + [e]) ==
        if e.year !in d.vals then Put<int, nat>(d, e.year, 1) else Put<int, nat>(d, e.year, d.vals[e.year] + 1)
  {
    YearsSnoc(es, e);
    CountByYearMapStep(es, e);
  }

  lemma CountByYearMapStep(es: seq<Entry>, e: Entry)
    ensures var m := CountByYearMap(es);
      CountByYearMap(es + [e]) == m[e.year := if e.year in m then m[e.year] + 1 else 1]
  {
    var m, n := CountByYearMap(es), CountByYearMap(es + [e]);
    var w := m[e.year := if e.year in m then m[e.year] + 1 else 1];
    YearsSnoc(es, e);
    forall y | y in n ensures n[y] == w[y] {
      CountByYearAt(es, e, y);
    }
    MapExt(n, w);
  }

  lemma CountByYearAt(es: seq<Entry>, e: Entry, y: int)
    requires y in CountByYearMap(es + [e])
    ensures var m := CountByYearMap(es);
      CountByYearMap(es + [e])[y] == m[e.year := if e.year in m then m[e.year] + 1 else 1][y]
  {
    YearsSnoc(es, e);
    OfYearSnoc(es, e, y);
    if y == e.year && y !in Years(es) {
      OfAbsentYear(es, y);
    }
  }

  /**
   * `selected_vacancy_salary_year` after one more record: a new year enters with `(0, 0)`, and
   * then the year's pair grows only when the name contains the search string.
   */
  lemma SelectedSalaryByYearStep(es: seq<Entry>, e: Entry, parameter: string)
    ensures var base := SetDefault(SelectedSalaryByYear(es, parameter), e.year, Stat(0.0, 0));
      SelectedSalaryByYear(es + [e], parameter) ==
        if Contains(e.name, parameter) then Put(base, e.year, Add(base.vals[e.year], e.salary)) else base
  {
    var d, y := SelectedSalaryByYear(es, parameter), e.year;
    var base := SetDefault(d, y, Stat(0.0, 0));
    YearsSnoc(es, e);
    SelectedSalaryByYearMapStep(es, e, parameter);
    SetDefaultForm(d, y, Stat(0.0, 0));
    PutAfterSetDefault(d, y, Stat(0.0, 0), Add(base.vals[y], e.salary));
    var n := SelectedSalaryByYear(es + [e], parameter);
    var hit := Contains(e.name, parameter);
    assert y in d.vals <==> y in Years(es);
    assert n.keys == KeysWith(d, y);
    assert n.vals == d.vals[y := SelectedSalaryAfter(d.vals, y, hit, e.salary)];
    if hit {
      assert SelectedSalaryAfter(d.vals, y, true, e.salary) == Add(base.vals[y], e.salary);
      assert n == Put(base, y, Add(base.vals[y], e.salary));
    } else {
      assert SelectedSalaryAfter(d.vals, y, false, e.salary) == base.vals[y];
      assert n == base;
    }
    assert SelectedSalaryByYear(es + [e], parameter) == if hit then Put(base, y, Add(base.vals[y], e.salary)) else base;
  }

  /** The selected pair of year `y` after one more record of that year, which matches (`hit`) or not. */
  function SelectedSalaryAfter(m: map<int, Stat>, y: int, hit: bool, salary: real): Stat {
    var start := if y in m then m[y] else Stat(0.0, 0);
    if hit then Add(start, salary) else start
  }

  lemma SelectedSalaryByYearMapStep(es: seq<Entry>, e: Entry, parameter: string)
    ensures var m := SelectedSalaryByYearMap(es, parameter);
      SelectedSalaryByYearMap(es + [e], parameter) ==
        m[e.year := SelectedSalaryAfter(m, e.year, Contains(e.name, parameter), e.salary)]
  {
    var m, n := SelectedSalaryByYearMap(es, parameter), SelectedSalaryByYearMap(es + [e], parameter);
    var w := m[e.year := SelectedSalaryAfter(m, e.year, Contains(e.name, parameter), e.salary)];
    YearsSnoc(es, e);
    forall y | y in n ensures n[y] == w[y] {
      SelectedSalaryByYearAt(es, e, parameter, y);
    }
    MapExt(n, w);
  }

  lemma SelectedSalaryByYearAt(es: seq<Entry>, e: Entry, parameter: string, y: int)
    requires y in SelectedSalaryByYearMap(es + [e], parameter)
    ensures var m := SelectedSalaryByYearMap(es, parameter);
      SelectedSalaryByYearMap(es + [e], parameter)[y] ==
        m[e.year := SelectedSalaryAfter(m, e.year, Contains(e.name, parameter), e.salary)][y]
  {
    var m, n := SelectedSalaryByYearMap(es, parameter), SelectedSalaryByYearMap(es + [e], parameter);
    YearsSnoc(es, e);
    OfYearSnoc(es, e, y);
    var before := OfYear(es, y);
    if y == e.year {
      var start := if y in m then m[y] else Stat(0.0, 0);
      if y !in Years(es) {
        OfAbsentYear(es, y);
        assert Selected(before, parameter) == [];
      }
      assert start == StatOf(Selected(before, parameter));
      SelectedSnoc(before, e, parameter);
      if Contains(e.name, parameter) {
        StatSnoc(Selected(before, parameter), e);
        assert n[y] == Add(start, e.salary);
      } else {
        assert n[y] == start;
      }
    } else {
      assert n[y] == m[y];
    }
  }

  /**
   * `selected_vacancy_year_count` after one more record: a new year enters with 0, and then the
   * year's count grows only when the name contains the search string.
   */
  lemma SelectedCountByYearStep(es: seq<Entry>, e: Entry, parameter: string)
    ensures var base := SetDefault<int, nat>(SelectedCountByYear(es, parameter), e.year, 0);
      SelectedCountByYear(es + [e], parameter) ==
        if Contains(e.name, parameter) then Put<int, nat>(base, e.year, base.vals[e.year] + 1) else base
  {
    var d, y := SelectedCountByYear(es, parameter), e.year;
    var base := SetDefault<int, nat>(d, y, 0);
    YearsSnoc(es, e);
    SelectedCountByYearMapStep(es, e, parameter);
    SetDefaultForm<int, nat>(d, y, 0);
    PutAfterSetDefault<int, nat>(d, y, 0, base.vals[y] + 1);
    var n := SelectedCountByYear(es + [e], parameter);
    var hit := Contains(e.name, parameter);
    assert y in d.vals <==> y in Years(es);
    assert n.keys == KeysWith(d, y);
    assert n.vals == d.vals[y := SelectedCountAfter(d.vals, y, hit)];
    if hit {
      assert SelectedCountAfter(d.vals, y, true) == base.vals[y] + 1;
      assert n == Put<int, nat>(base, y, base.vals[y] + 1);
    } else {
      assert SelectedCountAfter(d.vals, y, false) == base.vals[y];
      assert n == base;
    }
    assert SelectedCountByYear(es + [e], parameter) == if hit then Put<int, nat>(base, y, base.vals[y] + 1) else base;
  }

  /** The selected count of year `y` after one more record of that year, which matches (`hit`) or not. */
  function SelectedCountAfter(m: map<int, nat>, y: int, hit: bool): nat {
    var start := if y in m then m[y] else 0;
    if hit then start + 1 else start
  }

  lemma SelectedCountByYearMapStep(es: seq<Entry>, e: Entry, parameter: string)
    ensures var m := SelectedCountByYearMap(es, parameter);
      SelectedCountByYearMap(es + [e], parameter) == m[e.year := SelectedCountAfter(m, e.year, Contains(e.name, parameter))]
  {
    var m, n := SelectedCountByYearMap(es, parameter), SelectedCountByYearMap(es + [e], parameter);
    var w := m[e.year := SelectedCountAfter(m, e.year, Contains(e.name, parameter))];
    YearsSnoc(es, e);
    forall y | y in n ensures n[y] == w[y] {
      SelectedCountByYearAt(es, e, parameter, y);
    }
    MapExt(n, w);
  }

  lemma SelectedCountByYearAt(es: seq<Entry>, e: Entry, parameter: string, y: int)
    requires y in SelectedCountByYearMap(es + [e], parameter)
    ensures var m := SelectedCountByYearMap(es, parameter);
      SelectedCountByYearMap(es + [e], parameter)[y] == m[e.year := SelectedCountAfter(m, e.year, Contains(e.name, parameter))][y]
  {
    YearsSnoc(es, e);
    OfYearSnoc(es, e, y);
    if y == e.year {
      var before := OfYear(es, y);
      if y !in Years(es) {
        OfAbsentYear(es, y);
        assert Selected(before, parameter) == [];
      }
      SelectedSnoc(before, e, parameter);
    }
  }


  /** `salary_levels_by_city` after one more record. */
  lemma SalaryByCityStep(es: seq<Entry>, e: Entry)
    ensures var d := SalaryByCity(es);
      SalaryByCity(es + [e]) ==
        if e.area !in d.vals then Put(d, e.area, Stat(e.salary, 1))
        else Put(d, e.area, Add(d.vals[e.area], e.salary))
  {
    AreasSnoc(es, e);
    SalaryByCityMapStep(es, e);
  }

  lemma SalaryByCityMapStep(es: seq<Entry>, e: Entry)
    ensures var m := SalaryByCityMap(es);
      SalaryByCityMap(es + [e]) == m[e.area := if e.area in m then Add(m[e.area], e.salary) else Stat(e.salary, 1)]
  {
    var m, n := SalaryByCityMap(es), SalaryByCityMap(es + [e]);
    var w := m[e.area := if e.area in m then Add(m[e.area], e.salary) else Stat(e.salary, 1)];
    AreasSnoc(es, e);
    forall c | c in n ensures n[c] == w[c] {
      SalaryByCityAt(es, e, c);
    }
    MapExt(n, w);
  }

  lemma SalaryByCityAt(es: seq<Entry>, e: Entry, c: string)
    requires c in SalaryByCityMap(es + [e])
    ensures var m := SalaryByCityMap(es);
      SalaryByCityMap(es + [e])[c] == m[e.area := if e.area in m then Add(m[e.area], e.salary) else Stat(e.salary, 1)][c]
  {
    AreasSnoc(es, e);
    OfCitySnoc(es, e, c);
    if c == e.area {
      if c !in Areas(es) {
        OfAbsentCity(es, c);
      }
      StatSnoc(OfCity(es, c), e);
    }
  }

  /** `count_vacancies_by_city` after one more record. */
  lemma CountByCityStep(es: seq<Entry>, e: Entry)
    ensures var d := CountByCity(es);
      CountByCity(es + [e]) ==
        if e.area !in d.vals then Put<string, nat>(d, e.area, 1) else Put<string, nat>(d, e.area, d.vals[e.area] + 1)
  {
    AreasSnoc(es, e);
    CountByCityMapStep(es, e);
  }

  lemma CountByCityMapStep(es: seq<Entry>, e: Entry)
    ensures var m := CountByCityMap(es);
      CountByCityMap(es + [e]) == m[e.area := if e.area in m then m[e.area] + 1 else 1]
  {
    var m, n := CountByCityMap(es), CountByCityMap(es + [e]);
    var w := m[e.area := if e.area in m then m[e.area] + 1 else 1];
    AreasSnoc(es, e);
    forall c | c in n ensures n[c] == w[c] {
      CountByCityAt(es, e, c);
    }
    MapExt(n, w);
  }

  lemma CountByCityAt(es: seq<Entry>, e: Entry, c: string)
    requires c in CountByCityMap(es + [e])
    ensures var m := CountByCityMap(es);
      CountByCityMap(es + [e])[c] == m[e.area := if e.area in m then m[e.area] + 1 else 1][c]
  {
    AreasSnoc(es, e);
    OfCitySnoc(es, e, c);
    if c == e.area && c !in Areas(es) {
      OfAbsentCity(es, c);
    }
  }

  // What the tables say about each other.

  /** A record whose name matches is one of the records. */
  lemma {:induction false} SelectedFewer(s: seq<Entry>, parameter: string)
    ensures |Selected(s, parameter)| <= |s|
  {
    if s != [] {
      SelectedFewer(s[..|s| - 1], parameter);
    }
  }

  /**
   * The four year tables list the same years in the same order, each count table holds the count
   * of its pair table, a year's selected count never exceeds its count, and a year none of whose
   * records matches keeps the `(0, 0)` it entered with. The two city tables list the same cities
   * with the same counts.
   */
  lemma TablesAgree(es: seq<Entry>, parameter: string)
    ensures var t := TablesOf(es, parameter);
      && t.selectedSalaryByYear.keys == t.salaryByYear.keys
      && t.countByYear.keys == t.salaryByYear.keys
      && t.selectedCountByYear.keys == t.salaryByYear.keys
      && t.countByCity.keys == t.salaryByCity.keys
      && (forall y :: y in t.salaryByYear.vals ==>
            && t.countByYear.vals[y] == t.salaryByYear.vals[y].count
            && t.selectedCountByYear.vals[y] == t.selectedSalaryByYear.vals[y].count
            && t.selectedCountByYear.vals[y] <= t.countByYear.vals[y]
            && (t.selectedCountByYear.vals[y] == 0 ==> t.selectedSalaryByYear.vals[y] == Stat(0.0, 0)))
      && (forall c :: c in t.salaryByCity.vals ==> t.countByCity.vals[c] == t.salaryByCity.vals[c].count)
  {
    forall y | y in Years(es) {
      SelectedFewer(OfYear(es, y), parameter);
    }
  }

  /** The values of `m` at `keys`, added up in key order. */
  function SumAt<K>(keys: seq<K>, m: map<K, nat>): nat
    requires forall k :: k in keys ==> k in m
  {
    if keys == [] then 0 else SumAt(keys[..|keys| - 1], m) + m[keys[|keys| - 1]]
  }

  /** Changing the value of a key that is not listed changes no sum over the list. */
  lemma {:induction false} SumAtOther<K>(keys: seq<K>, m: map<K, nat>, k: K, v: nat)
    requires forall x :: x in keys ==> x in m
    requires k !in keys
    ensures SumAt(keys, m[k := v]) == SumAt(keys, m)
  {
    if keys != [] {
      SumAtOther(keys[..|keys| - 1], m, k, v);
    }
  }

  /** Raising the value of one listed key by one raises the sum over a list without repeats by one. */
  lemma {:induction false} SumAtBump<K>(keys: seq<K>, m: map<K, nat>, k: K)
    requires forall x :: x in keys ==> x in m
    requires Distinct(keys) && k in keys
    ensures SumAt(keys, m[k := m[k] + 1]) == SumAt(keys, m) + 1
  {
    var init, last := keys[..|keys| - 1], keys[|keys| - 1];
    assert keys == init + [last];
    if last == k {
      assert k !in init;
      SumAtOther(init, m, k, m[k] + 1);
    } else {
      assert k in init;
      SumAtBump(init, m, k);
    }
  }

  /** Every record is counted for exactly one city: the city counts add up to the number of records. */
  lemma {:induction false} CityCountsSum(es: seq<Entry>)
    ensures SumAt(CountByCity(es).keys, CountByCity(es).vals) == |es|
  {
    if es != [] {
      var init, e := es[..|es| - 1], es[|es| - 1];
      assert init + [e] == es;
      CityCountsSum(init);
      CountByCityStep(init, e);
      var before, after := CountByCity(init), CountByCity(es);
      if e.area in before.vals {
        assert after.keys == before.keys && after.vals == before.vals[e.area := before.vals[e.area] + 1];
        SumAtBump(before.keys, before.vals, e.area);
      } else {
        assert after.keys == before.keys + [e.area] && after.vals == before.vals[e.area := 1];
        assert after.keys[..|after.keys| - 1] == before.keys;
        SumAtOther(before.keys, before.vals, e.area, 1);
      }
    }
  }
}
