/**
 * `Vacancy` objects and the `DataSet` loader: the structural row filter of `csv_reader`,
 * and the two builders `csv_filter` (full export) and `mini_csv_filter` (six-column export).
 * The file itself is not read: the loader is given the rows that `csv.reader` yields.
 */
module DataSets {
  import opened Wrappers
  import opened Seqs
  import opened Text
  import opened Salaries

  /**
   * A vacancy. `info_formatter` rewrites `salary` and `publishedAt` in place; nothing writes the
   * other fields after construction, so they are constants here. The six-column export has no
   * description, skills, experience, premium flag or employer: those are `None`.
   */
  class Vacancy {
    const name: string
    const description: Option<string>
    const keySkills: Option<seq<string>>
    const experienceId: Option<string>
    const premium: Option<string>
    const employerName: Option<string>
    var salary: Salary
    const areaName: string
    var publishedAt: string

    constructor(name: string, description: Option<string>, keySkills: Option<seq<string>>,
                experienceId: Option<string>, premium: Option<string>, employerName: Option<string>,
                salary: Salary, areaName: string, publishedAt: string)
      ensures this.name == name && this.description == description && this.keySkills == keySkills
      ensures this.experienceId == experienceId && this.premium == premium
      ensures this.employerName == employerName && this.salary == salary
      ensures this.areaName == areaName && this.publishedAt == publishedAt
    {
      this.name := name;
      this.description := description;
      this.keySkills := keySkills;
      this.experienceId := experienceId;
      this.premium := premium;
      this.employerName := employerName;
      this.salary := salary;
      this.areaName := areaName;
      this.publishedAt := publishedAt;
    }
  }

  /** A data row is kept when none of its cells is empty and it has as many cells as the header. */
  predicate KeepRow(row: seq<string>, width: nat) {
    "" !in row && |row| == width
  }

  /** `filter(lambda data: '' not in data and len(data) == titleCount, reader)`. */
  function RowFilter(rows: seq<seq<string>>, width: nat): (r: seq<seq<string>>)
    ensures |r| <= |rows|
    ensures forall i :: 0 <= i < |r| ==> KeepRow(r[i], width)
  {
    if rows == [] then []
    else if KeepRow(rows[0], width) then [rows[0]] + RowFilter(rows[1..], width)
    else RowFilter(rows[1..], width)
  }

  /** Exactly the rows that pass are kept, each as often as it occurs, in their original order. */
  lemma {:induction false} RowFilterKeeps(rows: seq<seq<string>>, width: nat)
    ensures var r := RowFilter(rows, width);
      && (forall row :: multiset(r)[row] == if KeepRow(row, width) then multiset(rows)[row] else 0)
      && IsSubsequence(r, rows)
  {
    if rows != [] {
      var rest := RowFilter(rows[1..], width);
      RowFilterKeeps(rows[1..], width);
      assert rows == [rows[0]] + rows[1..];
      if KeepRow(rows[0], width) {
        assert ([rows[0]] + rest)[1..] == rest;
      }
    }
  }

  /** `csv_reader` after the file is parsed: the first row is the header, the rest is filtered. */
  function CsvReader(reader: seq<seq<string>>): (r: (seq<string>, seq<seq<string>>))
    requires |reader| >= 1
    ensures r.0 == reader[0]
    ensures r.1 == RowFilter(reader[1..], |reader[0]|)
    ensures forall row :: row in r.1 ==> KeepRow(row, |r.0|) && row in reader[1..]
    ensures forall row :: row in reader[1..] && KeepRow(row, |r.0|) ==> row in r.1
  {
    var info := RowFilter(reader[1..], |reader[0]|);
    RowFilterKeeps(reader[1..], |reader[0]|);
    forall row | row in info ensures KeepRow(row, |reader[0]|) && row in reader[1..] {
      assert multiset(info)[row] > 0;
    }
    forall row | row in reader[1..] && KeepRow(row, |reader[0]|) ensures row in info {
      assert multiset(reader[1..])[row] > 0;
    }
    (reader[0], info)
  }

  /** The fields of a vacancy as a value. */
  datatype VacancyData = VacancyData(
    name: string, description: Option<string>, keySkills: Option<seq<string>>,
    experienceId: Option<string>, premium: Option<string>, employerName: Option<string>,
    salary: Salary, areaName: string, publishedAt: string)

  function DataOf(v: Vacancy): VacancyData
    reads v
  {
    VacancyData(v.name, v.description, v.keySkills, v.experienceId, v.premium, v.employerName,
                v.salary, v.areaName, v.publishedAt)
  }

  /** `list(map(normalize_csv_file, row[:n]))`: the first `n` cells of a row, each normalised. */
  function NormalizedRow(row: seq<string>, n: nat): (r: seq<string>)
    requires n <= |row|
    ensures |r| == n
  {
    if n == 0 then [] else NormalizedRow(row, n - 1) + [NormalizeCell(row[n - 1])]
  }

  /** Cell `k` of the normalised row is cell `k` of the row, normalised: no cell moves or is skipped. */
  lemma {:induction false} NormalizedRowCells(row: seq<string>, n: nat)
    requires n <= |row|
    ensures forall k :: 0 <= k < n ==> NormalizedRow(row, n)[k] == NormalizeCell(row[k])
  {
    if n > 0 {
      var init := NormalizedRow(row, n - 1);
      NormalizedRowCells(row, n - 1);
      assert NormalizedRow(row, n) == init + [NormalizeCell(row[n - 1])];
      forall k | 0 <= k < n - 1 ensures NormalizedRow(row, n)[k] == NormalizeCell(row[k]) {
        assert (init + [NormalizeCell(row[n - 1])])[k] == init[k];
      }
    }
  }

  /**
   * What `csv_filter` builds from the normalised cells of one row of the full export; the skills
   * cell is cut at the sentinel that stands for its line breaks.
   */
  function FullRowData(cells: seq<string>): VacancyData
    requires |cells| >= 12
  {
    VacancyData(cells[0], Some(cells[1]), Some(Split(cells[2], NewlineSentinel)),
                Some(cells[3]), Some(cells[4]), Some(cells[5]),
                Salary(cells[6], cells[7], Some(cells[8]), cells[9]), cells[10], cells[11])
  }

  /** What `csv_filter` builds from row `row` under a header of `n` cells. */
  function FullRowDataOf(row: seq<string>, n: nat): VacancyData
    requires 12 <= n <= |row|
  {
    FullRowData(NormalizedRow(row, n))
  }

  /** What `mini_csv_filter` builds from one row of the six-column export: cells taken as they are. */
  function MiniRowData(row: seq<string>): VacancyData
    requires |row| >= 6
  {
    VacancyData(row[0], None, None, None, None, None, Salary(row[1], row[2], None, row[3]), row[4], row[5])
  }

  /** The body of `csv_filter`'s loop: the vacancy built from the normalised cells of one row. */
  method FullVacancy(infoList: seq<string>) returns (vacancy: Vacancy)
    requires |infoList| >= 12
    ensures fresh(vacancy) && DataOf(vacancy) == FullRowData(infoList)
  {
    var salary := Salary(infoList[6], infoList[7], Some(infoList[8]), infoList[9]);
    var keySkills := Split(infoList[2], NewlineSentinel);
    vacancy := new Vacancy(infoList[0], Some(infoList[1]), Some(keySkills), Some(infoList[3]),
                           Some(infoList[4]), Some(infoList[5]), salary, infoList[10], infoList[11]);
  }

  /** `csv_filter`: one new vacancy per row, in row order. */
  method CsvFilter(title: seq<string>, info: seq<seq<string>>) returns (vs: seq<Vacancy>)
    requires info != [] ==> 12 <= |title|
    requires forall row :: row in info ==> |row| >= |title|
    ensures |vs| == |info| && Distinct(vs)
    ensures forall i :: 0 <= i < |vs| ==> fresh(vs[i]) && 12 <= |title| <= |info[i]| && DataOf(vs[i]) == FullRowDataOf(info[i], |title|)
  {
    vs := [];
    var i := 0;
    while i < |info|
      invariant 0 <= i <= |info| && |vs| == i && Distinct(vs)
      invariant forall j :: 0 <= j < i ==> fresh(vs[j])
      invariant forall j :: 0 <= j < i ==> 12 <= |title| <= |info[j]| && DataOf(vs[j]) == FullRowDataOf(info[j], |title|)
    {
      var row := info[i];
      assert row in info;
      var vacancy := FullVacancy(NormalizedRow(row, |title|));
      assert vacancy !in vs;
      DistinctSnoc(vs, vacancy);
      vs := vs + [vacancy];
      i := i + 1;
    }
  }

  /** `mini_csv_filter`: one new vacancy per row of the six-column export, in row order. */
  method MiniCsvFilter(info: seq<seq<string>>) returns (vs: seq<Vacancy>)
    requires forall row :: row in info ==> |row| >= 6
    ensures |vs| == |info| && Distinct(vs)
    ensures forall i :: 0 <= i < |vs| ==> fresh(vs[i]) && |info[i]| >= 6 && DataOf(vs[i]) == MiniRowData(info[i])
  {
    vs := [];
    var i := 0;
    while i < |info|
      invariant 0 <= i <= |info| && |vs| == i && Distinct(vs)
      invariant forall j :: 0 <= j < i ==> fresh(vs[j]) && |info[j]| >= 6 && DataOf(vs[j]) == MiniRowData(info[j])
    {
      var item := info[i];
      assert item in info;
      var vacancy := new Vacancy(item[0], None, None, None, None, None,
                                 Salary(item[1], item[2], None, item[3]), item[4], item[5]);
      assert DataOf(vacancy) == MiniRowData(item);
      vs := vs + [vacancy];
      i := i + 1;
    }
  }

  /**
   * The loaded data set. A header wider than six cells selects the full export; the source
   * indexes cells 0-11 of a full row and 0-5 of a short one, so a non-empty body needs a header
   * of exactly six or of at least twelve cells.
   */
  class DataSet {
    var vacanciesObjects: seq<Vacancy>

    constructor(reader: seq<seq<string>>)
      requires |reader| >= 1
      requires RowFilter(reader[1..], |reader[0]|) != [] ==> |reader[0]| == 6 || 12 <= |reader[0]|
      ensures var info := RowFilter(reader[1..], |reader[0]|);
        && |vacanciesObjects| == |info| && Distinct(vacanciesObjects)
        && (forall i :: 0 <= i < |info| ==> fresh(vacanciesObjects[i]))
        && (6 < |reader[0]| ==> forall i :: 0 <= i < |info| ==> 12 <= |reader[0]| <= |info[i]| && DataOf(vacanciesObjects[i]) == FullRowDataOf(info[i], |reader[0]|))
        && (|reader[0]| <= 6 ==> forall i :: 0 <= i < |info| ==> |info[i]| >= 6 && DataOf(vacanciesObjects[i]) == MiniRowData(info[i]))
    {
      var read := CsvReader(reader);
      var headers, info := read.0, read.1;
      var vacancies;
      if |headers| > 6 {
        vacancies := CsvFilter(headers, info);
      } else {
        vacancies := MiniCsvFilter(info);
      }
      vacanciesObjects := vacancies;
    }
  }
}
