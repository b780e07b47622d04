# Vacancy statistics engine

A Dafny model of the aggregation core of a job-vacancy statistics tool. The tool loads a CSV
export of vacancies, cleans every record, converts each salary fork to roubles, and builds six
insertion-ordered tables in one pass over the records:

- average salary per year;
- average salary per year for vacancies whose name contains a search string;
- vacancy count per year;
- the matching vacancy count per year;
- average salary per city;
- city share of all vacancies.

It then averages the tables, drops cities with less than one percent of the records, and ranks
the city tables to their ten largest entries.

The classes `Vacancy`, `Salary`, `DataSet` and `InputConnect` are the same code in `statistics.py`
and `main.py`; the `main.py` copy has no docstrings. The files differ only outside these classes:
- `statistics.py` has `get_statistics`, which asks for its inputs with `input()` (statistics.py:498-519).
- `main.py` has `normalize_input_info` (main.py:346-349), `get_info` with fixed inputs
  (main.py:352-370), and a call to `get_info` at module level (main.py:373).

None of these is modelled. The model follows the shared classes once. The table below cites
`statistics.py` for most members and `main.py` for a few. The shared code sits at these places:

- `Vacancy.__init__`: statistics.py:28-51, main.py:14-24.
- `Salary.currency_to_rur` / `get_salary`: statistics.py:78-106, main.py:34-52.
- `DataSet.__init__` / `csv_reader`: statistics.py:117-139, main.py:56-70.
- `csv_filter`: statistics.py:142-172, main.py:82-108.
- `mini_csv_filter`: statistics.py:175-181, main.py:73-79.
- `info_formatter`: statistics.py:190-245, main.py:113-144.
- `info_finder`: statistics.py:247-283, main.py:146-177.
- `info_calculating`: statistics.py:286-322, main.py:180-210.

Module by module:

- Dicts: a Python `dict` is a list of keys in insertion order beside a `map`. Assigning a new
  key appends it; assigning an existing key keeps its place.
- Text: the string helpers, written out as scans: `find`, `in`, `split`/`join`, `strip`,
  `replace(' ', '')`, `int()` on digit strings, and `normalize_csv_file` with its two regular
  expressions.
- Salaries: the rate table, `currency_to_rur` and `get_salary`. An unknown currency is the
  source's `KeyError`, returned as `None`.
- DataSets: `Vacancy` is a class whose `salary` and `published_at` change in place. The module
  also holds the row filter of `csv_reader` and the builders `csv_filter` and `mini_csv_filter`,
  as loops that append new objects.
- Formatter: `info_formatter`, a loop that rewrites two fields of each vacancy in place.
- Accumulation: the six tables defined directly from the records, such as "the pair of all
  records of year y". There is one lemma per table that gives the change one more record makes.
- Finder: the loop of `info_finder`. The tables it holds after each vacancy equal the tables
  defined from the records read so far. It hands them to `info_calculating`.
- Calculating: `info_calculating`.
  - `int()` truncation of the averages.
  - Shares in integer ten-thousandths, which is what `:.4f` keeps. The 0.01 threshold is 100 units.
  - The inner `sort`, an insertion sort on an array.
  - The top-ten cut.

Facts about the code that the model keeps as written:

- Averages use `int()`, which truncates toward zero. On the non-negative sums that occur here
  this is the whole part of the quotient.
- An empty vacancy list gives empty tables and no division: the share map runs over an empty
  dict. `InfoFinder` therefore accepts the empty list.
- The docstring of the inner `sort` (statistics.py:293-298) calls it lexicographic. The code sorts
  the pairs by value with the comparator `-1 if x[1] <= y[1] else 1` (statistics.py:299-300). That
  comparator never answers "equal", so the order of equal values is not fixed. The model proves
  only "a rearrangement, ascending by value".
- The docstring of `formatter_string_number` (statistics.py:201-208) promises to remove the
  fractional separator. The code cuts the last two characters whenever a `.` occurs, so `"120.00"`
  becomes `"120."`, which `int()` then rejects. `Formatter.TwoDecimalsKeepPoint` states this. The
  model keeps the cut as written.

## Model

| member | source | states |
|---|---|---|
| `Salaries.RatesArePositive` | statistics.py:84-95 | every rate of the currency table is positive |
| `Salaries.CurrencyToRur` | statistics.py:78-98 | defined exactly when the currency is a key of the rate table (otherwise the `KeyError`); then both bounds, spaces removed and parsed, times that currency's rate |
| `Salaries.CurrencyToRurOrder` | statistics.py:97-98 | converted bounds are non-negative, and ordered as the integer bounds are (both directions) |
| `Salaries.GetSalary` | main.py:51-52 | defined exactly when the currency has a rate; the value lies between the two converted bounds at equal distance from each, and equals rate × (from + to) / 2 |
| `Salaries.ZeroBoundsZeroSalary` | statistics.py:100-106 | bounds "0" and "0" give salary 0 in every currency of the table |
| `Text.IndexOfFirst` | statistics.py:209 | a non-negative answer is an occurrence, and no occurrence comes before it; -1 means no occurrence at all |
| `Text.IndexOf` | statistics.py:209 | `find` answers -1 or a position where the pattern fits inside the text; `Text.IndexOfFirst` proves the answer is the first occurrence and -1 means none |
| `Text.IndexOfChar` | statistics.py:209 | `s.find('.') == -1` exactly when `.` is not a character of `s` |
| `Text.ContainsIffOccurs` | statistics.py:270 | `parameter in name` holds exactly when `parameter` occurs at some position of `name` |
| `Text.Split` | statistics.py:168 | `split` with a non-empty separator, here and at statistics.py:159, yields at least one piece; `Text.SplitJoin` and `Text.SplitAtFirst` say which pieces |
| `Text.JoinParts` | statistics.py:159 | `sep.join(parts)` starts with the first part, followed by the separator when more parts follow; with `Text.SplitJoin` this is the contract of `Text.Join` |
| `Text.SplitJoin` | statistics.py:159 | joining the split pieces with the same separator restores the text, and no piece contains the separator |
| `Text.SplitAtFirst` | statistics.py:159 | the cut is at the leftmost occurrence of the separator: the first piece is a prefix with no occurrence starting inside it, followed by the separator when there are more pieces; one piece means no occurrence at all |
| `Text.RemoveTags` | statistics.py:160 | deleting tags keeps the other characters in order, and a text without `<` is unchanged |
| `Text.RemoveTagsIsOnePass` | statistics.py:160 | the deletion is one pass: `"<<b>i>"` becomes `"<i>"` |
| `Text.RemoveTagsKeepsFirst` | statistics.py:160 | a text that does not open with a tag keeps its first character and goes on with the rest |
| `Text.RemoveTagsKeepsOpenBeforeOpen` | statistics.py:160 | a `<` directly followed by another `<` opens no tag and is kept |
| `Text.RemoveTagsStrayOpen` | statistics.py:160 | `"<<b>"` becomes `"<"`: the stray `<` stays and the tag after it goes |
| `Text.RemoveTagsPlain` | statistics.py:160 | text without `<` is copied unchanged, whatever follows it |
| `Text.RemoveTagsDeletesTag` | statistics.py:160 | a tag, `<` then text without brackets then `>`, is deleted whole |
| `Text.RemoveTagsWithoutClose` | statistics.py:160 | text without `>` holds no tag and is unchanged |
| `Text.StripLeftDropsSpaces` | statistics.py:162 | left stripping keeps a suffix that starts with a non-space and drops only whitespace |
| `Text.StripLeft` | statistics.py:162 | `lstrip()` never lengthens the text; `Text.StripLeftDropsSpaces` says what it drops |
| `Text.StripRightDropsSpaces` | statistics.py:162 | right stripping keeps a prefix that ends with a non-space and drops only whitespace |
| `Text.StripRight` | statistics.py:162 | `rstrip()` never lengthens the text; `Text.StripRightDropsSpaces` says what it drops |
| `Text.Strip` | statistics.py:162 | the stripped text has no whitespace at either end, no character that was not there, and keeps the absence of adjacent whitespace |
| `Text.CollapseRun` | statistics.py:161 | the scan behind `re.sub(r"\s+", " ", s)` never lengthens the text; `Text.CollapseRunShape`, `Text.CollapseRunAppend` and `Text.CollapseRunOfSpaces` describe its output |
| `Text.CollapseSpaces` | statistics.py:161 | after `re.sub(r"\s+", " ", s)` no two whitespace characters are adjacent and every whitespace is a plain space |
| `Text.CollapseKeepsText` | statistics.py:161 | collapsing whitespace keeps every non-whitespace character, in order |
| `Text.CollapseRunShape` | statistics.py:161 | the scan's output never has two adjacent whitespace characters, its only whitespace is the plain space, and it opens with whitespace only when the text does, outside a run |
| `Text.CollapseRunAppend` | statistics.py:161 | the scan of `a + x` is the scan of `a`, then the scan of `x` in the state `a` left it in |
| `Text.CollapseRunOfSpaces` | statistics.py:161 | a whitespace run yields one space when it opens a run, nothing when it continues one |
| `Text.CollapseSpacesRun` | statistics.py:161 | a maximal whitespace run between two texts becomes exactly one space, and the texts on either side are collapsed on their own |
| `Text.CollapseSpacesKeepsChar` | statistics.py:161 | a character that is not whitespace is copied as it is |
| `Text.NormalizeCell` | statistics.py:152-162 | a normalised cell has no line break, no whitespace at either end, and no two adjacent whitespace characters |
| `Text.RemoveSpaces` | statistics.py:97 | `replace(' ', '')` leaves no space, and keeps every other character as often as it occurs and in order, so a text without spaces is unchanged |
| `Text.ParseNat` | statistics.py:260 | `int()` of a digit string is below ten to the number of digits; `Text.ParseDecimal` and `Text.DecimalOfParse` make it the inverse of the decimal numeral in both directions |
| `Text.ParseDecimal` | statistics.py:260 | `int()` of the decimal numeral of `n` is `n` |
| `Text.DecimalOfParse` | statistics.py:260 | a numeral without leading zeros is `str(int(s))` |
| `Text.SentinelJoinKeepsLine` | statistics.py:159 | a cell without a line break comes out of the split and the sentinel join unchanged |
| `Dicts.Empty` | statistics.py:257 | `{}` has no keys and maps nothing |
| `Dicts.Put` | statistics.py:262 | `d[k] = v` maps `k` to `v`; an existing key keeps its place and a new key goes last |
| `Dicts.Items` | statistics.py:299 | `list(d.items())` has one pair per key; `Dicts.FromItemsOfItems` is its round trip |
| `Dicts.FromItemsKeys` | statistics.py:301 | `dict(pairs)` lists each key of the pairs once, where it first occurs |
| `Dicts.FromItemsLastWins` | statistics.py:301 | in `dict(pairs)` a key takes the value of its last pair |
| `Dicts.FromItemsDistinct` | statistics.py:301 | `dict(pairs)` of pairs with distinct keys lists those keys in order, each with its own value |
| `Dicts.FromItemsOfItems` | statistics.py:299-301 | rebuilding a dict from its own items gives the same dict |
| `Dicts.Restrict` | statistics.py:317-318 | filtering items by key keeps exactly the keys in the set, with their values, in their order |
| `DataSets.Vacancy.constructor` | statistics.py:28-51 | every field holds its argument |
| `DataSets.RowFilter` | statistics.py:138 | every row kept passes the filter, and no more rows are kept than given; `DataSets.RowFilterKeeps` says exactly which |
| `DataSets.RowFilterKeeps` | main.py:68-69 | exactly the rows with no empty cell and the header's width are kept, each as often as it occurs, in their order |
| `DataSets.CsvReader` | statistics.py:136-139 | the header is the first row and the data rows are the filtered rows after it: a row after the header is kept exactly when it has no empty cell and the header's width (with `DataSets.RowFilterKeeps`, as often as it occurs and in order) |
| `DataSets.NormalizedRowCells` | statistics.py:166 | cell k of the normalised row is cell k of the row, normalised |
| `DataSets.FullVacancy` | statistics.py:167-170 | a new vacancy whose fields are the normalised cells; the skills are cell 2 split at the line-break sentinel |
| `DataSets.CsvFilter` | statistics.py:164-172 | one new, distinct vacancy per row, in row order, built from that row's normalised cells |
| `DataSets.MiniCsvFilter` | main.py:73-79 | one new, distinct vacancy per row of the six-column export, in row order, with the absent fields `None` |
| `DataSets.DataSet.constructor` | statistics.py:117-124 | a header wider than six cells builds full vacancies from the filtered rows, otherwise six-column ones; one new vacancy per kept row, in order |
| `Formatter.CodesNameRates` | statistics.py:229-240 | every currency code names a currency of the rate table |
| `Formatter.CodesDistinct` | statistics.py:229-240 | no two codes name the same currency |
| `Formatter.RatesHaveCodes` | statistics.py:229-240 | every currency of the rate table has a code |
| `Formatter.FormatStringNumber` | statistics.py:209 | a number without `.` is unchanged; otherwise it loses its last two characters; the result is always a prefix of the input |
| `Formatter.WholeNumberKept` | statistics.py:209 | a whole number, written with or without `.0`, comes back as itself |
| `Formatter.TwoDecimalsKeepPoint` | statistics.py:209 | `d + ".00"` becomes `d + "."`, which is not a numeral |
| `Formatter.FormatPublishedAt` | statistics.py:227 | the first four characters (fewer for a shorter text), a prefix of the date |
| `Formatter.FormatPublishedAtIdempotent` | statistics.py:227 | cutting to the year twice is cutting once |
| `Formatter.PublishedAtIsYear` | statistics.py:227 | a date starting with four digits is cut to a numeral |
| `Formatter.FormatSalary` | statistics.py:211-221 | defined exactly when the code is known (otherwise the `KeyError`); the new salary's currency is `dic_currency[code]`, which has a rate, its gross flag is dropped, and each bound is `formatter_string_number` of the old one, so a prefix of it |
| `Formatter.FormattedSalaryConverts` | statistics.py:211-221 | whole-number bounds with a known code format to a salary whose bounds parse to the same numbers and that `get_salary` converts |
| `Formatter.FormattedSalaryRate` | statistics.py:211-221 | such a formatted salary is converted at the rate of the currency the code names: the midpoint of the two numbers times that rate |
| `Formatter.InfoFormatter` | main.py:139-144 | vacancies formatted in list order; the count returned is all of them exactly when every code is known, otherwise the index of the first unknown code; formatted ones hold the formatted salary and year; the rest are untouched |
| `Accumulation.SalaryByYearStep` | statistics.py:261-268 | one more record: a new year enters last with `(salary, 1)`; a known year's pair grows by the salary and by one |
| `Accumulation.CountByYearStep` | statistics.py:261-269 | one more record: a new year enters last with 1; a known year's count grows by one |
| `Accumulation.SelectedSalaryByYearStep` | statistics.py:264-272 | one more record: a new year enters with `(0, 0)` whether or not the name matches; the year's pair then grows only when the name contains the search string |
| `Accumulation.SelectedCountByYearStep` | main.py:156-166 | one more record: a new year enters with 0; the year's count then grows by one only when the name contains the search string |
| `Accumulation.SalaryByCityStep` | statistics.py:274-279 | one more record: a new city enters last with `(salary, 1)`; a known city's pair grows |
| `Accumulation.CountByCityStep` | statistics.py:274-280 | one more record: a new city enters last with 1; a known city's count grows by one |
| `Accumulation.TablesAgree` | statistics.py:258-280 | the four year tables list the same years in the same order; each count is its pair's count; a selected count never exceeds the year's count; an unmatched year keeps `(0, 0)`; the city tables list the same cities with matching counts |
| `Accumulation.CityCountsSum` | main.py:167-177 | the city counts add up to the number of records, which is the total handed on |
| `Finder.OpenYear` | statistics.py:261-269 | the year branch: the salary and count tables become those of the records read so far plus this one; a new year also enters both selected tables at zero |
| `Finder.SelectSalary` | statistics.py:270-272 | the name branch on the selected pairs: the table becomes that of the records read so far plus this one |
| `Finder.SelectCount` | main.py:162-166 | the name branch on the selected counts: the table becomes that of the records read so far plus this one |
| `Finder.CityStep` | statistics.py:274-280 | the city branch: both city tables become those of the records read so far plus this one |
| `Finder.AddEntry` | statistics.py:259-280 | the loop body: all six tables advance from the tables of the records read to those of one record more |
| `Finder.FillTables` | statistics.py:258-280 | stops with the `KeyError` exactly when some vacancy's currency has no rate; otherwise the six tables are those defined from all the records |
| `Finder.InfoFinder` | statistics.py:247-283 | fails exactly when some currency has no rate; otherwise returns the report of the tables of all the records, with the number of vacancies as the total |
| `Calculating.Trunc` | statistics.py:306-307 | `int()` of a float: the whole part, cut toward zero for either sign |
| `Calculating.Average` | statistics.py:306-307 | a non-negative sum averages to a non-negative whole number; `Calculating.AverageBounds` pins the value down |
| `Calculating.AverageBounds` | statistics.py:303-308 | for a pair with records, the average is the largest whole number whose `count` copies fit in the sum |
| `Calculating.TruncDivBounds` | statistics.py:306 | `int(x / c)` for positive `c` and non-negative `x` is the number of whole `c`-sized parts in `x` |
| `Calculating.AverageTable` | main.py:189-194 | averaging keeps each table's keys in order, and maps each key to the average of its own pair |
| `Calculating.UnmatchedYearAveragesZero` | statistics.py:306-307 | a year with no matching record averages to 0 in the selected table |
| `Calculating.ShareUnits` | statistics.py:309-311 | the share of a part of the records is at most 1.0000, and of all of them exactly 1.0000; `Calculating.ShareUnitsNearest` bounds the rounding |
| `Calculating.ShareUnitsNearest` | statistics.py:309-311 | the share kept is within half a ten-thousandth of the exact share `count / total` |
| `Calculating.ShareUnitsMonotone` | statistics.py:309-311 | a city with more records never has a smaller share |
| `Calculating.ThresholdMeaning` | statistics.py:312 | since the share is rounded before the comparison, a city passes exactly when its records are at least 0.995% of all |
| `Calculating.ShareTable` | statistics.py:309-311 | each city's share of all records, keys in order; a table with cities needs a positive total |
| `Calculating.Passing` | statistics.py:312 | exactly the cities with a share of at least 0.01 stay, with their shares, in order |
| `Calculating.SortPairs` | statistics.py:300 | the pairs end non-decreasing by value and are a rearrangement of the pairs before |
| `Calculating.Insert` | main.py:185-186 | one insertion step: one more prefix position sorted, the pairs rearranged only, and nothing after that position moved |
| `Calculating.PermutedItems` | statistics.py:301 | `dict()` of a rearrangement of a dict's items has the same entries, keyed in the rearranged order |
| `Calculating.SortByValue` | statistics.py:292-301 | `sort(d)`: the same entries, with the keys ascending by value |
| `Calculating.TopTen` | statistics.py:314 | the last ten keys (or all, if fewer), last first, with their values |
| `Calculating.TopTenOfSorted` | statistics.py:313-314 | the last ten of a table sorted ascending, reversed, are its top: at most ten entries, largest first, none left out larger than one kept |
| `Calculating.RankedTopKeepsAll` | statistics.py:319-320 | a table of at most ten entries keeps every one of them in its top |
| `Calculating.InfoCalculating` | statistics.py:286-322 | the report: year tables averaged or passed on, the ranked top ten city shares of at least 0.01, the ranked top salaries of exactly the kept cities, the total |
| `Calculating.ReportCitiesMatch` | statistics.py:317-320 | when every counted city has a salary pair, the report's two city tables hold the same cities |

## Left out

- File reading: `open` and `csv.reader` in `csv_reader` are not modelled. The loader takes the parsed rows as a `seq<seq<string>>`. The `os.stat` empty-file check, the `input()` prompts, `get_statistics`, `get_info` and `normalize_input_info` are not part of this model.
- The `Report` class: spreadsheet, chart and PDF rendering through external libraries. It is not part of this model.
- Percent strings (`f"{round(x * 100, 2)}%"`): the share table keeps ten-thousandths, which are percent in hundredths. Python's `round` on binary floats is not modelled.
- Floating point: salaries and sums are exact reals. `:.4f` is modelled as rounding the exact share half up, so Python's binary-float rounding at exact halves may differ.
- Regular expressions and Unicode: `\s` is the fixed whitespace set of `Text.IsSpace`, which is what `str.isspace` accepts. The csv module's quoting rules are not modelled.
- Finder.InfoFinder: requires digit-only salary bounds and year, as `int()` needs them. `int()`'s other accepted forms (signs, underscores, surrounding whitespace, non-ASCII digits) and its `ValueError` are not modelled. The `KeyError` of an unknown currency is modelled.
- Finder.FillTables: the same digit-only requirement as `Finder.InfoFinder`.
- DataSets.DataSet.constructor: requires a header row, because the source's `pop(0)` raises on an empty file. When rows are kept, it also requires a header of exactly six or at least twelve cells. A header of seven to eleven cells sends the rows to `csv_filter`, which reads cell 11 (statistics.py:166-170). A header of fewer than six sends them to `mini_csv_filter`, which reads cell 5 (statistics.py:123, 180). Both raise `IndexError`. These inputs are excluded, not modelled as errors.
- DataSets.CsvFilter: requires a header of at least twelve cells when there are rows, for the same `IndexError`.
- Calculating.InfoCalculating: requires a positive total when there are cities. `info_finder` always satisfies this; a direct call breaking it would raise `ZeroDivisionError` in the source.
- Text.Join and Dicts.FromItems: carry no ensures of their own. Their facts are the lemmas `Text.JoinParts`, `Text.SplitJoin`, `Dicts.FromItemsKeys`, `Dicts.FromItemsLastWins` and `Dicts.FromItemsDistinct`. Both functions are unfolded once per cell and per dict in the loader and the sort, and contracts on them make those proofs too large.
- Calculating.SortPairs: promises no order among equal values, because the source's comparator is inconsistent on ties.
- Formatter.InfoFormatter: returns how many vacancies it formatted, where the source raises `KeyError` at the first unknown code. The exception itself is not modelled.
