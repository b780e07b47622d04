/**
 * `InputConnect.info_calculating`: the six tables of the pass become the report. Pairs are
 * averaged with `int()`, city counts become shares of all records (in ten-thousandths, as
 * `:.4f` leaves them), shares under one percent are dropped, and the city tables are ranked and
 * cut to their ten largest entries.
 */
module Calculating {
  import opened Seqs
  import opened Dicts
  import opened Accumulation

  /** Python's `int()` on a float: the integer part, cut toward zero. */
  function Trunc(x: real): (r: int)
    ensures 0.0 <= x ==> r as real <= x < r as real + 1.0
    ensures x < 0.0 ==> r as real - 1.0 < x <= r as real
  {
    if x >= 0.0 then x.Floor else -((-x).Floor)
  }

  /** `int(s / c)` for a pair with records, `int(s)` for the `(0, 0)` of a year nothing matched. */
  function Average(s: Stat): (r: int)
    ensures s.sum >= 0.0 ==> r >= 0
  {
    if s.count != 0 then Trunc(s.sum / s.count as real) else Trunc(s.sum)
  }

  /** The average of a pair of non-negative salaries is the largest whole number whose `count` copies fit in the sum. */
  lemma AverageBounds(s: Stat)
    requires s.count > 0 && s.sum >= 0.0
    ensures Average(s) >= 0
    ensures Average(s) as real * s.count as real <= s.sum < (Average(s) + 1) as real * s.count as real
  {
    TruncDivBounds(s.sum, s.count as real);
  }

  /** `int(x / c)` for positive `c` and non-negative `x`: whole `c`-sized parts of `x`. */
  lemma TruncDivBounds(x: real, c: real)
    requires c > 0.0 && x >= 0.0
    ensures Trunc(x / c) >= 0
    ensures Trunc(x / c) as real * c <= x < (Trunc(x / c) + 1) as real * c
  {
    var q := x / c;
    DivideBack(x, c, q);
    var t := Trunc(q);
    ScaleBetween(t as real, (t + 1) as real, q, c, x);
  }

  /** Division by a positive number is undone by multiplying back, and keeps the sign. */
  lemma DivideBack(x: real, c: real, q: real)
    requires c > 0.0 && x >= 0.0 && q == x / c
    ensures q * c == x && q >= 0.0
  {
  }

  /** A value between `lo` and `hi`, scaled by a positive `c`, stays between their scaled values. */
  lemma ScaleBetween(lo: real, hi: real, q: real, c: real, x: real)
    requires c > 0.0 && lo <= q < hi && q * c == x
    ensures lo * c <= x < hi * c
  {
    assert x - lo * c == (q - lo) * c;
    assert hi * c - x == (hi - q) * c;
  }

  /** Every pair of `d` averaged; the keys and their order are kept. */
  function AverageTable<K(!new)>(d: Dict<K, Stat>): (r: Dict<K, int>)
    ensures r.keys == d.keys
    ensures forall k :: k in r.vals ==> r.vals[k] == Average(d.vals[k])
  {
    RawDict(d.keys, map k | k in d.vals :: Average(d.vals[k]))
  }

  /** A year none of whose records has a matching name averages to 0 in the selected table. */
  lemma UnmatchedYearAveragesZero(es: seq<Entry>, parameter: string, y: int)
    requires y in SelectedCountByYear(es, parameter).vals
    requires SelectedCountByYear(es, parameter).vals[y] == 0
    ensures AverageTable(SelectedSalaryByYear(es, parameter)).vals[y] == 0
  {
    TablesAgree(es, parameter);
  }

  /**
   * `float(f"{c / n:.4f}")` in ten-thousandths: `c / n` rounded to the nearest ten-thousandth,
   * an exact half rounded up.
   */
  function ShareUnits(c: nat, n: nat): (r: nat)
    requires n > 0
    ensures c <= n ==> r <= 10000
    ensures c == n ==> r == 10000
  {
    var a, b := 20000 * c + n, 2 * n;
    QuotientBounds(a, b, 10000);
    a / b
  }

  /** The quotient is at most `m` below `(m + 1)` times the divisor, and at least `m` from `m` times it on. */
  lemma QuotientBounds(a: nat, b: nat, m: nat)
    requires b > 0
    ensures a < b * (m + 1) ==> a / b <= m
    ensures b * m <= a ==> m <= a / b
  {
    var u := a / b;
    assert a == b * u + a % b && 0 <= a % b < b;
    if a < b * (m + 1) {
      MulCancel(u, m + 1, b);
    }
    if b * m <= a {
      MulCancel(m, u + 1, b);
    }
  }

  /** The rounded share is within half a ten-thousandth of the exact share `c / n`. */
  lemma ShareUnitsNearest(c: nat, n: nat)
    requires n > 0
    ensures 20000 * c - n < 2 * n * ShareUnits(c, n) <= 20000 * c + n
  {
    var a, b := 20000 * c + n, 2 * n;
    var u := a / b;
    assert a == b * u + a % b && 0 <= a % b < b;
  }

  /** More records never give a smaller share. */
  lemma ShareUnitsMonotone(c: nat, d: nat, n: nat)
    requires n > 0 && c <= d
    ensures ShareUnits(c, n) <= ShareUnits(d, n)
  {
    var a, a', b := 20000 * c + n, 20000 * d + n, 2 * n;
    var u, u' := a / b, a' / b;
    assert a == b * u + a % b && 0 <= a % b < b;
    assert a' == b * u' + a' % b && 0 <= a' % b < b;
    assert b * u < b * (u' + 1);
    MulCancel(u, u' + 1, b);
  }

  lemma MulCancel(x: int, y: int, b: int)
    requires b > 0 && b * x < b * y
    ensures x < y
  {
    if x >= y {
      assert b * x - b * y == b * (x - y);
      MultiplyNat(x - y, b);
    }
  }

  lemma MultiplyNat(x: nat, y: nat)
    ensures x * y >= 0
  {
  }

  /** The smallest share `info_calculating` keeps, 0.01, in ten-thousandths. */
  const ShareThreshold := 100

  /** Since the share is rounded before it is compared, a city passes from 0.995% of the records on. */
  lemma ThresholdMeaning(c: nat, n: nat)
    requires n > 0
    ensures ShareUnits(c, n) >= ShareThreshold <==> 20000 * c >= 199 * n
  {
    ShareUnitsNearest(c, n);
    var u := ShareUnits(c, n);
    if u >= 100 {
      MultiplyNat(u - 100, 2 * n);
      assert 2 * n * u >= 200 * n;
    } else {
      MultiplyNat(99 - u, 2 * n);
      assert 2 * n * u <= 198 * n;
    }
  }

  /** Each city's count as its share of all `total` records; a table with cities needs records. */
  function ShareTable<K(!new)>(d: Dict<K, nat>, total: nat): (r: Dict<K, int>)
    requires total > 0 || d.keys == []
    ensures r.keys == d.keys
    ensures forall k :: k in r.vals ==> total > 0 && r.vals[k] == ShareUnits(d.vals[k], total)
  {
    if total == 0 then RawDict(d.keys, map[])
    else RawDict(d.keys, map k | k in d.vals :: ShareUnits(d.vals[k], total) as int)
  }

  /** `dict(filter(lambda p: p[1] >= 0.01, d.items()))`: exactly the shares of at least one percent. */
  function Passing<K(!new)>(d: Dict<K, int>): (r: Dict<K, int>)
    ensures forall k :: k in r.vals <==> k in d.vals && d.vals[k] >= ShareThreshold
    ensures forall k :: k in r.vals ==> r.vals[k] == d.vals[k]
    ensures IsSubsequence(r.keys, d.keys)
  {
    Restrict(d, set k | k in d.vals && d.vals[k] >= ShareThreshold)
  }

  predicate SortedByValue<K>(s: seq<(K, int)>) {
    forall i, j :: 0 <= i < j < |s| ==> s[i].1 <= s[j].1
  }

  /**
   * `dict_pairs.sort(...)`: the pairs in place, ascending by value. The comparator of the source
   * never answers "equal", so no order among equal values is promised.
   */
  method SortPairs<K>(a: array<(K, int)>)
    modifies a
    ensures SortedByValue(a[..])
    ensures multiset(a[..]) == old(multiset(a[..]))
  {
    var i := 0;
    while i < a.Length
      invariant 0 <= i <= a.Length
      invariant SortedByValue(a[..i])
      invariant multiset(a[..]) == old(multiset(a[..]))
    {
      Insert(a, i);
      i := i + 1;
    }
    assert a[..] == a[..a.Length];
  }

  /** One step of insertion: the pair at `i` moves left past every larger value before it. */
  method Insert<K>(a: array<(K, int)>, i: int)
    requires 0 <= i < a.Length && SortedByValue(a[..i])
    modifies a
    ensures SortedByValue(a[..i + 1])
    ensures multiset(a[..]) == old(multiset(a[..]))
    ensures a[i + 1..] == old(a[i + 1..])
  {
    var j := i;
    while j > 0 && a[j - 1].1 > a[j].1
      invariant 0 <= j <= i
      invariant forall k :: i < k < a.Length ==> a[k] == old(a[k])
      invariant forall p, q :: 0 <= p < q <= i && p != j && q != j ==> a[p].1 <= a[q].1
      invariant forall q :: j < q <= i ==> a[j].1 <= a[q].1
      invariant multiset(a[..]) == old(multiset(a[..]))
    {
      Swap(a, j);
      j := j - 1;
    }
  }

  /** The pairs at `j - 1` and `j` trade places; nothing else moves. */
  method Swap<K>(a: array<(K, int)>, j: int)
    requires 0 < j < a.Length
    modifies a
    ensures a[j - 1] == old(a[j]) && a[j] == old(a[j - 1])
    ensures forall k :: 0 <= k < a.Length && k != j - 1 && k != j ==> a[k] == old(a[k])
    ensures multiset(a[..]) == old(multiset(a[..]))
  {
    a[j - 1], a[j] := a[j], a[j - 1];
  }

  /** The items of a dict are pairs without repeats, and a pair is an item exactly when it holds a key and its value. */
  lemma ItemsFacts<K(!new), V>(d: Dict<K, V>)
    ensures Distinct(Items(d))
    ensures forall p :: p in Items(d) <==> p.0 in d.vals && p.1 == d.vals[p.0]
  {
    var items := Items(d);
    forall i, j | 0 <= i < j < |items| ensures items[i] != items[j] {
      assert items[i].0 == d.keys[i] && items[j].0 == d.keys[j];
    }
    forall p: (K, V) | p.0 in d.vals && p.1 == d.vals[p.0] ensures p in items {
      var m :| 0 <= m < |d.keys| && d.keys[m] == p.0;
      assert items[m] == p;
    }
  }

  /** A rearrangement of the items of a dict has distinct keys, each with its value in the dict. */
  lemma PermutedItemsKeys<K(!new), V>(d: Dict<K, V>, ps: seq<(K, V)>)
    requires multiset(ps) == multiset(Items(d))
    ensures |ps| == |d.keys| && Distinct(Firsts(ps))
    ensures forall p :: p in ps <==> p.0 in d.vals && p.1 == d.vals[p.0]
  {
    ItemsFacts(d);
    DistinctPermutation(ps, Items(d));
    assert |ps| == |multiset(ps)| == |Items(d)|;
    forall p: (K, V) ensures p in ps <==> p in Items(d) {
      assert p in ps <==> p in multiset(ps);
    }
    var firsts := Firsts(ps);
    forall i, j | 0 <= i < j < |ps| ensures firsts[i] != firsts[j] {
      assert ps[i] in ps && ps[j] in ps;
    }
  }

  /** `dict(ps)` for a rearrangement `ps` of the items of `d`: the keys of `ps` in order, and the values of `d`. */
  lemma PermutedItems<K(!new), V>(d: Dict<K, V>, ps: seq<(K, V)>)
    requires multiset(ps) == multiset(Items(d))
    ensures Distinct(Firsts(ps)) && |ps| == |d.keys|
    ensures FromItems(ps).keys == Firsts(ps) && FromItems(ps).vals == d.vals
  {
    PermutedItemsKeys(d, ps);
    FromItemsDistinct(ps);
    var r := FromItems(ps);
    forall k | k in d.vals ensures k in r.vals && r.vals[k] == d.vals[k] {
      PermutedItemsHas(d, ps, k);
    }
    forall k | k in r.vals ensures k in d.vals {
      PermutedItemsOnly(d, ps, k);
    }
    MapExt(r.vals, d.vals);
  }

  /** Every key of `d` is in `dict(ps)`, with its value in `d`. */
  lemma PermutedItemsHas<K(!new), V>(d: Dict<K, V>, ps: seq<(K, V)>, k: K)
    requires multiset(ps) == multiset(Items(d)) && k in d.vals
    ensures k in FromItems(ps).vals && FromItems(ps).vals[k] == d.vals[k]
  {
    PermutedItemsKeys(d, ps);
    FromItemsDistinct(ps);
    assert (k, d.vals[k]) in ps;
    var i :| 0 <= i < |ps| && ps[i] == (k, d.vals[k]);
    assert Firsts(ps)[i] == k;
  }

  /** Every key of `dict(ps)` is a key of `d`. */
  lemma PermutedItemsOnly<K(!new), V>(d: Dict<K, V>, ps: seq<(K, V)>, k: K)
    requires multiset(ps) == multiset(Items(d)) && k in FromItems(ps).vals
    ensures k in d.vals
  {
    PermutedItemsKeys(d, ps);
    FromItemsDistinct(ps);
    var firsts := Firsts(ps);
    var i :| 0 <= i < |firsts| && firsts[i] == k;
    assert ps[i] in ps;
  }

  /** `sort(dictionary)`: the same entries, with the keys ascending by value. */
  method SortByValue<K(!new)>(d: Dict<K, int>) returns (r: Dict<K, int>)
    ensures r.vals == d.vals
    ensures |r.keys| == |d.keys| && forall k :: k in r.keys <==> k in d.keys
    ensures forall i, j :: 0 <= i < j < |r.keys| ==> r.vals[r.keys[i]] <= r.vals[r.keys[j]]
  {
    var pairs := Items(d);
    var a := new (K, int)[|pairs|](i requires 0 <= i < |pairs| => pairs[i]);
    assert a[..] == pairs;
    SortPairs(a);
    var sorted := a[..];
    PermutedItems(d, sorted);
    r := FromItems(sorted);
    forall i, j | 0 <= i < j < |r.keys| ensures r.vals[r.keys[i]] <= r.vals[r.keys[j]] {
      FromItemsDistinct(sorted);
    }
  }

  /** `{k: d[k] for k in list(d)[-10:][::-1]}`: the last ten keys, last first. */
  function TopTen<K(!new), V>(d: Dict<K, V>): (r: Dict<K, V>)
    ensures |r.keys| == Min(10, |d.keys|)
    ensures forall i :: 0 <= i < |r.keys| ==> r.keys[i] == d.keys[|d.keys| - 1 - i]
    ensures forall k :: k in r.vals ==> k in d.vals && r.vals[k] == d.vals[k]
  {
    var tail := d.keys[|d.keys| - Min(10, |d.keys|)..];
    ReverseElements(tail);
    RawDict(Reverse(tail), map k | k in tail :: d.vals[k])
  }

  /**
   * `r` is the top of `d`: as many entries as `d` has, up to ten, with the values they have in
   * `d`, largest first, and no entry left out of `r` is larger than one in it.
   */
  ghost predicate RankedTop<K(!new)>(r: Dict<K, int>, d: Dict<K, int>) {
    && |r.keys| == Min(10, |d.keys|)
    && (forall k :: k in r.vals ==> k in d.vals && r.vals[k] == d.vals[k])
    && (forall i, j :: 0 <= i < j < |r.keys| ==> r.vals[r.keys[i]] >= r.vals[r.keys[j]])
    && (forall k, k' :: k in d.vals && k !in r.vals && k' in r.vals ==> d.vals[k] <= r.vals[k'])
  }

  /** The last ten keys of a dict sorted ascending by value, reversed, are its top ten. */
  lemma TopTenOfSorted<K(!new)>(s: Dict<K, int>, d: Dict<K, int>)
    requires s.vals == d.vals && |s.keys| == |d.keys|
    requires forall i, j :: 0 <= i < j < |s.keys| ==> s.vals[s.keys[i]] <= s.vals[s.keys[j]]
    ensures RankedTop(TopTen(s), d)
  {
    var r, n := TopTen(s), |s.keys|;
    var m := Min(10, n);
    forall k, k' | k in d.vals && k !in r.vals && k' in r.vals ensures d.vals[k] <= r.vals[k'] {
      var p :| 0 <= p < n && s.keys[p] == k;
      var q :| 0 <= q < |r.keys| && r.keys[q] == k';
    }
  }

  /** A table of at most ten entries is ranked whole: its top holds every one of its keys. */
  lemma RankedTopKeepsAll<K(!new)>(r: Dict<K, int>, d: Dict<K, int>)
    requires RankedTop(r, d) && |d.keys| <= 10
    ensures forall k :: k in r.vals <==> k in d.vals
  {
    CardKeys(r);
    CardKeys(d);
    SubsetSameCard(r.vals.Keys, d.vals.Keys);
  }

  /** What `info_calculating` returns, in its order; the city shares are in ten-thousandths. */
  datatype Report = Report(
    salaryByYear: Dict<int, int>,
    selectedSalaryByYear: Dict<int, int>,
    countByYear: Dict<int, nat>,
    selectedCountByYear: Dict<int, nat>,
    salaryByCity: Dict<string, int>,
    shareByCity: Dict<string, int>,
    total: nat)

  /**
   * `rep` is the report of tables `t` over `total` records: the year tables averaged or passed on,
   * the top ten city shares of at least one percent, and the top average salaries of exactly the
   * cities kept in the share table.
   */
  ghost predicate IsReport(rep: Report, t: Tables, total: nat) {
    && (total > 0 || t.countByCity.keys == [])
    && rep.salaryByYear == AverageTable(t.salaryByYear)
    && rep.selectedSalaryByYear == AverageTable(t.selectedSalaryByYear)
    && rep.countByYear == t.countByYear
    && rep.selectedCountByYear == t.selectedCountByYear
    && RankedTop(rep.shareByCity, Passing(ShareTable(t.countByCity, total)))
    && RankedTop(rep.salaryByCity, Restrict(AverageTable(t.salaryByCity), rep.shareByCity.vals.Keys))
    && rep.total == total
  }

  /** `info_calculating`. */
  method InfoCalculating(t: Tables, total: nat) returns (rep: Report)
    requires total > 0 || t.countByCity.keys == []
    ensures IsReport(rep, t, total)
  {
    var salaryByYear := AverageTable(t.salaryByYear);
    var selectedSalaryByYear := AverageTable(t.selectedSalaryByYear);
    var salaryByCity := AverageTable(t.salaryByCity);
    var passing := Passing(ShareTable(t.countByCity, total));
    var sortedShares := SortByValue(passing);
    TopTenOfSorted(sortedShares, passing);
    var shareByCity := TopTen(sortedShares);
    var kept := Restrict(salaryByCity, shareByCity.vals.Keys);
    var sortedSalaries := SortByValue(kept);
    TopTenOfSorted(sortedSalaries, kept);
    rep := Report(salaryByYear, selectedSalaryByYear, t.countByYear, t.selectedCountByYear,
                  TopTen(sortedSalaries), shareByCity, total);
  }

  /**
   * When every city of the count table has a salary pair, as after the pass, the two city tables
   * of the report hold the same cities.
   */
  lemma ReportCitiesMatch(rep: Report, t: Tables, total: nat)
    requires IsReport(rep, t, total)
    requires forall c :: c in t.countByCity.vals ==> c in t.salaryByCity.vals
    ensures forall c :: c in rep.salaryByCity.vals <==> c in rep.shareByCity.vals
  {
    var kept := Restrict(AverageTable(t.salaryByCity), rep.shareByCity.vals.Keys);
    CardKeys(kept);
    CardKeys(rep.shareByCity);
    SubsetCard(kept.vals.Keys, rep.shareByCity.vals.Keys);
    RankedTopKeepsAll(rep.salaryByCity, kept);
    forall c | c in rep.shareByCity.vals ensures c in kept.vals {
      assert c in t.countByCity.vals;
      assert c in AverageTable(t.salaryByCity).keys;
    }
  }
}
