/**
 * Python's insertion-ordered `dict`: the keys in insertion order beside the mapping itself.
 * Assigning to an existing key keeps its position; a new key goes to the end.
 */
module Dicts {
  import opened Seqs

  datatype RawDict<K(!new), V> = RawDict(keys: seq<K>, vals: map<K, V>)

  /** Every key is listed exactly once, and exactly the listed keys are mapped. */
  ghost predicate Valid<K(!new), V>(d: RawDict<K, V>) {
    Distinct(d.keys) && forall k :: k in d.vals <==> k in d.keys
  }

  type Dict<K(!new), V> = d: RawDict<K, V> | Valid(d) witness RawDict([], map[])

  function Empty<K(!new), V>(): (r: Dict<K, V>)
    ensures r.keys == [] && r.vals == map[]
  {
    RawDict([], map[])
  }

  /** `d[k] = v`. */
  function Put<K(!new), V>(d: Dict<K, V>, k: K, v: V): (r: Dict<K, V>)
    ensures r.vals == d.vals[k := v]
    ensures k in d.vals ==> r.keys == d.keys
    ensures k !in d.vals ==> r.keys == d.keys + [k]
  {
    if k in d.vals then RawDict(d.keys, d.vals[k := v]) else RawDict(d.keys + [k], d.vals[k := v])
  }

  /** `d.setdefault(k, v)`: `k` enters with `v` unless it is there already. */
  function SetDefault<K(!new), V>(d: Dict<K, V>, k: K, v: V): (r: Dict<K, V>)
    ensures k in r.vals && r.vals[k] == if k in d.vals then d.vals[k] else v
  {
    if k in d.vals then d else Put(d, k, v)
  }

  /** The keys a dict lists once `k` has been assigned. */
  function KeysWith<K(!new), V>(d: Dict<K, V>, k: K): seq<K> {
    if k in d.vals then d.keys else d.keys + [k]
  }

  /** `setdefault` as a dict display: an existing key keeps its value and place, a new one goes last. */
  lemma SetDefaultForm<K(!new), V>(d: Dict<K, V>, k: K, v: V)
    ensures SetDefault(d, k, v) == RawDict(KeysWith(d, k), d.vals[k := SetDefault(d, k, v).vals[k]])
  {
    if k in d.vals {
      assert d.vals[k := d.vals[k]] == d.vals;
    }
  }

  /** Assigning `k` after `setdefault` on `k` is assigning it directly. */
  lemma PutAfterSetDefault<K(!new), V>(d: Dict<K, V>, k: K, v: V, w: V)
    ensures Put(SetDefault(d, k, v), k, w) == RawDict(KeysWith(d, k), d.vals[k := w])
  {
  }

  /** `list(d.items())`. */
  function Items<K(!new), V>(d: Dict<K, V>): (r: seq<(K, V)>)
    ensures |r| == |d.keys|
  {
    seq(|d.keys|, i requires 0 <= i < |d.keys| => (d.keys[i], d.vals[d.keys[i]]))
  }

  function Firsts<K, V>(ps: seq<(K, V)>): (r: seq<K>)
    ensures |r| == |ps|
    ensures forall i :: 0 <= i < |ps| ==> r[i] == ps[i].0
  {
    seq(|ps|, i requires 0 <= i < |ps| => ps[i].0)
  }

  /** `dict(ps)`: the pairs are assigned in order, so a repeated key keeps its first position and its last value. */
  function FromItems<K(!new), V>(ps: seq<(K, V)>): Dict<K, V>
  {
    if ps == [] then Empty() else Put(FromItems(ps[..|ps| - 1]), ps[|ps| - 1].0, ps[|ps| - 1].1)
  }

  /** Pairs with distinct keys become a dict with exactly those keys, in that order, mapped to their own values. */
  lemma {:induction false} FromItemsDistinct<K(!new), V>(ps: seq<(K, V)>)
    requires Distinct(Firsts(ps))
    ensures FromItems(ps).keys == Firsts(ps)
    ensures forall i :: 0 <= i < |ps| ==> FromItems(ps).vals[ps[i].0] == ps[i].1
  {
    if ps != [] {
      var init := ps[..|ps| - 1];
      assert Firsts(init) == Firsts(ps)[..|ps| - 1];
      FromItemsDistinct(init);
      assert ps[|ps| - 1].0 !in Firsts(init);
    }
  }

  /** `dict(ps)` lists each key of the pairs once, where it first occurs. */
  lemma {:induction false} FromItemsKeys<K(!new), V>(ps: seq<(K, V)>)
    ensures FromItems(ps).keys == Dedup(Firsts(ps))
  {
    if ps != [] {
      var init := ps[..|ps| - 1];
      assert Firsts(init) == Firsts(ps)[..|ps| - 1];
      FromItemsKeys(init);
    }
  }

  /** A pair whose key does not occur again later gives that key its value in `dict(ps)`. */
  lemma {:induction false} FromItemsLastWins<K(!new), V>(ps: seq<(K, V)>, i: nat)
    requires i < |ps| && forall j :: i < j < |ps| ==> ps[j].0 != ps[i].0
    ensures ps[i].0 in FromItems(ps).vals && FromItems(ps).vals[ps[i].0] == ps[i].1
  {
    if i < |ps| - 1 {
      var init := ps[..|ps| - 1];
      assert init[i] == ps[i];
      FromItemsLastWins(init, i);
    }
  }

  /** Round trip: a dict rebuilt from its own items is the same dict. */
  lemma FromItemsOfItems<K(!new), V>(d: Dict<K, V>)
    ensures FromItems(Items(d)) == d
  {
    var ps := Items(d);
    assert Firsts(ps) == d.keys;
    FromItemsDistinct(ps);
    var r := FromItems(ps);
    forall k | k in d.vals ensures k in r.vals && r.vals[k] == d.vals[k] {
      var i :| 0 <= i < |d.keys| && d.keys[i] == k;
      assert ps[i] == (k, d.vals[k]);
    }
    assert r.vals == d.vals;
  }

  /** The keys of `s` that are in `keep`, in their order in `s`. */
  function FilterKeys<K(!new)>(s: seq<K>, keep: set<K>): (r: seq<K>)
    ensures forall k :: k in r <==> k in s && k in keep
    ensures Distinct(s) ==> Distinct(r)
    ensures IsSubsequence(r, s)
  {
    if s == [] then []
    else if s[0] in keep then
      var t := FilterKeys(s[1..], keep);
      assert s[0] !in s[1..] ==> s[0] !in t;
      [s[0]] + t
    else FilterKeys(s[1..], keep)
  }

  /** `dict(filter(lambda p: p[0] in keep, d.items()))`. */
  function Restrict<K(!new), V>(d: Dict<K, V>, keep: set<K>): (r: Dict<K, V>)
    ensures forall k :: k in r.vals <==> k in d.vals && k in keep
    ensures forall k :: k in r.vals ==> r.vals[k] == d.vals[k]
    ensures IsSubsequence(r.keys, d.keys)
  {
    RawDict(FilterKeys(d.keys, keep), map k | k in d.vals && k in keep :: d.vals[k])
  }

  /** A dict has as many entries as it lists keys. */
  lemma CardKeys<K(!new), V>(d: Dict<K, V>)
    ensures |d.vals| == |d.keys|
  {
    DistinctCard(d.keys);
    assert d.vals.Keys == set x | x in d.keys;
  }
}
