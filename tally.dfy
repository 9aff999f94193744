/** `countBy` of src/App.js: how many items share each non-empty key, as a
    list sorted by count (largest first) and then by key. */
module Tally {
  import opened Base
  import opened Sorting

  /** One `{ key, count }` entry of the result. */
  datatype Entry = Entry(key: string, count: nat)

  /** The non-empty keys of `items`, one per item, in item order: the keys
      the counting loop does not skip. */
  function KeysOf<T>(items: seq<T>, key: T -> string): (ks: seq<string>)
    ensures |ks| <= |items|
  {
    if items == [] then []
    else
      var prev := KeysOf(items[..|items| - 1], key);
      if key(items[|items| - 1]) == [] then prev else prev + [key(items[|items| - 1])]
  }

  /** The kept keys are the non-empty keys of the items. */
  lemma {:induction false} KeysOfFacts<T>(items: seq<T>, key: T -> string)
    ensures forall i :: 0 <= i < |KeysOf(items, key)| ==> KeysOf(items, key)[i] != []
    ensures forall i :: 0 <= i < |items| && key(items[i]) != [] ==> key(items[i]) in KeysOf(items, key)
  {
    if items != [] {
      var init := items[..|items| - 1];
      KeysOfFacts(init, key);
      assert forall i :: 0 <= i < |init| ==> init[i] == items[i];
    }
  }

  lemma KeysOfSnoc<T>(items: seq<T>, x: T, key: T -> string)
    ensures KeysOf(items + [x], key) == if key(x) == [] then KeysOf(items, key) else KeysOf(items, key) + [key(x)]
  {
    assert (items + [x])[..|items|] == items;
  }

  /** How many times `x` occurs in `ks`. */
  function Occurrences(ks: seq<string>, x: string): (n: nat)
    ensures x !in ks ==> n == 0
    ensures x in ks ==> n >= 1
  {
    if ks == [] then 0 else Occurrences(ks[..|ks| - 1], x) + (if ks[|ks| - 1] == x then 1 else 0)
  }

  lemma OccurrencesSnoc(ks: seq<string>, k: string, x: string)
    ensures Occurrences(ks + [k], x) == Occurrences(ks, x) + (if k == x then 1 else 0)
  {
    assert (ks + [k])[..|ks|] == ks;
  }

  /** The items whose key is `k`. */
  function KeyIs<T>(key: T -> string, k: string): T -> bool {
    x => key(x) == k
  }

  /** A non-empty key occurs among the kept keys once per item carrying it. */
  lemma {:induction false} OccurrencesOfKeys<T>(items: seq<T>, key: T -> string, k: string)
    requires k != []
    ensures Occurrences(KeysOf(items, key), k) == CountWhere(items, KeyIs(key, k))
    decreases |items|
  {
    if items != [] {
      var init := items[..|items| - 1];
      var x := items[|items| - 1];
      var ks := KeysOf(init, key);
      var p := KeyIs(key, k);
      var bump := if key(x) == k then 1 else 0;
      assert items == init + [x];
      assert Occurrences(ks, k) == CountWhere(init, p) by {
        OccurrencesOfKeys(init, key, k);
      }
      assert CountWhere(items, p) == CountWhere(init, p) + bump by {
        CountWhereAppend(init, [x], p);
        FilterSingle(x, p);
      }
      assert Occurrences(KeysOf(items, key), k) == Occurrences(ks, k) + bump by {
        KeysOfSnoc(init, x, key);
        if key(x) != [] {
          OccurrencesSnoc(ks, key(x), k);
        }
      }
    }
  }

  /** One entry per key of `d`, counting that key's occurrences in `ks`. */
  function Tallied(d: seq<string>, ks: seq<string>): (r: seq<Entry>)
    ensures |r| == |d|
    ensures forall i :: 0 <= i < |d| ==> r[i] == Entry(d[i], Occurrences(ks, d[i]))
  {
    seq(|d|, i requires 0 <= i < |d| => Entry(d[i], Occurrences(ks, d[i])))
  }

  lemma TalliedSnoc(d: seq<string>, x: string, ks: seq<string>)
    ensures Tallied(d + [x], ks) == Tallied(d, ks) + [Entry(x, Occurrences(ks, x))]
  {
  }

  /** The comparator of `countBy`: count descending, then key ascending. */
  function ByCountThenKey(a: Entry, b: Entry): int {
    if b.count - a.count != 0 then b.count - a.count else StrCmp(a.key, b.key)
  }

  /** What `countBy(items, key)` returns. */
  function CountOf<T>(items: seq<T>, key: T -> string): seq<Entry> {
    var ks := KeysOf(items, key);
    SortBy(Tallied(Distinct(ks), ks), ByCountThenKey)
  }

  /** The counts of a JavaScript `Map` whose key order is `order` agree with
      the occurrences of the keys `ks` seen so far. */
  ghost predicate CountsOf(ks: seq<string>, order: seq<string>, counts: map<string, nat>) {
    && order == Distinct(ks)
    && (forall x :: x in counts <==> x in ks)
    && (forall x :: x in counts ==> counts[x] == Occurrences(ks, x))
  }

  /** The counts of the `Map` after `map.set(k, (map.get(k) || 0) + 1)` for
      each key `k` of `ks` in turn. */
  function Counted(ks: seq<string>): map<string, nat> {
    if ks == [] then map[]
    else
      var prev := Counted(ks[..|ks| - 1]);
      var k := ks[|ks| - 1];
      prev[k := (if k in prev then prev[k] else 0) + 1]
  }

  /** The map counts exactly the keys of `ks`, each by its occurrences. */
  lemma {:induction false} CountedOccurrences(ks: seq<string>, x: string)
    ensures x in Counted(ks) <==> x in ks
    ensures x in Counted(ks) ==> Counted(ks)[x] == Occurrences(ks, x)
  {
    if ks != [] {
      var n := |ks| - 1;
      CountedOccurrences(ks[..n], x);
      assert ks == ks[..n] + [ks[n]];
      assert x in ks <==> x in ks[..n] || x == ks[n];
      OccurrencesSnoc(ks[..n], ks[n], x);
    }
  }

  /** `map.set(k, (map.get(k) || 0) + 1)` with a non-empty key `k`: the key
      joins the key order when it is new and its count goes up by one. */
  lemma CountBump(ks: seq<string>, order: seq<string>, counts: map<string, nat>, k: string)
    requires order == Distinct(ks) && counts == Counted(ks)
    ensures (if k in order then order else order + [k]) == Distinct(ks + [k])
    ensures counts[k := (if k in counts then counts[k] else 0) + 1] == Counted(ks + [k])
  {
    assert (ks + [k])[..|ks|] == ks;
    DistinctSnoc(ks, k);
    DistinctMembers(ks, k);
  }

  /** The loop of `countBy` that fills a JavaScript `Map`: `order` is the
      map's key order and `counts` its values. Empty keys are skipped. */
  method CountKeys<T>(items: seq<T>, key: T -> string) returns (order: seq<string>, counts: map<string, nat>)
    ensures order == Distinct(KeysOf(items, key)) && counts == Counted(KeysOf(items, key))
    ensures CountsOf(KeysOf(items, key), order, counts)
  {
    order := [];
    counts := map[];
    ghost var done: seq<T> := [];
    var i := 0;
    while i < |items|
      invariant 0 <= i <= |items| && done == items[..i]
      invariant order == Distinct(KeysOf(done, key)) && counts == Counted(KeysOf(done, key))
    {
      var x := items[i];
      var k := key(x);
      ghost var ks := KeysOf(done, key);
      if k != [] {
        CountBump(ks, order, counts, k);
        assert KeysOf(done + [x], key) == ks + [k] by {
          KeysOfSnoc(done, x, key);
        }
        var n := if k in counts then counts[k] else 0;
        counts := counts[k := n + 1];
        if k !in order {
          order := order + [k];
        }
      } else {
        assert KeysOf(done + [x], key) == ks by {
          KeysOfSnoc(done, x, key);
        }
      }
      assert items[..i + 1] == done + [x] by {
        PrefixSnoc(items, i);
      }
      done := done + [x];
      i := i + 1;
    }
    assert done == items;
    ghost var ks := KeysOf(items, key);
    forall x ensures x in counts <==> x in ks
      ensures x in counts ==> counts[x] == Occurrences(ks, x) {
      CountedOccurrences(ks, x);
    }
  }

  /** `countBy`: the map's entries, in key order, then sorted. */
  method CountBy<T>(items: seq<T>, key: T -> string) returns (r: seq<Entry>)
    ensures r == CountOf(items, key)
  {
    var order, counts := CountKeys(items, key);
    ghost var ks := KeysOf(items, key);
    ghost var done: seq<string> := [];
    var entries: seq<Entry> := [];
    var j := 0;
    while j < |order|
      invariant 0 <= j <= |order| && done == order[..j]
      invariant entries == Tallied(done, ks)
    {
      var k := order[j];
      assert counts[k] == Occurrences(ks, k) by {
        DistinctMembers(ks, k);
        CountedOccurrences(ks, k);
      }
      TalliedSnoc(done, k, ks);
      entries := entries + [Entry(k, counts[k])];
      assert order[..j + 1] == done + [k] by {
        PrefixSnoc(order, j);
      }
      done := done + [k];
      j := j + 1;
    }
    assert done == order;
    r := SortBy(entries, ByCountThenKey);
  }

  /** Every entry has a non-empty key and counts exactly the items that
      carry that key; no entry has a zero count. */
  lemma CountOfEntries<T>(items: seq<T>, key: T -> string, e: Entry)
    requires e in CountOf(items, key)
    ensures e.key != [] && e.count >= 1
    ensures e.count == Occurrences(KeysOf(items, key), e.key)
    ensures e.count == CountWhere(items, KeyIs(key, e.key))
  {
    var ks := KeysOf(items, key);
    var t := Tallied(Distinct(ks), ks);
    assert e in multiset(CountOf(items, key));
    assert e in t;
    var i :| 0 <= i < |t| && t[i] == e;
    assert e.key in ks by {
      DistinctMembers(ks, e.key);
    }
    KeysOfFacts(items, key);
    OccurrencesOfKeys(items, key, e.key);
  }

  /** Every non-empty key of an item has an entry. */
  lemma CountOfComplete<T>(items: seq<T>, key: T -> string, i: nat)
    requires i < |items| && key(items[i]) != []
    ensures exists e :: e in CountOf(items, key) && e.key == key(items[i])
  {
    var ks := KeysOf(items, key);
    var d := Distinct(ks);
    var t := Tallied(d, ks);
    var k := key(items[i]);
    assert k in ks by {
      KeysOfFacts(items, key);
    }
    DistinctMembers(ks, k);
    var j :| 0 <= j < |d| && d[j] == k;
    assert t[j] in multiset(t);
    assert t[j] in CountOf(items, key);
  }

  /** A value occurs at most once in a duplicate-free sequence. */
  lemma {:induction false} NoDupsMultiplicity<T>(s: seq<T>, x: T)
    requires NoDups(s)
    ensures multiset(s)[x] <= 1
    decreases |s|
  {
    if s != [] {
      var init := s[..|s| - 1];
      assert s == init + [s[|s| - 1]];
      assert NoDups(init);
      NoDupsMultiplicity(init, x);
      assert s[|s| - 1] !in init;
    }
  }

  /** Two positions holding the same value give that value a multiplicity of at least two. */
  lemma RepeatedTwice<T>(s: seq<T>, i: nat, j: nat)
    requires i < j < |s| && s[i] == s[j]
    ensures multiset(s)[s[i]] >= 2
  {
    assert s == s[..j] + [s[j]] + s[j + 1..];
    assert s[i] in s[..j];
  }

  /** A permutation of a duplicate-free sequence is duplicate-free. */
  lemma PermutationNoDups<T>(s: seq<T>, t: seq<T>)
    requires NoDups(s) && multiset(s) == multiset(t)
    ensures NoDups(t)
  {
    forall i, j | 0 <= i < j < |t| ensures t[i] != t[j] {
      NoDupsMultiplicity(s, t[i]);
      if t[i] == t[j] {
        RepeatedTwice(t, i, j);
        assert false;
      }
    }
  }

  /** `[...new Set(ks)].sort(...)` in text order: every string of `ks`
      once, in strictly increasing order. */
  lemma SortedDistinct(ks: seq<string>)
    ensures var r := SortBy(Distinct(ks), StrCmp);
      && (forall k :: k in r <==> k in ks)
      && (forall a, b :: 0 <= a < b < |r| ==> StrLt(r[a], r[b]))
  {
    var d := Distinct(ks);
    var r := SortBy(d, StrCmp);
    forall k ensures k in r <==> k in ks {
      assert k in r <==> k in multiset(r);
      assert k in d <==> k in multiset(d);
      DistinctMembers(ks, k);
    }
    DistinctNoDups(ks);
    PermutationNoDups(d, r);
    StrCmpConsistent(d);
    SortBySorted(d, StrCmp);
    forall a, b | 0 <= a < b < |r| ensures StrLt(r[a], r[b]) {
      assert StrCmp(r[a], r[b]) <= 0 && r[a] != r[b];
    }
  }

  /** Sorting elements with distinct names by their names in text order
      puts the names in strictly increasing order. */
  lemma SortedByNameStrict<T(!new)>(s: seq<T>, name: T -> string, cmp: (T, T) -> int)
    requires forall a, b :: cmp(a, b) == StrCmp(name(a), name(b))
    requires forall i, j :: 0 <= i < j < |s| ==> name(s[i]) != name(s[j])
    ensures var r := SortBy(s, cmp);
      forall a, b :: 0 <= a < b < |r| ==> StrLt(name(r[a]), name(r[b]))
  {
    var r := SortBy(s, cmp);
    assert NoDups(s);
    PermutationNoDups(s, r);
    forall a, b ensures cmp(a, b) <= 0 || cmp(b, a) <= 0 {
      StrLtTotal(name(a), name(b));
    }
    forall a, b, c | cmp(a, b) <= 0 && cmp(b, c) <= 0 ensures cmp(a, c) <= 0 {
      StrCmpTransitive(name(a), name(b), name(c));
    }
    SortBySorted(s, cmp);
    forall a, b | 0 <= a < b < |r| ensures StrLt(name(r[a]), name(r[b])) {
      assert r[a] in multiset(s) && r[b] in multiset(s);
      var p :| 0 <= p < |s| && s[p] == r[a];
      var q :| 0 <= q < |s| && s[q] == r[b];
      assert r[a] != r[b];
      assert p != q;
      assert cmp(r[a], r[b]) <= 0;
      assert name(r[a]) != name(r[b]);
    }
  }

  /** No key has two entries. */
  lemma CountOfKeysDistinct<T>(items: seq<T>, key: T -> string)
    ensures forall i, j :: 0 <= i < j < |CountOf(items, key)| ==> CountOf(items, key)[i].key != CountOf(items, key)[j].key
  {
    var r := CountOf(items, key);
    var ks := KeysOf(items, key);
    var d := Distinct(ks);
    var t := Tallied(d, ks);
    assert NoDups(t) by {
      DistinctNoDups(ks);
      forall a, b | 0 <= a < b < |t| ensures t[a] != t[b] {
        assert d[a] != d[b];
      }
    }
    forall i, j | 0 <= i < j < |r| ensures r[i].key != r[j].key {
      if r[i].key == r[j].key {
        CountOfEntries(items, key, r[i]);
        CountOfEntries(items, key, r[j]);
        RepeatedTwice(r, i, j);
        NoDupsMultiplicity(t, r[i]);
        assert false;
      }
    }
  }

  /** Sum of the counts of a list of entries. */
  function SumCounts(es: seq<Entry>): nat {
    if es == [] then 0 else es[0].count + SumCounts(es[1..])
  }

  lemma {:induction false} SumCountsInsert(x: Entry, s: seq<Entry>, cmp: (Entry, Entry) -> int)
    ensures SumCounts(Insert(x, s, cmp)) == x.count + SumCounts(s)
    decreases |s|
  {
    if s != [] && cmp(x, s[0]) > 0 {
      var r := Insert(x, s, cmp);
      assert r[1..] == Insert(x, s[1..], cmp);
      SumCountsInsert(x, s[1..], cmp);
    }
  }

  lemma {:induction false} SumCountsSortBy(s: seq<Entry>, cmp: (Entry, Entry) -> int)
    ensures SumCounts(SortBy(s, cmp)) == SumCounts(s)
    decreases |s|
  {
    if s != [] {
      SumCountsSortBy(s[1..], cmp);
      SumCountsInsert(s[0], SortBy(s[1..], cmp), cmp);
    }
  }

  /** Sum over the keys `d` of their number of occurrences in `ks`. */
  function SumOccurrences(d: seq<string>, ks: seq<string>): nat {
    if d == [] then 0 else Occurrences(ks, d[0]) + SumOccurrences(d[1..], ks)
  }

  lemma {:induction false} SumCountsTallied(d: seq<string>, ks: seq<string>)
    ensures SumCounts(Tallied(d, ks)) == SumOccurrences(d, ks)
    decreases |d|
  {
    if d != [] {
      assert Tallied(d, ks)[1..] == Tallied(d[1..], ks);
      SumCountsTallied(d[1..], ks);
    }
  }

  lemma {:induction false} SumOccurrencesSnoc(d: seq<string>, ks: seq<string>, x: string)
    requires NoDups(d)
    ensures SumOccurrences(d, ks + [x]) == SumOccurrences(d, ks) + (if x in d then 1 else 0)
    decreases |d|
  {
    if d != [] {
      assert NoDups(d[1..]);
      SumOccurrencesSnoc(d[1..], ks, x);
      OccurrencesSnoc(ks, x, d[0]);
      assert x in d <==> x == d[0] || x in d[1..];
      assert x == d[0] ==> x !in d[1..];
    }
  }

  lemma {:induction false} SumOccurrencesAll(d: seq<string>, ks: seq<string>)
    requires NoDups(d) && forall k :: k in ks ==> k in d
    ensures SumOccurrences(d, ks) == |ks|
    decreases |ks|
  {
    if ks == [] {
      SumOccurrencesEmpty(d);
    } else {
      var init := ks[..|ks| - 1];
      assert ks == init + [ks[|ks| - 1]];
      SumOccurrencesAll(d, init);
      SumOccurrencesSnoc(d, init, ks[|ks| - 1]);
    }
  }

  lemma {:induction false} SumOccurrencesEmpty(d: seq<string>)
    ensures SumOccurrences(d, []) == 0
    decreases |d|
  {
    if d != [] {
      SumOccurrencesEmpty(d[1..]);
    }
  }

  /** The counts add up to the number of items with a non-empty key. */
  lemma CountOfSum<T>(items: seq<T>, key: T -> string)
    ensures SumCounts(CountOf(items, key)) == |KeysOf(items, key)|
  {
    var ks := KeysOf(items, key);
    var d := Distinct(ks);
    SumCountsSortBy(Tallied(d, ks), ByCountThenKey);
    SumCountsTallied(d, ks);
    forall k | k in ks ensures k in d {
      DistinctMembers(ks, k);
    }
    DistinctNoDups(ks);
    SumOccurrencesAll(d, ks);
  }

  /** The comparator is consistent on every list of entries. */
  lemma ByCountThenKeyConsistent(u: seq<Entry>)
    ensures Consistent(u, ByCountThenKey)
  {
    forall a, b ensures ByCountThenKey(a, b) <= 0 || ByCountThenKey(b, a) <= 0 {
      StrLtTotal(a.key, b.key);
    }
    forall a, b, c | ByCountThenKey(a, b) <= 0 && ByCountThenKey(b, c) <= 0
      ensures ByCountThenKey(a, c) <= 0
    {
      if a.count == b.count && b.count == c.count && a.key != b.key && b.key != c.key {
        StrLtTransitive(a.key, b.key, c.key);
      }
    }
  }

  /** The entries come by count, largest first; equal counts come in
      strictly increasing key order. */
  lemma CountOfOrdered<T>(items: seq<T>, key: T -> string)
    ensures forall i, j :: 0 <= i < j < |CountOf(items, key)| ==>
      CountOf(items, key)[i].count > CountOf(items, key)[j].count
      || (CountOf(items, key)[i].count == CountOf(items, key)[j].count
          && StrLt(CountOf(items, key)[i].key, CountOf(items, key)[j].key))
  {
    var ks := KeysOf(items, key);
    var t := Tallied(Distinct(ks), ks);
    var r := CountOf(items, key);
    ByCountThenKeyConsistent(t);
    SortBySorted(t, ByCountThenKey);
    CountOfKeysDistinct(items, key);
    forall i, j | 0 <= i < j < |r|
      ensures r[i].count > r[j].count || (r[i].count == r[j].count && StrLt(r[i].key, r[j].key))
    {
      assert ByCountThenKey(r[i], r[j]) <= 0;
    }
  }
}
