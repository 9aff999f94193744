/** Small value types and sequence helpers shared by every other module. */
module Base {

  /** A present or absent value; `None` also stands for JavaScript's `null`
      and for the NaN that a failed parse yields. */
  datatype Option<T> = None | Some(value: T) {
    function GetOr(default: T): T {
      if Some? then value else default
    }
  }

  /** Extending a prefix of `s` by one element. */
  lemma PrefixSnoc<T>(s: seq<T>, i: nat)
    requires i < |s|
    ensures s[..i + 1] == s[..i] + [s[i]]
  {
  }

  /** Dropping the first element of a concatenation whose left part is
      not empty. */
  lemma DropFirstAppend<T>(a: seq<T>, b: seq<T>)
    requires a != []
    ensures (a + b)[1..] == a[1..] + b
  {
  }

  /** Element `k` of `s` is element `k - 1` once the first is dropped. */
  lemma DropFirstIndex<T>(s: seq<T>, k: nat)
    requires 1 <= k < |s|
    ensures s[1..][k - 1] == s[k]
  {
  }

  /** Dropping a prefix of the left part of a concatenation. */
  lemma DropAppend<T>(a: seq<T>, b: seq<T>, k: nat)
    requires k <= |a|
    ensures (a + b)[k..] == a[k..] + b
  {
  }

  /** The elements of `s` that satisfy `p`, in their original order
      (JavaScript's `Array.prototype.filter`). */
  function Filter<T>(s: seq<T>, p: T -> bool): (r: seq<T>)
    ensures |r| <= |s|
    ensures forall i :: 0 <= i < |r| ==> p(r[i])
    ensures forall i :: 0 <= i < |s| && p(s[i]) ==> s[i] in r
    ensures forall i :: 0 <= i < |r| ==> r[i] in s
  {
    if s == [] then []
    else if p(s[|s| - 1]) then Filter(s[..|s| - 1], p) + [s[|s| - 1]]
    else Filter(s[..|s| - 1], p)
  }

  lemma {:induction false} FilterAppend<T>(a: seq<T>, b: seq<T>, p: T -> bool)
    ensures Filter(a + b, p) == Filter(a, p) + Filter(b, p)
    decreases |b|
  {
    if b == [] {
      assert a + b == a;
    } else {
      var b' := b[..|b| - 1];
      assert (a + b)[..|a + b| - 1] == a + b';
      FilterAppend(a, b', p);
    }
  }

  /** Filtering by a test every element passes changes nothing. */
  lemma {:induction false} FilterAll<T>(s: seq<T>, p: T -> bool)
    requires forall i :: 0 <= i < |s| ==> p(s[i])
    ensures Filter(s, p) == s
    decreases |s|
  {
    if s != [] {
      FilterAll(s[..|s| - 1], p);
    }
  }

  lemma FilterSingle<T>(x: T, p: T -> bool)
    ensures Filter([x], p) == if p(x) then [x] else []
  {
    assert [x][..0] == [];
  }

  /** Filtering from the front: the first element, then the rest. */
  lemma FilterCons<T>(s: seq<T>, p: T -> bool)
    requires s != []
    ensures Filter(s, p) == (if p(s[0]) then [s[0]] else []) + Filter(s[1..], p)
  {
    var h, t := [s[0]], s[1..];
    FilterAppend(h, t, p);
    FilterSingle(s[0], p);
    assert h + t == s;
  }

  /** Filtering one more element of `s`. */
  lemma FilterSnocAt<T>(s: seq<T>, i: nat, p: T -> bool)
    requires i < |s|
    ensures Filter(s[..i + 1], p) == Filter(s[..i], p) + (if p(s[i]) then [s[i]] else [])
  {
    assert s[..i + 1][..i] == s[..i];
  }

  /** Filtering keeps the multiset of the elements that satisfy `p`. */
  lemma {:induction false} FilterCountsKept<T>(s: seq<T>, p: T -> bool, x: T)
    ensures multiset(Filter(s, p))[x] == if p(x) then multiset(s)[x] else 0
    decreases |s|
  {
    if s != [] {
      var s' := s[..|s| - 1];
      assert s == s' + [s[|s| - 1]];
      FilterCountsKept(s', p, x);
    }
  }

  /** Number of elements of `s` that satisfy `p`. */
  function CountWhere<T>(s: seq<T>, p: T -> bool): nat {
    |Filter(s, p)|
  }

  lemma CountWhereAppend<T>(a: seq<T>, b: seq<T>, p: T -> bool)
    ensures CountWhere(a + b, p) == CountWhere(a, p) + CountWhere(b, p)
  {
    FilterAppend(a, b, p);
  }

  /** Pointwise image of a sequence (JavaScript's `Array.prototype.map`). */
  function MapSeq<T, U>(s: seq<T>, f: T -> U): (r: seq<U>)
    ensures |r| == |s|
    ensures forall i :: 0 <= i < |s| ==> r[i] == f(s[i])
  {
    seq(|s|, i requires 0 <= i < |s| => f(s[i]))
  }

  lemma MapSeqAppend<T, U>(a: seq<T>, b: seq<T>, f: T -> U)
    ensures MapSeq(a + b, f) == MapSeq(a, f) + MapSeq(b, f)
  {
  }

  lemma MapSeqSnocAt<T, U>(s: seq<T>, j: nat, f: T -> U)
    requires j < |s|
    ensures MapSeq(s[..j + 1], f) == MapSeq(s[..j], f) + [f(s[j])]
  {
  }

  /** The images of the elements of `s`, concatenated in order. */
  function FlatMap<T, U>(s: seq<T>, f: T -> seq<U>): seq<U> {
    if s == [] then [] else FlatMap(s[..|s| - 1], f) + f(s[|s| - 1])
  }

  lemma FlatMapSnocAt<T, U>(s: seq<T>, j: nat, f: T -> seq<U>)
    requires j < |s|
    ensures FlatMap(s[..j + 1], f) == FlatMap(s[..j], f) + f(s[j])
  {
    assert s[..j + 1][..j] == s[..j];
  }

  /** Everything in a flat map comes from the image of one element. */
  lemma {:induction false} FlatMapFrom<T, U>(s: seq<T>, f: T -> seq<U>, y: U) returns (i: nat)
    requires y in FlatMap(s, f)
    ensures i < |s| && y in f(s[i])
    decreases |s|
  {
    var n := |s| - 1;
    if y in f(s[n]) {
      i := n;
    } else {
      i := FlatMapFrom(s[..n], f, y);
      assert s[..n][i] == s[i];
    }
  }

  /** Everything in the image of an element is in the flat map. */
  lemma {:induction false} FlatMapHas<T, U>(s: seq<T>, f: T -> seq<U>, y: U, i: nat)
    requires i < |s| && y in f(s[i])
    ensures y in FlatMap(s, f)
    decreases |s|
  {
    var n := |s| - 1;
    if i < n {
      assert s[..n][i] == s[i];
      FlatMapHas(s[..n], f, y, i);
    }
  }

  predicate NoDups<T(==)>(s: seq<T>) {
    forall i, j :: 0 <= i < j < |s| ==> s[i] != s[j]
  }

  /** The elements of `s` without repeats, in order of first occurrence: what
      `[...new Set(s)]` and the key order of a JavaScript `Map` give. */
  function Distinct<T(==)>(s: seq<T>): (r: seq<T>)
    ensures |r| <= |s|
  {
    if s == [] then []
    else
      var d := Distinct(s[..|s| - 1]);
      if s[|s| - 1] in d then d else d + [s[|s| - 1]]
  }

  /** `Distinct` holds each element once. */
  lemma {:induction false} DistinctNoDups<T>(s: seq<T>)
    ensures NoDups(Distinct(s))
  {
    if s != [] {
      var n := |s| - 1;
      DistinctNoDups(s[..n]);
    }
  }

  /** `Distinct` keeps exactly the elements of `s`. */
  lemma {:induction false} DistinctMembers<T>(s: seq<T>, x: T)
    ensures x in Distinct(s) <==> x in s
  {
    if s != [] {
      var n := |s| - 1;
      DistinctMembers(s[..n], x);
      assert s == s[..n] + [s[n]];
      assert x in s <==> x in s[..n] || x == s[n];
    }
  }

  lemma DistinctSnoc<T>(s: seq<T>, x: T)
    ensures Distinct(s + [x]) == if x in s then Distinct(s) else Distinct(s) + [x]
  {
    assert (s + [x])[..|s|] == s;
    DistinctMembers(s, x);
  }

  /** The distinct keys of the elements `keep` admits, in order of first
      occurrence: the key order of a `Map` filled from `s` element by
      element. */
  function FirstSeen<T, K(==)>(s: seq<T>, keep: T -> bool, key: T -> K): seq<K> {
    if s == [] then []
    else
      var prev := FirstSeen(s[..|s| - 1], keep, key);
      var x := s[|s| - 1];
      if keep(x) && key(x) !in prev then prev + [key(x)] else prev
  }

  lemma FirstSeenStep<T, K>(s: seq<T>, i: nat, keep: T -> bool, key: T -> K)
    requires i < |s|
    ensures FirstSeen(s[..i + 1], keep, key)
         == if keep(s[i]) && key(s[i]) !in FirstSeen(s[..i], keep, key)
            then FirstSeen(s[..i], keep, key) + [key(s[i])]
            else FirstSeen(s[..i], keep, key)
  {
    assert s[..i + 1][..i] == s[..i];
  }

  /** The same keys as the distinct keys of the admitted elements. */
  lemma {:induction false} FirstSeenDistinct<T, K>(s: seq<T>, keep: T -> bool, key: T -> K)
    ensures FirstSeen(s, keep, key) == Distinct(MapSeq(Filter(s, keep), key))
    decreases |s|
  {
    if s != [] {
      var n := |s| - 1;
      var x := s[n];
      var t := s[..n];
      var m := MapSeq(Filter(t, keep), key);
      var tail := if keep(x) then [x] else [];
      assert FirstSeen(t, keep, key) == Distinct(m) by {
        FirstSeenDistinct(t, keep, key);
      }
      assert MapSeq(Filter(s, keep), key) == m + MapSeq(tail, key) by {
        FilterSnocAt(s, n, keep);
        assert s[..n + 1] == s;
        MapSeqAppend(Filter(t, keep), tail, key);
      }
      if keep(x) {
        assert MapSeq(tail, key) == [key(x)];
        assert key(x) in Distinct(m) <==> key(x) in m by {
          DistinctMembers(m, key(x));
        }
        DistinctSnoc(m, key(x));
      } else {
        assert m + MapSeq(tail, key) == m;
      }
    }
  }

  /** The keys seen are exactly the keys of the admitted elements. */
  lemma {:induction false} FirstSeenMembers<T, K>(s: seq<T>, keep: T -> bool, key: T -> K, k: K)
    ensures k in FirstSeen(s, keep, key) <==> exists i :: 0 <= i < |s| && keep(s[i]) && key(s[i]) == k
    decreases |s|
  {
    if s != [] {
      var n := |s| - 1;
      FirstSeenMembers(s[..n], keep, key, k);
      if exists i :: 0 <= i < |s| && keep(s[i]) && key(s[i]) == k {
        var i :| 0 <= i < |s| && keep(s[i]) && key(s[i]) == k;
        if i < n {
          assert s[..n][i] == s[i];
        }
      }
      if exists i :: 0 <= i < n && keep(s[..n][i]) && key(s[..n][i]) == k {
        var i :| 0 <= i < n && keep(s[..n][i]) && key(s[..n][i]) == k;
        assert s[i] == s[..n][i];
      }
    }
  }

  /** No key is seen twice. */
  lemma {:induction false} FirstSeenNoDups<T, K>(s: seq<T>, keep: T -> bool, key: T -> K)
    ensures NoDups(FirstSeen(s, keep, key))
    decreases |s|
  {
    FirstSeenDistinct(s, keep, key);
    DistinctNoDups(MapSeq(Filter(s, keep), key));
  }

  /** The last element of `s` that satisfies `p`: what a `Map` holds for a
      key after every element with that key has been stored in turn. */
  function LastWhere<T>(s: seq<T>, p: T -> bool): (r: Option<T>)
    ensures r.Some? ==> r.value in s && p(r.value)
    ensures r.None? <==> forall i :: 0 <= i < |s| ==> !p(s[i])
  {
    if s == [] then None
    else if p(s[|s| - 1]) then Some(s[|s| - 1])
    else LastWhere(s[..|s| - 1], p)
  }

  lemma LastWhereSnocAt<T>(s: seq<T>, i: nat, p: T -> bool)
    requires i < |s|
    ensures LastWhere(s[..i + 1], p) == if p(s[i]) then Some(s[i]) else LastWhere(s[..i], p)
  {
    assert s[..i + 1][..i] == s[..i];
  }

  /** No later element satisfies `p`. */
  lemma {:induction false} LastWhereIsLast<T>(s: seq<T>, p: T -> bool, j: nat)
    requires j < |s| && p(s[j])
    ensures LastWhere(s, p).Some?
    ensures exists i :: j <= i < |s| && LastWhere(s, p).value == s[i] && forall k :: i < k < |s| ==> !p(s[k])
    decreases |s|
  {
    var n := |s| - 1;
    if !p(s[n]) {
      var s' := s[..n];
      LastWhereIsLast(s', p, j);
      var i :| j <= i < n && LastWhere(s', p).value == s'[i] && forall k :: i < k < n ==> !p(s'[k]);
      assert LastWhere(s, p) == LastWhere(s', p);
      assert s'[i] == s[i];
      forall k | i < k < |s| ensures !p(s[k]) {
        if k < n {
          assert s'[k] == s[k];
        }
      }
      assert j <= i < |s| && LastWhere(s, p).value == s[i];
    } else {
      assert LastWhere(s, p).value == s[n];
    }
  }


  /** The elements `keep` admits whose key is `k`, in order. */
  function Members<T, K(==)>(s: seq<T>, keep: T -> bool, key: T -> K, k: K): seq<T> {
    if s == [] then []
    else if keep(s[|s| - 1]) && key(s[|s| - 1]) == k then Members(s[..|s| - 1], keep, key, k) + [s[|s| - 1]]
    else Members(s[..|s| - 1], keep, key, k)
  }

  lemma {:induction false} MembersFilter<T, K>(s: seq<T>, keep: T -> bool, key: T -> K, k: K)
    ensures Members(s, keep, key, k) == Filter(s, InGroupBy(keep, key, k))
    decreases |s|
  {
    if s != [] {
      MembersFilter(s[..|s| - 1], keep, key, k);
    }
  }

  /** `order` and `groups` are the `Map` from key to list filled from `s`. */
  ghost predicate GroupedAs<T, K(!new)>(s: seq<T>, keep: T -> bool, key: T -> K, order: seq<K>, groups: map<K, seq<T>>) {
    && order == FirstSeen(s, keep, key)
    && (forall k :: k in groups <==> k in order)
    && (forall k :: k in groups ==> groups[k] == Members(s, keep, key, k) && groups[k] != [])
    && (forall k :: k !in groups ==> Members(s, keep, key, k) == [])
  }

  lemma MembersSnoc<T, K>(t: seq<T>, x: T, keep: T -> bool, key: T -> K, k: K)
    ensures Members(t + [x], keep, key, k)
         == Members(t, keep, key, k) + (if keep(x) && key(x) == k then [x] else [])
  {
    assert (t + [x])[..|t|] == t;
  }

  /** `if (!m.has(k)) m.set(k, []); m.get(k).push(x)` keeps the map in step. */
  lemma GroupedStep<T, K(!new)>(t: seq<T>, x: T, keep: T -> bool, key: T -> K, order: seq<K>, groups: map<K, seq<T>>)
    requires GroupedAs(t, keep, key, order, groups)
    requires keep(x)
    ensures var k := key(x);
      GroupedAs(t + [x], keep, key,
                if k in groups then order else order + [k],
                groups[k := (if k in groups then groups[k] else []) + [x]])
  {
    var k := key(x);
    var s := t + [x];
    assert s[..|t|] == t && s[..|t| + 1] == s;
    FirstSeenStep(s, |t|, keep, key);
    var order' := if k in groups then order else order + [k];
    var groups' := groups[k := (if k in groups then groups[k] else []) + [x]];
    forall y ensures y in groups' <==> y in order' {
    }
    forall y | y in groups' ensures groups'[y] == Members(s, keep, key, y) && groups'[y] != [] {
      MembersSnoc(t, x, keep, key, y);
    }
    forall y | y !in groups' ensures Members(s, keep, key, y) == [] {
      MembersSnoc(t, x, keep, key, y);
    }
  }

  /** An element `keep` refuses leaves the map as it is. */
  lemma GroupedSkip<T, K(!new)>(t: seq<T>, x: T, keep: T -> bool, key: T -> K, order: seq<K>, groups: map<K, seq<T>>)
    requires GroupedAs(t, keep, key, order, groups)
    requires !keep(x)
    ensures GroupedAs(t + [x], keep, key, order, groups)
  {
    var s := t + [x];
    assert s[..|t|] == t && s[..|t| + 1] == s;
    FirstSeenStep(s, |t|, keep, key);
    forall y ensures Members(s, keep, key, y) == Members(t, keep, key, y) {
      MembersSnoc(t, x, keep, key, y);
    }
  }

  /** Filling a `Map` from key to list: each element `keep` admits is
      appended to the list under its key, a new key first getting an empty
      list. */
  method GroupInto<T, K(==, !new)>(s: seq<T>, keep: T -> bool, key: T -> K)
    returns (order: seq<K>, groups: map<K, seq<T>>)
    ensures GroupedAs(s, keep, key, order, groups)
  {
    order := [];
    groups := map[];
    var i := 0;
    while i < |s|
      invariant 0 <= i <= |s|
      invariant GroupedAs(s[..i], keep, key, order, groups)
    {
      var x := s[i];
      assert s[..i + 1] == s[..i] + [x];
      if keep(x) {
        var k := key(x);
        GroupedStep(s[..i], x, keep, key, order, groups);
        if k !in groups {
          order := order + [k];
          groups := groups[k := []];
        }
        groups := groups[k := groups[k] + [x]];
      } else {
        GroupedSkip(s[..i], x, keep, key, order, groups);
      }
      i := i + 1;
    }
    assert s[..i] == s;
  }

  function InGroupBy<T, K(==)>(keep: T -> bool, key: T -> K, k: K): T -> bool {
    x => keep(x) && key(x) == k
  }

  /** The `Map` after `set(key(x), x)` for each element `x` of `s` in turn,
      skipping elements without a key. */
  function KeyedMap<T, K(==)>(s: seq<T>, key: T -> Option<K>): map<K, T> {
    if s == [] then map[]
    else
      var prev := KeyedMap(s[..|s| - 1], key);
      var x := s[|s| - 1];
      if key(x).Some? then prev[key(x).value := x] else prev
  }

  /** Under each key the `Map` holds the last element of `s` with that key,
      and it holds no other key. */
  lemma {:induction false} KeyedMapLast<T, K>(s: seq<T>, key: T -> Option<K>, k: K)
    ensures k in KeyedMap(s, key) <==> LastWhere(s, KeyedBy(key, k)).Some?
    ensures k in KeyedMap(s, key) ==> KeyedMap(s, key)[k] == LastWhere(s, KeyedBy(key, k)).value
    decreases |s|
  {
    if s != [] {
      var n := |s| - 1;
      KeyedMapLast(s[..n], key, k);
      LastWhereSnocAt(s, n, KeyedBy(key, k));
      assert s[..n + 1] == s;
    }
  }

  /** Storing every element of `s` in a `Map` under its key, later elements
      overwriting earlier ones; an element without a key (`None`) is not
      stored. */
  method IndexLast<T, K(==)>(s: seq<T>, key: T -> Option<K>) returns (index: map<K, T>)
    ensures index == KeyedMap(s, key)
    ensures forall k :: k in index <==> LastWhere(s, KeyedBy(key, k)).Some?
    ensures forall k :: k in index ==> index[k] == LastWhere(s, KeyedBy(key, k)).value
  {
    index := map[];
    var i := 0;
    while i < |s|
      invariant 0 <= i <= |s|
      invariant index == KeyedMap(s[..i], key)
    {
      var x := s[i];
      var k := key(x);
      assert s[..i + 1][..i] == s[..i];
      if k.Some? {
        index := index[k.value := x];
      }
      i := i + 1;
    }
    assert s[..i] == s;
    forall k ensures k in index <==> LastWhere(s, KeyedBy(key, k)).Some?
      ensures k in index ==> index[k] == LastWhere(s, KeyedBy(key, k)).value {
      KeyedMapLast(s, key, k);
    }
  }

  function KeyedBy<T, K(==)>(key: T -> Option<K>, k: K): T -> bool {
    x => key(x) == Some(k)
  }

  /** A duplicate-free sequence has as many elements as its set. */
  lemma {:induction false} NoDupsCard<T>(s: seq<T>)
    requires NoDups(s)
    ensures |set x | x in s| == |s|
    decreases |s|
  {
    if s != [] {
      var s' := s[..|s| - 1];
      var last := s[|s| - 1];
      assert s == s' + [last];
      assert NoDups(s');
      NoDupsCard(s');
      assert last !in s';
      assert (set x | x in s) == (set x | x in s') + {last};
    }
  }

  /** Sum of a sequence of naturals. */
  function Sum(s: seq<nat>): nat {
    if s == [] then 0 else Sum(s[..|s| - 1]) + s[|s| - 1]
  }

  lemma {:induction false} SumAppend(a: seq<nat>, b: seq<nat>)
    ensures Sum(a + b) == Sum(a) + Sum(b)
    decreases |b|
  {
    if b == [] {
      assert a + b == a;
    } else {
      assert (a + b)[..|a + b| - 1] == a + b[..|b| - 1];
      SumAppend(a, b[..|b| - 1]);
    }
  }

  /** The first `n` elements, or all of them (`Array.prototype.slice(0, n)`). */
  function Take<T>(s: seq<T>, n: nat): (r: seq<T>)
    ensures |r| == if |s| < n then |s| else n
    ensures r == s[..|r|]
  {
    if |s| <= n then s else s[..n]
  }

  /** `findIndex`: the first index whose element satisfies `p`, or -1. */
  function IndexWhere<T>(s: seq<T>, p: T -> bool): (i: int)
    ensures -1 <= i < |s|
    ensures i >= 0 ==> p(s[i]) && forall j :: 0 <= j < i ==> !p(s[j])
    ensures i == -1 <==> forall j :: 0 <= j < |s| ==> !p(s[j])
  {
    if s == [] then -1
    else
      var i := IndexWhere(s[..|s| - 1], p);
      if i >= 0 then i
      else if p(s[|s| - 1]) then |s| - 1
      else -1
  }

  /** The values `f` gives the elements of `s`, absent ones dropped, in order. */
  function Present<T, V>(s: seq<T>, f: T -> Option<V>): seq<V> {
    if s == [] then []
    else
      var prev := Present(s[..|s| - 1], f);
      match f(s[|s| - 1])
      case None => prev
      case Some(v) => prev + [v]
  }

  /** Some value is present exactly when some element has one. */
  lemma {:induction false} PresentNonEmpty<T, V>(s: seq<T>, f: T -> Option<V>)
    ensures Present(s, f) != [] <==> exists i :: 0 <= i < |s| && f(s[i]).Some?
    decreases |s|
  {
    if s != [] {
      var n := |s| - 1;
      PresentNonEmpty(s[..n], f);
      if Present(s[..n], f) != [] {
        var i :| 0 <= i < n && f(s[..n][i]).Some?;
        assert s[i] == s[..n][i];
      }
      if exists i :: 0 <= i < |s| && f(s[i]).Some? {
        var i :| 0 <= i < |s| && f(s[i]).Some?;
        if i < n {
          assert s[..n][i] == s[i];
        }
      }
    }
  }

  /** Every present value comes from an element, and there are at most as
      many as elements. */
  lemma {:induction false} PresentFrom<T, V>(s: seq<T>, f: T -> Option<V>, j: nat)
    requires j < |Present(s, f)|
    ensures |Present(s, f)| <= |s|
    ensures exists i :: 0 <= i < |s| && f(s[i]) == Some(Present(s, f)[j])
    decreases |s|
  {
    var n := |s| - 1;
    var prev := Present(s[..n], f);
    if j < |prev| {
      PresentFrom(s[..n], f, j);
      var i :| 0 <= i < n && f(s[..n][i]) == Some(prev[j]);
      assert s[i] == s[..n][i];
      assert Present(s, f)[j] == prev[j];
    } else {
      assert f(s[n]).Some? && Present(s, f) == prev + [f(s[n]).value];
      if prev != [] {
        PresentFrom(s[..n], f, 0);
      }
    }
  }

  /** When each value names the element it came from, and the elements are
      distinct, so are the names of the values. */
  lemma {:induction false} PresentDistinctBy<T, V>(s: seq<T>, f: T -> Option<V>, name: V -> T)
    requires NoDups(s)
    requires forall i :: 0 <= i < |s| && f(s[i]).Some? ==> name(f(s[i]).value) == s[i]
    ensures NoDups(MapSeq(Present(s, f), name))
    decreases |s|
  {
    if s != [] {
      var n := |s| - 1;
      var prev := Present(s[..n], f);
      assert NoDups(s[..n]);
      PresentDistinctBy(s[..n], f, name);
      match f(s[n])
      case None =>
      case Some(v) =>
        var r := MapSeq(prev + [v], name);
        assert MapSeq(Present(s, f), name) == r;
        forall i, j | 0 <= i < j < |r| ensures r[i] != r[j] {
          if j == |prev| {
            PresentFrom(s[..n], f, i);
            var k :| 0 <= k < n && f(s[..n][k]) == Some(prev[i]);
            assert s[..n][k] == s[k];
            assert r[i] == name(prev[i]) == s[k];
          } else {
            assert r[i] == MapSeq(prev, name)[i] && r[j] == MapSeq(prev, name)[j];
          }
        }
    }
  }
}
