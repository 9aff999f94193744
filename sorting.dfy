/** `Array.prototype.sort` with a comparator, as JavaScript engines have had to
    implement it since ES2019: a stable sort. A comparator answers a negative
    number, zero or a positive number; a NaN answer counts as zero, so every
    comparator here returns an `int`. */
module Sorting {
  import opened Base

  /** Puts `x` in front of the first element it may precede. */
  function Insert<T>(x: T, s: seq<T>, cmp: (T, T) -> int): (r: seq<T>)
    ensures |r| == |s| + 1
    ensures multiset(r) == multiset(s) + multiset{x}
  {
    if s == [] || cmp(x, s[0]) <= 0 then [x] + s
    else
      assert s == [s[0]] + s[1..];
      [s[0]] + Insert(x, s[1..], cmp)
  }

  /** Insertion sort: the result is a permutation of `s` for every comparator. */
  function SortBy<T>(s: seq<T>, cmp: (T, T) -> int): (r: seq<T>)
    ensures |r| == |s|
    ensures multiset(r) == multiset(s)
  {
    if s == [] then []
    else
      assert s == [s[0]] + s[1..];
      Insert(s[0], SortBy(s[1..], cmp), cmp)
  }

  /** `cmp` is a total preorder on the elements of `u`: what the ECMAScript
      specification calls a consistent comparator. Without it the order that
      `sort` produces is implementation-defined. */
  ghost predicate Consistent<T(!new)>(u: seq<T>, cmp: (T, T) -> int) {
    && (forall a, b {:trigger cmp(a, b)} :: a in u && b in u ==> cmp(a, b) <= 0 || cmp(b, a) <= 0)
    && (forall a, b, c {:trigger cmp(a, b), cmp(b, c)} ::
          a in u && b in u && c in u && cmp(a, b) <= 0 && cmp(b, c) <= 0 ==> cmp(a, c) <= 0)
  }

  ghost predicate Sorted<T>(s: seq<T>, cmp: (T, T) -> int) {
    forall i, j :: 0 <= i < j < |s| ==> cmp(s[i], s[j]) <= 0
  }

  /** An element that may precede every element of a sorted list may be put in front of it. */
  lemma SortedCons<T>(y: T, t: seq<T>, cmp: (T, T) -> int)
    requires Sorted(t, cmp)
    requires forall k :: 0 <= k < |t| ==> cmp(y, t[k]) <= 0
    ensures Sorted([y] + t, cmp)
  {
    var r := [y] + t;
    forall i, j | 0 <= i < j < |r| ensures cmp(r[i], r[j]) <= 0 {
      if i == 0 {
        assert r[j] == t[j - 1];
      } else {
        assert r[i] == t[i - 1] && r[j] == t[j - 1];
      }
    }
  }

  lemma {:induction false} InsertSorted<T(!new)>(x: T, t: seq<T>, cmp: (T, T) -> int, u: seq<T>)
    requires Consistent(u, cmp) && x in u && forall y :: y in t ==> y in u
    requires Sorted(t, cmp)
    ensures Sorted(Insert(x, t, cmp), cmp)
    decreases |t|
  {
    if t == [] || cmp(x, t[0]) <= 0 {
      forall k | 0 <= k < |t| ensures cmp(x, t[k]) <= 0 {
        if k > 0 {
          var a, b := t[0], t[k];
          assert a in u && b in u && cmp(a, b) <= 0;
        }
      }
      SortedCons(x, t, cmp);
    } else {
      var t' := t[1..];
      assert Sorted(t', cmp);
      InsertSorted(x, t', cmp, u);
      var r' := Insert(x, t', cmp);
      var t0 := t[0];
      assert t0 in u;
      assert cmp(t0, x) <= 0;
      forall k | 0 <= k < |r'| ensures cmp(t0, r'[k]) <= 0 {
        var y := r'[k];
        assert y in multiset(r');
        if y != x {
          assert y in multiset(t');
          var m :| 0 <= m < |t'| && t'[m] == y;
          assert t[m + 1] == y;
        }
      }
      SortedCons(t0, r', cmp);
    }
  }

  /** With a consistent comparator the result is ordered. */
  lemma {:induction false} SortBySorted<T(!new)>(s: seq<T>, cmp: (T, T) -> int)
    requires Consistent(s, cmp)
    ensures Sorted(SortBy(s, cmp), cmp)
    decreases |s|
  {
    if s != [] {
      var s' := s[1..];
      assert Consistent(s', cmp) by {
        assert forall y :: y in s' ==> y in s;
      }
      SortBySorted(s', cmp);
      var t := SortBy(s', cmp);
      forall y | y in t ensures y in s {
        assert y in multiset(t);
      }
      InsertSorted(s[0], t, cmp, s);
    }
  }

  /** `y` and `k` are equivalent under `cmp`. */
  predicate Tied<T>(cmp: (T, T) -> int, k: T, y: T) {
    cmp(y, k) <= 0 && cmp(k, y) <= 0
  }

  function TiedTo<T>(cmp: (T, T) -> int, k: T): T -> bool {
    y => Tied(cmp, k, y)
  }

  /** Under a consistent comparator, two elements tied with `k` may precede each other. */
  lemma TiedOrdered<T(!new)>(u: seq<T>, cmp: (T, T) -> int, k: T, x: T)
    requires Consistent(u, cmp) && k in u && x in u
    ensures forall y :: y in u && Tied(cmp, k, x) && Tied(cmp, k, y) ==> cmp(x, y) <= 0
  {
    forall y | y in u && Tied(cmp, k, x) && Tied(cmp, k, y) ensures cmp(x, y) <= 0 {
      assert cmp(x, k) <= 0 && cmp(k, y) <= 0;
    }
  }

  /** Two pieces of which one is empty commute in front of a third. */
  lemma SwapEmpty<T>(a: seq<T>, b: seq<T>, c: seq<T>)
    requires a == [] || b == []
    ensures a + (b + c) == b + (a + c)
  {
    if a == [] {
      assert a + (b + c) == b + c == b + (a + c);
    } else {
      assert a + (b + c) == a + c == b + (a + c);
    }
  }

  /** Moving `x` past an element it is not tied with alongside keeps the tied elements' order. */
  lemma InsertStableStep<T>(x: T, t0: T, t': seq<T>, r': seq<T>, p: T -> bool)
    requires !(p(x) && p(t0))
    requires Filter(r', p) == Filter([x] + t', p)
    ensures Filter([t0] + r', p) == Filter([x] + ([t0] + t'), p)
  {
    FilterSingle(t0, p);
    FilterSingle(x, p);
    FilterAppend([t0], r', p);
    FilterAppend([x], t', p);
    FilterAppend([x], [t0] + t', p);
    FilterAppend([t0], t', p);
    SwapEmpty(Filter([t0], p), Filter([x], p), Filter(t', p));
  }

  /** Inserting `x` keeps the order of the elements tied with `k`, provided
      `x` may precede every element of `t` tied with `k` when it is tied itself. */
  lemma {:induction false} InsertStable<T>(x: T, t: seq<T>, cmp: (T, T) -> int, k: T)
    requires forall y :: y in t && Tied(cmp, k, x) && Tied(cmp, k, y) ==> cmp(x, y) <= 0
    ensures Filter(Insert(x, t, cmp), TiedTo(cmp, k)) == Filter([x] + t, TiedTo(cmp, k))
    decreases |t|
  {
    if t != [] && cmp(x, t[0]) > 0 {
      var t' := t[1..];
      assert t == [t[0]] + t';
      assert forall y :: y in t' ==> y in t;
      InsertStable(x, t', cmp, k);
      InsertStableStep(x, t[0], t', Insert(x, t', cmp), TiedTo(cmp, k));
    }
  }

  /** Stability: the elements tied with any `k` keep their input order. */
  lemma {:induction false} SortByStable<T(!new)>(s: seq<T>, cmp: (T, T) -> int, k: T, u: seq<T>)
    requires Consistent(u, cmp) && k in u && forall y :: y in s ==> y in u
    ensures Filter(SortBy(s, cmp), TiedTo(cmp, k)) == Filter(s, TiedTo(cmp, k))
    decreases |s|
  {
    var p := TiedTo(cmp, k);
    if s != [] {
      var s' := s[1..];
      assert s == [s[0]] + s';
      var t := SortBy(s', cmp);
      forall y | y in t ensures y in u {
        assert y in multiset(t);
        assert y in s';
      }
      TiedOrdered(u, cmp, k, s[0]);
      InsertStable(s[0], t, cmp, k);
      SortByStable(s', cmp, k, u);
      FilterAppend([s[0]], t, p);
      FilterAppend([s[0]], s', p);
    }
  }

  /** A comparator that subtracts integer keys is consistent. */
  lemma ConsistentByIntKey<T(!new)>(u: seq<T>, cmp: (T, T) -> int, key: T -> int)
    requires forall a, b :: a in u && b in u ==> cmp(a, b) == key(a) - key(b)
    ensures Consistent(u, cmp)
  {
  }

  /** Sorting by the difference of keys, all of them known, orders by key. */
  lemma SortedByKnownKey<T(!new)>(s: seq<T>, cmp: (T, T) -> int, key: T -> Option<int>)
    requires forall x :: x in s ==> key(x).Some?
    requires forall a, b :: a in s && b in s ==> cmp(a, b) == key(a).value - key(b).value
    ensures AscendingKeys(SortBy(s, cmp), key)
  {
    assert Consistent(s, cmp);
    SortBySorted(s, cmp);
    KeyOrdered(s, SortBy(s, cmp), cmp, key);
  }

  /** The keys along `r` are all known and ascending. */
  ghost predicate AscendingKeys<T>(r: seq<T>, key: T -> Option<int>) {
    forall i, j :: 0 <= i < j < |r| ==> KeysLe(key, r[i], r[j])
  }

  /** Both keys are known and the first is no larger. */
  ghost predicate KeysLe<T>(key: T -> Option<int>, a: T, b: T) {
    key(a).Some? && key(b).Some? && key(a).value <= key(b).value
  }

  /** The keys along `r` are all known and descending. */
  ghost predicate DescendingKeys<T>(r: seq<T>, key: T -> Option<int>) {
    forall i, j :: 0 <= i < j < |r| ==> KeysLe(key, r[j], r[i])
  }

  /** Sorting by the reversed difference of keys, all of them known, orders
      by key, largest first. */
  lemma SortedByKnownKeyDesc<T(!new)>(s: seq<T>, cmp: (T, T) -> int, key: T -> Option<int>)
    requires forall x :: x in s ==> key(x).Some?
    requires forall a, b :: a in s && b in s ==> cmp(a, b) == key(b).value - key(a).value
    ensures DescendingKeys(SortBy(s, cmp), key)
  {
    var neg := (x: T) => if key(x).Some? then Some(-key(x).value) else None;
    SortedByKnownKey(s, cmp, neg);
    var r := SortBy(s, cmp);
    forall i, j | 0 <= i < j < |r| ensures KeysLe(key, r[j], r[i]) {
      assert KeysLe(neg, r[i], r[j]);
    }
  }

  /** A prefix of a list with descending keys has descending keys. */
  lemma DescendingKeysPrefix<T>(r: seq<T>, n: nat, key: T -> Option<int>)
    requires DescendingKeys(r, key) && n <= |r|
    ensures DescendingKeys(r[..n], key)
  {
    var p := r[..n];
    forall i, j | 0 <= i < j < |p| ensures KeysLe(key, p[j], p[i]) {
      assert p[i] == r[i] && p[j] == r[j];
    }
  }

  lemma KeyOrdered<T>(s: seq<T>, r: seq<T>, cmp: (T, T) -> int, key: T -> Option<int>)
    requires multiset(r) == multiset(s) && Sorted(r, cmp)
    requires forall x :: x in s ==> key(x).Some?
    requires forall a, b :: a in s && b in s ==> cmp(a, b) == key(a).value - key(b).value
    ensures AscendingKeys(r, key)
  {
    forall i, j | 0 <= i < j < |r| ensures KeysLe(key, r[i], r[j]) {
      assert r[i] in multiset(r) && r[j] in multiset(r);
      assert r[i] in s && r[j] in s;
      assert cmp(r[i], r[j]) <= 0;
    }
  }

  /** Lexicographic order of code points: the model of `localeCompare` and of
      the default order of `sort()`. */
  predicate StrLt(a: string, b: string) {
    if a == [] then b != []
    else if b == [] then false
    else if a[0] != b[0] then a[0] < b[0]
    else StrLt(a[1..], b[1..])
  }

  function StrCmp(a: string, b: string): int {
    if a == b then 0 else if StrLt(a, b) then -1 else 1
  }

  lemma {:induction false} StrLtIrreflexive(a: string)
    ensures !StrLt(a, a)
    decreases |a|
  {
    if a != [] { StrLtIrreflexive(a[1..]); }
  }

  lemma {:induction false} StrLtTotal(a: string, b: string)
    ensures a == b || StrLt(a, b) || StrLt(b, a)
    decreases |a|
  {
    if a != [] && b != [] && a[0] == b[0] {
      StrLtTotal(a[1..], b[1..]);
      if a[1..] == b[1..] {
        assert a == [a[0]] + a[1..] && b == [b[0]] + b[1..];
      }
    }
  }

  lemma {:induction false} StrLtTransitive(a: string, b: string, c: string)
    requires StrLt(a, b) && StrLt(b, c)
    ensures StrLt(a, c)
    decreases |a|
  {
    if a != [] && a[0] == b[0] && b[0] == c[0] {
      StrLtTransitive(a[1..], b[1..], c[1..]);
    }
  }

  lemma StrCmpTransitive(a: string, b: string, c: string)
    requires StrCmp(a, b) <= 0 && StrCmp(b, c) <= 0
    ensures StrCmp(a, c) <= 0
  {
    if a != b && b != c {
      StrLtTransitive(a, b, c);
    }
  }

  /** `StrCmp` is a consistent comparator on every collection of strings:
      a total order, so that sorting by it is fully determined. */
  lemma StrCmpConsistent(u: seq<string>)
    ensures Consistent(u, StrCmp)
  {
    forall a, b ensures StrCmp(a, b) <= 0 || StrCmp(b, a) <= 0 {
      StrLtTotal(a, b);
    }
    forall a, b, c | StrCmp(a, b) <= 0 && StrCmp(b, c) <= 0 ensures StrCmp(a, c) <= 0 {
      StrCmpTransitive(a, b, c);
    }
  }

  lemma StrCmpAntisymmetric(a: string, b: string)
    ensures StrCmp(a, b) <= 0 && StrCmp(b, a) <= 0 ==> a == b
  {
    if a != b && StrLt(a, b) && StrLt(b, a) {
      StrLtTransitive(a, b, a);
      StrLtIrreflexive(a);
    }
  }
}
