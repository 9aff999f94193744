/** The per-division point thresholds of src/App.js: `computeThresholds`
    (minimum, average and maximum points at five marker positions) and
    `thresholdHistory` (the same marker points, season by season). */
module Thresholds {
  import opened Base
  import opened Text
  import opened JsInt
  import opened Sorting
  import opened Schema

  // ---------------------------------------------------------------------
  // Grouping the rows by season and division
  // ---------------------------------------------------------------------

  /** The key of a row's group: trimmed season and division joined by `|`. */
  function SeasonDivKey(r: StandingRecord): string {
    Trim(r.season) + "|" + Trim(r.division)
  }

  /** Whether a row is grouped at all: `thresholdHistory` skips rows whose
      trimmed season or division is empty, `computeThresholds` keeps all. */
  predicate Grouped(skipBlank: bool, r: StandingRecord) {
    !skipBlank || (Trim(r.season) != [] && Trim(r.division) != [])
  }

  function GroupedIn(skipBlank: bool): StandingRecord -> bool {
    (r: StandingRecord) => Grouped(skipBlank, r)
  }

  /** The keys of the grouping map in insertion order: the distinct keys of
      the grouped rows, in order of first occurrence. */
  function KeyOrder(rows: seq<StandingRecord>, skipBlank: bool): seq<string> {
    FirstSeen(rows, GroupedIn(skipBlank), SeasonDivKey)
  }

  /** The rows of one group, in input order. */
  function GroupOf(rows: seq<StandingRecord>, skipBlank: bool, k: string): seq<StandingRecord> {
    Members(rows, GroupedIn(skipBlank), SeasonDivKey, k)
  }

  /** The grouping loop of both views (`bySeasonDiv`): with `skipBlank` set,
      as in `thresholdHistory`, a row with an empty season or division is
      passed over. */
  method GroupBySeasonDivision(rows: seq<StandingRecord>, skipBlank: bool)
    returns (order: seq<string>, groups: map<string, seq<StandingRecord>>)
    ensures order == KeyOrder(rows, skipBlank)
    ensures forall k :: k in groups <==> k in order
    ensures forall k :: k in groups ==> groups[k] == GroupOf(rows, skipBlank, k) && groups[k] != []
  {
    order, groups := GroupInto(rows, GroupedIn(skipBlank), SeasonDivKey);
  }

  /** Every key splits back into the trimmed season and division when
      neither contains `|`. */
  lemma SeasonDivKeySplits(r: StandingRecord)
    requires '|' !in r.season && '|' !in r.division
    ensures SplitOn(SeasonDivKey(r), '|') == [Trim(r.season), Trim(r.division)]
  {
    TrimKeepsOut(r.season, '|');
    TrimKeepsOut(r.division, '|');
    SplitOnPair(Trim(r.season), Trim(r.division), '|');
  }

  // ---------------------------------------------------------------------
  // The row at each position
  // ---------------------------------------------------------------------

  /** `parseInt(r.position || 0, 10)`. */
  function PositionKey(r: StandingRecord): Option<int> {
    ParseIntOrZero(r.position)
  }

  /** The last row of `rows` whose parsed position is `p`: what `byPos`
      holds for `p`, since later rows overwrite earlier ones. */
  function LastAt(rows: seq<StandingRecord>, p: int): Option<StandingRecord> {
    LastWhere(rows, KeyedBy(PositionKey, p))
  }

  /** The `byPos` map: each row stored under its parsed position. A row whose
      position is NaN is stored under NaN in the source, a key no lookup
      asks for, so it is left out here. */
  method BuildByPos(rows: seq<StandingRecord>) returns (byPos: map<int, StandingRecord>)
    ensures forall p :: p in byPos <==> LastAt(rows, p).Some?
    ensures forall p :: p in byPos ==> byPos[p] == LastAt(rows, p).value
  {
    byPos := IndexLast(rows, PositionKey);
  }

  // ---------------------------------------------------------------------
  // Marker positions
  // ---------------------------------------------------------------------

  /** The five thresholds: a title, an automatic promotion place, a play-off
      place, survival from relegation and survival from the sack. */
  datatype Marker = Win | AutoPromo | Playoffs | AvoidReleg | AvoidSack

  function MarkerPosition(m: Marker): int {
    match m
    case Win => 1
    case AutoPromo => 3
    case Playoffs => 7
    case AvoidReleg => 16
    case AvoidSack => 17
  }

  /** The division test of each marker on a parsed division; NaN fails every
      comparison, so a marker with a range never applies to it. */
  predicate MarkerApplies(m: Marker, d: Option<int>) {
    match m
    case Win => true
    case AutoPromo => d.Some? && 2 <= d.value <= 5
    case Playoffs => d.Some? && 2 <= d.value <= 5
    case AvoidReleg => d.Some? && 1 <= d.value <= 4
    case AvoidSack => true
  }

  /** `key.split("|")[0]`, the season part of a group key. */
  function SeasonPart(key: string): string {
    SplitOn(key, '|')[0]
  }

  /** `key.split("|")[1]`, the division part; `undefined`, taken here as the
      empty string, when the key has no `|` (a key built by `SeasonDivKey`
      always has one). */
  function DivPart(key: string): string {
    var parts := SplitOn(key, '|');
    if |parts| >= 2 then parts[1] else ""
  }

  lemma DivPartOfKey(r: StandingRecord)
    requires '|' !in r.season && '|' !in r.division
    ensures SeasonPart(SeasonDivKey(r)) == Trim(r.season)
    ensures DivPart(SeasonDivKey(r)) == Trim(r.division)
  {
    SeasonDivKeySplits(r);
  }

  // ---------------------------------------------------------------------
  // computeThresholds
  // ---------------------------------------------------------------------

  /** A `Map` from division to the points pushed for it, as its key order
      and its contents. */
  datatype Acc = Acc(order: seq<string>, values: map<string, seq<int>>)

  /** What every accumulator filled by `Push` satisfies: the order lists
      each key once, and every list has an element. */
  ghost predicate ValidAcc(a: Acc) {
    && NoDups(a.order)
    && (forall d :: d in a.values <==> d in a.order)
    && (forall d :: d in a.values ==> a.values[d] != [])
  }

  /** `push(m, div, pts)`: nothing for an empty trimmed division, otherwise
      the division's list (created empty when new) gets `numeric(pts)`. */
  function Push(a: Acc, div: string, pts: string): (r: Acc)
    ensures ValidAcc(a) ==> ValidAcc(r)
    ensures Trim(div) == [] ==> r == a
    ensures Trim(div) != [] ==> r.values == a.values[Trim(div) := (if Trim(div) in a.values then a.values[Trim(div)] else []) + [Numeric(pts)]]
    ensures Trim(div) != [] ==> r.order == a.order + (if Trim(div) in a.values then [] else [Trim(div)])
  {
    var d := Trim(div);
    if d == [] then a
    else if d in a.values then Acc(a.order, a.values[d := a.values[d] + [Numeric(pts)]])
    else Acc(a.order + [d], a.values[d := [] + [Numeric(pts)]])
  }

  /** The row whose points the group with key `k` pushes for marker `m`:
      the row at the marker position, when the division part of the key
      passes the marker's test. */
  function MarkerRow(m: Marker, rows: seq<StandingRecord>, k: string): Option<StandingRecord> {
    if MarkerApplies(m, ParseIntOrZero(DivPart(k))) then LastAt(GroupOf(rows, false, k), MarkerPosition(m)) else None
  }

  /** The accumulator of marker `m` after the groups `keys`, in order. */
  function AccFor(m: Marker, rows: seq<StandingRecord>, keys: seq<string>): Acc {
    if keys == [] then Acc([], map[])
    else
      var prev := AccFor(m, rows, keys[..|keys| - 1]);
      var k := keys[|keys| - 1];
      match MarkerRow(m, rows, k)
      case None => prev
      case Some(r) => Push(prev, DivPart(k), r.points)
  }

  /** One of the five guarded pushes of a group, e.g. for `AutoPromo`: when
      the division is within 2 to 5 and `byPos` has position 3, the points
      of that row are pushed. */
  function MarkerStep(m: Marker, a: Acc, div: string, d: Option<int>, byPos: map<int, StandingRecord>): Acc {
    if MarkerApplies(m, d) && MarkerPosition(m) in byPos then Push(a, div, byPos[MarkerPosition(m)].points) else a
  }

  /** One group's push for marker `m`, read off its `byPos` map. */
  lemma AccForStep(m: Marker, rows: seq<StandingRecord>, order: seq<string>, j: nat, byPos: map<int, StandingRecord>)
    requires j < |order|
    requires forall p :: p in byPos <==> LastAt(GroupOf(rows, false, order[j]), p).Some?
    requires forall p :: p in byPos ==> byPos[p] == LastAt(GroupOf(rows, false, order[j]), p).value
    ensures AccFor(m, rows, order[..j + 1])
         == MarkerStep(m, AccFor(m, rows, order[..j]), DivPart(order[j]), ParseIntOrZero(DivPart(order[j])), byPos)
  {
    assert order[..j + 1][..j] == order[..j];
  }

  /** The `byPos` map of the group `order[j]`, with what it means for every
      marker's accumulator. */
  method GroupByPos(rows: seq<StandingRecord>, order: seq<string>, j: nat, group: seq<StandingRecord>)
    returns (byPos: map<int, StandingRecord>)
    requires j < |order| && group == GroupOf(rows, false, order[j])
    ensures forall m :: (AccFor(m, rows, order[..j + 1])
      == MarkerStep(m, AccFor(m, rows, order[..j]), DivPart(order[j]), ParseIntOrZero(DivPart(order[j])), byPos))
  {
    byPos := BuildByPos(group);
    forall m ensures AccFor(m, rows, order[..j + 1])
      == MarkerStep(m, AccFor(m, rows, order[..j]), DivPart(order[j]), ParseIntOrZero(DivPart(order[j])), byPos)
    {
      AccForStep(m, rows, order, j, byPos);
    }
  }

  method PushMarker(m: Marker, acc: map<Marker, Acc>, div: string, d: Option<int>, byPos: map<int, StandingRecord>)
    returns (acc': map<Marker, Acc>)
    requires m in acc
    ensures acc' == acc[m := MarkerStep(m, acc[m], div, d, byPos)]
  {
    var pos := MarkerPosition(m);
    if MarkerApplies(m, d) && pos in byPos {
      acc' := acc[m := Push(acc[m], div, byPos[pos].points)];
    } else {
      acc' := acc;
    }
  }

  /** The main loop of `computeThresholds`: for every group, its `byPos`
      map and the five guarded pushes into `acc`, one accumulator per
      marker. */
  method CollectMarkers(rows: seq<StandingRecord>, order: seq<string>, groups: map<string, seq<StandingRecord>>)
    returns (acc: map<Marker, Acc>)
    requires forall k :: k in order ==> k in groups && groups[k] == GroupOf(rows, false, k)
    ensures forall m :: m in acc && acc[m] == AccFor(m, rows, order)
  {
    var empty := Acc([], map[]);
    acc := map[Win := empty, AutoPromo := empty, Playoffs := empty, AvoidReleg := empty, AvoidSack := empty];
    var j := 0;
    forall m ensures m in acc && acc[m] == AccFor(m, rows, order[..j]) {
      assert order[..j] == [];
      match m
      case Win =>
      case AutoPromo =>
      case Playoffs =>
      case AvoidReleg =>
      case AvoidSack =>
    }
    while j < |order|
      invariant 0 <= j <= |order|
      invariant forall m :: m in acc && acc[m] == AccFor(m, rows, order[..j])
    {
      var key := order[j];
      var div := DivPart(key);
      var d := ParseIntOrZero(div);
      var byPos := GroupByPos(rows, order, j, groups[key]);
      ghost var acc0 := acc;
      acc := PushMarker(Win, acc, div, d, byPos);
      acc := PushMarker(AutoPromo, acc, div, d, byPos);
      acc := PushMarker(Playoffs, acc, div, d, byPos);
      acc := PushMarker(AvoidReleg, acc, div, d, byPos);
      acc := PushMarker(AvoidSack, acc, div, d, byPos);
      forall m ensures m in acc && acc[m] == AccFor(m, rows, order[..j + 1]) {
        assert AccFor(m, rows, order[..j + 1]) == MarkerStep(m, acc0[m], div, d, byPos);
        match m
        case Win =>
        case AutoPromo =>
        case Playoffs =>
        case AvoidReleg =>
        case AvoidSack =>
      }
      j := j + 1;
    }
    assert order[..j] == order;
  }

  // ---------------------------------------------------------------------
  // summarize
  // ---------------------------------------------------------------------

  /** One row of a threshold table; `avgTenths` is the average in tenths of
      a point (the source divides it by 10 for display). */
  datatype Summary = Summary(division: string, min: int, avgTenths: int, max: int, samples: nat)

  /** `Math.min(...xs)`. */
  function MinOf(xs: seq<int>): (r: int)
    requires xs != []
    ensures r in xs
    ensures forall i :: 0 <= i < |xs| ==> r <= xs[i]
  {
    if |xs| == 1 then xs[0]
    else
      var m := MinOf(xs[..|xs| - 1]);
      if xs[|xs| - 1] < m then xs[|xs| - 1] else m
  }

  /** `Math.max(...xs)`. */
  function MaxOf(xs: seq<int>): (r: int)
    requires xs != []
    ensures r in xs
    ensures forall i :: 0 <= i < |xs| ==> xs[i] <= r
  {
    if |xs| == 1 then xs[0]
    else
      var m := MaxOf(xs[..|xs| - 1]);
      if xs[|xs| - 1] > m then xs[|xs| - 1] else m
  }

  /** `xs.reduce((s, x) => s + x, 0)`. */
  function SumOf(xs: seq<int>): int {
    if xs == [] then 0 else SumOf(xs[..|xs| - 1]) + xs[|xs| - 1]
  }

  lemma {:induction false} SumOfBounds(xs: seq<int>, lo: int, hi: int)
    requires forall i :: 0 <= i < |xs| ==> lo <= xs[i] <= hi
    ensures |xs| * lo <= SumOf(xs) <= |xs| * hi
    decreases |xs|
  {
    if xs != [] {
      var n := |xs| - 1;
      SumOfBounds(xs[..n], lo, hi);
      assert |xs| * lo == n * lo + lo && |xs| * hi == n * hi + hi;
    }
  }

  /** `Math.round(mean * 10)` with `Math.round` rounding halves up: the
      mean in tenths, at most half a tenth away from the exact mean. */
  function AvgTenths(xs: seq<int>): (r: int)
    requires xs != []
    ensures 20 * SumOf(xs) - |xs| < 2 * |xs| * r <= 20 * SumOf(xs) + |xs|
  {
    var n := |xs|;
    var a := 20 * SumOf(xs) + n;
    var q := a / (2 * n);
    assert a == 2 * n * q + a % (2 * n);
    q
  }

  /** A positive multiple of a positive number has a positive factor. */
  lemma PositiveFactor(b: int, x: int)
    requires b > 0 && b * x > 0
    ensures x > 0
  {
  }

  /** The average lies between the minimum and the maximum. */
  lemma AvgTenthsBounds(xs: seq<int>)
    requires xs != []
    ensures 10 * MinOf(xs) <= AvgTenths(xs) <= 10 * MaxOf(xs)
  {
    var n := |xs|;
    var lo, hi, r := MinOf(xs), MaxOf(xs), AvgTenths(xs);
    SumOfBounds(xs, lo, hi);
    RoundedAboveMin(n, SumOf(xs), lo, r);
    RoundedBelowMax(n, SumOf(xs), hi, r);
  }

  lemma RoundedAboveMin(n: int, sum: int, lo: int, r: int)
    requires n > 0 && n * lo <= sum && 20 * sum - n < 2 * n * r
    ensures 10 * lo <= r
  {
    assert 2 * n * (r - 10 * lo + 1) == 2 * n * r - 20 * (n * lo) + 2 * n;
    PositiveFactor(2 * n, r - 10 * lo + 1);
  }

  lemma RoundedBelowMax(n: int, sum: int, hi: int, r: int)
    requires n > 0 && sum <= n * hi && 2 * n * r <= 20 * sum + n
    ensures r <= 10 * hi
  {
    assert 2 * n * (10 * hi - r + 1) == 20 * (n * hi) - 2 * n * r + 2 * n;
    PositiveFactor(2 * n, 10 * hi - r + 1);
  }

  function SummaryOf(div: string, xs: seq<int>): Summary
    requires xs != []
  {
    Summary(div, MinOf(xs), AvgTenths(xs), MaxOf(xs), |xs|)
  }

  /** The rows `summarize` pushes: one per division with a non-empty list,
      in the map's key order. */
  function Summaries(order: seq<string>, values: map<string, seq<int>>): seq<Summary> {
    if order == [] then []
    else
      var prev := Summaries(order[..|order| - 1], values);
      var d := order[|order| - 1];
      if d in values && values[d] != [] then prev + [SummaryOf(d, values[d])] else prev
  }

  /** `parseInt(a.division, 10) - parseInt(b.division, 10)`, NaN taken as 0. */
  function DivisionCmp(a: Summary, b: Summary): int {
    var x := ParseInt(a.division);
    var y := ParseInt(b.division);
    if x.Some? && y.Some? then x.value - y.value else 0
  }

  /** `summarize(m)`. */
  function Summarize(a: Acc): seq<Summary> {
    SortBy(Summaries(a.order, a.values), DivisionCmp)
  }

  method SummarizeAcc(a: Acc) returns (out: seq<Summary>)
    ensures out == Summarize(a)
  {
    out := [];
    var j := 0;
    while j < |a.order|
      invariant 0 <= j <= |a.order|
      invariant out == Summaries(a.order[..j], a.values)
    {
      var div := a.order[j];
      assert a.order[..j + 1][..j] == a.order[..j];
      if div in a.values && a.values[div] != [] {
        var arr := a.values[div];
        var min := MinOf(arr);
        var max := MaxOf(arr);
        var avg := AvgTenths(arr);
        out := out + [Summary(div, min, avg, max, |arr|)];
      }
      j := j + 1;
    }
    assert a.order[..j] == a.order;
    out := SortBy(out, DivisionCmp);
  }

  lemma {:induction false} SummariesMembers(order: seq<string>, values: map<string, seq<int>>, s: Summary)
    requires s in Summaries(order, values)
    ensures s.division in order && s.division in values && values[s.division] != []
    ensures s == SummaryOf(s.division, values[s.division])
    decreases |order|
  {
    var n := |order| - 1;
    var prev := Summaries(order[..n], values);
    if s in prev {
      SummariesMembers(order[..n], values, s);
    }
  }

  lemma {:induction false} SummariesCover(order: seq<string>, values: map<string, seq<int>>, d: string)
    requires d in order && d in values && values[d] != []
    ensures SummaryOf(d, values[d]) in Summaries(order, values)
    decreases |order|
  {
    var n := |order| - 1;
    if order[n] != d {
      assert d in order[..n];
      SummariesCover(order[..n], values, d);
    }
  }

  /** Every row of a threshold table: a division with at least one sample,
      its minimum, maximum and rounded average, the average between the
      two. */
  lemma SummaryRow(a: Acc, s: Summary)
    requires s in Summarize(a)
    ensures s.division in a.order && s.division in a.values
    ensures s.samples == |a.values[s.division]| >= 1
    ensures s.min == MinOf(a.values[s.division]) && s.max == MaxOf(a.values[s.division])
    ensures s.avgTenths == AvgTenths(a.values[s.division])
    ensures 10 * s.min <= s.avgTenths <= 10 * s.max
  {
    assert s in multiset(Summarize(a));
    SummariesMembers(a.order, a.values, s);
    AvgTenthsBounds(a.values[s.division]);
  }

  /** Every division of the accumulator has its row. */
  lemma SummaryCovers(a: Acc, d: string)
    requires ValidAcc(a) && d in a.order
    ensures SummaryOf(d, a.values[d]) in Summarize(a)
  {
    SummariesCover(a.order, a.values, d);
    assert SummaryOf(d, a.values[d]) in multiset(Summarize(a));
  }

  /** The division number of a row, when its division parses. */
  function DivisionKey(): Summary -> Option<int> {
    (x: Summary) => ParseInt(x.division)
  }

  /** When every division parses, the table is in ascending division order. */
  lemma SummarizeSorted(a: Acc)
    requires forall d :: d in a.order ==> ParseInt(d).Some?
    ensures AscendingKeys(Summarize(a), DivisionKey())
  {
    var s := Summaries(a.order, a.values);
    var key := DivisionKey();
    SummariesParse(a);
    forall x, y | x in s && y in s ensures DivisionCmp(x, y) == key(x).value - key(y).value {
    }
    SortedByKnownKey(s, DivisionCmp, key);
  }

  lemma SummariesParse(a: Acc)
    requires forall d :: d in a.order ==> ParseInt(d).Some?
    ensures forall x :: x in Summaries(a.order, a.values) ==> DivisionKey()(x).Some?
  {
    forall x | x in Summaries(a.order, a.values) ensures DivisionKey()(x).Some? {
      SummariesMembers(a.order, a.values, x);
    }
  }

  // ---------------------------------------------------------------------
  // What the accumulators hold
  // ---------------------------------------------------------------------

  lemma {:induction false} AccForValid(m: Marker, rows: seq<StandingRecord>, keys: seq<string>)
    ensures ValidAcc(AccFor(m, rows, keys))
    decreases |keys|
  {
    if keys != [] {
      AccForValid(m, rows, keys[..|keys| - 1]);
    }
  }

  /** `k` is a group key whose marker row exists, of division `d`. */
  predicate Contributes(m: Marker, rows: seq<StandingRecord>, k: string, d: string) {
    MarkerRow(m, rows, k).Some? && Trim(DivPart(k)) == d
  }

  /** The points group `k` pushes into the list of division `d`. */
  function PointsInto(m: Marker, rows: seq<StandingRecord>, d: string): string -> Option<int> {
    k => if Contributes(m, rows, k, d) && d != [] then Some(Numeric(MarkerRow(m, rows, k).value.points)) else None
  }

  /** The points pushed for division `d` by marker `m` over the groups
      `keys`, in group order. */
  function Pushed(m: Marker, rows: seq<StandingRecord>, keys: seq<string>, d: string): seq<int> {
    Present(keys, PointsInto(m, rows, d))
  }

  /** Each division's list in an accumulator is exactly the points of the
      groups of that division whose marker row exists, in group order;
      a division no group contributed to has no list. */
  lemma {:induction false} AccForPushed(m: Marker, rows: seq<StandingRecord>, keys: seq<string>, d: string)
    ensures var a := AccFor(m, rows, keys);
      (if d in a.values then a.values[d] else []) == Pushed(m, rows, keys, d)
    decreases |keys|
  {
    if keys != [] {
      var n := |keys| - 1;
      var k := keys[n];
      var prev := AccFor(m, rows, keys[..n]);
      AccForPushed(m, rows, keys[..n], d);
      var here := PointsInto(m, rows, d)(k);
      assert Pushed(m, rows, keys, d) == Pushed(m, rows, keys[..n], d) + (if here.Some? then [here.value] else []);
      match MarkerRow(m, rows, k)
      case None =>
        assert AccFor(m, rows, keys) == prev;
      case Some(r) =>
        assert AccFor(m, rows, keys) == Push(prev, DivPart(k), r.points);
        PushList(prev, DivPart(k), r.points, d);
    }
  }

  /** What `Push` does to the list of one division. */
  lemma PushList(a: Acc, div: string, pts: string, d: string)
    ensures var r := Push(a, div, pts);
      (if d in r.values then r.values[d] else [])
        == (if d in a.values then a.values[d] else []) + (if Trim(div) == d && d != [] then [Numeric(pts)] else [])
  {
  }

  /** A division has points exactly when one of its groups has a marker row. */
  lemma PushedNonEmpty(m: Marker, rows: seq<StandingRecord>, keys: seq<string>, d: string)
    requires d != []
    ensures Pushed(m, rows, keys, d) != [] <==> exists i :: 0 <= i < |keys| && Contributes(m, rows, keys[i], d)
  {
    PresentNonEmpty(keys, PointsInto(m, rows, d));
  }

  /** The row a marker row of group `k` comes from: a row of the input, in
      that group, at the marker position. */
  lemma MarkerRowOrigin(m: Marker, rows: seq<StandingRecord>, k: string)
    requires MarkerRow(m, rows, k).Some?
    ensures var r := MarkerRow(m, rows, k).value;
      r in rows && SeasonDivKey(r) == k && PositionKey(r) == Some(MarkerPosition(m))
      && MarkerApplies(m, ParseIntOrZero(DivPart(k)))
  {
    var r := MarkerRow(m, rows, k).value;
    var g := GroupOf(rows, false, k);
    MembersFilter(rows, GroupedIn(false), SeasonDivKey, k);
    assert r in g;
    assert InGroupBy(GroupedIn(false), SeasonDivKey, k)(r);
  }

  // ---------------------------------------------------------------------
  // computeThresholds
  // ---------------------------------------------------------------------

  /** The five tables `computeThresholds` returns. */
  datatype ThresholdTable = ThresholdTable(
    win: seq<Summary>, autoPromo: seq<Summary>, playoffs: seq<Summary>,
    avoidReleg: seq<Summary>, avoidSack: seq<Summary>)

  function TableOf(t: ThresholdTable, m: Marker): seq<Summary> {
    match m
    case Win => t.win
    case AutoPromo => t.autoPromo
    case Playoffs => t.playoffs
    case AvoidReleg => t.avoidReleg
    case AvoidSack => t.avoidSack
  }

  /** The tables of a list of rows, marker by marker. */
  function Thresholds(rows: seq<StandingRecord>): ThresholdTable {
    var keys := KeyOrder(rows, false);
    ThresholdTable(
      Summarize(AccFor(Win, rows, keys)), Summarize(AccFor(AutoPromo, rows, keys)),
      Summarize(AccFor(Playoffs, rows, keys)), Summarize(AccFor(AvoidReleg, rows, keys)),
      Summarize(AccFor(AvoidSack, rows, keys)))
  }

  /** `computeThresholds`: group, collect, summarize. */
  method ComputeThresholds(rows: seq<StandingRecord>) returns (t: ThresholdTable)
    ensures t == Thresholds(rows)
  {
    var order, groups := GroupBySeasonDivision(rows, false);
    var acc := CollectMarkers(rows, order, groups);
    var win := SummarizeAcc(acc[Win]);
    var autoPromo := SummarizeAcc(acc[AutoPromo]);
    var playoffs := SummarizeAcc(acc[Playoffs]);
    var avoidReleg := SummarizeAcc(acc[AvoidReleg]);
    var avoidSack := SummarizeAcc(acc[AvoidSack]);
    t := ThresholdTable(win, autoPromo, playoffs, avoidReleg, avoidSack);
  }

  lemma TableOfThresholds(rows: seq<StandingRecord>, m: Marker)
    ensures TableOf(Thresholds(rows), m) == Summarize(AccFor(m, rows, KeyOrder(rows, false)))
  {
  }

  /** Each row of a threshold table summarises the points of the marker
      rows of its division: the marker position's row in every season of
      that division that has one, in order of first appearance. The row
      has at least one sample and its average lies between its minimum
      and maximum. */
  lemma ThresholdRow(rows: seq<StandingRecord>, m: Marker, s: Summary)
    requires s in TableOf(Thresholds(rows), m)
    ensures var pts := Pushed(m, rows, KeyOrder(rows, false), s.division);
      && pts != [] && s.samples == |pts|
      && s.min == MinOf(pts) && s.max == MaxOf(pts) && s.avgTenths == AvgTenths(pts)
      && 10 * s.min <= s.avgTenths <= 10 * s.max
  {
    var keys := KeyOrder(rows, false);
    var a := AccFor(m, rows, keys);
    TableOfThresholds(rows, m);
    SummaryRow(a, s);
    AccForPushed(m, rows, keys, s.division);
  }

  /** Each row of a threshold table names a division in which some season
      has a row at the marker position, the division passing the marker's
      test. */
  lemma ThresholdRowOrigin(rows: seq<StandingRecord>, m: Marker, s: Summary)
    requires s in TableOf(Thresholds(rows), m)
    ensures exists i :: (0 <= i < |KeyOrder(rows, false)|
      && Contributes(m, rows, KeyOrder(rows, false)[i], s.division))
  {
    ThresholdRow(rows, m, s);
    PresentNonEmpty(KeyOrder(rows, false), PointsInto(m, rows, s.division));
  }

  /** Conversely, every group whose marker row exists, of a non-empty
      division, has its division summarised in the table. */
  lemma ThresholdCovers(rows: seq<StandingRecord>, m: Marker, i: nat)
    requires i < |KeyOrder(rows, false)|
    requires Contributes(m, rows, KeyOrder(rows, false)[i], Trim(DivPart(KeyOrder(rows, false)[i])))
    requires Trim(DivPart(KeyOrder(rows, false)[i])) != []
    ensures exists s :: s in TableOf(Thresholds(rows), m) && s.division == Trim(DivPart(KeyOrder(rows, false)[i]))
  {
    var keys := KeyOrder(rows, false);
    var d := Trim(DivPart(keys[i]));
    var a := AccFor(m, rows, keys);
    PushedNonEmpty(m, rows, keys, d);
    AccForPushed(m, rows, keys, d);
    AccForValid(m, rows, keys);
    SummaryCovers(a, d);
    TableOfThresholds(rows, m);
    assert SummaryOf(d, a.values[d]).division == d;
  }

  /** With no `|` in seasons and divisions, a table row's division is the
      trimmed division of an input row at the marker position. */
  lemma ThresholdRowFromRow(rows: seq<StandingRecord>, m: Marker, s: Summary)
    requires forall i :: 0 <= i < |rows| ==> '|' !in rows[i].season && '|' !in rows[i].division
    requires s in TableOf(Thresholds(rows), m)
    ensures exists r :: (r in rows && Trim(r.division) == s.division
      && PositionKey(r) == Some(MarkerPosition(m)) && MarkerApplies(m, ParseIntOrZero(Trim(r.division))))
  {
    var keys := KeyOrder(rows, false);
    ThresholdRowOrigin(rows, m, s);
    var i :| 0 <= i < |keys| && Contributes(m, rows, keys[i], s.division);
    MarkerRowOrigin(m, rows, keys[i]);
    var r := MarkerRow(m, rows, keys[i]).value;
    DivPartOfKey(r);
    TrimIdempotent(r.division);
  }

  // ---------------------------------------------------------------------
  // thresholdHistory
  // ---------------------------------------------------------------------

  /** One season's marker points in one division. */
  datatype HistoryPoint = HistoryPoint(season: string, division: string, points: int)

  /** The point group `k` adds to the history of marker `m`: the key's
      season and division parts, and the points of the row at the marker
      position, when the division passes the marker's test. The division
      is parsed here without a fallback to 0. */
  function HistoryRow(m: Marker, rows: seq<StandingRecord>, k: string): Option<HistoryPoint> {
    if MarkerApplies(m, ParseInt(DivPart(k))) then
      match LastAt(GroupOf(rows, true, k), MarkerPosition(m))
      case None => None
      case Some(r) => Some(HistoryPoint(SeasonPart(k), DivPart(k), Numeric(r.points)))
    else None
  }

  function HistoryRowIn(m: Marker, rows: seq<StandingRecord>): string -> Option<HistoryPoint> {
    k => HistoryRow(m, rows, k)
  }

  /** The history of marker `m` over the groups `keys`, in group order. */
  function HistoryFor(m: Marker, rows: seq<StandingRecord>, keys: seq<string>): seq<HistoryPoint> {
    Present(keys, HistoryRowIn(m, rows))
  }

  /** The five lists `thresholdHistory` returns. */
  datatype History = History(
    win: seq<HistoryPoint>, autoPromo: seq<HistoryPoint>, playoffs: seq<HistoryPoint>,
    avoidReleg: seq<HistoryPoint>, avoidSack: seq<HistoryPoint>)

  function HistoryOf(h: History, m: Marker): seq<HistoryPoint> {
    match m
    case Win => h.win
    case AutoPromo => h.autoPromo
    case Playoffs => h.playoffs
    case AvoidReleg => h.avoidReleg
    case AvoidSack => h.avoidSack
  }

  function Histories(rows: seq<StandingRecord>): History {
    var keys := KeyOrder(rows, true);
    History(
      HistoryFor(Win, rows, keys), HistoryFor(AutoPromo, rows, keys), HistoryFor(Playoffs, rows, keys),
      HistoryFor(AvoidReleg, rows, keys), HistoryFor(AvoidSack, rows, keys))
  }

  /** `push(arr, season, division, posRow)` behind the marker's guard. */
  function HistoryStep(m: Marker, season: string, division: string, d: Option<int>, byPos: map<int, StandingRecord>)
    : seq<HistoryPoint>
  {
    if MarkerApplies(m, d) && MarkerPosition(m) in byPos
    then [HistoryPoint(season, division, Numeric(byPos[MarkerPosition(m)].points))]
    else []
  }

  /** The `byPos` map of the group `order[j]` of the history, with what it
      means for every marker's list. */
  method HistoryByPos(rows: seq<StandingRecord>, order: seq<string>, j: nat, group: seq<StandingRecord>)
    returns (byPos: map<int, StandingRecord>)
    requires j < |order| && group == GroupOf(rows, true, order[j])
    ensures forall m :: (HistoryFor(m, rows, order[..j + 1])
      == HistoryFor(m, rows, order[..j])
        + HistoryStep(m, SeasonPart(order[j]), DivPart(order[j]), ParseInt(DivPart(order[j])), byPos))
  {
    byPos := BuildByPos(group);
    assert order[..j + 1][..j] == order[..j];
  }

  method PushPoint(m: Marker, out: map<Marker, seq<HistoryPoint>>, season: string, division: string,
                   d: Option<int>, byPos: map<int, StandingRecord>)
    returns (out': map<Marker, seq<HistoryPoint>>)
    requires m in out
    ensures out' == out[m := out[m] + HistoryStep(m, season, division, d, byPos)]
  {
    var pos := MarkerPosition(m);
    if MarkerApplies(m, d) && pos in byPos {
      out' := out[m := out[m] + [HistoryPoint(season, division, Numeric(byPos[pos].points))]];
    } else {
      out' := out[m := out[m] + []];
    }
  }

  /** `thresholdHistory`: group the rows with a season and a division, then
      for every group push each marker's point behind its guard. */
  method ThresholdHistory(rows: seq<StandingRecord>) returns (h: History)
    ensures h == Histories(rows)
  {
    var order, groups := GroupBySeasonDivision(rows, true);
    var out: map<Marker, seq<HistoryPoint>> :=
      map[Win := [], AutoPromo := [], Playoffs := [], AvoidReleg := [], AvoidSack := []];
    var j := 0;
    forall m ensures m in out && out[m] == HistoryFor(m, rows, order[..j]) {
      assert order[..j] == [];
      match m
      case Win =>
      case AutoPromo =>
      case Playoffs =>
      case AvoidReleg =>
      case AvoidSack =>
    }
    while j < |order|
      invariant 0 <= j <= |order|
      invariant forall m :: m in out && out[m] == HistoryFor(m, rows, order[..j])
    {
      var key := order[j];
      var season, division := SeasonPart(key), DivPart(key);
      var d := ParseInt(division);
      var byPos := HistoryByPos(rows, order, j, groups[key]);
      ghost var out0 := out;
      out := PushPoint(Win, out, season, division, d, byPos);
      out := PushPoint(AutoPromo, out, season, division, d, byPos);
      out := PushPoint(Playoffs, out, season, division, d, byPos);
      out := PushPoint(AvoidReleg, out, season, division, d, byPos);
      out := PushPoint(AvoidSack, out, season, division, d, byPos);
      forall m ensures m in out && out[m] == HistoryFor(m, rows, order[..j + 1]) {
        assert out0[m] == HistoryFor(m, rows, order[..j]);
        assert HistoryFor(m, rows, order[..j + 1])
            == HistoryFor(m, rows, order[..j]) + HistoryStep(m, season, division, d, byPos);
        assert m in out && out[m] == out0[m] + HistoryStep(m, season, division, d, byPos) by {
          match m
          case Win =>
          case AutoPromo =>
          case Playoffs =>
          case AvoidReleg =>
          case AvoidSack =>
        }
      }
      j := j + 1;
    }
    assert order[..j] == order;
    h := History(out[Win], out[AutoPromo], out[Playoffs], out[AvoidReleg], out[AvoidSack]);
  }

  /** The row behind a history point of group `k`: a row of the input with
      a season and a division, in that group, at the marker position. */
  lemma HistoryRowOrigin(m: Marker, rows: seq<StandingRecord>, k: string)
    requires HistoryRow(m, rows, k).Some?
    ensures var r := LastAt(GroupOf(rows, true, k), MarkerPosition(m)).value;
      && LastAt(GroupOf(rows, true, k), MarkerPosition(m)).Some?
      && r in rows && SeasonDivKey(r) == k && Trim(r.season) != [] && Trim(r.division) != []
      && PositionKey(r) == Some(MarkerPosition(m))
      && HistoryRow(m, rows, k).value == HistoryPoint(SeasonPart(k), DivPart(k), Numeric(r.points))
  {
    var g := GroupOf(rows, true, k);
    var r := LastAt(g, MarkerPosition(m)).value;
    MembersFilter(rows, GroupedIn(true), SeasonDivKey, k);
    assert r in g;
    assert InGroupBy(GroupedIn(true), SeasonDivKey, k)(r);
  }

  /** Every history point passes its marker's division test, and comes from
      an input row at the marker position: with no `|` in seasons and
      divisions, a row whose trimmed season and division are the point's,
      both non-empty, and whose points are the point's. */
  lemma HistoryPointOrigin(rows: seq<StandingRecord>, m: Marker, j: nat)
    requires j < |HistoryOf(Histories(rows), m)|
    ensures var p := HistoryOf(Histories(rows), m)[j];
      MarkerApplies(m, ParseInt(p.division))
    ensures var p := HistoryOf(Histories(rows), m)[j];
      (forall i :: 0 <= i < |rows| ==> '|' !in rows[i].season && '|' !in rows[i].division) ==>
      exists r :: (r in rows && Trim(r.season) == p.season && Trim(r.division) == p.division
        && p.season != [] && p.division != []
        && PositionKey(r) == Some(MarkerPosition(m)) && Numeric(r.points) == p.points)
  {
    var keys := KeyOrder(rows, true);
    var h := HistoryFor(m, rows, keys);
    assert HistoryOf(Histories(rows), m) == h;
    PresentFrom(keys, HistoryRowIn(m, rows), j);
    var i :| 0 <= i < |keys| && HistoryRow(m, rows, keys[i]) == Some(h[j]);
    HistoryRowOrigin(m, rows, keys[i]);
    var r := LastAt(GroupOf(rows, true, keys[i]), MarkerPosition(m)).value;
    if forall i :: 0 <= i < |rows| ==> '|' !in rows[i].season && '|' !in rows[i].division {
      DivPartOfKey(r);
    }
  }

  /** The group key a history point was read from. */
  function PointKey(p: HistoryPoint): string {
    p.season + "|" + p.division
  }

  /** With no `|` in seasons and divisions, a marker's history has at most
      one point per season and division. */
  lemma HistoryDistinct(rows: seq<StandingRecord>, m: Marker)
    requires forall i :: 0 <= i < |rows| ==> '|' !in rows[i].season && '|' !in rows[i].division
    ensures NoDups(MapSeq(HistoryOf(Histories(rows), m), PointKey))
  {
    var keys := KeyOrder(rows, true);
    var f := HistoryRowIn(m, rows);
    FirstSeenNoDups(rows, GroupedIn(true), SeasonDivKey);
    forall i | 0 <= i < |keys| && f(keys[i]).Some? ensures PointKey(f(keys[i]).value) == keys[i] {
      HistoryRowOrigin(m, rows, keys[i]);
      var r := LastAt(GroupOf(rows, true, keys[i]), MarkerPosition(m)).value;
      DivPartOfKey(r);
    }
    PresentDistinctBy(keys, f, PointKey);
    assert HistoryOf(Histories(rows), m) == HistoryFor(m, rows, keys);
  }
}
