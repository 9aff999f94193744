/** The data behind each threshold chart of src/Charts.js: the history of
    one marker pivoted into one point per season, with one line per
    division, and the list of the lines drawn. */
module ChartPivot {
  import opened Base
  import opened JsInt
  import opened Sorting
  import opened Tally
  import opened Thresholds

  /** `D${r.division}`: the data key of a division's line. */
  function LineKey(p: HistoryPoint): string {
    "D" + p.division
  }

  /** One point of the chart: its season and the value of each line there.
      A value is `parseInt` of the decimal rendering of an integer number of
      points, which is that integer (`JsInt.ParseDecimalRoundTrip`), so the
      values are integers. */
  datatype ChartPoint = ChartPoint(season: string, values: map<string, int>)

  function SeasonOf(p: HistoryPoint): string {
    p.season
  }

  /** Every history point opens or updates the point of its season. */
  function EveryPoint(): HistoryPoint -> bool {
    (p: HistoryPoint) => true
  }

  /** The line values that the points `t` leave on the point of season `s`:
      each point of that season sets the value of its line. */
  function ValuesOf(t: seq<HistoryPoint>, s: string): map<string, int> {
    if t == [] then map[]
    else
      var p := t[|t| - 1];
      var prev := ValuesOf(t[..|t| - 1], s);
      if p.season == s then prev[LineKey(p) := p.points] else prev
  }

  function PointOf(t: seq<HistoryPoint>): string -> ChartPoint {
    (s: string) => ChartPoint(s, ValuesOf(t, s))
  }

  /** `(a, b) => parseInt(a.season) - parseInt(b.season)`, NaN taken as 0. */
  function SeasonAsc(a: ChartPoint, b: ChartPoint): int {
    var x, y := ParseInt(a.season), ParseInt(b.season);
    if x.Some? && y.Some? then x.value - y.value else 0
  }

  /** What `buildData(rows)` returns. */
  function Pivot(t: seq<HistoryPoint>): seq<ChartPoint> {
    SortBy(MapSeq(FirstSeen(t, EveryPoint(), SeasonOf), PointOf(t)), SeasonAsc)
  }

  /** The values of all seasons after the points `t`, as the `Map` holds them. */
  ghost predicate PivotedAs(t: seq<HistoryPoint>, order: seq<string>, bySeason: map<string, map<string, int>>) {
    && order == FirstSeen(t, EveryPoint(), SeasonOf)
    && (forall s :: s in bySeason <==> s in order)
    && (forall s :: s in bySeason ==> bySeason[s] == ValuesOf(t, s))
  }

  lemma PivotStep(t: seq<HistoryPoint>, p: HistoryPoint, order: seq<string>,
                  bySeason: map<string, map<string, int>>)
    requires PivotedAs(t, order, bySeason)
    ensures var s := p.season;
      var old_ := if s in bySeason then bySeason[s] else map[];
      PivotedAs(t + [p], if s in bySeason then order else order + [s],
                bySeason[s := old_[LineKey(p) := p.points]])
  {
    var u := t + [p];
    assert u[..|t|] == t;
    FirstSeenStep(u, |t|, EveryPoint(), SeasonOf);
    assert u[..|t| + 1] == u;
    var s := p.season;
    if s !in bySeason {
      assert s !in order;
      ValuesOfAbsent(t, s);
    }
  }

  /** A season that no point has holds no values. */
  lemma {:induction false} ValuesOfAbsent(t: seq<HistoryPoint>, s: string)
    requires s !in FirstSeen(t, EveryPoint(), SeasonOf)
    ensures ValuesOf(t, s) == map[]
    decreases |t|
  {
    if t != [] {
      var n := |t| - 1;
      FirstSeenStep(t, n, EveryPoint(), SeasonOf);
      assert t[..n + 1] == t;
      ValuesOfAbsent(t[..n], s);
    }
  }

  /** `buildData`: one object per season in a `Map`, each point writing the
      value of its line on its season's object; the objects are then sorted
      by season. */
  method BuildData(t: seq<HistoryPoint>) returns (data: seq<ChartPoint>)
    ensures data == Pivot(t)
  {
    var order, bySeason := FillSeasons(t);
    var entries: seq<ChartPoint> := [];
    var j := 0;
    while j < |order|
      invariant 0 <= j <= |order|
      invariant entries == MapSeq(order[..j], PointOf(t))
    {
      entries := entries + [ChartPoint(order[j], bySeason[order[j]])];
      j := j + 1;
    }
    assert order[..j] == order;
    data := SortBy(entries, SeasonAsc);
  }

  /** The `forEach` of `buildData` that fills the `Map` of seasons: the key
      order of the `Map` and the objects it holds. */
  method FillSeasons(t: seq<HistoryPoint>) returns (order: seq<string>, bySeason: map<string, map<string, int>>)
    ensures PivotedAs(t, order, bySeason)
  {
    order := [];
    bySeason := map[];
    var i := 0;
    assert t[..i] == [];
    while i < |t|
      invariant 0 <= i <= |t|
      invariant PivotedAs(t[..i], order, bySeason)
    {
      var p := t[i];
      var season := p.season;
      var div := "D" + p.division;
      var parsed := ParseInt(Decimal(p.points));
      assert parsed == Some(p.points) by {
        ParseDecimalRoundTrip(p.points);
      }
      ghost var prefix := t[..i];
      ghost var order' := if season in bySeason then order else order + [season];
      ghost var values := if season in bySeason then bySeason[season] else map[];
      ghost var bySeason' := bySeason[season := values[LineKey(p) := p.points]];
      assert PivotedAs(prefix + [p], order', bySeason') by {
        PivotStep(prefix, p, order, bySeason);
      }
      assert t[..i + 1] == prefix + [p] by {
        PrefixSnoc(t, i);
      }
      ghost var before := bySeason;
      if season !in bySeason {
        order := order + [season];
        bySeason := bySeason[season := map[]];
      }
      bySeason := bySeason[season := bySeason[season][div := parsed.value]];
      assert bySeason == bySeason' by {
        if season !in before {
          SetTwice(before, season, map[], values[LineKey(p) := p.points]);
        }
      }
      assert order == order';
      i := i + 1;
      assert PivotedAs(t[..i], order', bySeason');
    }
    assert t[..i] == t;
  }

  lemma SetTwice<K, V>(m: map<K, V>, k: K, a: V, b: V)
    ensures m[k := a][k := b] == m[k := b]
  {
  }

  /** The points of season `s` on the line `k`. */
  function OnLine(s: string, k: string): HistoryPoint -> bool {
    (p: HistoryPoint) => p.season == s && LineKey(p) == k
  }

  /** A line has a value at a season exactly when some point of that season
      is on that line, and the value is the points of the last such point:
      later points overwrite earlier ones. */
  lemma {:induction false} ValuesOfLast(t: seq<HistoryPoint>, s: string, k: string)
    ensures k in ValuesOf(t, s) <==> exists i :: 0 <= i < |t| && t[i].season == s && LineKey(t[i]) == k
    ensures k in ValuesOf(t, s) ==> ValuesOf(t, s)[k] == LastWhere(t, OnLine(s, k)).value.points
    decreases |t|
  {
    if t != [] {
      var n := |t| - 1;
      var p := t[n];
      ValuesOfLast(t[..n], s, k);
      if exists i :: 0 <= i < |t| && t[i].season == s && LineKey(t[i]) == k {
        var i :| 0 <= i < |t| && t[i].season == s && LineKey(t[i]) == k;
        if i < n {
          assert t[..n][i] == t[i];
        }
      }
      if exists i :: 0 <= i < n && t[..n][i].season == s && LineKey(t[..n][i]) == k {
        var i :| 0 <= i < n && t[..n][i].season == s && LineKey(t[..n][i]) == k;
        assert t[i] == t[..n][i];
      }
    }
  }

  /** The points before sorting: one per season, in order of first appearance. */
  function Unsorted(t: seq<HistoryPoint>): seq<ChartPoint> {
    MapSeq(FirstSeen(t, EveryPoint(), SeasonOf), PointOf(t))
  }

  /** The chart has one point per season of the history, each season once. */
  lemma PivotSeasons(t: seq<HistoryPoint>)
    ensures var d := Pivot(t);
      && (forall j, k :: 0 <= j < k < |d| ==> d[j].season != d[k].season)
      && (forall j :: 0 <= j < |d| ==> exists i :: 0 <= i < |t| && t[i].season == d[j].season)
      && (forall i :: 0 <= i < |t| ==> exists j :: 0 <= j < |d| && d[j].season == t[i].season)
  {
    assert Pivot(t) == SortBy(Unsorted(t), SeasonAsc);
    PermutedSeasons(t, Pivot(t));
  }

  /** Any reordering of the unsorted points has the seasons of the history,
      each once. */
  lemma PermutedSeasons(t: seq<HistoryPoint>, d: seq<ChartPoint>)
    requires multiset(d) == multiset(Unsorted(t))
    ensures forall j, k :: 0 <= j < k < |d| ==> d[j].season != d[k].season
    ensures forall j :: 0 <= j < |d| ==> exists i :: 0 <= i < |t| && t[i].season == d[j].season
    ensures forall i :: 0 <= i < |t| ==> exists j :: 0 <= j < |d| && d[j].season == t[i].season
  {
    var seasons := FirstSeen(t, EveryPoint(), SeasonOf);
    var e := Unsorted(t);
    FirstSeenNoDups(t, EveryPoint(), SeasonOf);
    assert NoDups(e) by {
      forall a, b | 0 <= a < b < |e| ensures e[a] != e[b] {
        assert e[a].season == seasons[a] && e[b].season == seasons[b];
      }
    }
    PermutationNoDups(e, d);
    forall j | 0 <= j < |d| ensures exists a :: 0 <= a < |e| && e[a] == d[j] {
      assert d[j] in multiset(d);
    }
    forall j, k | 0 <= j < k < |d| ensures d[j].season != d[k].season {
      var a :| 0 <= a < |e| && e[a] == d[j];
      var b :| 0 <= b < |e| && e[b] == d[k];
      assert d[j] == PointOf(t)(seasons[a]) && d[k] == PointOf(t)(seasons[b]);
    }
    forall j | 0 <= j < |d| ensures exists i :: 0 <= i < |t| && t[i].season == d[j].season {
      var a :| 0 <= a < |e| && e[a] == d[j];
      FirstSeenMembers(t, EveryPoint(), SeasonOf, seasons[a]);
    }
    forall i | 0 <= i < |t| ensures exists j :: 0 <= j < |d| && d[j].season == t[i].season {
      FirstSeenMembers(t, EveryPoint(), SeasonOf, t[i].season);
      var a :| 0 <= a < |seasons| && seasons[a] == t[i].season;
      assert e[a] in multiset(d);
      var j :| 0 <= j < |d| && d[j] == e[a];
    }
  }

  /** Each point of the chart carries the values its season's history
      points leave: per line, the points of the last of them. */
  lemma PivotValues(t: seq<HistoryPoint>, j: nat, k: string)
    requires j < |Pivot(t)|
    ensures var c := Pivot(t)[j];
      && (k in c.values <==> exists i :: 0 <= i < |t| && t[i].season == c.season && LineKey(t[i]) == k)
      && (k in c.values ==> c.values[k] == LastWhere(t, OnLine(c.season, k)).value.points)
  {
    var d := Pivot(t);
    assert d == SortBy(Unsorted(t), SeasonAsc);
    PermutedValues(t, d, j);
    ValuesOfLast(t, d[j].season, k);
  }

  lemma PermutedValues(t: seq<HistoryPoint>, d: seq<ChartPoint>, j: nat)
    requires multiset(d) == multiset(Unsorted(t)) && j < |d|
    ensures d[j].values == ValuesOf(t, d[j].season)
  {
    var e := Unsorted(t);
    assert d[j] in multiset(d);
    var a :| 0 <= a < |e| && e[a] == d[j];
  }

  /** `parseInt(season)`. */
  function SeasonValue(c: ChartPoint): Option<int> {
    ParseInt(c.season)
  }

  /** When every season parses, the points come in ascending season order. */
  lemma PivotSorted(t: seq<HistoryPoint>)
    requires forall i :: 0 <= i < |t| ==> ParseInt(t[i].season).Some?
    ensures AscendingKeys(Pivot(t), SeasonValue)
  {
    var e := Unsorted(t);
    forall c | c in e ensures SeasonValue(c).Some? {
      var a :| 0 <= a < |e| && e[a] == c;
      FirstSeenMembers(t, EveryPoint(), SeasonOf, c.season);
    }
    forall a, b | a in e && b in e ensures SeasonAsc(a, b) == SeasonValue(a).value - SeasonValue(b).value {
    }
    SortedByKnownKey(e, SeasonAsc, SeasonValue);
  }

  /** `[...new Set(rows.map((r) => `D${r.division}`))].sort()`. */
  function Lines(t: seq<HistoryPoint>): seq<string> {
    SortBy(Distinct(MapSeq(t, LineKey)), StrCmp)
  }

  /** The lines are the distinct line keys of the history, in strictly
      ascending code-point order. */
  lemma LinesFacts(t: seq<HistoryPoint>)
    ensures var ls := Lines(t);
      && (forall k :: k in ls <==> exists i :: 0 <= i < |t| && LineKey(t[i]) == k)
      && (forall a, b :: 0 <= a < b < |ls| ==> StrLt(ls[a], ls[b]))
  {
    var ks := MapSeq(t, LineKey);
    var d := Distinct(ks);
    var ls := Lines(t);
    forall k ensures k in ls <==> k in d {
      assert k in ls <==> k in multiset(ls);
      assert k in d <==> k in multiset(d);
    }
    forall k ensures k in d <==> exists i :: 0 <= i < |t| && LineKey(t[i]) == k {
      DistinctMembers(ks, k);
      if k in d {
        var a :| 0 <= a < |ks| && ks[a] == k;
      }
    }
    DistinctNoDups(ks);
    PermutationNoDups(d, ls);
    StrCmpConsistent(d);
    SortBySorted(d, StrCmp);
    forall a, b | 0 <= a < b < |ls| ensures StrLt(ls[a], ls[b]) {
      assert StrCmp(ls[a], ls[b]) <= 0 && ls[a] != ls[b];
    }
  }

  /** The order of the lines is textual, not numeric: division 10 is drawn
      before division 2. */
  lemma LinesTextualOrder()
    ensures StrLt("D10", "D2")
  {
    assert "D10"[1..] == "10" && "D2"[1..] == "2";
  }
}
