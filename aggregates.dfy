/** The standings views of src/App.js built from all the records: the
    filtered and sorted table, the leader boards and the single-row
    records. */
module Aggregates {
  import opened Base
  import opened Text
  import opened JsInt
  import opened Sorting
  import opened Classify
  import opened Names
  import opened Schema
  import opened Tally
  import opened Presentation

  // ---------------------------------------------------------------------
  // getFilteredData
  // ---------------------------------------------------------------------

  /** The orders `getFilteredData` knows; any other name sorts by position. */
  datatype SortOrder = ByPoints | ByTeam | ByManager | ByDivision | ByPosition

  function SortOrderOf(name: string): (o: SortOrder)
    ensures name == "points" <==> o == ByPoints
    ensures name == "team" <==> o == ByTeam
    ensures name == "manager" <==> o == ByManager
    ensures name == "division" <==> o == ByDivision
  {
    if name == "points" then ByPoints
    else if name == "team" then ByTeam
    else if name == "manager" then ByManager
    else if name == "division" then ByDivision
    else ByPosition
  }

  /** `a - b` on two `parseInt` readings; NaN (either reading absent) makes
      the comparator answer NaN, which `sort` takes as 0. */
  function Diff(a: Option<int>, b: Option<int>): int {
    if a.Some? && b.Some? then a.value - b.value else 0
  }

  function PointsDesc(a: StandingRecord, b: StandingRecord): int {
    Numeric(b.points) - Numeric(a.points)
  }

  function TeamAsc(a: StandingRecord, b: StandingRecord): int {
    StrCmp(a.team, b.team)
  }

  function ManagerAsc(a: StandingRecord, b: StandingRecord): int {
    StrCmp(a.manager, b.manager)
  }

  function PositionAsc(a: StandingRecord, b: StandingRecord): int {
    Diff(ParseIntOrZero(a.position), ParseIntOrZero(b.position))
  }

  /** Division first, then position; a NaN division difference is NaN. */
  function DivisionAsc(a: StandingRecord, b: StandingRecord): int {
    var da := ParseIntOrZero(a.division);
    var db := ParseIntOrZero(b.division);
    if da.None? || db.None? then 0
    else if da.value - db.value != 0 then da.value - db.value
    else PositionAsc(a, b)
  }

  /** The comparator `sortOrder` selects. */
  function OrderCmp(o: SortOrder, a: StandingRecord, b: StandingRecord): int {
    match o
    case ByPoints => PointsDesc(a, b)
    case ByTeam => TeamAsc(a, b)
    case ByManager => ManagerAsc(a, b)
    case ByDivision => DivisionAsc(a, b)
    case ByPosition => PositionAsc(a, b)
  }

  function Comparator(o: SortOrder): (StandingRecord, StandingRecord) -> int {
    (a: StandingRecord, b: StandingRecord) => OrderCmp(o, a, b)
  }

  /** A filter value: the empty string (or `null`) selects everything. */
  predicate Matches(field: string, wanted: string) {
    wanted == [] || Trim(field) == Trim(wanted)
  }

  function InSeason(season: string): StandingRecord -> bool {
    (r: StandingRecord) => Matches(r.season, season)
  }

  function InDivision(division: string): StandingRecord -> bool {
    (r: StandingRecord) => Matches(r.division, division)
  }

  /** The rows that pass both filters, in input order. */
  function Selected(rows: seq<StandingRecord>, season: string, division: string): seq<StandingRecord> {
    Filter(Filter(rows, InSeason(season)), InDivision(division))
  }

  /** `getFilteredData(season, division, sortOrder)`. */
  function FilteredData(rows: seq<StandingRecord>, season: string, division: string, o: SortOrder): seq<StandingRecord> {
    SortBy(Selected(rows, season, division), Comparator(o))
  }

  /** The result holds exactly the rows that pass the filters, each as often
      as in the input. */
  lemma FilteredDataSelects(rows: seq<StandingRecord>, season: string, division: string, o: SortOrder)
    ensures multiset(FilteredData(rows, season, division, o)) == multiset(Selected(rows, season, division))
    ensures forall r :: r in FilteredData(rows, season, division, o) ==>
      r in rows && Matches(r.season, season) && Matches(r.division, division)
  {
    var f := FilteredData(rows, season, division, o);
    forall r | r in f ensures r in rows && Matches(r.season, season) && Matches(r.division, division) {
      assert r in multiset(f);
      assert r in Selected(rows, season, division);
    }
  }

  /** Every row of `rows` that passes the filters is in the result. */
  lemma FilteredDataComplete(rows: seq<StandingRecord>, season: string, division: string, o: SortOrder, i: nat)
    requires i < |rows| && Matches(rows[i].season, season) && Matches(rows[i].division, division)
    ensures rows[i] in FilteredData(rows, season, division, o)
  {
    var once := Filter(rows, InSeason(season));
    assert rows[i] in once;
    var j :| 0 <= j < |once| && once[j] == rows[i];
    assert rows[i] in Selected(rows, season, division);
    assert rows[i] in multiset(FilteredData(rows, season, division, o));
  }

  /** By points: most points first. */
  lemma FilteredByPointsOrdered(rows: seq<StandingRecord>, season: string, division: string)
    ensures var f := FilteredData(rows, season, division, ByPoints);
      forall i, j :: 0 <= i < j < |f| ==> Numeric(f[i].points) >= Numeric(f[j].points)
  {
    var s := Selected(rows, season, division);
    var f := FilteredData(rows, season, division, ByPoints);
    ConsistentByIntKey(s, Comparator(ByPoints), (r: StandingRecord) => -Numeric(r.points));
    SortBySorted(s, Comparator(ByPoints));
    forall i, j | 0 <= i < j < |f| ensures Numeric(f[i].points) >= Numeric(f[j].points) {
      assert Comparator(ByPoints)(f[i], f[j]) <= 0;
    }
  }

  /** Ordering by a name field is consistent: code-point order is total. */
  lemma NameOrderConsistent(s: seq<StandingRecord>, o: SortOrder)
    requires o == ByTeam || o == ByManager
    ensures Consistent(s, Comparator(o))
  {
    var cmp := Comparator(o);
    var name := (r: StandingRecord) => if o == ByTeam then r.team else r.manager;
    forall a, b ensures cmp(a, b) == StrCmp(name(a), name(b)) {
    }
    forall a, b, c | cmp(a, b) <= 0 && cmp(b, c) <= 0 ensures cmp(a, c) <= 0 {
      StrCmpTransitive(name(a), name(b), name(c));
    }
    forall a, b ensures cmp(a, b) <= 0 || cmp(b, a) <= 0 {
      StrLtTotal(name(a), name(b));
    }
  }

  /** By team: ascending team names, in code-point order. */
  lemma FilteredByTeamOrdered(rows: seq<StandingRecord>, season: string, division: string)
    ensures var f := FilteredData(rows, season, division, ByTeam);
      forall i, j :: 0 <= i < j < |f| ==> f[i].team == f[j].team || StrLt(f[i].team, f[j].team)
  {
    var s := Selected(rows, season, division);
    var f := FilteredData(rows, season, division, ByTeam);
    NameOrderConsistent(s, ByTeam);
    SortBySorted(s, Comparator(ByTeam));
    forall i, j | 0 <= i < j < |f| ensures f[i].team == f[j].team || StrLt(f[i].team, f[j].team) {
      assert Comparator(ByTeam)(f[i], f[j]) <= 0;
    }
  }

  /** By manager: ascending manager names, in code-point order. */
  lemma FilteredByManagerOrdered(rows: seq<StandingRecord>, season: string, division: string)
    ensures var f := FilteredData(rows, season, division, ByManager);
      forall i, j :: 0 <= i < j < |f| ==> f[i].manager == f[j].manager || StrLt(f[i].manager, f[j].manager)
  {
    var s := Selected(rows, season, division);
    var f := FilteredData(rows, season, division, ByManager);
    NameOrderConsistent(s, ByManager);
    SortBySorted(s, Comparator(ByManager));
    forall i, j | 0 <= i < j < |f| ensures f[i].manager == f[j].manager || StrLt(f[i].manager, f[j].manager) {
      assert Comparator(ByManager)(f[i], f[j]) <= 0;
    }
  }

  /** The `parseInt` reading of a position, 0 when it is NaN. */
  function PositionNumber(r: StandingRecord): int {
    ParseIntOrZero(r.position).GetOr(0)
  }

  function DivisionNumber(r: StandingRecord): int {
    ParseIntOrZero(r.division).GetOr(0)
  }

  /** Every position (and, for `withDivision`, every division) parses. */
  ghost predicate AllParse(s: seq<StandingRecord>, withDivision: bool) {
    forall r :: r in s ==> ParseIntOrZero(r.position).Some? && (withDivision ==> ParseIntOrZero(r.division).Some?)
  }

  lemma PositionCmp(a: StandingRecord, b: StandingRecord)
    requires ParseIntOrZero(a.position).Some? && ParseIntOrZero(b.position).Some?
    ensures Comparator(ByPosition)(a, b) == PositionNumber(a) - PositionNumber(b)
  {
  }

  lemma DivisionCmp(a: StandingRecord, b: StandingRecord)
    requires ParseIntOrZero(a.position).Some? && ParseIntOrZero(b.position).Some?
    requires ParseIntOrZero(a.division).Some? && ParseIntOrZero(b.division).Some?
    ensures Comparator(ByDivision)(a, b)
         == if DivisionNumber(a) != DivisionNumber(b) then DivisionNumber(a) - DivisionNumber(b)
            else PositionNumber(a) - PositionNumber(b)
  {
  }

  /** Sorting keeps the rows, so every row of the result parses too. */
  lemma AllParseSorted(s: seq<StandingRecord>, o: SortOrder, withDivision: bool)
    requires AllParse(s, withDivision)
    ensures AllParse(SortBy(s, Comparator(o)), withDivision)
  {
    var f := SortBy(s, Comparator(o));
    forall r | r in f ensures ParseIntOrZero(r.position).Some? && (withDivision ==> ParseIntOrZero(r.division).Some?) {
      assert r in multiset(f);
    }
  }

  /** By position: ascending, provided every selected position parses (a
      NaN position makes the comparator inconsistent). */
  lemma FilteredByPositionOrdered(rows: seq<StandingRecord>, season: string, division: string)
    requires AllParse(Selected(rows, season, division), false)
    ensures var f := FilteredData(rows, season, division, ByPosition);
      forall i, j :: 0 <= i < j < |f| ==> PositionNumber(f[i]) <= PositionNumber(f[j])
  {
    var s := Selected(rows, season, division);
    var f := FilteredData(rows, season, division, ByPosition);
    var cmp := Comparator(ByPosition);
    forall a, b | a in s && b in s ensures cmp(a, b) == PositionNumber(a) - PositionNumber(b) {
      PositionCmp(a, b);
    }
    ConsistentByIntKey(s, cmp, PositionNumber);
    SortBySorted(s, cmp);
    AllParseSorted(s, ByPosition, false);
    forall i, j | 0 <= i < j < |f| ensures PositionNumber(f[i]) <= PositionNumber(f[j]) {
      assert f[i] in f && f[j] in f;
      PositionCmp(f[i], f[j]);
    }
  }

  lemma DivisionOrderConsistent(s: seq<StandingRecord>)
    requires AllParse(s, true)
    ensures Consistent(s, Comparator(ByDivision))
  {
    forall a, b | a in s && b in s {
      DivisionCmp(a, b);
    }
  }

  /** By division, then position within a division, provided every selected
      division and position parses. */
  lemma FilteredByDivisionOrdered(rows: seq<StandingRecord>, season: string, division: string)
    requires AllParse(Selected(rows, season, division), true)
    ensures var f := FilteredData(rows, season, division, ByDivision);
      forall i, j :: 0 <= i < j < |f| ==>
        DivisionNumber(f[i]) < DivisionNumber(f[j])
        || (DivisionNumber(f[i]) == DivisionNumber(f[j]) && PositionNumber(f[i]) <= PositionNumber(f[j]))
  {
    var s := Selected(rows, season, division);
    var f := FilteredData(rows, season, division, ByDivision);
    var cmp := Comparator(ByDivision);
    DivisionOrderConsistent(s);
    SortBySorted(s, cmp);
    AllParseSorted(s, ByDivision, true);
    forall i, j | 0 <= i < j < |f|
      ensures DivisionNumber(f[i]) < DivisionNumber(f[j])
        || (DivisionNumber(f[i]) == DivisionNumber(f[j]) && PositionNumber(f[i]) <= PositionNumber(f[j]))
    {
      assert f[i] in f && f[j] in f;
      DivisionCmp(f[i], f[j]);
    }
  }

  /** Rows with equal points keep their input order (the sort is stable). */
  lemma FilteredByPointsStable(rows: seq<StandingRecord>, season: string, division: string, k: StandingRecord)
    requires k in Selected(rows, season, division)
    ensures Filter(FilteredData(rows, season, division, ByPoints), TiedTo(Comparator(ByPoints), k))
         == Filter(Selected(rows, season, division), TiedTo(Comparator(ByPoints), k))
  {
    var s := Selected(rows, season, division);
    ConsistentByIntKey(s, Comparator(ByPoints), (r: StandingRecord) => -Numeric(r.points));
    SortByStable(s, Comparator(ByPoints), k, s);
  }

  // ---------------------------------------------------------------------
  // leaders
  // ---------------------------------------------------------------------

  predicate IsTitleRow(r: StandingRecord) {
    IsChampion(r.position)
  }

  predicate IsRelegatedRow(r: StandingRecord) {
    IsRelegated(r.division, r.position)
  }

  predicate IsSackedRow(r: StandingRecord) {
    IsAutoSacked(r.position)
  }

  /** A promotion: an automatic one, or a play-off place whose team is in
      the winners set under the row's key. */
  predicate Promoted(winners: Option<set<string>>, r: StandingRecord) {
    IsAutoPromo(r.division, r.position)
    || (IsPlayoffBand(r.division, r.position) && WonPlayoff(r.season, r.division, r.team, winners))
  }

  function PromotedIn(winners: Option<set<string>>): StandingRecord -> bool {
    (r: StandingRecord) => Promoted(winners, r)
  }

  /** The promotions loop of `leaders`: an automatic promotion is pushed and
      the loop moves on (the `continue`, written here as `else`); otherwise a
      winning play-off place is pushed. */
  method Promotions(rows: seq<StandingRecord>, winners: Option<set<string>>) returns (promos: seq<StandingRecord>)
    ensures promos == Filter(rows, PromotedIn(winners))
  {
    promos := [];
    var i := 0;
    while i < |rows|
      invariant 0 <= i <= |rows|
      invariant promos == Filter(rows[..i], PromotedIn(winners))
    {
      var r := rows[i];
      FilterSnocAt(rows, i, PromotedIn(winners));
      var auto := IsAutoPromo(r.division, r.position);
      var band := IsPlayoffBand(r.division, r.position);
      var won := WonPlayoff(r.season, r.division, r.team, winners);
      assert Promoted(winners, r) == (auto || (band && won));
      if auto {
        promos := promos + [r];
      } else if band && won {
        promos := promos + [r];
      }
      i := i + 1;
    }
    assert rows[..i] == rows;
  }

  /** A row is counted as a promotion at most once, and exactly when it goes
      up automatically or wins its play-off; without a winners set only
      automatic promotions count. */
  lemma PromotionsAreRows(rows: seq<StandingRecord>, winners: Option<set<string>>, i: nat)
    requires i < |rows|
    ensures rows[i] in Filter(rows, PromotedIn(winners)) <==>
      IsAutoPromo(rows[i].division, rows[i].position)
      || (IsPlayoffBand(rows[i].division, rows[i].position) && WonPlayoff(rows[i].season, rows[i].division, rows[i].team, winners))
    ensures winners.None? ==> (rows[i] in Filter(rows, PromotedIn(winners)) <==> IsAutoPromo(rows[i].division, rows[i].position))
  {
  }

  function TeamOf(r: StandingRecord): string {
    r.team
  }

  function ManagerOf(r: StandingRecord): string {
    r.manager
  }

  /** One leader board: titles, promotions, relegations and sackings. */
  datatype Board = Board(titles: seq<Entry>, promotions: seq<Entry>, relegations: seq<Entry>, sackings: seq<Entry>)

  datatype Leaders = Leaders(byTeam: Board, byManager: Board)

  function BoardOf(rows: seq<StandingRecord>, promos: seq<StandingRecord>, key: StandingRecord -> string): Board {
    Board(CountOf(Filter(rows, IsTitleRow), key), CountOf(promos, key),
          CountOf(Filter(rows, IsRelegatedRow), key), CountOf(Filter(rows, IsSackedRow), key))
  }

  /** The `leaders` memo. */
  function LeadersOf(rows: seq<StandingRecord>, winners: Option<set<string>>): Leaders {
    var promos := Filter(rows, PromotedIn(winners));
    Leaders(BoardOf(rows, promos, TeamOf), BoardOf(rows, promos, ManagerOf))
  }

  method ComputeLeaders(rows: seq<StandingRecord>, winners: Option<set<string>>) returns (l: Leaders)
    ensures l == LeadersOf(rows, winners)
  {
    var rowsTitles := Filter(rows, IsTitleRow);
    var promos := Promotions(rows, winners);
    var rowsReleg := Filter(rows, IsRelegatedRow);
    var rowsSack := Filter(rows, IsSackedRow);
    var t1 := CountBy(rowsTitles, TeamOf);
    var t2 := CountBy(promos, TeamOf);
    var t3 := CountBy(rowsReleg, TeamOf);
    var t4 := CountBy(rowsSack, TeamOf);
    var m1 := CountBy(rowsTitles, ManagerOf);
    var m2 := CountBy(promos, ManagerOf);
    var m3 := CountBy(rowsReleg, ManagerOf);
    var m4 := CountBy(rowsSack, ManagerOf);
    l := Leaders(Board(t1, t2, t3, t4), Board(m1, m2, m3, m4));
  }

  /** A team's title count is the number of its rows in first place. */
  lemma TitlesCounted(rows: seq<StandingRecord>, winners: Option<set<string>>, e: Entry)
    requires e in LeadersOf(rows, winners).byTeam.titles
    ensures e.key != [] && e.count == CountWhere(Filter(rows, IsTitleRow), KeyIs(TeamOf, e.key))
  {
    CountOfEntries(Filter(rows, IsTitleRow), TeamOf, e);
  }

  // ---------------------------------------------------------------------
  // buildRecords
  // ---------------------------------------------------------------------

  /** The figure a record is ranked by; an unknown metric ranks every row 0. */
  datatype Metric = Points | GoalsFor | GoalsAgainst | GoalDifference | NoMetric

  function MetricOf(name: string): Metric {
    if name == "points" then Points
    else if name == "gf" then GoalsFor
    else if name == "ga" then GoalsAgainst
    else if name == "gd" then GoalDifference
    else NoMetric
  }

  function MetricValue(m: Metric, r: StandingRecord): int {
    match m
    case Points => Numeric(r.points)
    case GoalsFor => Numeric(r.goalsFor)
    case GoalsAgainst => Numeric(r.goalsAgainst)
    case GoalDifference => Numeric(r.goalDifference)
    case NoMetric => 0
  }

  /** What one record per group is chosen by; an unknown grouping gives
      every row the empty key, so no row is chosen. */
  datatype Grouping = TeamGroup | ManagerGroup | SeasonGroup | DivisionGroup | PositionGroup | NoGroup

  function GroupingOf(name: string): Grouping {
    if name == "team" then TeamGroup
    else if name == "manager" then ManagerGroup
    else if name == "season" then SeasonGroup
    else if name == "division" then DivisionGroup
    else if name == "position" then PositionGroup
    else NoGroup
  }

  function GroupKey(g: Grouping, r: StandingRecord): string {
    match g
    case TeamGroup => r.team
    case ManagerGroup => r.manager
    case SeasonGroup => r.season
    case DivisionGroup => r.division
    case PositionGroup => r.position
    case NoGroup => ""
  }

  /** A row with its metric value attached (`{ ...r, value }`). */
  datatype Valued = Valued(row: StandingRecord, value: int)

  function ValueAsc(a: Valued, b: Valued): int {
    a.value - b.value
  }

  function ValueDesc(a: Valued, b: Valued): int {
    b.value - a.value
  }

  function ValueOrder(order: string): (Valued, Valued) -> int {
    if order == "asc" then ValueAsc else ValueDesc
  }

  /** The group keys of a list of valued rows. */
  function GroupKeys(s: seq<Valued>, g: Grouping): (ks: seq<string>)
    ensures |ks| == |s| && forall i :: 0 <= i < |s| ==> ks[i] == GroupKey(g, s[i].row)
  {
    if s == [] then [] else GroupKeys(s[..|s| - 1], g) + [GroupKey(g, s[|s| - 1].row)]
  }

  /** The first row of every non-empty group key, in the order of `s`. */
  function FirstPerKey(s: seq<Valued>, g: Grouping): seq<Valued> {
    if s == [] then []
    else
      var prev := FirstPerKey(s[..|s| - 1], g);
      var k := GroupKey(g, s[|s| - 1].row);
      if k == [] || k in GroupKeys(prev, g) then prev else prev + [s[|s| - 1]]
  }

  /** `s[i]` is the first row of `s` with its key, and that key is not empty. */
  predicate FirstOfKey(s: seq<Valued>, g: Grouping, i: nat)
    requires i < |s|
  {
    GroupKey(g, s[i].row) != [] && forall j :: 0 <= j < i ==> GroupKey(g, s[j].row) != GroupKey(g, s[i].row)
  }

  /** `v` is the first row of `s` with its (non-empty) key. */
  predicate IsFirstOf(s: seq<Valued>, g: Grouping, v: Valued) {
    exists i :: 0 <= i < |s| && v == s[i] && FirstOfKey(s, g, i)
  }

  function WithMetric(rows: seq<StandingRecord>, m: Metric): (w: seq<Valued>)
    ensures |w| == |rows| && forall i :: 0 <= i < |rows| ==> w[i] == Valued(rows[i], MetricValue(m, rows[i]))
  {
    seq(|rows|, i requires 0 <= i < |rows| => Valued(rows[i], MetricValue(m, rows[i])))
  }

  /** The rows `buildRecords` ranks: the position-sorted selection with its
      metric attached, then sorted by value. */
  function RankedRows(rows: seq<StandingRecord>, metric: string, order: string, season: string, division: string): seq<Valued> {
    SortBy(WithMetric(FilteredData(rows, season, division, ByPosition), MetricOf(metric)), ValueOrder(order))
  }

  /** `buildRecords(metric, group, order, season, division)`. */
  function RecordsOf(rows: seq<StandingRecord>, metric: string, group: string, order: string,
                     season: string, division: string): seq<Valued> {
    Take(FirstPerKey(RankedRows(rows, metric, order, season, division), GroupingOf(group)), 50)
  }

  lemma GroupKeysSnoc(s: seq<Valued>, x: Valued, g: Grouping)
    ensures GroupKeys(s + [x], g) == GroupKeys(s, g) + [GroupKey(g, x.row)]
  {
    assert (s + [x])[..|s|] == s;
  }

  lemma FirstPerKeySnoc(s: seq<Valued>, x: Valued, g: Grouping)
    ensures FirstPerKey(s + [x], g)
         == if GroupKey(g, x.row) == [] || GroupKey(g, x.row) in GroupKeys(FirstPerKey(s, g), g)
            then FirstPerKey(s, g) else FirstPerKey(s, g) + [x]
  {
    assert (s + [x])[..|s|] == s;
  }

  /** Adding a row keeps the earlier picks as a prefix. */
  lemma FirstPerKeyGrows(s: seq<Valued>, x: Valued, g: Grouping)
    ensures var p := FirstPerKey(s, g); var q := FirstPerKey(s + [x], g);
      |p| <= |q| && p == q[..|p|]
  {
    FirstPerKeySnoc(s, x, g);
  }

  /** The set `seen` holds exactly the keys of the picks so far. */
  ghost predicate SeenKeys(seen: set<string>, result: seq<Valued>, g: Grouping)
  {
    forall k :: k in seen <==> k in GroupKeys(result, g)
  }

  /** One step of the loop of `buildRecords`: what taking row `s[i]` does to
      the picks and to the set of keys seen. */
  lemma PickStep(s: seq<Valued>, i: nat, g: Grouping, result: seq<Valued>, seen: set<string>)
    requires i < |s| && result == FirstPerKey(s[..i], g)
    requires SeenKeys(seen, result, g)
    ensures var k := GroupKey(g, s[i].row);
      FirstPerKey(s[..i + 1], g) == if k == [] || k in seen then result else result + [s[i]]
    ensures SeenKeys(seen + {GroupKey(g, s[i].row)}, result + [s[i]], g)
  {
    assert s[..i + 1] == s[..i] + [s[i]];
    FirstPerKeySnoc(s[..i], s[i], g);
    GroupKeysSnoc(result, s[i], g);
  }

  /** The loop of `buildRecords` over the ranked rows: skip a row whose key
      is empty or already seen, keep the rest, stop after 50. */
  method PickRecords(s: seq<Valued>, g: Grouping) returns (result: seq<Valued>)
    ensures result == Take(FirstPerKey(s, g), 50)
  {
    var seen: set<string> := {};
    result := [];
    var i := 0;
    while i < |s|
      invariant 0 <= i <= |s|
      invariant result == FirstPerKey(s[..i], g)
      invariant |result| < 50
      invariant SeenKeys(seen, result, g)
    {
      var r := s[i];
      var k := GroupKey(g, r.row);
      PickStep(s, i, g, result, seen);
      ghost var next := FirstPerKey(s[..i + 1], g);
      i := i + 1;
      assert FirstPerKey(s[..i], g) == next;
      if k != [] && k !in seen {
        seen := seen + {k};
        result := result + [r];
        if |result| >= 50 {
          TakeFromPrefix(s, i, g);
          return;
        }
      }
    }
    assert s[..i] == s;
  }

  /** Once a prefix of `s` has 50 picks, they are the first 50 picks of `s`. */
  lemma TakeFromPrefix(s: seq<Valued>, i: nat, g: Grouping)
    requires i <= |s| && |FirstPerKey(s[..i], g)| == 50
    ensures FirstPerKey(s[..i], g) == Take(FirstPerKey(s, g), 50)
  {
    FirstPerKeyPrefix(s, i, g);
  }

  /** The picks from a prefix of `s` are a prefix of the picks from `s`. */
  lemma {:induction false} FirstPerKeyPrefix(s: seq<Valued>, i: nat, g: Grouping)
    requires i <= |s|
    ensures var p := FirstPerKey(s[..i], g);
      |p| <= |FirstPerKey(s, g)| && p == FirstPerKey(s, g)[..|p|]
  {
    if i < |s| {
      var t := s[..|s| - 1];
      var p := FirstPerKey(s[..i], g);
      var q := FirstPerKey(t, g);
      var r := FirstPerKey(s, g);
      assert |p| <= |q| && p == q[..|p|] by {
        assert t[..i] == s[..i];
        FirstPerKeyPrefix(t, i, g);
      }
      assert |q| <= |r| && q == r[..|q|] by {
        assert s == t + [s[|s| - 1]];
        FirstPerKeyGrows(t, s[|s| - 1], g);
      }
      PrefixTrans(p, q, r);
    } else {
      assert s[..i] == s;
    }
  }

  lemma PrefixTrans<T>(p: seq<T>, q: seq<T>, r: seq<T>)
    requires |p| <= |q| <= |r| && p == q[..|p|] && q == r[..|q|]
    ensures p == r[..|p|]
  {
  }

  /** `buildRecords`. */
  method BuildRecords(rows: seq<StandingRecord>, metric: string, group: string, order: string,
                      season: string, division: string) returns (result: seq<Valued>)
    ensures result == RecordsOf(rows, metric, group, order, season, division)
  {
    var filtered := FilteredData(rows, season, division, ByPosition);
    var m := MetricOf(metric);
    var withMetric := WithMetric(filtered, m);
    withMetric := SortBy(withMetric, ValueOrder(order));
    result := PickRecords(withMetric, GroupingOf(group));
  }

  /** Some row of `s` has the key `k`. */
  predicate HasKey(s: seq<Valued>, g: Grouping, k: string) {
    exists i :: 0 <= i < |s| && GroupKey(g, s[i].row) == k
  }

  lemma HasKeySnoc(s: seq<Valued>, x: Valued, g: Grouping, k: string)
    ensures HasKey(s + [x], g, k) <==> HasKey(s, g, k) || GroupKey(g, x.row) == k
  {
    var t := s + [x];
    if HasKey(t, g, k) && GroupKey(g, x.row) != k {
      var i :| 0 <= i < |t| && GroupKey(g, t[i].row) == k;
      assert t[i] == s[i];
    }
    if HasKey(s, g, k) {
      var i :| 0 <= i < |s| && GroupKey(g, s[i].row) == k;
      assert t[i] == s[i];
    }
    if GroupKey(g, x.row) == k {
      assert t[|s|] == x;
    }
  }

  /** Exactly the non-empty keys of `s` have a pick. */
  lemma {:induction false} FirstPerKeyKeys(s: seq<Valued>, g: Grouping, k: string)
    ensures k in GroupKeys(FirstPerKey(s, g), g) <==> k != [] && HasKey(s, g, k)
    decreases |s|
  {
    if s != [] {
      var init := s[..|s| - 1];
      var x := s[|s| - 1];
      assert s == init + [x];
      FirstPerKeyKeys(init, g, k);
      FirstPerKeyKeys(init, g, GroupKey(g, x.row));
      FirstPerKeySnoc(init, x, g);
      GroupKeysSnoc(FirstPerKey(init, g), x, g);
      HasKeySnoc(init, x, g, k);
    }
  }

  /** No two picks share a key. */
  lemma {:induction false} FirstPerKeyDistinct(s: seq<Valued>, g: Grouping)
    ensures NoDups(GroupKeys(FirstPerKey(s, g), g))
    decreases |s|
  {
    if s != [] {
      var init := s[..|s| - 1];
      var x := s[|s| - 1];
      assert s == init + [x];
      FirstPerKeyDistinct(init, g);
      FirstPerKeySnoc(init, x, g);
      var p0 := FirstPerKey(init, g);
      var k := GroupKey(g, x.row);
      if k != [] && k !in GroupKeys(p0, g) {
        GroupKeysSnoc(p0, x, g);
        var ks := GroupKeys(p0, g) + [k];
        forall i, j | 0 <= i < j < |ks| ensures ks[i] != ks[j] {
          if j == |ks| - 1 {
            assert ks[i] in GroupKeys(p0, g);
          }
        }
      }
    }
  }

  /** Every pick is the first row of `s` with its key. */
  lemma {:induction false} FirstPerKeyFirsts(s: seq<Valued>, g: Grouping)
    ensures forall a :: 0 <= a < |FirstPerKey(s, g)| ==> IsFirstOf(s, g, FirstPerKey(s, g)[a])
    decreases |s|
  {
    if s != [] {
      var init := s[..|s| - 1];
      var x := s[|s| - 1];
      assert s == init + [x];
      FirstPerKeyFirsts(init, g);
      FirstPerKeySnoc(init, x, g);
      var p0 := FirstPerKey(init, g);
      var p := FirstPerKey(s, g);
      var k := GroupKey(g, x.row);
      forall a | 0 <= a < |p| ensures IsFirstOf(s, g, p[a]) {
        if a < |p0| {
          assert IsFirstOf(init, g, p0[a]);
          var i :| 0 <= i < |init| && p0[a] == init[i] && FirstOfKey(init, g, i);
          assert init[i] == s[i];
          assert forall j :: 0 <= j < i ==> init[j] == s[j];
          assert p[a] == s[i] && FirstOfKey(s, g, i);
        } else {
          assert p[a] == x;
          forall j | 0 <= j < |s| - 1 ensures GroupKey(g, s[j].row) != k {
            if GroupKey(g, s[j].row) == k {
              assert init[j] == s[j];
              FirstPerKeyKeys(init, g, k);
            }
          }
          assert FirstOfKey(s, g, |s| - 1);
        }
      }
    }
  }

  /** Picking keeps the order of `s`: with `s` ordered by `cmp`, so are the picks. */
  lemma {:induction false} FirstPerKeySorted(s: seq<Valued>, g: Grouping, cmp: (Valued, Valued) -> int)
    requires Sorted(s, cmp)
    ensures Sorted(FirstPerKey(s, g), cmp)
    ensures forall v :: v in FirstPerKey(s, g) ==> v in s
    decreases |s|
  {
    if s != [] {
      var init := s[..|s| - 1];
      var x := s[|s| - 1];
      assert s == init + [x];
      assert Sorted(init, cmp);
      FirstPerKeySorted(init, g, cmp);
      FirstPerKeySnoc(init, x, g);
      var p0 := FirstPerKey(init, g);
      var p := FirstPerKey(s, g);
      if p != p0 {
        forall a, b | 0 <= a < b < |p| ensures cmp(p[a], p[b]) <= 0 {
          if b == |p| - 1 {
            assert p[a] in init;
            var i :| 0 <= i < |init| && init[i] == p[a];
            assert cmp(s[i], s[|s| - 1]) <= 0;
          } else {
            assert p[a] == p0[a] && p[b] == p0[b];
          }
        }
      }
    }
  }

  /** At most 50 records, with distinct, non-empty group keys. */
  lemma RecordsKeys(rows: seq<StandingRecord>, metric: string, group: string, order: string,
                    season: string, division: string)
    ensures var r := RecordsOf(rows, metric, group, order, season, division);
      var g := GroupingOf(group);
      && |r| <= 50
      && NoDups(GroupKeys(r, g))
      && forall a :: 0 <= a < |r| ==> GroupKey(g, r[a].row) != []
  {
    var s := RankedRows(rows, metric, order, season, division);
    var g := GroupingOf(group);
    var p := FirstPerKey(s, g);
    var r := RecordsOf(rows, metric, group, order, season, division);
    assert r == p[..|r|];
    assert NoDups(GroupKeys(r, g)) by {
      FirstPerKeyDistinct(s, g);
      GroupKeysPrefix(p, g, |r|);
      NoDupsPrefix(GroupKeys(p, g), |r|);
    }
    FirstPerKeyNonEmpty(s, g);
  }

  lemma GroupKeysPrefix(p: seq<Valued>, g: Grouping, n: nat)
    requires n <= |p|
    ensures GroupKeys(p[..n], g) == GroupKeys(p, g)[..n]
  {
  }

  lemma NoDupsPrefix<T>(s: seq<T>, n: nat)
    requires NoDups(s) && n <= |s|
    ensures NoDups(s[..n])
  {
  }

  /** No pick has an empty key. */
  lemma FirstPerKeyNonEmpty(s: seq<Valued>, g: Grouping)
    ensures forall a :: 0 <= a < |FirstPerKey(s, g)| ==> GroupKey(g, FirstPerKey(s, g)[a].row) != []
  {
    var p := FirstPerKey(s, g);
    forall a | 0 <= a < |p| ensures GroupKey(g, p[a].row) != [] {
      var k := GroupKey(g, p[a].row);
      assert GroupKeys(p, g)[a] == k;
      FirstPerKeyKeys(s, g, k);
    }
  }


  lemma TakeFirsts(s: seq<Valued>, g: Grouping)
    ensures forall a :: 0 <= a < |Take(FirstPerKey(s, g), 50)| ==> IsFirstOf(s, g, Take(FirstPerKey(s, g), 50)[a])
  {
    var p := FirstPerKey(s, g);
    var r := Take(p, 50);
    FirstPerKeyFirsts(s, g);
    forall a | 0 <= a < |r| ensures IsFirstOf(s, g, r[a]) {
      assert a < |p| && r[a] == p[a];
    }
  }

  /** Each record is the best-ranked row of its group. */
  lemma RecordsAreFirsts(rows: seq<StandingRecord>, metric: string, group: string, order: string,
                         season: string, division: string)
    ensures var s := RankedRows(rows, metric, order, season, division);
      var r := RecordsOf(rows, metric, group, order, season, division);
      forall a :: 0 <= a < |r| ==> IsFirstOf(s, GroupingOf(group), r[a])
  {
    TakeFirsts(RankedRows(rows, metric, order, season, division), GroupingOf(group));
  }

  /** The records' values are in the requested order. */
  lemma RecordsOrdered(rows: seq<StandingRecord>, metric: string, group: string, order: string,
                       season: string, division: string)
    ensures var r := RecordsOf(rows, metric, group, order, season, division);
      forall a, b :: 0 <= a < b < |r| ==>
        if order == "asc" then r[a].value <= r[b].value else r[a].value >= r[b].value
  {
    var w := WithMetric(FilteredData(rows, season, division, ByPosition), MetricOf(metric));
    var s := RankedRows(rows, metric, order, season, division);
    var g := GroupingOf(group);
    var p := FirstPerKey(s, g);
    var r := RecordsOf(rows, metric, group, order, season, division);
    var cmp := ValueOrder(order);
    if order == "asc" {
      ConsistentByIntKey(w, ValueAsc, (v: Valued) => v.value);
    } else {
      ConsistentByIntKey(w, ValueDesc, (v: Valued) => -v.value);
    }
    SortBySorted(w, cmp);
    FirstPerKeySorted(s, g, cmp);
    assert r == p[..|r|];
    forall a, b | 0 <= a < b < |r|
      ensures if order == "asc" then r[a].value <= r[b].value else r[a].value >= r[b].value
    {
      assert cmp(p[a], p[b]) <= 0;
    }
  }

  /** Fewer than 50 records only when every group with a non-empty key among
      the ranked rows has its record. */
  lemma RecordsCoverGroups(rows: seq<StandingRecord>, metric: string, group: string, order: string,
                           season: string, division: string, k: string)
    requires k != [] && HasKey(RankedRows(rows, metric, order, season, division), GroupingOf(group), k)
    requires |RecordsOf(rows, metric, group, order, season, division)| < 50
    ensures k in GroupKeys(RecordsOf(rows, metric, group, order, season, division), GroupingOf(group))
  {
    FirstPerKeyKeys(RankedRows(rows, metric, order, season, division), GroupingOf(group), k);
  }
}
