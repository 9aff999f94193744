/** The manager profiles of src/ManagerProfiles.js: the list of managers and
    its search filter, the per-manager aggregation of the standings rows
    (appearances, honours, teams, seasons, rows), and the career table with
    its notes. */
module Managers {
  import opened Base
  import opened Text
  import opened JsInt
  import opened Sorting
  import opened Schema
  import opened Classify
  import opened Names
  import opened Tally

  // ---------------------------------------------------------------------
  // The list of managers
  // ---------------------------------------------------------------------

  /** `(r.manager || "").trim()`. */
  function ManagerName(r: StandingRecord): string {
    Trim(r.manager)
  }

  /** The elements whose name is not empty (`.filter(Boolean)`, `if (!m) continue`). */
  function NamedBy<T>(name: T -> string): T -> bool {
    x => name(x) != []
  }

  /** The elements whose name is `m`. */
  function NameIs<T>(name: T -> string, m: string): T -> bool {
    x => name(x) == m
  }

  /** The non-empty trimmed manager names in order of first occurrence: the
      insertion order of the `Set` of names, and the key order of the
      per-manager `Map`. */
  function NamesSeen(rows: seq<StandingRecord>): seq<string> {
    FirstSeen(rows, NamedBy(ManagerName), ManagerName)
  }

  /** `managers`: the set of names sorted by `localeCompare`. */
  function ManagerList(rows: seq<StandingRecord>): seq<string> {
    SortBy(NamesSeen(rows), StrCmp)
  }

  /** The names seen are the non-empty names, each once. */
  lemma NamesSeenFacts<T>(s: seq<T>, name: T -> string)
    ensures var seen := FirstSeen(s, NamedBy(name), name);
      && NoDups(seen)
      && (forall m :: m in seen <==> m != [] && exists i :: 0 <= i < |s| && name(s[i]) == m)
  {
    FirstSeenNoDups(s, NamedBy(name), name);
    forall m ensures m in FirstSeen(s, NamedBy(name), name) <==> m != [] && exists i :: 0 <= i < |s| && name(s[i]) == m {
      FirstSeenMembers(s, NamedBy(name), name, m);
    }
  }

  /** The elements grouped under a non-empty name are those with that name. */
  lemma MembersNamed<T>(s: seq<T>, name: T -> string, m: string)
    requires m != []
    ensures Members(s, NamedBy(name), name, m) == Filter(s, NameIs(name, m))
  {
    MembersFilter(s, NamedBy(name), name, m);
    FilterSamePredicate(s, InGroupBy(NamedBy(name), name, m), NameIs(name, m));
  }

  /** Filtering by two predicates that agree everywhere gives the same result. */
  lemma {:induction false} FilterSamePredicate<T>(s: seq<T>, p: T -> bool, q: T -> bool)
    requires forall x :: p(x) == q(x)
    ensures Filter(s, p) == Filter(s, q)
    decreases |s|
  {
    if s != [] {
      FilterSamePredicate(s[..|s| - 1], p, q);
    }
  }

  /** Sorting a duplicate-free list of strings keeps its members and makes
      it strictly ascending. */
  lemma SortedNames(s: seq<string>)
    requires NoDups(s)
    ensures var r := SortBy(s, StrCmp);
      && NoDups(r)
      && (forall x :: x in r <==> x in s)
      && (forall i, j :: 0 <= i < j < |r| ==> StrLt(r[i], r[j]))
  {
    var r := SortBy(s, StrCmp);
    forall x ensures x in r <==> x in s {
      assert x in r <==> x in multiset(r);
      assert x in s <==> x in multiset(s);
    }
    PermutationNoDups(s, r);
    SortedStrictly(s);
  }

  /** A duplicate-free sequence sorted by `StrCmp` is strictly increasing. */
  lemma SortedStrictly(s: seq<string>)
    requires NoDups(SortBy(s, StrCmp))
    ensures var r := SortBy(s, StrCmp);
      forall i, j :: 0 <= i < j < |r| ==> StrLt(r[i], r[j])
  {
    StrCmpConsistent(s);
    SortBySorted(s, StrCmp);
  }

  /** The manager list holds each non-empty trimmed manager name once, and
      nothing else, in strictly ascending order. */
  lemma ManagerListFacts(rows: seq<StandingRecord>)
    ensures var ms := ManagerList(rows);
      && (forall m :: m in ms <==> m != [] && exists i :: 0 <= i < |rows| && ManagerName(rows[i]) == m)
      && (forall i, j :: 0 <= i < j < |ms| ==> StrLt(ms[i], ms[j]))
  {
    NamesSeenFacts(rows, ManagerName);
    SortedNames(NamesSeen(rows));
  }

  /** `filteredManagers`: the names containing the lower-cased, trimmed
      query, lower-cased themselves; all names for an empty query. */
  function FilteredManagers(managers: seq<string>, query: string): seq<string> {
    var q := Trim(ToLower(query));
    if q == [] then managers else Filter(managers, (m: string) => Contains(ToLower(m), q))
  }

  /** A name is offered exactly when it is a manager that matches the
      query; matching names keep their order. */
  lemma FilteredManagersFacts(managers: seq<string>, query: string)
    ensures var q := Trim(ToLower(query));
      var r := FilteredManagers(managers, query);
      && |r| <= |managers|
      && (forall m :: m in r <==> m in managers && (q == [] || Contains(ToLower(m), q)))
  {
  }

  // ---------------------------------------------------------------------
  // perManager
  // ---------------------------------------------------------------------

  /** The accumulator of one manager while the rows are read: the counters,
      the sets of teams and of normalised seasons (each in insertion order,
      as a `Set` iterates) and the manager's rows. */
  datatype Profile = Profile(
    manager: string, appearances: nat, titles: nat, autoPromotions: nat, playoffWins: nat,
    relegations: nat, sackings: nat, teams: seq<string>, seasons: seq<string>, rows: seq<StandingRecord>)

  /** What the loop reads off one row: its team, its normalised season and
      the five tests. */
  datatype RowFacts = RowFacts(team: string, season: string, title: bool, promoted: bool,
                               playoffWin: bool, relegated: bool, sacked: bool)

  function FactsOf(r: StandingRecord, winners: Option<set<string>>): RowFacts {
    RowFacts(r.team, NormDiv(r.season), IsChampion(r.position), IsAutoPromo(r.division, r.position),
             IsPlayoffWinner(r.season, r.division, r.team, winners),
             IsRelegated(r.division, r.position), IsAutoSacked(r.position))
  }

  function FactsIn(winners: Option<set<string>>): StandingRecord -> RowFacts {
    (r: StandingRecord) => FactsOf(r, winners)
  }

  function Fresh(m: string): Profile {
    Profile(m, 0, 0, 0, 0, 0, 0, [], [], [])
  }

  /** `Set.prototype.add` on a set kept in insertion order. */
  function AddTo(s: seq<string>, x: string): seq<string> {
    if x in s then s else s + [x]
  }

  function Tick(b: bool): nat {
    if b then 1 else 0
  }

  /** The profile after one more row of its manager. */
  function Add(p: Profile, r: StandingRecord, f: RowFacts): Profile {
    Profile(
      p.manager, p.appearances + 1, p.titles + Tick(f.title), p.autoPromotions + Tick(f.promoted),
      p.playoffWins + Tick(f.playoffWin), p.relegations + Tick(f.relegated), p.sackings + Tick(f.sacked),
      AddTo(p.teams, f.team), AddTo(p.seasons, f.season), p.rows + [r])
  }

  /** The profile of manager `m` built from the rows `g`, in order. */
  function ProfileOf(m: string, g: seq<StandingRecord>, facts: StandingRecord -> RowFacts): Profile {
    if g == [] then Fresh(m) else Add(ProfileOf(m, g[..|g| - 1], facts), g[|g| - 1], facts(g[|g| - 1]))
  }

  /** The rows of manager `m`, in input order. */
  function ManagerRows(rows: seq<StandingRecord>, m: string): seq<StandingRecord> {
    Members(rows, NamedBy(ManagerName), ManagerName, m)
  }

  /** The loop of `perManager`, with the reading of a row (whether it has a
      manager, its trimmed manager and its facts) as parameters: rows without
      a manager are skipped; the first row of a manager creates its accumulator; every
      row of the manager then updates it. */
  method Aggregate(rows: seq<StandingRecord>, keep: StandingRecord -> bool, name: StandingRecord -> string, facts: StandingRecord -> RowFacts)
    returns (order: seq<string>, profiles: map<string, Profile>)
    ensures order == FirstSeen(rows, keep, name)
    ensures forall m :: m in profiles <==> m in order
    ensures forall m :: m in profiles ==> profiles[m] == ProfileOf(m, Members(rows, keep, name, m), facts)
  {
    order := [];
    profiles := map[];
    ghost var groups: map<string, seq<StandingRecord>> := map[];
    var i := 0;
    assert rows[..i] == [];
    assert Tracked(rows[..i], keep, name, facts, order, groups, profiles);
    while i < |rows|
      invariant 0 <= i <= |rows|
      invariant Tracked(rows[..i], keep, name, facts, order, groups, profiles)
    {
      var r := rows[i];
      assert rows[..i + 1] == rows[..i] + [r];
      var m := name(r);
      if !keep(r) {
        TrackedSkip(rows[..i], r, keep, name, facts, order, groups, profiles);
      } else {
        TrackedStep(rows[..i], r, keep, name, facts, order, groups, profiles);
        groups := groups[m := (if m in groups then groups[m] else []) + [r]];
        order, profiles := Record(order, profiles, m, r, facts(r));
      }
      i := i + 1;
    }
    assert rows[..i] == rows;
  }

  /** The state of the loop of `Aggregate` after the rows `t`: the keys in
      order of first appearance, their rows, and the profile of those rows. */
  ghost predicate Tracked(t: seq<StandingRecord>, keep: StandingRecord -> bool, name: StandingRecord -> string,
                          facts: StandingRecord -> RowFacts, order: seq<string>,
                          groups: map<string, seq<StandingRecord>>, profiles: map<string, Profile>)
  {
    GroupedAs(t, keep, name, order, groups) && ProfiledAs(profiles, groups, facts)
  }

  lemma TrackedSkip(t: seq<StandingRecord>, r: StandingRecord, keep: StandingRecord -> bool,
                    name: StandingRecord -> string, facts: StandingRecord -> RowFacts, order: seq<string>,
                    groups: map<string, seq<StandingRecord>>, profiles: map<string, Profile>)
    requires Tracked(t, keep, name, facts, order, groups, profiles)
    requires !keep(r)
    ensures Tracked(t + [r], keep, name, facts, order, groups, profiles)
  {
    GroupedSkip(t, r, keep, name, order, groups);
  }

  lemma TrackedStep(t: seq<StandingRecord>, r: StandingRecord, keep: StandingRecord -> bool,
                    name: StandingRecord -> string, facts: StandingRecord -> RowFacts, order: seq<string>,
                    groups: map<string, seq<StandingRecord>>, profiles: map<string, Profile>)
    requires Tracked(t, keep, name, facts, order, groups, profiles)
    requires keep(r)
    ensures var m := name(r);
      && (m in profiles <==> m in groups)
      && Tracked(t + [r], keep, name, facts,
                 if m in profiles then order else order + [m],
                 groups[m := (if m in groups then groups[m] else []) + [r]],
                 profiles[m := Add(if m in profiles then profiles[m] else Fresh(m), r, facts(r))])
  {
    var m := name(r);
    GroupedStep(t, r, keep, name, order, groups);
    ProfiledStep(profiles, groups, facts, m, r);
  }

  /** `profiles` holds, for every key of `groups`, the profile of its rows. */
  ghost predicate ProfiledAs(profiles: map<string, Profile>, groups: map<string, seq<StandingRecord>>,
                             facts: StandingRecord -> RowFacts)
  {
    && (forall m :: m in profiles <==> m in groups)
    && (forall m :: m in profiles ==> profiles[m] == ProfileOf(m, groups[m], facts))
  }

  lemma ProfiledStep(profiles: map<string, Profile>, groups: map<string, seq<StandingRecord>>,
                     facts: StandingRecord -> RowFacts, m: string, r: StandingRecord)
    requires ProfiledAs(profiles, groups, facts)
    ensures ProfiledAs(profiles[m := Add(if m in profiles then profiles[m] else Fresh(m), r, facts(r))],
                       groups[m := (if m in groups then groups[m] else []) + [r]], facts)
  {
    var g0 := if m in groups then groups[m] else [];
    var g := g0 + [r];
    assert g[..|g| - 1] == g0 && g[|g| - 1] == r;
    assert ProfileOf(m, g0, facts) == if m in profiles then profiles[m] else Fresh(m);
    assert ProfileOf(m, g, facts) == Add(ProfileOf(m, g0, facts), r, facts(r));
  }

  /** One row of manager `m`: a new manager gets a fresh accumulator at the
      end of the key order; then the accumulator is updated in place. */
  method Record(order: seq<string>, profiles: map<string, Profile>, m: string, r: StandingRecord, f: RowFacts)
    returns (order': seq<string>, profiles': map<string, Profile>)
    ensures order' == if m in profiles then order else order + [m]
    ensures profiles' == profiles[m := Add(if m in profiles then profiles[m] else Fresh(m), r, f)]
  {
    order', profiles' := order, profiles;
    if m !in profiles' {
      order' := order' + [m];
      profiles' := profiles'[m := Fresh(m)];
    }
    var item := profiles'[m];
    item := item.(appearances := item.appearances + 1);
    item := item.(teams := AddTo(item.teams, f.team));
    item := item.(seasons := AddTo(item.seasons, f.season));
    item := item.(rows := item.rows + [r]);
    if f.title { item := item.(titles := item.titles + 1); }
    if f.promoted { item := item.(autoPromotions := item.autoPromotions + 1); }
    if f.relegated { item := item.(relegations := item.relegations + 1); }
    if f.sacked { item := item.(sackings := item.sackings + 1); }
    if f.playoffWin { item := item.(playoffWins := item.playoffWins + 1); }
    profiles' := profiles'[m := item];
  }

  function TitleBy(facts: StandingRecord -> RowFacts): StandingRecord -> bool {
    r => facts(r).title
  }

  function PromotionBy(facts: StandingRecord -> RowFacts): StandingRecord -> bool {
    r => facts(r).promoted
  }

  function PlayoffWinBy(facts: StandingRecord -> RowFacts): StandingRecord -> bool {
    r => facts(r).playoffWin
  }

  function RelegationBy(facts: StandingRecord -> RowFacts): StandingRecord -> bool {
    r => facts(r).relegated
  }

  function SackingBy(facts: StandingRecord -> RowFacts): StandingRecord -> bool {
    r => facts(r).sacked
  }

  /** A profile counts its rows: one appearance per row, each honour once
      per row that earns it. */
  lemma {:induction false} ProfileCounts(m: string, g: seq<StandingRecord>, facts: StandingRecord -> RowFacts)
    ensures var p := ProfileOf(m, g, facts);
      && p.manager == m && p.appearances == |g| && p.rows == g
      && p.titles == CountWhere(g, TitleBy(facts))
      && p.autoPromotions == CountWhere(g, PromotionBy(facts))
      && p.playoffWins == CountWhere(g, PlayoffWinBy(facts))
      && p.relegations == CountWhere(g, RelegationBy(facts))
      && p.sackings == CountWhere(g, SackingBy(facts))
    decreases |g|
  {
    if g != [] {
      var n := |g| - 1;
      ProfileCounts(m, g[..n], facts);
      assert g == g[..n] + [g[n]];
      CountWhereAppend(g[..n], [g[n]], TitleBy(facts));
      CountWhereAppend(g[..n], [g[n]], PromotionBy(facts));
      CountWhereAppend(g[..n], [g[n]], PlayoffWinBy(facts));
      CountWhereAppend(g[..n], [g[n]], RelegationBy(facts));
      CountWhereAppend(g[..n], [g[n]], SackingBy(facts));
    }
  }

  /** The team set of a profile holds each team of its rows exactly once,
      so no more teams than rows. */
  lemma {:induction false} ProfileTeams(m: string, g: seq<StandingRecord>, facts: StandingRecord -> RowFacts)
    ensures var p := ProfileOf(m, g, facts);
      && NoDups(p.teams) && |p.teams| <= |g|
      && (forall t :: t in p.teams <==> exists i :: 0 <= i < |g| && facts(g[i]).team == t)
    decreases |g|
  {
    if g != [] {
      var n := |g| - 1;
      ProfileTeams(m, g[..n], facts);
      var p := ProfileOf(m, g[..n], facts);
      forall t ensures t in AddTo(p.teams, facts(g[n]).team) <==> exists i :: 0 <= i < |g| && facts(g[i]).team == t {
        if exists i :: 0 <= i < |g| && facts(g[i]).team == t {
          var i :| 0 <= i < |g| && facts(g[i]).team == t;
          if i < n {
            assert g[..n][i] == g[i];
          }
        }
        if t in p.teams {
          var i :| 0 <= i < n && facts(g[..n][i]).team == t;
          assert g[..n][i] == g[i];
        }
      }
    }
  }

  /** The season set of a profile holds each season of its rows exactly
      once, so no more seasons than rows. */
  lemma {:induction false} ProfileSeasons(m: string, g: seq<StandingRecord>, facts: StandingRecord -> RowFacts)
    ensures var p := ProfileOf(m, g, facts);
      && NoDups(p.seasons) && |p.seasons| <= |g|
      && (forall s :: s in p.seasons <==> exists i :: 0 <= i < |g| && facts(g[i]).season == s)
    decreases |g|
  {
    if g != [] {
      var n := |g| - 1;
      ProfileSeasons(m, g[..n], facts);
      var p := ProfileOf(m, g[..n], facts);
      forall s ensures s in AddTo(p.seasons, facts(g[n]).season) <==> exists i :: 0 <= i < |g| && facts(g[i]).season == s {
        if exists i :: 0 <= i < |g| && facts(g[i]).season == s {
          var i :| 0 <= i < |g| && facts(g[i]).season == s;
          if i < n {
            assert g[..n][i] == g[i];
          }
        }
        if s in p.seasons {
          var i :| 0 <= i < n && facts(g[..n][i]).season == s;
          assert g[..n][i] == g[i];
        }
      }
    }
  }

  // ---------------------------------------------------------------------
  // Finishing the profiles
  // ---------------------------------------------------------------------

  /** A profile after the second loop of `perManager`: the sizes of the two
      sets recorded, the sets turned into sorted arrays. */
  datatype ManagerProfile = ManagerProfile(
    manager: string, appearances: nat, titles: nat, autoPromotions: nat, playoffWins: nat,
    relegations: nat, sackings: nat, teamCount: nat, seasonCount: nat,
    teams: seq<string>, seasons: seq<string>, rows: seq<StandingRecord>)

  /** `Number(s)` on a normalised season, which is either a run of digits or
      a trimmed string without digits: the empty string is 0, a digit run
      its value, anything else NaN. */
  function SeasonNumber(s: string): Option<int> {
    var t := Trim(s);
    if t == [] then Some(0)
    else if forall i :: 0 <= i < |t| ==> IsDigit(t[i]) then Some(DigitsValue(t))
    else None
  }

  /** `(a, b) => Number(a) - Number(b)`, NaN taken as 0. */
  function SeasonCmp(a: string, b: string): int {
    var x, y := SeasonNumber(a), SeasonNumber(b);
    if x.Some? && y.Some? then x.value - y.value else 0
  }

  function Finish(p: Profile): ManagerProfile {
    ManagerProfile(
      p.manager, p.appearances, p.titles, p.autoPromotions, p.playoffWins, p.relegations, p.sackings,
      |p.teams|, |p.seasons|, SortBy(p.teams, StrCmp), SortBy(p.seasons, SeasonCmp), p.rows)
  }

  /** `for (const v of map.values())`: every profile finished in place. */
  method FinishAll(order: seq<string>, profiles: map<string, Profile>)
    returns (done: map<string, ManagerProfile>)
    requires forall m :: m in profiles <==> m in order
    ensures forall m :: m in done <==> m in profiles
    ensures forall m :: m in done ==> done[m] == Finish(profiles[m])
  {
    done := map[];
    var j := 0;
    while j < |order|
      invariant 0 <= j <= |order|
      invariant forall m :: m in done <==> m in order[..j]
      invariant forall m :: m in done ==> m in profiles && done[m] == Finish(profiles[m])
    {
      var m := order[j];
      var v := profiles[m];
      var teamCount := |v.teams|;
      var seasonCount := |v.seasons|;
      var teams := SortBy(v.teams, StrCmp);
      var seasons := SortBy(v.seasons, SeasonCmp);
      var fin := ManagerProfile(v.manager, v.appearances, v.titles, v.autoPromotions, v.playoffWins,
                                v.relegations, v.sackings, teamCount, seasonCount, teams, seasons, v.rows);
      assert fin == Finish(v);
      done := done[m := fin];
      assert order[..j + 1] == order[..j] + [m];
      j := j + 1;
    }
    assert order[..j] == order;
  }

  /** The finished profiles of `perManager`, one per manager name. */
  function ManagerProfiles(rows: seq<StandingRecord>, winners: Option<set<string>>): map<string, ManagerProfile> {
    map m | m in NamesSeen(rows) :: Finish(ProfileOf(m, ManagerRows(rows, m), FactsIn(winners)))
  }

  /** `perManager`: the aggregation loop, then the finishing loop. */
  method ComputeProfiles(rows: seq<StandingRecord>, winners: Option<set<string>>)
    returns (profiles: map<string, ManagerProfile>)
    ensures profiles == ManagerProfiles(rows, winners)
  {
    var order, acc := Aggregate(rows, NamedBy(ManagerName), ManagerName, FactsIn(winners));
    profiles := FinishAll(order, acc);
  }

  predicate TitleRow(r: StandingRecord) {
    IsChampion(r.position)
  }

  predicate PromotionRow(r: StandingRecord) {
    IsAutoPromo(r.division, r.position)
  }

  predicate RelegationRow(r: StandingRecord) {
    IsRelegated(r.division, r.position)
  }

  predicate SackingRow(r: StandingRecord) {
    IsAutoSacked(r.position)
  }

  function PlayoffWinRow(winners: Option<set<string>>): StandingRecord -> bool {
    (r: StandingRecord) => IsPlayoffWinner(r.season, r.division, r.team, winners)
  }

  /** The rows of a manager with a profile: the rows whose trimmed manager
      is that name, of which there is at least one. */
  lemma ManagerRowsAre(rows: seq<StandingRecord>, m: string)
    requires m in NamesSeen(rows)
    ensures m != [] && ManagerRows(rows, m) == Filter(rows, NameIs(ManagerName, m)) != []
  {
    NamesSeenFacts(rows, ManagerName);
    var k :| 0 <= k < |rows| && ManagerName(rows[k]) == m;
    MembersNamed(rows, ManagerName, m);
    assert rows[k] in Filter(rows, NameIs(ManagerName, m));
  }

  /** The honours of a finished profile: each counter is the number of the
      manager's rows passing the source's test, so none exceeds the
      appearances, which count the manager's rows. */
  lemma ManagerProfileCounts(rows: seq<StandingRecord>, winners: Option<set<string>>, m: string)
    requires m in ManagerProfiles(rows, winners)
    ensures var p := ManagerProfiles(rows, winners)[m];
      && m != [] && p.manager == m
      && p.rows == Filter(rows, NameIs(ManagerName, m)) && p.appearances == |p.rows| >= 1
      && p.titles == CountWhere(p.rows, TitleRow) <= p.appearances
      && p.autoPromotions == CountWhere(p.rows, PromotionRow) <= p.appearances
      && p.playoffWins == CountWhere(p.rows, PlayoffWinRow(winners)) <= p.appearances
      && p.relegations == CountWhere(p.rows, RelegationRow) <= p.appearances
      && p.sackings == CountWhere(p.rows, SackingRow) <= p.appearances
  {
    var facts := FactsIn(winners);
    var g := ManagerRows(rows, m);
    ManagerRowsAre(rows, m);
    ProfileCounts(m, g, facts);
    FilterSamePredicate(g, TitleBy(facts), TitleRow);
    FilterSamePredicate(g, PromotionBy(facts), PromotionRow);
    FilterSamePredicate(g, PlayoffWinBy(facts), PlayoffWinRow(winners));
    FilterSamePredicate(g, RelegationBy(facts), RelegationRow);
    FilterSamePredicate(g, SackingBy(facts), SackingRow);
  }

  /** The teams of a finished profile: their count is the number of
      distinct teams of the manager's rows, at most the appearances; the
      teams are exactly those teams, in strictly ascending order. */
  lemma ManagerProfileTeams(rows: seq<StandingRecord>, winners: Option<set<string>>, m: string)
    requires m in ManagerProfiles(rows, winners)
    ensures var p := ManagerProfiles(rows, winners)[m];
      && p.teamCount == |set r | r in p.rows :: r.team| <= p.appearances
      && (forall t :: t in p.teams <==> exists i :: 0 <= i < |p.rows| && p.rows[i].team == t)
      && (forall i, j :: 0 <= i < j < |p.teams| ==> StrLt(p.teams[i], p.teams[j]))
  {
    var facts := FactsIn(winners);
    var g := ManagerRows(rows, m);
    forall r | r in g ensures facts(r).team == r.team {
    }
    ProfileCounts(m, g, facts);
    FinishedTeams(m, g, facts);
  }

  /** The season count of a finished profile is the number of distinct
      normalised seasons of the manager's rows, at most the appearances. */
  lemma ManagerProfileSeasons(rows: seq<StandingRecord>, winners: Option<set<string>>, m: string)
    requires m in ManagerProfiles(rows, winners)
    ensures var p := ManagerProfiles(rows, winners)[m];
      p.seasonCount == |set r | r in p.rows :: NormDiv(r.season)| <= p.appearances
  {
    var facts := FactsIn(winners);
    var g := ManagerRows(rows, m);
    var season := (r: StandingRecord) => NormDiv(r.season);
    forall r | r in g ensures facts(r).season == season(r) {
    }
    ProfileCounts(m, g, facts);
    FinishedSeasons(m, g, facts, season);
    assert KeySet(g, season) == set r | r in g :: NormDiv(r.season);
  }

  /** The finished teams: as many as the distinct teams of the rows, which
      they are, in strictly ascending order. */
  lemma FinishedTeams(m: string, g: seq<StandingRecord>, facts: StandingRecord -> RowFacts)
    requires forall r :: r in g ==> facts(r).team == r.team
    ensures var p := Finish(ProfileOf(m, g, facts));
      && p.teamCount == |set r | r in g :: r.team| <= |g|
      && (forall t :: t in p.teams <==> exists i :: 0 <= i < |g| && g[i].team == t)
      && (forall i, j :: 0 <= i < j < |p.teams| ==> StrLt(p.teams[i], p.teams[j]))
  {
    var q := ProfileOf(m, g, facts);
    ProfileTeams(m, g, facts);
    TeamSet(q.teams, g);
    SortedNames(q.teams);
  }

  lemma TeamSet(ts: seq<string>, g: seq<StandingRecord>)
    requires NoDups(ts)
    requires forall t :: t in ts <==> exists i :: 0 <= i < |g| && g[i].team == t
    ensures |ts| == |set r | r in g :: r.team|
  {
    NoDupsCard(ts);
    assert (set t | t in ts) == (set r | r in g :: r.team) by {
      forall t | t in (set r | r in g :: r.team) ensures t in ts {
        var r :| r in g && r.team == t;
        var i :| 0 <= i < |g| && g[i] == r;
      }
    }
  }

  /** The seasons collected for a manager: as many as the distinct seasons
      of the rows. */
  lemma FinishedSeasons(m: string, g: seq<StandingRecord>, facts: StandingRecord -> RowFacts,
                        season: StandingRecord -> string)
    requires forall r :: r in g ==> facts(r).season == season(r)
    ensures |ProfileOf(m, g, facts).seasons| == |KeySet(g, season)|
    ensures |ProfileOf(m, g, facts).seasons| <= |g|
  {
    var q := ProfileOf(m, g, facts);
    ProfileSeasons(m, g, facts);
    forall i | 0 <= i < |g| ensures facts(g[i]).season == season(g[i]) {
      assert g[i] in g;
    }
    KeySetCard(q.seasons, g, season);
  }


  /** The set of the keys of the elements of `g`. */
  function KeySet<T(==)>(g: seq<T>, key: T -> string): set<string> {
    set r | r in g :: key(r)
  }

  /** A list of distinct keys that are exactly the keys of `g` is as long
      as the set of those keys. */
  lemma KeySetCard<T>(ks: seq<string>, g: seq<T>, key: T -> string)
    requires NoDups(ks)
    requires forall k :: k in ks <==> exists i :: 0 <= i < |g| && key(g[i]) == k
    ensures |ks| == |KeySet(g, key)|
  {
    NoDupsCard(ks);
    assert (set k | k in ks) == KeySet(g, key) by {
      forall k | k in KeySet(g, key) ensures k in ks {
        var r :| r in g && key(r) == k;
        var i :| 0 <= i < |g| && g[i] == r;
      }
    }
  }



  /** When every normalised season is numeric, the seasons of a finished
      profile are in ascending numeric order. */
  lemma FinishSeasonsSorted(p: Profile)
    requires forall s :: s in p.seasons ==> SeasonNumber(s).Some?
    ensures AscendingKeys(Finish(p).seasons, SeasonNumber)
  {
    forall a, b | a in p.seasons && b in p.seasons
      ensures SeasonCmp(a, b) == SeasonNumber(a).value - SeasonNumber(b).value
    {
      SeasonCmpKnown(a, b);
    }
    SortedByKnownKey(p.seasons, SeasonCmp, SeasonNumber);
  }

  lemma SeasonCmpKnown(a: string, b: string)
    requires SeasonNumber(a).Some? && SeasonNumber(b).Some?
    ensures SeasonCmp(a, b) == SeasonNumber(a).value - SeasonNumber(b).value
  {
  }

  /** The manager list and the profiles have the same names. */
  lemma ManagersAreProfiled(rows: seq<StandingRecord>, winners: Option<set<string>>, m: string)
    ensures m in ManagerList(rows) <==> m in ManagerProfiles(rows, winners)
  {
    assert m in ManagerList(rows) <==> m in multiset(ManagerList(rows));
    assert m in NamesSeen(rows) <==> m in multiset(NamesSeen(rows));
  }

  /** `currentManager`: the selected name, else the first offered name,
      looked up in the profiles. */
  function CurrentManager(selected: string, offered: seq<string>, profiles: map<string, ManagerProfile>)
    : Option<ManagerProfile>
  {
    var pick := if selected != [] then selected else if offered != [] then offered[0] else "";
    if pick in profiles then Some(profiles[pick]) else None
  }

  /** With nothing selected, the first name the search offers always has a
      profile. */
  lemma FirstOfferedHasProfile(rows: seq<StandingRecord>, winners: Option<set<string>>, query: string)
    requires FilteredManagers(ManagerList(rows), query) != []
    ensures var offered := FilteredManagers(ManagerList(rows), query);
      CurrentManager("", offered, ManagerProfiles(rows, winners)).Some?
  {
    var offered := FilteredManagers(ManagerList(rows), query);
    FilteredManagersFacts(ManagerList(rows), query);
    assert offered[0] in offered;
    OfferedHasProfile(rows, winners, offered);
  }

  lemma OfferedHasProfile(rows: seq<StandingRecord>, winners: Option<set<string>>, offered: seq<string>)
    requires offered != [] && offered[0] in ManagerList(rows)
    ensures var profiles := ManagerProfiles(rows, winners);
      offered[0] in profiles && CurrentManager("", offered, profiles) == Some(profiles[offered[0]])
  {
    ManagersAreProfiled(rows, winners, offered[0]);
  }

  // ---------------------------------------------------------------------
  // The career table
  // ---------------------------------------------------------------------

  /** The comparator of the career table: by `numeric` season, then
      division, then position. */
  function CareerCmp(a: StandingRecord, b: StandingRecord): int {
    var s := NumericLoose(a.season) - NumericLoose(b.season);
    if s != 0 then s
    else
      var d := NumericLoose(a.division) - NumericLoose(b.division);
      if d != 0 then d else NumericLoose(a.position) - NumericLoose(b.position)
  }

  /** `rows.slice().sort(...)`. */
  function CareerRows(rows: seq<StandingRecord>): seq<StandingRecord> {
    SortBy(rows, CareerCmp)
  }

  /** `a` comes no later than `b` in (season, division, position) order. */
  predicate CareerLe(a: StandingRecord, b: StandingRecord) {
    var s1, s2 := NumericLoose(a.season), NumericLoose(b.season);
    var d1, d2 := NumericLoose(a.division), NumericLoose(b.division);
    s1 < s2 || (s1 == s2 && (d1 < d2 || (d1 == d2 && NumericLoose(a.position) <= NumericLoose(b.position))))
  }

  lemma CareerCmpLe(a: StandingRecord, b: StandingRecord)
    ensures CareerCmp(a, b) <= 0 <==> CareerLe(a, b)
  {
  }

  /** The career table lists the manager's rows, each once, in ascending
      order of season, then division, then position. */
  lemma CareerRowsSorted(rows: seq<StandingRecord>)
    ensures multiset(CareerRows(rows)) == multiset(rows)
    ensures var out := CareerRows(rows);
      forall i, j :: 0 <= i < j < |out| ==> CareerLe(out[i], out[j])
  {
    forall a, b ensures CareerCmp(a, b) <= 0 <==> CareerLe(a, b) {
      CareerCmpLe(a, b);
    }
    assert Consistent(rows, CareerCmp);
    SortBySorted(rows, CareerCmp);
    var out := CareerRows(rows);
    forall i, j | 0 <= i < j < |out| ensures CareerLe(out[i], out[j]) {
      assert CareerCmp(out[i], out[j]) <= 0;
    }
  }

  /** The notes of a career row, in their fixed order. */
  datatype Note = ChampionsNote | AutoPromotedNote | PlayoffWinnerNote | RelegatedNote | AutoSackedNote {
    function Label(): string {
      match this
      case ChampionsNote => "Champions"
      case AutoPromotedNote => "Auto-Promoted"
      case PlayoffWinnerNote => "Playoff Winner \U{1F3C6}"
      case RelegatedNote => "Relegated"
      case AutoSackedNote => "Auto-Sacked"
    }

    function Rank(): nat {
      match this
      case ChampionsNote => 0
      case AutoPromotedNote => 1
      case PlayoffWinnerNote => 2
      case RelegatedNote => 3
      case AutoSackedNote => 4
    }
  }

  /** Whether note `n` belongs to a row with the facts `f`. */
  predicate NoteHolds(n: Note, f: RowFacts) {
    match n
    case ChampionsNote => f.title
    case AutoPromotedNote => f.promoted
    case PlayoffWinnerNote => f.playoffWin
    case RelegatedNote => f.relegated
    case AutoSackedNote => f.sacked
  }

  function NoteIf(b: bool, n: Note): seq<Note> {
    if b then [n] else []
  }

  /** The array of five conditional labels, with the false entries
      filtered out. */
  function NotesOf(f: RowFacts): seq<Note> {
    NoteIf(f.title, ChampionsNote) + NoteIf(f.promoted, AutoPromotedNote)
    + NoteIf(f.playoffWin, PlayoffWinnerNote) + NoteIf(f.relegated, RelegatedNote)
    + NoteIf(f.sacked, AutoSackedNote)
  }

  function Labels(ns: seq<Note>): seq<string> {
    MapSeq(ns, (n: Note) => n.Label())
  }

  /** The notes cell of a career row: the labels joined by " • ", or a dash
      when there are none. */
  function NotesText(r: StandingRecord, winners: Option<set<string>>): string {
    var text := Join(Labels(NotesOf(FactsOf(r, winners))), " • ");
    if text == [] then "—" else text
  }

  /** A row's notes are exactly the notes that hold for it, each once, in
      the fixed order Champions, Auto-Promoted, Playoff Winner, Relegated,
      Auto-Sacked. */
  lemma NotesOfFacts(f: RowFacts)
    ensures var ns := NotesOf(f);
      && (forall n :: n in ns <==> NoteHolds(n, f))
      && (forall i, j :: 0 <= i < j < |ns| ==> ns[i].Rank() < ns[j].Rank())
  {
    forall n ensures n in NotesOf(f) <==> NoteHolds(n, f) {
      NotesOfMembers(f, n);
    }
    NotesOfRanked(f);
  }

  lemma NotesOfRanked(f: RowFacts)
    ensures RankedBelow(NotesOf(f), 5)
  {
    var a := NoteIf(f.title, ChampionsNote);
    var b := a + NoteIf(f.promoted, AutoPromotedNote);
    var c := b + NoteIf(f.playoffWin, PlayoffWinnerNote);
    var d := c + NoteIf(f.relegated, RelegatedNote);
    assert RankedBelow(a, 1) by {
      NoteIfRanked([], f.title, ChampionsNote);
      assert [] + a == a;
    }
    assert RankedBelow(b, 2) by { NoteIfRanked(a, f.promoted, AutoPromotedNote); }
    assert RankedBelow(c, 3) by { NoteIfRanked(b, f.playoffWin, PlayoffWinnerNote); }
    assert RankedBelow(d, 4) by { NoteIfRanked(c, f.relegated, RelegatedNote); }
    NoteIfRanked(d, f.sacked, AutoSackedNote);
  }

  lemma NotesOfMembers(f: RowFacts, n: Note)
    ensures n in NotesOf(f) <==> NoteHolds(n, f)
  {
    var a := NoteIf(f.title, ChampionsNote);
    var b := a + NoteIf(f.promoted, AutoPromotedNote);
    var c := b + NoteIf(f.playoffWin, PlayoffWinnerNote);
    var d := c + NoteIf(f.relegated, RelegatedNote);
    assert n in a <==> f.title && n == ChampionsNote;
    NoteIfHas(a, f.promoted, AutoPromotedNote, n);
    NoteIfHas(b, f.playoffWin, PlayoffWinnerNote, n);
    NoteIfHas(c, f.relegated, RelegatedNote, n);
    NoteIfHas(d, f.sacked, AutoSackedNote, n);
    match n
    case ChampionsNote =>
    case AutoPromotedNote =>
    case PlayoffWinnerNote =>
    case RelegatedNote =>
    case AutoSackedNote =>
  }

  /** The notes `ns` come in strictly increasing rank, all below `r`. */
  predicate RankedBelow(ns: seq<Note>, r: nat) {
    && (forall i, j :: 0 <= i < j < |ns| ==> ns[i].Rank() < ns[j].Rank())
    && (forall i :: 0 <= i < |ns| ==> ns[i].Rank() < r)
  }

  /** Appending a note of a higher rank keeps the notes in rank order. */
  lemma NoteIfRanked(ns: seq<Note>, b: bool, n: Note)
    requires RankedBelow(ns, n.Rank())
    ensures RankedBelow(ns + NoteIf(b, n), n.Rank() + 1)
  {
  }

  lemma NoteIfHas(ns: seq<Note>, b: bool, n: Note, m: Note)
    ensures m in ns + NoteIf(b, n) <==> m in ns || (b && m == n)
  {
  }

  /** No career row is noted both as champion and as auto-promoted. */
  lemma ChampionNotPromoted(r: StandingRecord, winners: Option<set<string>>)
    ensures var ns := NotesOf(FactsOf(r, winners));
      !(ChampionsNote in ns && AutoPromotedNote in ns)
  {
    NotesOfFacts(FactsOf(r, winners));
  }
}
