/** From the spreadsheet's rows of strings to standings records: header
    cells are trimmed and lower-cased, each field is looked up under a list
    of aliases, and every non-empty row becomes one record. */
module Schema {
  import opened Base
  import opened Text

  /** `H.indexOf(x)`: the first index holding `x`, or -1. */
  function IndexOf(h: seq<string>, x: string): (r: int)
    ensures -1 <= r < |h|
    ensures r == -1 <==> x !in h
    ensures r >= 0 ==> h[r] == x && forall j :: 0 <= j < r ==> h[j] != x
  {
    if h == [] then -1
    else if h[0] == x then 0
    else
      var r := IndexOf(h[1..], x);
      if r == -1 then -1 else r + 1
  }

  /** The header row as `find` compares it: each cell trimmed and lower-cased. */
  function NormaliseHeaders(headers: seq<string>): (h: seq<string>)
    ensures |h| == |headers|
    ensures forall i :: 0 <= i < |h| ==> h[i] == ToLower(Trim(headers[i]))
  {
    seq(|headers|, i requires 0 <= i < |headers| => ToLower(Trim(headers[i])))
  }

  /** Position, in `opts`, of the first alias present among the headers;
      `|opts|` when none is. */
  function FirstAliasPresent(h: seq<string>, opts: seq<string>): (k: nat)
    ensures k <= |opts|
    ensures forall j :: 0 <= j < k ==> ToLower(opts[j]) !in h
    ensures k < |opts| ==> ToLower(opts[k]) in h
  {
    if opts == [] then 0
    else if ToLower(opts[0]) in h then 0
    else 1 + FirstAliasPresent(h, opts[1..])
  }

  /** `find(...opts)`: the column of the first alias, in argument order, that
      some header equals; the leftmost such column; -1 when no alias is a
      header. */
  function Find(h: seq<string>, opts: seq<string>): (r: int)
    ensures -1 <= r < |h|
    ensures r == -1 <==> forall j :: 0 <= j < |opts| ==> ToLower(opts[j]) !in h
    ensures r >= 0 ==>
      var k := FirstAliasPresent(h, opts);
      k < |opts| && h[r] == ToLower(opts[k]) && forall j :: 0 <= j < r ==> h[j] != h[r]
  {
    var k := FirstAliasPresent(h, opts);
    if k == |opts| then -1 else IndexOf(h, ToLower(opts[k]))
  }

  /** `get(row, i)`: the trimmed cell, or "" for a missing column or cell. */
  function Get(row: seq<string>, i: int): (r: string)
    ensures i < 0 || i >= |row| ==> r == []
    ensures 0 <= i < |row| ==> r == Trim(row[i])
    ensures r == [] || (!IsJsSpace(r[0]) && !IsJsSpace(r[|r| - 1]))
  {
    if i < 0 || i >= |row| then [] else Trim(row[i])
  }

  /** The column of every field, found once from the header row. */
  datatype Columns = Columns(
    season: int, division: int, position: int, team: int,
    played: int, won: int, drawn: int, lost: int,
    goalsFor: int, goalsAgainst: int, goalDifference: int, points: int,
    startMonth: int, startYear: int, manager: int)

  /** The column of every field: `find` with that field's aliases. */
  function FindColumns(h: seq<string>): Columns {
    Columns(
      Find(h, ["season"]), Find(h, ["division", "div"]), Find(h, ["position", "pos"]), Find(h, ["team", "club"]),
      Find(h, ["p", "played"]), Find(h, ["w", "won"]), Find(h, ["d", "drawn"]), Find(h, ["l", "lost"]),
      Find(h, ["gf", "goals for", "goals_for"]), Find(h, ["ga", "goals against", "goals_against"]),
      Find(h, ["gd", "goal difference", "goal_difference"]), Find(h, ["pts", "points"]),
      Find(h, ["start month", "month", "start date (month)"]), Find(h, ["start year", "year", "start date (year)"]),
      Find(h, ["manager", "manager name"]))
  }

  /** One row of the standings. Every field is a trimmed string. */
  datatype StandingRecord = StandingRecord(
    season: string, division: string, position: string, team: string,
    played: string, won: string, drawn: string, lost: string,
    goalsFor: string, goalsAgainst: string, goalDifference: string, points: string,
    startDate: string, manager: string)

  /** `[startMonth, startYear].filter(Boolean).join(' ')`. */
  function StartDate(month: string, year: string): (r: string)
    ensures month == [] ==> r == year
    ensures year == [] ==> r == month
    ensures month != [] && year != [] ==> r == month + " " + year
  {
    var p := (s: string) => s != [];
    assert [month, year] == [month] + [year];
    FilterAppend([month], [year], p);
    FilterSingle(month, p);
    FilterSingle(year, p);
    var kept := Filter([month, year], p);
    assert month != [] && year != [] ==> kept == [month, year];
    assert month == [] ==> kept == Filter([year], p);
    assert year == [] ==> kept == Filter([month], p);
    assert [month, year][..1] == [month];
    assert Join([month, year], " ") == month + " " + year;
    Join(kept, " ")
  }

  /** The record of one row: every field read with `get` from its column. */
  function BuildRecord(c: Columns, row: seq<string>): StandingRecord {
    StandingRecord(
      Get(row, c.season), Get(row, c.division), Get(row, c.position), Get(row, c.team),
      Get(row, c.played), Get(row, c.won), Get(row, c.drawn), Get(row, c.lost),
      Get(row, c.goalsFor), Get(row, c.goalsAgainst), Get(row, c.goalDifference), Get(row, c.points),
      StartDate(Get(row, c.startMonth), Get(row, c.startYear)),
      Get(row, c.manager))
  }

  /** The standings records of a sheet: the first row is the header, every
      other non-empty row becomes one record, in order. A sheet without any
      row has no header and fails (`None`). */
  function ParseStandings(values: seq<seq<string>>): (r: Option<seq<StandingRecord>>)
    ensures r.None? <==> values == []
    ensures r.Some? ==>
      var kept := Filter(values[1..], (row: seq<string>) => row != []);
      var c := FindColumns(NormaliseHeaders(values[0]));
      |r.value| == |kept| && forall i :: 0 <= i < |kept| ==> r.value[i] == BuildRecord(c, kept[i])
  {
    if values == [] then None
    else
      var c := FindColumns(NormaliseHeaders(values[0]));
      Some(MapSeq(Filter(values[1..], (row: seq<string>) => row != []), (row: seq<string>) => BuildRecord(c, row)))
  }

  /** Only empty rows are dropped: a non-empty row yields a record even when
      its season or team cell is blank or missing. */
  lemma NonEmptyRowsKept(values: seq<seq<string>>, i: nat)
    requires 1 <= i < |values| && values[i] != []
    ensures ParseStandings(values).Some?
    ensures BuildRecord(FindColumns(NormaliseHeaders(values[0])), values[i]) in ParseStandings(values).value
  {
    var kept := Filter(values[1..], (row: seq<string>) => row != []);
    assert values[1..][i - 1] == values[i];
    assert values[i] in kept;
  }

  /** Aliases are tried in argument order, not header order: with headers
      "Div" and "Division" the division is read from the second column. */
  lemma AliasOrderWins()
    ensures Find(NormaliseHeaders(["Div", "Division"]), ["division", "div"]) == 1
  {
    NormalisedExample();
    assert ToLower("division") == "division";
    assert "division" in ["div", "division"];
    assert FirstAliasPresent(["div", "division"], ["division", "div"]) == 0;
  }

  /** A field none of whose aliases is a header reads as "" in every
      record: a sheet without a "season" header yields records with empty
      seasons, and one without "team" or "club" records with empty teams,
      rather than no records. */
  lemma MissingColumnsReadEmpty(values: seq<seq<string>>, row: seq<string>)
    requires values != []
    ensures var h := NormaliseHeaders(values[0]);
      var r := BuildRecord(FindColumns(h), row);
      && ("season" !in h ==> r.season == [])
      && ("team" !in h && "club" !in h ==> r.team == [])
  {
    assert ToLower("season") == "season";
    assert ToLower("team") == "team";
    assert ToLower("club") == "club";
  }

  /** A present column is read trimmed: the season of a record is the
      trimmed cell under the first header "season", and "" when the row is
      too short to reach it. */
  lemma SeasonReadFromColumn(values: seq<seq<string>>, row: seq<string>)
    requires values != []
    requires "season" in NormaliseHeaders(values[0])
    ensures var h := NormaliseHeaders(values[0]);
      var i := IndexOf(h, "season");
      var r := BuildRecord(FindColumns(h), row);
      && 0 <= i && h[i] == "season" && (forall j :: 0 <= j < i ==> h[j] != "season")
      && r.season == (if i < |row| then Trim(row[i]) else [])
  {
    var h := NormaliseHeaders(values[0]);
    assert ToLower("season") == "season";
    assert FirstAliasPresent(h, ["season"]) == 0;
  }

  lemma NormalisedExample()
    ensures NormaliseHeaders(["Div", "Division"]) == ["div", "division"]
  {
    TrimKeeps("Div");
    TrimKeeps("Division");
    assert ToLower("Div") == "div";
    assert ToLower("Division") == "division";
  }
}
