/** The honours page of src/Winners.js: two sheets of past winners (clubs and
    managers), one row per season and one column per competition, read into
    a flat list of honours; the filter over that list; and the views built
    from what the filter keeps: the overall and per-competition leaderboards
    and the table of winners per season and competition. */
module Honours {
  import opened Base
  import opened Text
  import opened JsInt
  import opened Sorting
  import opened Tally

  // ---------------------------------------------------------------------
  // Headers
  // ---------------------------------------------------------------------

  /** `lower`: trimmed, then lower-cased. */
  function Lower(s: string): string {
    ToLower(Trim(s))
  }

  /** The canonical competition names, in their declared order. */
  const CompetitionHeaders: seq<string> := [
    "Division 1", "Division 2", "Division 3", "Division 4", "Division 5",
    "Top 100 Cup", "Top 100 Shield", "Youth Cup", "Youth Shield",
    "World Club Cup", "World Club Shield", "Charity Shield",
    "Division 2 Play-off", "Division 3 Play-off", "Division 4 Play-off", "Division 5 Play-off",
    "SMFA Super Cup", "SMFA Champions Cup", "SMFA Shield",
    "Youth Spoon", "World Cup"]

  /** The first of `hs` whose `lower` form is `l`. */
  function FoldedMatch(hs: seq<string>, l: string): (r: Option<string>)
    ensures r.Some? ==> r.value in hs && Lower(r.value) == l
    ensures r.None? <==> forall i :: 0 <= i < |hs| ==> Lower(hs[i]) != l
  {
    if hs == [] then None
    else if Lower(hs[0]) == l then Some(hs[0])
    else FoldedMatch(hs[1..], l)
  }

  /** `headerToCompetition`: the trimmed header when it is a canonical name;
      else the first canonical name equal to it up to case; else the
      trimmed header itself. */
  function HeaderToCompetition(h: string): string {
    Canonical(CompetitionHeaders, Trim(h))
  }

  /** The name of `hs` that `t` stands for: `t` itself when listed, else the
      first listed name equal to it up to case, else `t` unchanged. */
  function Canonical(hs: seq<string>, t: string): string {
    if t in hs then t
    else
      match FoldedMatch(hs, Lower(t))
      case Some(x) => x
      case None => t
  }

  /** A name matching some listed name up to case and surrounding white
      space becomes a listed name with its `lower` form; any other stays. */
  lemma CanonicalCases(hs: seq<string>, t: string)
    ensures (exists i :: 0 <= i < |hs| && Lower(hs[i]) == Lower(t))
        ==> Canonical(hs, t) in hs && Lower(Canonical(hs, t)) == Lower(t)
    ensures (forall i :: 0 <= i < |hs| ==> Lower(hs[i]) != Lower(t))
        ==> Canonical(hs, t) == t
  {
    var m := FoldedMatch(hs, Lower(t));
    if t in hs {
      var i :| 0 <= i < |hs| && hs[i] == t;
      assert Lower(hs[i]) == Lower(t);
    } else if m.Some? {
      assert Canonical(hs, t) == m.value;
    } else {
      assert Canonical(hs, t) == t;
    }
  }

  /** No white space at either end: what `trim` leaves unchanged. */
  predicate Tidy(s: string) {
    s == [] || (!IsJsSpace(s[0]) && !IsJsSpace(s[|s| - 1]))
  }

  lemma TidyTrim(s: string)
    requires Tidy(s)
    ensures Trim(s) == s
  {
    assert TrimStart(s) == s;
  }

  lemma CompetitionHeadersTidy()
    ensures forall i :: 0 <= i < |CompetitionHeaders| ==> Tidy(CompetitionHeaders[i])
  {
  }

  /** A header matching a canonical name up to case and surrounding white
      space becomes a canonical name with that `lower` form; any other
      header becomes its trimmed self. */
  lemma HeaderToCompetitionCases(h: string)
    ensures (exists i :: 0 <= i < |CompetitionHeaders| && Lower(CompetitionHeaders[i]) == Lower(h))
        ==> HeaderToCompetition(h) in CompetitionHeaders && Lower(HeaderToCompetition(h)) == Lower(h)
    ensures (forall i :: 0 <= i < |CompetitionHeaders| ==> Lower(CompetitionHeaders[i]) != Lower(h))
        ==> HeaderToCompetition(h) == Trim(h)
  {
    TrimIdempotent(h);
    var t := Trim(h);
    assert Lower(t) == Lower(h);
    CanonicalCases(CompetitionHeaders, t);
  }

  /** Mapping a header twice changes nothing more than mapping it once. */
  lemma HeaderToCompetitionIdempotent(h: string)
    ensures HeaderToCompetition(HeaderToCompetition(h)) == HeaderToCompetition(h)
  {
    var c := HeaderToCompetition(h);
    if c in CompetitionHeaders {
      CanonicalFixed(c);
    } else {
      FallbackFixed(h);
    }
  }

  lemma CanonicalFixed(c: string)
    requires c in CompetitionHeaders
    ensures HeaderToCompetition(c) == c
  {
    CompetitionHeadersTidy();
    var i :| 0 <= i < |CompetitionHeaders| && CompetitionHeaders[i] == c;
    TidyTrim(c);
  }

  lemma FallbackFixed(h: string)
    requires HeaderToCompetition(h) !in CompetitionHeaders
    ensures HeaderToCompetition(HeaderToCompetition(h)) == HeaderToCompetition(h)
  {
    var t := Trim(h);
    FallbackIsTrim(h);
    TrimIdempotent(h);
    assert Trim(t) == t;
  }

  lemma FallbackIsTrim(h: string)
    requires HeaderToCompetition(h) !in CompetitionHeaders
    ensures var t := Trim(h);
      HeaderToCompetition(h) == t && t !in CompetitionHeaders && FoldedMatch(CompetitionHeaders, Lower(t)).None?
  {
  }

  // ---------------------------------------------------------------------
  // Reading a sheet
  // ---------------------------------------------------------------------

  /** One honour: `{ season, competition, winner, kind }`. */
  datatype Honour = Honour(season: string, competition: string, winner: string, kind: string)

  /** `normalize(row[i])`: the trimmed cell, or "" past the end of the row. */
  function CellAt(row: seq<string>, i: nat): string {
    if i < |row| then Trim(row[i]) else []
  }

  /** Whether a header names the season column. */
  function IsSeasonHeader(): string -> bool {
    (h: string) => Lower(h) == "season"
  }

  /** `headerRow.findIndex((h) => lower(h) === 'season')`. */
  function SeasonColumn(header: seq<string>): int {
    IndexWhere(header, IsSeasonHeader())
  }

  /** The indices `0 .. n-1` other than `s`, ascending: the competition
      columns. */
  function OtherColumns(n: nat, s: int): (cols: seq<nat>)
    ensures forall k :: 0 <= k < |cols| ==> cols[k] < n && cols[k] != s
    ensures forall c: nat :: c < n && c != s ==> c in cols
    ensures forall a, b :: 0 <= a < b < |cols| ==> cols[a] < cols[b]
  {
    if n == 0 then []
    else OtherColumns(n - 1, s) + (if n - 1 == s then [] else [n - 1])
  }

  /** The honour the cell of `row` in column `c` gives: none when the cell
      is blank or its column has no header. */
  function CellHonour(header: seq<string>, season: string, row: seq<string>, kind: string, comp: string -> string,
                      c: nat): seq<Honour>
  {
    var winner := CellAt(row, c);
    if winner == [] || c >= |header| then [] else [Honour(season, comp(header[c]), winner, kind)]
  }

  /** The honour of one cell, as a function of its column. */
  function CellReader(header: seq<string>, season: string, row: seq<string>, kind: string, comp: string -> string)
    : nat -> seq<Honour>
  {
    (c: nat) => CellHonour(header, season, row, kind, comp, c)
  }

  /** The honours of one row through the columns `cols`, in column order:
      one per non-blank cell. */
  function CellHonours(header: seq<string>, cols: seq<nat>, season: string, row: seq<string>, kind: string,
                       comp: string -> string): seq<Honour>
  {
    FlatMap(cols, CellReader(header, season, row, kind, comp))
  }

  /** The competition a header names. */
  function Competition(): string -> string {
    (h: string) => HeaderToCompetition(h)
  }

  lemma CellHonoursSnoc(header: seq<string>, cols: seq<nat>, j: nat, season: string, row: seq<string>, kind: string,
                        comp: string -> string)
    requires j < |cols|
    ensures CellHonours(header, cols[..j + 1], season, row, kind, comp)
         == CellHonours(header, cols[..j], season, row, kind, comp) + CellHonour(header, season, row, kind, comp, cols[j])
  {
    FlatMapSnocAt(cols, j, CellReader(header, season, row, kind, comp));
  }

  /** The honours of one row: none when its season cell is blank. */
  function RowHonours(header: seq<string>, s: nat, row: seq<string>, kind: string, comp: string -> string): seq<Honour> {
    var season := CellAt(row, s);
    if season == [] then [] else CellHonours(header, OtherColumns(|header|, s), season, row, kind, comp)
  }

  /** The honours of one row, as a function of the row. */
  function RowReader(header: seq<string>, s: nat, kind: string, comp: string -> string): seq<string> -> seq<Honour> {
    row => RowHonours(header, s, row, kind, comp)
  }

  /** The honours of the rows `rows`, row by row. */
  function TabHonours(header: seq<string>, s: nat, rows: seq<seq<string>>, kind: string, comp: string -> string)
    : seq<Honour>
  {
    FlatMap(rows, RowReader(header, s, kind, comp))
  }

  /** What `normalizeTab(values, kind)` returns: nothing without rows or
      without a "season" column; otherwise the honours of every row after
      the header. */
  function NormalizedTab(values: seq<seq<string>>, kind: string): seq<Honour> {
    if values == [] then []
    else
      var s := SeasonColumn(values[0]);
      if s < 0 then [] else TabHonours(values[0], s, values[1..], kind, Competition())
  }

  /** `normalizeTab`: the competition columns are fixed once from the
      header; then every row with a season pushes one honour per non-blank
      competition cell. */
  method NormalizeTab(values: seq<seq<string>>, kind: string) returns (out: seq<Honour>)
    ensures out == NormalizedTab(values, kind)
  {
    if values == [] {
      return [];
    }
    var header := values[0];
    var seasonIdx := SeasonColumn(header);
    if seasonIdx == -1 {
      return [];
    }
    out := PushRows(header, seasonIdx, values[1..], kind, Competition());
  }

  /** The outer loop of `normalizeTab`: the rows in turn, each with a
      non-blank season pushing its cells. */
  method PushRows(header: seq<string>, seasonIdx: nat, rows: seq<seq<string>>, kind: string, comp: string -> string)
    returns (out: seq<Honour>)
    ensures out == TabHonours(header, seasonIdx, rows, kind, comp)
  {
    var compCols := OtherColumns(|header|, seasonIdx);
    out := [];
    var i := 0;
    while i < |rows|
      invariant 0 <= i <= |rows|
      invariant out == TabHonours(header, seasonIdx, rows[..i], kind, comp)
    {
      var row := rows[i];
      var seasonVal := CellAt(row, seasonIdx);
      ghost var next := RowHonours(header, seasonIdx, row, kind, comp);
      assert TabHonours(header, seasonIdx, rows[..i + 1], kind, comp) == out + next by {
        FlatMapSnocAt(rows, i, RowReader(header, seasonIdx, kind, comp));
      }
      if seasonVal != [] {
        out := PushCells(out, header, compCols, seasonVal, row, kind, comp);
      } else {
        assert out + next == out;
      }
      i := i + 1;
    }
    assert rows[..i] == rows;
  }

  /** The inner loop of `normalizeTab`: one honour per non-blank cell of
      `row` in the columns `cols`, appended to `out` in column order. */
  method PushCells(out0: seq<Honour>, header: seq<string>, cols: seq<nat>, season: string, row: seq<string>, kind: string,
                   comp: string -> string)
    returns (out: seq<Honour>)
    requires forall k :: 0 <= k < |cols| ==> cols[k] < |header|
    ensures out == out0 + CellHonours(header, cols, season, row, kind, comp)
  {
    out := out0;
    var j := 0;
    while j < |cols|
      invariant 0 <= j <= |cols|
      invariant out == out0 + CellHonours(header, cols[..j], season, row, kind, comp)
    {
      var col := cols[j];
      var winner := CellAt(row, col);
      CellHonoursSnoc(header, cols, j, season, row, kind, comp);
      assert out0 + CellHonours(header, cols[..j + 1], season, row, kind, comp)
          == out + CellHonour(header, season, row, kind, comp, col);
      if winner != [] {
        var competition := comp(header[col]);
        out := out + [Honour(season, competition, winner, kind)];
      }
      j := j + 1;
    }
    assert cols[..j] == cols;
  }

  // ---------------------------------------------------------------------
  // What a sheet yields
  // ---------------------------------------------------------------------

  /** The honour that the cell of `row` in column `c` gives: the cell
      is not blank, its column has a header, and the honour carries the
      season, the competition the header names, the cell and the kind. */
  predicate FromCell(header: seq<string>, season: string, row: seq<string>, kind: string, comp: string -> string,
                     c: nat, h: Honour)
  {
    c < |header| && CellAt(row, c) != [] && h == Honour(season, comp(header[c]), CellAt(row, c), kind)
  }

  /** The cells of `row` in the columns `cols` each give an honour when
      they are not blank and have a header, and nothing else does. */
  lemma CellHonoursExactly(header: seq<string>, cols: seq<nat>, season: string, row: seq<string>,
                           kind: string, comp: string -> string, h: Honour)
    ensures h in CellHonours(header, cols, season, row, kind, comp)
        <==> exists c :: c in cols && FromCell(header, season, row, kind, comp, c, h)
  {
    if h in CellHonours(header, cols, season, row, kind, comp) {
      var c := CellHonoursFrom(header, cols, season, row, kind, comp, h);
    }
    if exists c :: c in cols && FromCell(header, season, row, kind, comp, c, h) {
      var c :| c in cols && FromCell(header, season, row, kind, comp, c, h);
      CellHonoursHas(header, cols, season, row, kind, comp, h, c);
    }
  }

  /** Every honour of a row comes from one of its cells. */
  lemma CellHonoursFrom(header: seq<string>, cols: seq<nat>, season: string, row: seq<string>,
                        kind: string, comp: string -> string, h: Honour) returns (c: nat)
    requires h in CellHonours(header, cols, season, row, kind, comp)
    ensures c in cols && FromCell(header, season, row, kind, comp, c, h)
  {
    var f := CellReader(header, season, row, kind, comp);
    var i := FlatMapFrom(cols, f, h);
    c := cols[i];
    assert f(c) == CellHonour(header, season, row, kind, comp, c);
  }

  /** Every non-blank cell with a header gives its honour. */
  lemma CellHonoursHas(header: seq<string>, cols: seq<nat>, season: string, row: seq<string>,
                       kind: string, comp: string -> string, h: Honour, c: nat)
    requires c in cols && FromCell(header, season, row, kind, comp, c, h)
    ensures h in CellHonours(header, cols, season, row, kind, comp)
  {
    var f := CellReader(header, season, row, kind, comp);
    var i :| 0 <= i < |cols| && cols[i] == c;
    assert f(c) == CellHonour(header, season, row, kind, comp, c);
    FlatMapHas(cols, f, h, i);
  }

  /** Whether the cell of `row` in column `c` holds a winner under a header. */
  function Filled(header: seq<string>, row: seq<string>): nat -> bool {
    (c: nat) => c < |header| && CellAt(row, c) != []
  }

  /** The number of filled competition cells of a row, or none when its
      season cell is blank. */
  function RowCells(header: seq<string>, s: nat, row: seq<string>): nat {
    if CellAt(row, s) == [] then 0 else CountWhere(OtherColumns(|header|, s), Filled(header, row))
  }

  /** The number of filled competition cells over the rows with a season. */
  function FilledCells(header: seq<string>, s: nat, rows: seq<seq<string>>): nat {
    if rows == [] then 0 else FilledCells(header, s, rows[..|rows| - 1]) + RowCells(header, s, rows[|rows| - 1])
  }

  /** The columns `cols` of a row give one honour per filled cell. */
  lemma {:induction false} CellHonoursCount(header: seq<string>, cols: seq<nat>, season: string, row: seq<string>,
                                            kind: string, comp: string -> string)
    ensures |CellHonours(header, cols, season, row, kind, comp)| == CountWhere(cols, Filled(header, row))
    decreases |cols|
  {
    if cols != [] {
      var n := |cols| - 1;
      var c := cols[n];
      CellHonoursCount(header, cols[..n], season, row, kind, comp);
      assert CellReader(header, season, row, kind, comp)(c) == CellHonour(header, season, row, kind, comp, c);
      assert |CellHonour(header, season, row, kind, comp, c)| == (if Filled(header, row)(c) then 1 else 0);
    }
  }

  /** The rows after the header give one honour per filled cell of a row
      with a season. */
  lemma {:induction false} TabHonoursCount(header: seq<string>, s: nat, rows: seq<seq<string>>, kind: string,
                                           comp: string -> string)
    ensures |TabHonours(header, s, rows, kind, comp)| == FilledCells(header, s, rows)
    decreases |rows|
  {
    if rows != [] {
      var n := |rows| - 1;
      TabHonoursCount(header, s, rows[..n], kind, comp);
      assert RowReader(header, s, kind, comp)(rows[n]) == RowHonours(header, s, rows[n], kind, comp);
      RowHonoursExactly(header, s, rows[n], kind, comp, Honour([], [], [], []));
    }
  }

  /** A row with a season yields one honour per non-blank competition
      cell; a row without one yields none. */
  lemma RowHonoursExactly(header: seq<string>, s: nat, row: seq<string>, kind: string, comp: string -> string, h: Honour)
    ensures h in RowHonours(header, s, row, kind, comp)
        <==> (CellAt(row, s) != [] && exists c: nat :: c != s && FromCell(header, CellAt(row, s), row, kind, comp, c, h))
    ensures |RowHonours(header, s, row, kind, comp)| == RowCells(header, s, row)
  {
    var season := CellAt(row, s);
    var cols := OtherColumns(|header|, s);
    if season != [] {
      CellHonoursCount(header, cols, season, row, kind, comp);
      CellHonoursExactly(header, cols, season, row, kind, comp, h);
      if exists c: nat :: c != s && FromCell(header, season, row, kind, comp, c, h) {
        var c: nat :| c != s && FromCell(header, season, row, kind, comp, c, h);
        assert c in cols;
      }
    }
  }

  /** The honours of the rows are the honours of some row. */
  lemma TabHonoursExactly(header: seq<string>, s: nat, rows: seq<seq<string>>, kind: string,
                          comp: string -> string, h: Honour)
    ensures h in TabHonours(header, s, rows, kind, comp)
        <==> exists i :: 0 <= i < |rows| && h in RowHonours(header, s, rows[i], kind, comp)
  {
    var f := RowReader(header, s, kind, comp);
    if h in TabHonours(header, s, rows, kind, comp) {
      var i := FlatMapFrom(rows, f, h);
      assert f(rows[i]) == RowHonours(header, s, rows[i], kind, comp);
    }
    if exists i :: 0 <= i < |rows| && h in RowHonours(header, s, rows[i], kind, comp) {
      var i :| 0 <= i < |rows| && h in RowHonours(header, s, rows[i], kind, comp);
      assert f(rows[i]) == RowHonours(header, s, rows[i], kind, comp);
      FlatMapHas(rows, f, h, i);
    }
  }

  /** A sheet yields nothing without rows or without a header "season" up
      to case and surrounding white space. */
  lemma NormalizedTabNoSeason(values: seq<seq<string>>, kind: string)
    requires values == [] || forall j :: 0 <= j < |values[0]| ==> Lower(values[0][j]) != "season"
    ensures NormalizedTab(values, kind) == []
  {
    if values != [] {
      assert forall j :: 0 <= j < |values[0]| ==> !IsSeasonHeader()(values[0][j]);
    }
  }

  /** With a season column `s`, a sheet yields exactly one honour per
      non-blank cell outside that column, in a row after the header whose
      season cell is not blank; that honour carries the trimmed season, the
      competition its header names, the trimmed cell and the kind. */
  lemma NormalizedTabExactly(values: seq<seq<string>>, kind: string, h: Honour)
    requires values != [] && SeasonColumn(values[0]) >= 0
    ensures var header := values[0];
      var s := SeasonColumn(header);
      && ((h in NormalizedTab(values, kind))
          <==> (exists i, c: nat :: 1 <= i < |values| && c != s && CellAt(values[i], s) != []
                                   && FromCell(header, CellAt(values[i], s), values[i], kind, Competition(), c, h)))
      && |NormalizedTab(values, kind)| == FilledCells(header, s, values[1..])
  {
    var header := values[0];
    var s := SeasonColumn(header);
    var rows := values[1..];
    TabHonoursCount(header, s, rows, kind, Competition());
    TabHonoursExactly(header, s, rows, kind, Competition(), h);
    if h in NormalizedTab(values, kind) {
      var k :| 0 <= k < |rows| && h in RowHonours(header, s, rows[k], kind, Competition());
      RowHonoursExactly(header, s, rows[k], kind, Competition(), h);
      assert rows[k] == values[k + 1];
    }
    if exists i, c: nat :: 1 <= i < |values| && c != s && CellAt(values[i], s) != []
                          && FromCell(header, CellAt(values[i], s), values[i], kind, Competition(), c, h) {
      var i, c: nat :| 1 <= i < |values| && c != s && CellAt(values[i], s) != []
                       && FromCell(header, CellAt(values[i], s), values[i], kind, Competition(), c, h);
      assert values[i] == rows[i - 1];
      RowHonoursExactly(header, s, rows[i - 1], kind, Competition(), h);
    }
  }

  /** Every honour a sheet yields has a non-blank season and winner with
      no surrounding white space, and the kind of the sheet. */
  lemma NormalizedTabProper(values: seq<seq<string>>, kind: string, h: Honour)
    requires h in NormalizedTab(values, kind)
    ensures h.season != [] && Tidy(h.season)
    ensures h.winner != [] && Tidy(h.winner)
    ensures h.kind == kind
  {
    assert values != [];
    var header := values[0];
    var s := SeasonColumn(header);
    assert s >= 0;
    NormalizedTabExactly(values, kind, h);
    var i, c: nat :| 1 <= i < |values| && c != s && CellAt(values[i], s) != []
                     && FromCell(header, CellAt(values[i], s), values[i], kind, Competition(), c, h);
    CellTidy(values[i], s);
    CellTidy(values[i], c);
  }

  lemma CellTidy(row: seq<string>, i: nat)
    ensures Tidy(CellAt(row, i))
  {
  }
}
