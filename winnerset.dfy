/** The play-off winners sheet, read into the set of keys the standings
    page looks rows up in. The first row holds the headers; a "season"
    column names the season and every column headed like "Division 3
    Play-off" names that division's play-off winner. */
module WinnerSet {
  import opened Base
  import opened Text
  import opened Names
  import opened Schema

  /** The regular expression `division\s*([2-5])\s*play-?off` anchored at
      the start of `s`: the captured division digit, if it matches there. */
  function PlayoffMatchAt(s: string): (r: Option<char>)
    ensures r.Some? ==> '2' <= r.value <= '5'
  {
    if !StartsWith(s, "division") then None
    else
      var t := TrimStart(s[8..]);
      if t == [] || !('2' <= t[0] <= '5') then None
      else
        var u := TrimStart(t[1..]);
        if StartsWith(u, "playoff") || StartsWith(u, "play-off") then Some(t[0]) else None
  }

  /** The pattern at the front of "division", white space, one character,
      white space and a tail that starts with none: it matches exactly when
      the character is a digit from 2 to 5 and the tail starts with
      "playoff" or "play-off". */
  lemma PlayoffMatchOf(sp1: string, d: char, sp2: string, tail: string)
    requires forall k :: 0 <= k < |sp1| ==> IsJsSpace(sp1[k])
    requires forall k :: 0 <= k < |sp2| ==> IsJsSpace(sp2[k])
    requires !IsJsSpace(d) && (tail == [] || !IsJsSpace(tail[0]))
    ensures PlayoffMatchAt("division" + (sp1 + ([d] + (sp2 + tail))))
         == if '2' <= d <= '5' && (StartsWith(tail, "playoff") || StartsWith(tail, "play-off"))
            then Some(d) else None
  {
    var t := [d] + (sp2 + tail);
    DivisionPrefix(sp1 + t);
    TrimStartAfterSpaces(sp1, t);
    DropFirstAppend([d], sp2 + tail);
    TrimStartAfterSpaces(sp2, tail);
    PlayoffMatchAtParts("division" + (sp1 + t), d, t, tail);
  }

  lemma DivisionPrefix(x: string)
    ensures StartsWith("division" + x, "division") && ("division" + x)[8..] == x
  {
    assert ("division" + x)[..8] == "division";
  }

  lemma PlayoffMatchAtParts(s: string, d: char, t: string, tail: string)
    requires StartsWith(s, "division") && |s| >= 8
    requires TrimStart(s[8..]) == t && t != [] && t[0] == d && TrimStart(t[1..]) == tail
    ensures PlayoffMatchAt(s)
         == if '2' <= d <= '5' && (StartsWith(tail, "playoff") || StartsWith(tail, "play-off"))
            then Some(d) else None
  {
  }

  /** The division captured by the leftmost match anywhere in a header. */
  function PlayoffDivision(h: string): (r: Option<char>)
    ensures r.Some? ==> '2' <= r.value <= '5'
    ensures PlayoffMatchAt(h).Some? ==> r == PlayoffMatchAt(h)
  {
    if PlayoffMatchAt(h).Some? then PlayoffMatchAt(h)
    else if h == [] then None
    else PlayoffDivision(h[1..])
  }

  /** Characters before a match that hold no 'd' cannot start one, so the
      leftmost match is the one after them. */
  lemma {:induction false} PlayoffDivisionAfter(p: string, h: string)
    requires 'd' !in p && PlayoffMatchAt(h).Some?
    ensures PlayoffDivision(p + h) == PlayoffMatchAt(h)
    decreases |p|
  {
    if p != [] {
      var s := p + h;
      assert PlayoffMatchAt(s) == None by {
        assert !StartsWith(s, "division") by {
          if |s| >= 8 {
            assert s[..8][0] == p[0];
          }
        }
      }
      assert PlayoffDivision(s) == PlayoffDivision(s[1..]);
      DropFirstAppend(p, h);
      PlayoffDivisionAfter(p[1..], h);
    } else {
      assert p + h == h;
    }
  }

  /** A winners column: its index and the division digit its header names. */
  datatype PlayoffColumn = PlayoffColumn(index: nat, division: char)

  /** The play-off columns among the first `n` headers, left to right. */
  function PlayoffColumnsUpTo(h: seq<string>, n: nat): (cols: seq<PlayoffColumn>)
    requires n <= |h|
    ensures forall c :: 0 <= c < |cols| ==>
      cols[c].index < n && PlayoffDivision(h[cols[c].index]) == Some(cols[c].division)
    ensures forall i :: 0 <= i < n && PlayoffDivision(h[i]).Some? ==>
      PlayoffColumn(i, PlayoffDivision(h[i]).value) in cols
  {
    if n == 0 then []
    else
      var prev := PlayoffColumnsUpTo(h, n - 1);
      match PlayoffDivision(h[n - 1])
      case Some(d) => prev + [PlayoffColumn(n - 1, d)]
      case None => prev
  }

  /** `playoffCols`: every header naming a division 2 to 5 play-off. */
  function PlayoffColumns(h: seq<string>): (cols: seq<PlayoffColumn>)
    ensures forall c :: 0 <= c < |cols| ==>
      cols[c].index < |h| && '2' <= cols[c].division <= '5'
    ensures forall c :: 0 <= c < |cols| ==> PlayoffDivision(h[cols[c].index]) == Some(cols[c].division)
    ensures forall i :: 0 <= i < |h| && PlayoffDivision(h[i]).Some? ==>
      PlayoffColumn(i, PlayoffDivision(h[i]).value) in cols
  {
    PlayoffColumnsUpTo(h, |h|)
  }

  /** `row[i]`, with a missing cell read as the empty string. */
  function Cell(row: seq<string>, i: nat): string {
    if i < |row| then row[i] else []
  }

  /** How a (season, division, winner) triple becomes a key; the sheet is
      read with `PlayoffWinnerKey`. */
  type KeyFn = (string, string, string) -> string

  /** The keys one row contributes through the columns `cols`. */
  function ColumnKeys(cols: seq<PlayoffColumn>, season: string, row: seq<string>, key: KeyFn): set<string> {
    if cols == [] then {}
    else
      var c := cols[|cols| - 1];
      var prev := ColumnKeys(cols[..|cols| - 1], season, row, key);
      if Cell(row, c.index) == [] then prev
      else prev + {key(season, [c.division], Cell(row, c.index))}
  }

  /** The keys of a row: none when its season cell is empty. */
  function RowKeys(cols: seq<PlayoffColumn>, ix: nat, row: seq<string>, key: KeyFn): set<string> {
    if Cell(row, ix) == [] then {} else ColumnKeys(cols, Cell(row, ix), row, key)
  }

  /** The keys of all rows. */
  function WinnerKeys(cols: seq<PlayoffColumn>, ix: nat, rows: seq<seq<string>>, key: KeyFn): set<string> {
    if rows == [] then {}
    else WinnerKeys(cols, ix, rows[..|rows| - 1], key) + RowKeys(cols, ix, rows[|rows| - 1], key)
  }

  /** The winners set of a sheet: absent when the sheet is empty or has no
      column headed exactly "season" (after trimming and lower-casing). */
  function WinnersSetOf(values: seq<seq<string>>): (r: Option<set<string>>)
    ensures r.None? <==> values == [] || "season" !in NormaliseHeaders(values[0])
  {
    if values == [] then None
    else
      var h := NormaliseHeaders(values[0]);
      var ix := IndexOf(h, "season");
      if ix < 0 then None else Some(WinnerKeys(PlayoffColumns(h), ix, values[1..], PlayoffWinnerKey))
  }

  lemma ColumnKeysSnoc(cols: seq<PlayoffColumn>, c: PlayoffColumn, season: string, row: seq<string>, key: KeyFn)
    ensures ColumnKeys(cols + [c], season, row, key)
         == ColumnKeys(cols, season, row, key)
            + (if Cell(row, c.index) == [] then {} else {key(season, [c.division], Cell(row, c.index))})
  {
    assert (cols + [c])[..|cols|] == cols;
  }

  lemma WinnerKeysSnoc(cols: seq<PlayoffColumn>, ix: nat, rows: seq<seq<string>>, row: seq<string>, key: KeyFn)
    ensures WinnerKeys(cols, ix, rows + [row], key) == WinnerKeys(cols, ix, rows, key) + RowKeys(cols, ix, row, key)
  {
    assert (rows + [row])[..|rows|] == rows;
  }

  lemma WinnerKeysStep(cols: seq<PlayoffColumn>, ix: nat, rows: seq<seq<string>>, k: nat, key: KeyFn)
    requires k < |rows|
    ensures WinnerKeys(cols, ix, rows[..k + 1], key) == WinnerKeys(cols, ix, rows[..k], key) + RowKeys(cols, ix, rows[k], key)
  {
    assert rows[..k + 1] == rows[..k] + [rows[k]];
    WinnerKeysSnoc(cols, ix, rows[..k], rows[k], key);
  }

  /** The inner loop of `loadWinners`: every play-off column with a winner in
      `row` adds that winner's key. */
  method CollectColumnKeys(cols: seq<PlayoffColumn>, season: string, row: seq<string>) returns (keys: set<string>)
    ensures keys == ColumnKeys(cols, season, row, PlayoffWinnerKey)
  {
    keys := {};
    var c := 0;
    while c < |cols|
      invariant 0 <= c <= |cols|
      invariant keys == ColumnKeys(cols[..c], season, row, PlayoffWinnerKey)
    {
      var winner := Cell(row, cols[c].index);
      ColumnKeysSnoc(cols[..c], cols[c], season, row, PlayoffWinnerKey);
      assert cols[..c + 1] == cols[..c] + [cols[c]];
      if winner != [] {
        keys := keys + {PlayoffWinnerKey(season, [cols[c].division], winner)};
      }
      c := c + 1;
    }
    assert cols[..c] == cols;
  }

  /** The outer loop of `loadWinners`: every row with a season contributes
      its keys; a row whose season cell is empty is skipped. */
  method CollectWinnerKeys(cols: seq<PlayoffColumn>, ix: nat, rows: seq<seq<string>>) returns (keys: set<string>)
    ensures keys == WinnerKeys(cols, ix, rows, PlayoffWinnerKey)
  {
    keys := {};
    var k := 0;
    while k < |rows|
      invariant 0 <= k <= |rows|
      invariant keys == WinnerKeys(cols, ix, rows[..k], PlayoffWinnerKey)
    {
      var row := rows[k];
      var season := Cell(row, ix);
      var more: set<string> := {};
      if season != [] {
        more := CollectColumnKeys(cols, season, row);
      }
      assert more == RowKeys(cols, ix, row, PlayoffWinnerKey);
      WinnerKeysStep(cols, ix, rows, k, PlayoffWinnerKey);
      keys := keys + more;
      k := k + 1;
    }
    assert rows[..k] == rows;
  }

  /** `loadWinners`: the header row locates the season column and the
      play-off columns, then every later row is read. */
  method ParseWinners(values: seq<seq<string>>) returns (r: Option<set<string>>)
    ensures r == WinnersSetOf(values)
  {
    if |values| == 0 {
      return None;
    }
    var h := NormaliseHeaders(values[0]);
    var ix := IndexOf(h, "season");
    if ix == -1 {
      return None;
    }
    var cols := PlayoffColumns(h);
    var keys := CollectWinnerKeys(cols, ix, values[1..]);
    return Some(keys);
  }

  lemma {:induction false} ColumnKeysMembers(cols: seq<PlayoffColumn>, season: string, row: seq<string>,
                                             keyOf: KeyFn, key: string)
    ensures key in ColumnKeys(cols, season, row, keyOf) <==>
      exists c :: 0 <= c < |cols| && Cell(row, cols[c].index) != []
                  && key == keyOf(season, [cols[c].division], Cell(row, cols[c].index))
    decreases |cols|
  {
    if cols != [] {
      var init := cols[..|cols| - 1];
      ColumnKeysMembers(init, season, row, keyOf, key);
      assert forall c :: 0 <= c < |init| ==> init[c] == cols[c];
    }
  }

  /** Exactly the winners named in rows with a season, under columns that
      name a play-off division, give keys. */
  lemma {:induction false} WinnerKeysMembers(cols: seq<PlayoffColumn>, ix: nat, rows: seq<seq<string>>,
                                             keyOf: KeyFn, key: string)
    ensures key in WinnerKeys(cols, ix, rows, keyOf) <==>
      exists k, c :: 0 <= k < |rows| && 0 <= c < |cols|
                     && Cell(rows[k], ix) != [] && Cell(rows[k], cols[c].index) != []
                     && key == keyOf(Cell(rows[k], ix), [cols[c].division], Cell(rows[k], cols[c].index))
    decreases |rows|
  {
    if rows != [] {
      var init := rows[..|rows| - 1];
      var last := rows[|rows| - 1];
      WinnerKeysMembers(cols, ix, init, keyOf, key);
      ColumnKeysMembers(cols, Cell(last, ix), last, keyOf, key);
      assert forall k :: 0 <= k < |init| ==> init[k] == rows[k];
      if key in RowKeys(cols, ix, last, keyOf) {
        var c :| 0 <= c < |cols| && Cell(last, cols[c].index) != []
                 && key == keyOf(Cell(last, ix), [cols[c].division], Cell(last, cols[c].index));
        assert rows[|rows| - 1] == last;
      }
    }
  }

  lemma WinnerKeysNameDivisions(cols: seq<PlayoffColumn>, ix: nat, rows: seq<seq<string>>, keyOf: KeyFn, key: string)
    requires forall c :: 0 <= c < |cols| ==> '2' <= cols[c].division <= '5'
    requires key in WinnerKeys(cols, ix, rows, keyOf)
    ensures exists season, d, winner :: season != [] && winner != [] && '2' <= d <= '5'
              && key == keyOf(season, [d], winner)
  {
    WinnerKeysMembers(cols, ix, rows, keyOf, key);
    var k, c :| 0 <= k < |rows| && 0 <= c < |cols|
                && Cell(rows[k], ix) != [] && Cell(rows[k], cols[c].index) != []
                && key == keyOf(Cell(rows[k], ix), [cols[c].division], Cell(rows[k], cols[c].index));
    assert '2' <= cols[c].division <= '5';
  }

  /** Every key in the winners set names a season, a play-off division from 2
      to 5 and a winner, none of them empty. */
  lemma WinnersSetKeysNamePlayoffs(values: seq<seq<string>>, key: string)
    requires WinnersSetOf(values).Some? && key in WinnersSetOf(values).value
    ensures exists season, d, winner :: season != [] && winner != [] && '2' <= d <= '5'
              && key == PlayoffWinnerKey(season, [d], winner)
  {
    var h := NormaliseHeaders(values[0]);
    var ix := IndexOf(h, "season");
    WinnerKeysNameDivisions(PlayoffColumns(h), ix, values[1..], PlayoffWinnerKey, key);
  }

  /** Conversely, a winner written under a play-off header in a row with a
      season is in the set, keyed by that season and division. */
  lemma WinnerIsRecorded(values: seq<seq<string>>, k: nat, i: nat)
    requires WinnersSetOf(values).Some?
    requires 1 <= k < |values| && i < |values[0]|
    requires PlayoffDivision(NormaliseHeaders(values[0])[i]).Some?
    requires Cell(values[k], IndexOf(NormaliseHeaders(values[0]), "season")) != []
    requires Cell(values[k], i) != []
    ensures PlayoffWinnerKey(Cell(values[k], IndexOf(NormaliseHeaders(values[0]), "season")),
                             [PlayoffDivision(NormaliseHeaders(values[0])[i]).value],
                             Cell(values[k], i)) in WinnersSetOf(values).value
  {
    var h := NormaliseHeaders(values[0]);
    var ix := IndexOf(h, "season");
    var cols := PlayoffColumns(h);
    var rows := values[1..];
    var d := PlayoffDivision(h[i]).value;
    var key := PlayoffWinnerKey(Cell(values[k], ix), [d], Cell(values[k], i));
    assert PlayoffColumn(i, d) in cols;
    var c :| 0 <= c < |cols| && cols[c] == PlayoffColumn(i, d);
    DropFirstIndex(values, k);
    WinnerKeysMembers(cols, ix, rows, PlayoffWinnerKey, key);
  }
}
