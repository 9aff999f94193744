/** What the honours page shows of the honours read from its two sheets
    (src/Winners.js): the filter the controls set, the lists the controls
    offer, the overall and per-competition leaderboards, and the table of
    winners per season and competition. */
module WinnersView {
  import opened Base
  import opened Text
  import opened JsInt
  import opened Sorting
  import opened Tally
  import opened Honours

  // ---------------------------------------------------------------------
  // The filter
  // ---------------------------------------------------------------------

  /** The controls: the kind, season and competition selected (`""` for
      all) and the search text. */
  datatype View = View(kind: string, season: string, competition: string, search: string)

  /** What the search text is looked for in: winner, competition and season
      joined by spaces, lower-cased. */
  function Haystack(r: Honour): string {
    ToLower(r.winner + " " + r.competition + " " + r.season)
  }

  /** Whether an honour passes every control that is set. */
  predicate Shown(v: View, r: Honour) {
    && (v.kind == [] || r.kind == v.kind)
    && (v.season == [] || r.season == v.season)
    && (v.competition == [] || r.competition == v.competition)
    && (Lower(v.search) == [] || Contains(Haystack(r), Lower(v.search)))
  }

  function ShownIn(v: View): Honour -> bool {
    r => Shown(v, r)
  }

  /** `filtered`: the honours the controls let through, in their order. */
  function Filtered(rows: seq<Honour>, v: View): seq<Honour> {
    Filter(rows, ShownIn(v))
  }

  /** An honour is listed exactly when it is one of the rows and passes
      every control. */
  lemma FilteredKeeps(rows: seq<Honour>, v: View)
    ensures forall x :: x in Filtered(rows, v) <==> x in rows && Shown(v, x)
  {
    var r := Filtered(rows, v);
    forall x | x in r ensures x in rows && Shown(v, x) {
      var i :| 0 <= i < |r| && r[i] == x;
    }
    forall x | x in rows && Shown(v, x) ensures x in r {
      var i :| 0 <= i < |rows| && rows[i] == x;
    }
  }

  /** With no control set, every honour is listed, in order. */
  lemma FilteredNoControls(rows: seq<Honour>)
    ensures Filtered(rows, View("", "", "", "")) == rows
  {
    var v := View("", "", "", "");
    LowerEmpty();
    forall i | 0 <= i < |rows| ensures ShownIn(v)(rows[i]) {
      assert Shown(v, rows[i]);
    }
    FilterAll(rows, ShownIn(v));
  }

  lemma LowerEmpty()
    ensures Lower("") == []
  {
    assert Trim("") == [];
  }

  // ---------------------------------------------------------------------
  // The lists of the controls
  // ---------------------------------------------------------------------

  function SeasonOf(): Honour -> string {
    (r: Honour) => r.season
  }

  function CompetitionOf(): Honour -> string {
    (r: Honour) => r.competition
  }

  /** `allCompetitions`: the distinct competitions, in text order. */
  function AllCompetitions(rows: seq<Honour>): seq<string> {
    SortBy(Distinct(MapSeq(rows, CompetitionOf())), StrCmp)
  }

  /** Each competition of the rows is offered once, in strictly increasing
      text order. */
  lemma AllCompetitionsFacts(rows: seq<Honour>)
    ensures var cs := AllCompetitions(rows);
      && (forall c :: c in cs <==> exists x :: x in rows && x.competition == c)
      && (forall a, b :: 0 <= a < b < |cs| ==> StrLt(cs[a], cs[b]))
  {
    var m := MapSeq(rows, CompetitionOf());
    var cs := AllCompetitions(rows);
    var r := SortBy(Distinct(m), StrCmp);
    assert forall a, b :: 0 <= a < b < |r| ==> StrLt(r[a], r[b]) by {
      SortedDistinct(m);
    }
    assert forall k :: k in r <==> k in m by {
      SortedDistinct(m);
    }
    assert cs == r;
    forall c ensures c in cs <==> exists x :: x in rows && x.competition == c {
      assert c in r <==> c in m;
      CompetitionOfRows(rows, c);
    }
  }

  lemma CompetitionOfRows(rows: seq<Honour>, c: string)
    ensures c in MapSeq(rows, CompetitionOf()) <==> exists x :: x in rows && x.competition == c
  {
    var m := MapSeq(rows, CompetitionOf());
    if c in m {
      var i :| 0 <= i < |m| && m[i] == c;
      assert rows[i] in rows;
    }
    if exists x :: x in rows && x.competition == c {
      var x :| x in rows && x.competition == c;
      var i :| 0 <= i < |rows| && rows[i] == x;
      assert m[i] == c;
    }
  }

  /** The comparator of both season lists: `parseInt(b, 10) - parseInt(a, 10)`,
      a NaN difference counting as zero. */
  function SeasonDesc(a: string, b: string): int {
    match (ParseInt(a), ParseInt(b))
    case (Some(x), Some(y)) => y - x
    case _ => 0
  }

  /** `allSeasons`: the distinct seasons, latest first. */
  function AllSeasons(rows: seq<Honour>): seq<string> {
    SortBy(Distinct(MapSeq(rows, SeasonOf())), SeasonDesc)
  }

  /** `seasonsToShow`: the twenty latest seasons of the listed honours. */
  function SeasonsToShow(rows: seq<Honour>): seq<string> {
    Take(AllSeasons(rows), 20)
  }

  /** Each season of the rows is offered once. */
  lemma AllSeasonsFacts(rows: seq<Honour>)
    ensures var ss := AllSeasons(rows);
      && NoDups(ss)
      && (forall s :: s in ss <==> exists x :: x in rows && x.season == s)
  {
    var m := MapSeq(rows, SeasonOf());
    var d := Distinct(m);
    var ss := AllSeasons(rows);
    DistinctNoDups(m);
    PermutationNoDups(d, ss);
    forall s ensures s in ss <==> exists x :: x in rows && x.season == s {
      assert s in ss <==> s in multiset(ss);
      assert s in d <==> s in multiset(d);
      DistinctMembers(m, s);
      if s in m {
        var i :| 0 <= i < |m| && m[i] == s;
        assert rows[i] in rows;
      }
      if exists x :: x in rows && x.season == s {
        var x :| x in rows && x.season == s;
        var i :| 0 <= i < |rows| && rows[i] == x;
        assert m[i] == s;
      }
    }
  }

  /** `parseInt(season, 10)`, `None` for NaN. */
  function ParsedSeason(): string -> Option<int> {
    s => ParseInt(s)
  }

  /** When every season is a number, the seasons come latest first. */
  lemma AllSeasonsDescending(rows: seq<Honour>)
    requires forall x :: x in rows ==> ParseInt(x.season).Some?
    ensures DescendingKeys(AllSeasons(rows), ParsedSeason())
  {
    var m := MapSeq(rows, SeasonOf());
    var d := Distinct(m);
    forall s | s in d ensures ParsedSeason()(s).Some? {
      DistinctMembers(m, s);
      var i :| 0 <= i < |m| && m[i] == s;
      assert rows[i] in rows;
    }
    SortedByKnownKeyDesc(d, SeasonDesc, ParsedSeason());
  }

  /** The seasons shown come latest first when every season is a number. */
  lemma SeasonsToShowDescending(rows: seq<Honour>)
    requires forall x :: x in rows ==> ParseInt(x.season).Some?
    ensures DescendingKeys(SeasonsToShow(rows), ParsedSeason())
  {
    AllSeasonsDescending(rows);
    DescendingKeysPrefix(AllSeasons(rows), |SeasonsToShow(rows)|, ParsedSeason());
  }

  /** At most twenty distinct seasons of the rows are shown; fewer only
      when every season of the rows is shown. */
  lemma SeasonsToShowFacts(rows: seq<Honour>)
    ensures var ss := SeasonsToShow(rows);
      && |ss| <= 20
      && NoDups(ss)
      && (forall s :: s in ss ==> exists x :: x in rows && x.season == s)
      && (|ss| < 20 ==> forall x :: x in rows ==> x.season in ss)
  {
    AllSeasonsFacts(rows);
    var all := AllSeasons(rows);
    var ss := SeasonsToShow(rows);
    forall s | s in ss ensures s in all {
      var i :| 0 <= i < |ss| && ss[i] == s;
      assert all[i] == s;
    }
  }

  // ---------------------------------------------------------------------
  // Leaderboards
  // ---------------------------------------------------------------------

  /** One line of a leaderboard: `{ winner, count }`. */
  datatype Standing = Standing(winner: string, count: nat)

  /** The key of the counting maps: `${kind}|${winner}`. */
  function PairKey(): Honour -> string {
    (r: Honour) => r.kind + "|" + r.winner
  }

  /** `const [, winner] = k.split('|')`: the text between the first bar and
      the next one. */
  function WinnerPart(k: string): string {
    var parts := SplitOn(k, '|');
    if |parts| >= 2 then parts[1] else []
  }

  function ToStanding(e: Entry): Standing {
    Standing(WinnerPart(e.key), e.count)
  }

  /** The comparator of both leaderboards: most trophies first, then the
      winner in text order. */
  function ByCountThenWinner(a: Standing, b: Standing): int {
    if b.count - a.count != 0 then b.count - a.count else StrCmp(a.winner, b.winner)
  }

  /** The map's entries, in its key order, as standings. */
  function Standings(rows: seq<Honour>): seq<Standing> {
    var ks := KeysOf(rows, PairKey());
    MapSeq(Tallied(Distinct(ks), ks), ToStanding)
  }

  /** Every (kind, winner) pair of `rows` with its count, sorted. */
  function Ranking(rows: seq<Honour>): seq<Standing> {
    SortBy(Standings(rows), ByCountThenWinner)
  }

  /** `lbOverall`: the first fifty of the ranking. */
  function Overall(rows: seq<Honour>): seq<Standing> {
    Take(Ranking(rows), 50)
  }

  /** The counting loop both leaderboards share: one map entry per pair,
      the entries turned into standings in key order, then sorted. */
  method Rank(rows: seq<Honour>) returns (r: seq<Standing>)
    ensures r == Ranking(rows)
  {
    var order, counts := CountKeys(rows, PairKey());
    ghost var ks := KeysOf(rows, PairKey());
    var standings: seq<Standing> := [];
    var j := 0;
    while j < |order|
      invariant 0 <= j <= |order|
      invariant standings == MapSeq(Tallied(order[..j], ks), ToStanding)
    {
      assert order[..j + 1] == order[..j] + [order[j]];
      assert order[j] in ks by {
        DistinctMembers(ks, order[j]);
      }
      standings := standings + [Standing(WinnerPart(order[j]), counts[order[j]])];
      j := j + 1;
    }
    assert order[..j] == order;
    r := SortBy(standings, ByCountThenWinner);
  }

  /** `lbOverall`. */
  method LbOverall(rows: seq<Honour>) returns (r: seq<Standing>)
    ensures r == Overall(rows)
  {
    var ranked := Rank(rows);
    r := Take(ranked, 50);
  }

  /** Most trophies first; equal counts in text order of the winner. */
  predicate Ranked(r: seq<Standing>) {
    forall i, j :: 0 <= i < j < |r| ==>
      r[i].count > r[j].count || (r[i].count == r[j].count && StrCmp(r[i].winner, r[j].winner) <= 0)
  }

  lemma ByCountThenWinnerConsistent(u: seq<Standing>)
    ensures Consistent(u, ByCountThenWinner)
  {
    forall a, b ensures ByCountThenWinner(a, b) <= 0 || ByCountThenWinner(b, a) <= 0 {
      StrLtTotal(a.winner, b.winner);
    }
    forall a, b, c | ByCountThenWinner(a, b) <= 0 && ByCountThenWinner(b, c) <= 0
      ensures ByCountThenWinner(a, c) <= 0
    {
      if a.count == b.count && b.count == c.count {
        StrCmpTransitive(a.winner, b.winner, c.winner);
      }
    }
  }

  lemma RankingRanked(rows: seq<Honour>)
    ensures Ranked(Ranking(rows))
  {
    var s := Standings(rows);
    var r := Ranking(rows);
    ByCountThenWinnerConsistent(s);
    SortBySorted(s, ByCountThenWinner);
    forall i, j | 0 <= i < j < |r|
      ensures r[i].count > r[j].count || (r[i].count == r[j].count && StrCmp(r[i].winner, r[j].winner) <= 0)
    {
      assert ByCountThenWinner(r[i], r[j]) <= 0;
    }
  }

  /** The overall leaderboard holds at most fifty lines, in ranking order,
      and is short only when it holds the whole ranking. */
  lemma OverallFacts(rows: seq<Honour>)
    ensures |Overall(rows)| <= 50
    ensures Ranked(Overall(rows))
    ensures |Overall(rows)| < 50 ==> Overall(rows) == Ranking(rows)
  {
    RankingRanked(rows);
    var r := Ranking(rows);
    var o := Overall(rows);
    forall i, j | 0 <= i < j < |o|
      ensures o[i].count > o[j].count || (o[i].count == o[j].count && StrCmp(o[i].winner, o[j].winner) <= 0)
    {
      assert o[i] == r[i] && o[j] == r[j];
    }
  }

  /** Every line of the ranking counts the honours of one pair of the rows,
      and every pair of the rows has its line. */
  lemma RankingCounts(rows: seq<Honour>, s: Standing)
    requires s in Ranking(rows)
    ensures exists x :: x in rows && s.winner == WinnerPart(PairKey()(x))
                        && s.count == CountWhere(rows, KeyIs(PairKey(), PairKey()(x)))
  {
    var ks := KeysOf(rows, PairKey());
    var d := Distinct(ks);
    var st := Standings(rows);
    assert s in multiset(Ranking(rows));
    assert s in st;
    var j :| 0 <= j < |st| && st[j] == s;
    var k := d[j];
    assert s == Standing(WinnerPart(k), Occurrences(ks, k));
    DistinctMembers(ks, k);
    var i :| 0 <= i < |ks| && ks[i] == k;
    KeysOfFacts(rows, PairKey());
    OccurrencesOfKeys(rows, PairKey(), k);
    var f := Filter(rows, KeyIs(PairKey(), k));
    assert |f| >= 1;
    var x := f[0];
    assert x in rows && PairKey()(x) == k;
  }

  lemma RankingComplete(rows: seq<Honour>, x: Honour)
    requires x in rows
    ensures exists s :: s in Ranking(rows) && s.winner == WinnerPart(PairKey()(x))
                        && s.count == CountWhere(rows, KeyIs(PairKey(), PairKey()(x)))
  {
    var ks := KeysOf(rows, PairKey());
    var d := Distinct(ks);
    var st := Standings(rows);
    var k := PairKey()(x);
    var i :| 0 <= i < |rows| && rows[i] == x;
    assert k in ks by {
      KeysOfFacts(rows, PairKey());
    }
    DistinctMembers(ks, k);
    var j :| 0 <= j < |d| && d[j] == k;
    OccurrencesOfKeys(rows, PairKey(), k);
    var s := st[j];
    assert s in multiset(st);
    assert s in Ranking(rows);
  }

  /** A kind and a winner without a bar: what makes `${kind}|${winner}` a
      faithful pair. */
  predicate BarFree(x: Honour) {
    '|' !in x.kind && '|' !in x.winner
  }

  function SamePair(x: Honour): Honour -> bool {
    (y: Honour) => y.kind == x.kind && y.winner == x.winner
  }

  /** Without bars, the key splits back into its kind and its winner. */
  lemma PairKeySplits(x: Honour)
    requires BarFree(x)
    ensures SplitOn(PairKey()(x), '|') == [x.kind, x.winner]
    ensures WinnerPart(PairKey()(x)) == x.winner
  {
    SplitOnPair(x.kind, x.winner, '|');
    assert PairKey()(x) == x.kind + ['|'] + x.winner;
  }

  lemma PairKeyInjective(x: Honour, y: Honour)
    requires BarFree(x) && BarFree(y)
    ensures PairKey()(x) == PairKey()(y) <==> SamePair(x)(y)
  {
    SplitAtBar(x.kind, x.winner, y.kind, y.winner);
  }

  lemma {:induction false} CountWhereSame<T>(s: seq<T>, p: T -> bool, q: T -> bool)
    requires forall i :: 0 <= i < |s| ==> p(s[i]) == q(s[i])
    ensures CountWhere(s, p) == CountWhere(s, q)
    decreases |s|
  {
    if s != [] {
      var n := |s| - 1;
      CountWhereSame(s[..n], p, q);
      FilterSnocAt(s, n, p);
      FilterSnocAt(s, n, q);
      assert s[..n + 1] == s;
    }
  }

  /** When no kind or winner holds a bar, every line of the ranking names a
      winner of the rows and counts exactly the honours of that kind and
      winner. */
  lemma RankingCountsPairs(rows: seq<Honour>, s: Standing)
    requires s in Ranking(rows)
    requires forall x :: x in rows ==> BarFree(x)
    ensures exists x :: x in rows && s.winner == x.winner && s.count == CountWhere(rows, SamePair(x))
  {
    RankingCounts(rows, s);
    var x :| x in rows && s.winner == WinnerPart(PairKey()(x))
             && s.count == CountWhere(rows, KeyIs(PairKey(), PairKey()(x)));
    PairKeySplits(x);
    forall i | 0 <= i < |rows| ensures KeyIs(PairKey(), PairKey()(x))(rows[i]) == SamePair(x)(rows[i]) {
      PairKeyInjective(x, rows[i]);
    }
    CountWhereSame(rows, KeyIs(PairKey(), PairKey()(x)), SamePair(x));
  }

  /** Blocks of the per-competition leaderboard: `{ competition, rows }`. */
  datatype Block = Block(competition: string, rows: seq<Standing>)

  function Everything(): Honour -> bool {
    r => true
  }

  /** The honours of one competition, in order. */
  function CompetitionRows(rows: seq<Honour>, c: string): seq<Honour> {
    Members(rows, Everything(), CompetitionOf(), c)
  }

  /** `Ranking` as a value. */
  function RankingOf(): seq<Honour> -> seq<Standing> {
    rs => Ranking(rs)
  }

  /** The block of one competition: the first ten that `rank` puts in
      order among the honours of that competition. */
  function BlockWith(rows: seq<Honour>, rank: seq<Honour> -> seq<Standing>): string -> Block {
    c => Block(c, Take(rank(CompetitionRows(rows, c)), 10))
  }

  function ByCompetitionName(a: Block, b: Block): int {
    StrCmp(a.competition, b.competition)
  }

  /** `lbByCompetition`: a block per competition in order of first
      appearance, then sorted by competition. */
  function ByCompetition(rows: seq<Honour>): seq<Block> {
    BlocksBy(rows, RankingOf())
  }

  /** A block per competition in order of first appearance, then sorted by
      competition, each holding what `rank` makes of that competition. */
  function BlocksBy(rows: seq<Honour>, rank: seq<Honour> -> seq<Standing>): seq<Block> {
    SortBy(MapSeq(FirstSeen(rows, Everything(), CompetitionOf()), BlockWith(rows, rank)), ByCompetitionName)
  }

  /** `lbByCompetition`: the honours grouped by competition, each group
      counted and ranked, then the blocks sorted. */
  method LbByCompetition(rows: seq<Honour>) returns (out: seq<Block>)
    ensures out == ByCompetition(rows)
  {
    var order, groups := GroupInto(rows, Everything(), CompetitionOf());
    out := RankGroups(rows, order, groups);
  }

  /** The loop over the competitions of `lbByCompetition`: one block per
      competition, in the map's key order, then sorted. */
  method RankGroups(rows: seq<Honour>, order: seq<string>, groups: map<string, seq<Honour>>)
    returns (out: seq<Block>)
    requires forall c :: c in order ==> c in groups && groups[c] == CompetitionRows(rows, c)
    ensures out == SortBy(MapSeq(order, BlockWith(rows, RankingOf())), ByCompetitionName)
  {
    var blocks: seq<Block> := [];
    var j := 0;
    while j < |order|
      invariant 0 <= j <= |order|
      invariant blocks == MapSeq(order[..j], BlockWith(rows, RankingOf()))
    {
      var c := order[j];
      var ranked := Rank(groups[c]);
      MapSeqSnocAt(order, j, BlockWith(rows, RankingOf()));
      blocks := blocks + [Block(c, Take(ranked, 10))];
      j := j + 1;
    }
    assert order[..j] == order;
    out := SortBy(blocks, ByCompetitionName);
  }

  lemma ByCompetitionNameConsistent(u: seq<Block>)
    ensures Consistent(u, ByCompetitionName)
  {
    forall a, b ensures ByCompetitionName(a, b) <= 0 || ByCompetitionName(b, a) <= 0 {
      StrLtTotal(a.competition, b.competition);
    }
    forall a, b, c | ByCompetitionName(a, b) <= 0 && ByCompetitionName(b, c) <= 0
      ensures ByCompetitionName(a, c) <= 0
    {
      StrCmpTransitive(a.competition, b.competition, c.competition);
    }
  }

  /** Blocks made one per name and sorted by name: each is the block of
      its name, and every name has one. */
  lemma SortedBlocksMembers(order: seq<string>, f: string -> Block)
    requires forall c :: f(c).competition == c
    ensures var out := SortBy(MapSeq(order, f), ByCompetitionName);
      && (forall i :: 0 <= i < |out| ==> out[i] == f(out[i].competition) && out[i].competition in order)
      && (forall k :: 0 <= k < |order| ==> exists i :: 0 <= i < |out| && out[i].competition == order[k])
  {
    var blocks := MapSeq(order, f);
    var out := SortBy(blocks, ByCompetitionName);
    forall i | 0 <= i < |out| ensures out[i] == f(out[i].competition) && out[i].competition in order {
      assert out[i] in multiset(blocks);
      var k :| 0 <= k < |blocks| && blocks[k] == out[i];
    }
    forall k | 0 <= k < |order| ensures exists i :: 0 <= i < |out| && out[i].competition == order[k] {
      assert blocks[k] in multiset(out);
      var i :| 0 <= i < |out| && out[i] == blocks[k];
    }
  }

  function CompetitionOfBlock(): Block -> string {
    (b: Block) => b.competition
  }

  /** Blocks made one per distinct name and sorted by name come in strictly
      increasing name order. */
  lemma SortedBlocksOrdered(order: seq<string>, f: string -> Block)
    requires NoDups(order)
    requires forall c :: f(c).competition == c
    ensures var out := SortBy(MapSeq(order, f), ByCompetitionName);
      forall a, b :: 0 <= a < b < |out| ==> StrLt(out[a].competition, out[b].competition)
  {
    var blocks := MapSeq(order, f);
    forall i, j | 0 <= i < j < |blocks| ensures CompetitionOfBlock()(blocks[i]) != CompetitionOfBlock()(blocks[j]) {
      assert blocks[i].competition == order[i] && blocks[j].competition == order[j];
    }
    SortedByNameStrict(blocks, CompetitionOfBlock(), ByCompetitionName);
  }

  /** Every block holds what `rank` makes of its competition, and that
      competition is one of the rows. */
  lemma BlocksContents(rows: seq<Honour>, rank: seq<Honour> -> seq<Standing>)
    ensures var out := BlocksBy(rows, rank);
      forall i :: 0 <= i < |out| ==>
        && out[i].rows == Take(rank(CompetitionRows(rows, out[i].competition)), 10)
        && exists x :: x in rows && x.competition == out[i].competition
  {
    var order := FirstSeen(rows, Everything(), CompetitionOf());
    var out := BlocksBy(rows, rank);
    SortedBlocksMembers(order, BlockWith(rows, rank));
    forall i | 0 <= i < |out|
      ensures out[i].rows == Take(rank(CompetitionRows(rows, out[i].competition)), 10)
      ensures exists x :: x in rows && x.competition == out[i].competition
    {
      var c := out[i].competition;
      assert out[i] == BlockWith(rows, rank)(c) && c in order;
      FirstSeenMembers(rows, Everything(), CompetitionOf(), c);
      var n :| 0 <= n < |rows| && CompetitionOf()(rows[n]) == c;
      assert rows[n] in rows;
    }
  }

  /** Every competition of the rows has its block. */
  lemma BlocksCover(rows: seq<Honour>, rank: seq<Honour> -> seq<Standing>)
    ensures var out := BlocksBy(rows, rank);
      forall x :: x in rows ==> exists i :: 0 <= i < |out| && out[i].competition == x.competition
  {
    var order := FirstSeen(rows, Everything(), CompetitionOf());
    var out := BlocksBy(rows, rank);
    SortedBlocksMembers(order, BlockWith(rows, rank));
    forall x | x in rows ensures exists i :: 0 <= i < |out| && out[i].competition == x.competition {
      var n :| 0 <= n < |rows| && rows[n] == x;
      FirstSeenMembers(rows, Everything(), CompetitionOf(), x.competition);
      var k :| 0 <= k < |order| && order[k] == x.competition;
    }
  }

  /** Blocks come in strictly increasing competition order, so no
      competition has two. */
  lemma BlocksOrdered(rows: seq<Honour>, rank: seq<Honour> -> seq<Standing>)
    ensures var out := BlocksBy(rows, rank);
      forall a, b :: 0 <= a < b < |out| ==> StrLt(out[a].competition, out[b].competition)
  {
    var order := FirstSeen(rows, Everything(), CompetitionOf());
    FirstSeenNoDups(rows, Everything(), CompetitionOf());
    SortedBlocksOrdered(order, BlockWith(rows, rank));
    assert BlocksBy(rows, rank) == SortBy(MapSeq(order, BlockWith(rows, rank)), ByCompetitionName);
  }

  /** A block holds at most ten lines, ranked, and is short only when it
      holds every pair of its competition. */
  lemma BlockFacts(rows: seq<Honour>, c: string)
    ensures var b := BlockWith(rows, RankingOf())(c);
      && b.competition == c
      && |b.rows| <= 10
      && Ranked(b.rows)
      && (|b.rows| < 10 ==> b.rows == Ranking(CompetitionRows(rows, c)))
  {
    var r := Ranking(CompetitionRows(rows, c));
    var t := Take(r, 10);
    RankingRanked(CompetitionRows(rows, c));
    forall i, j | 0 <= i < j < |t|
      ensures t[i].count > t[j].count || (t[i].count == t[j].count && StrCmp(t[i].winner, t[j].winner) <= 0)
    {
      assert t[i] == r[i] && t[j] == r[j];
    }
  }

  /** The honours of a competition are the rows of that competition. */
  lemma CompetitionRowsKeep(rows: seq<Honour>, c: string)
    ensures forall x :: x in CompetitionRows(rows, c) <==> x in rows && x.competition == c
  {
    MembersFilter(rows, Everything(), CompetitionOf(), c);
    var f := CompetitionRows(rows, c);
    forall x | x in f ensures x in rows && x.competition == c {
      var i :| 0 <= i < |f| && f[i] == x;
    }
    forall x | x in rows && x.competition == c ensures x in f {
      var i :| 0 <= i < |rows| && rows[i] == x;
    }
  }

  // ---------------------------------------------------------------------
  // The season table
  // ---------------------------------------------------------------------

  /** `bySeasonComp`: season to competition to the set of winners. */
  type Table = map<string, map<string, set<string>>>

  /** The winners of the rows with this season and competition. */
  function WinnersIn(rows: seq<Honour>, s: string, c: string): set<string> {
    set x | x in rows && x.season == s && x.competition == c :: x.winner
  }

  /** The table holds a season exactly when some row has it, a competition
      under it exactly when some row has both, and there exactly the
      winners of those rows. */
  ghost predicate TableOf(rows: seq<Honour>, table: Table) {
    && (forall s :: s in table <==> exists x :: x in rows && x.season == s)
    && (forall s, c :: s in table ==> (c in table[s] <==> exists x :: x in rows && x.season == s && x.competition == c))
    && (forall s, c :: s in table && c in table[s] ==> table[s][c] == WinnersIn(rows, s, c))
  }

  /** One more honour entered into the table. */
  function Added(table: Table, x: Honour): Table {
    var cMap := if x.season in table then table[x.season] else map[];
    var ws := if x.competition in cMap then cMap[x.competition] else {};
    table[x.season := cMap[x.competition := ws + {x.winner}]]
  }

  lemma WinnersInSnoc(rows: seq<Honour>, x: Honour, s: string, c: string)
    ensures WinnersIn(rows + [x], s, c)
         == WinnersIn(rows, s, c) + (if x.season == s && x.competition == c then {x.winner} else {})
  {
    var l := WinnersIn(rows + [x], s, c);
    var r := WinnersIn(rows, s, c) + (if x.season == s && x.competition == c then {x.winner} else {});
    forall w | w in l ensures w in r {
      var y :| y in rows + [x] && y.season == s && y.competition == c && y.winner == w;
      if y != x {
        assert y in rows;
      }
    }
    forall w | w in r ensures w in l {
      if w in WinnersIn(rows, s, c) {
        var y :| y in rows && y.season == s && y.competition == c && y.winner == w;
        assert y in rows + [x];
      } else {
        assert x in rows + [x];
      }
    }
  }

  lemma TableStep(rows: seq<Honour>, x: Honour, table: Table)
    requires TableOf(rows, table)
    ensures TableOf(rows + [x], Added(table, x))
  {
    var t := Added(table, x);
    var rs := rows + [x];
    assert x in rs;
    forall s ensures s in t <==> exists y :: y in rs && y.season == s {
      if s != x.season && exists y :: y in rs && y.season == s {
        var y :| y in rs && y.season == s;
        assert y in rows;
      }
    }
    forall s, c | s in t ensures c in t[s] <==> exists y :: y in rs && y.season == s && y.competition == c {
      if exists y :: y in rs && y.season == s && y.competition == c {
        var y :| y in rs && y.season == s && y.competition == c;
        if y != x {
          assert y in rows;
        }
      }
      if s in table && c in table[s] {
        var y :| y in rows && y.season == s && y.competition == c;
        assert y in rs;
      }
    }
    forall s, c | s in t && c in t[s] ensures t[s][c] == WinnersIn(rs, s, c) {
      WinnersInSnoc(rows, x, s, c);
      if (s == x.season && c == x.competition) && !(s in table && c in table[s]) {
        assert WinnersIn(rows, s, c) == {};
      }
    }
  }

  /** `bySeasonComp`: every listed honour entered into the table in turn. */
  method BySeasonComp(rows: seq<Honour>) returns (table: Table)
    ensures TableOf(rows, table)
  {
    table := map[];
    var i := 0;
    while i < |rows|
      invariant 0 <= i <= |rows|
      invariant TableOf(rows[..i], table)
    {
      var r := rows[i];
      TableStep(rows[..i], r, table);
      assert rows[..i + 1] == rows[..i] + [r];
      var cMap := if r.season in table then table[r.season] else map[];
      var ws := if r.competition in cMap then cMap[r.competition] else {};
      table := table[r.season := cMap[r.competition := ws + {r.winner}]];
      i := i + 1;
    }
    assert rows[..i] == rows;
  }
}
