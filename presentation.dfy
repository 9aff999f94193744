/** How a standings row is dressed: the status tags listed next to the
    club, the badge over the position number and the colour of the row.
    The three use the same rules in different orders of precedence. */
module Presentation {
  import opened Base
  import opened JsInt
  import opened Classify
  import opened Names

  datatype Tag = Champions | ChampionsCup | Shield | AutoPromoted | Playoffs | Relegated | AutoSacked | PlayoffWinner

  /** Position of a tag in the fixed order the list is built in. */
  function Rank(t: Tag): nat {
    match t
    case Champions => 0
    case ChampionsCup => 1
    case Shield => 2
    case AutoPromoted => 3
    case Playoffs => 4
    case Relegated => 5
    case AutoSacked => 6
    case PlayoffWinner => 7
  }

  function Label(t: Tag): string {
    match t
    case Champions => "Champions"
    case ChampionsCup => "SMFA Champions Cup"
    case Shield => "SMFA Shield"
    case AutoPromoted => "Auto-Promoted"
    case Playoffs => "Playoffs"
    case Relegated => "Relegated"
    case AutoSacked => "Auto-Sacked"
    case PlayoffWinner => "Playoff Winner (Promoted)"
  }

  /** The winners set exists and holds the row's key. */
  predicate WonPlayoff(season: string, division: string, team: string, winners: Option<set<string>>) {
    winners.Some? && PlayoffWinnerKey(season, division, team) in winners.value
  }

  /** The rule behind each tag. */
  predicate TagHolds(t: Tag, position: string, division: string, team: string, season: string,
                     winners: Option<set<string>>) {
    match t
    case Champions => IsChampion(position)
    case ChampionsCup => IsD1Cup(division, position)
    case Shield => IsD1Shield(division, position)
    case AutoPromoted => IsAutoPromo(division, position)
    case Playoffs => IsPlayoffBand(division, position)
    case Relegated => IsRelegated(division, position)
    case AutoSacked => IsAutoSacked(position)
    case PlayoffWinner => WonPlayoff(season, division, team, winners)
  }

  /** Which rules hold for a row, one flag per tag. */
  datatype Flags = Flags(champion: bool, cup: bool, shield: bool, promoted: bool,
                         playoffs: bool, relegated: bool, sacked: bool, winner: bool)
  {
    predicate Has(t: Tag) {
      match t
      case Champions => champion
      case ChampionsCup => cup
      case Shield => shield
      case AutoPromoted => promoted
      case Playoffs => playoffs
      case Relegated => relegated
      case AutoSacked => sacked
      case PlayoffWinner => winner
    }
  }

  function RowFlags(position: string, division: string, team: string, season: string,
                    winners: Option<set<string>>): Flags
  {
    Flags(IsChampion(position), IsD1Cup(division, position), IsD1Shield(division, position),
          IsAutoPromo(division, position), IsPlayoffBand(division, position),
          IsRelegated(division, position), IsAutoSacked(position),
          WonPlayoff(season, division, team, winners))
  }

  /** The tag `t` when `b` holds, nothing otherwise. */
  function Opt(b: bool, t: Tag): seq<Tag> {
    if b then [t] else []
  }

  /** The tag of rank `k`. */
  function TagAt(k: nat): (t: Tag)
    requires k < 8
    ensures forall u :: Rank(u) == k <==> u == t
  {
    [Champions, ChampionsCup, Shield, AutoPromoted, Playoffs, Relegated, AutoSacked, PlayoffWinner][k]
  }

  /** `tags` is in strictly increasing rank order, all below rank `k`. */
  predicate RankedBelow(tags: seq<Tag>, k: nat) {
    tags == [] || (Rank(tags[|tags| - 1]) < k && RankedBelow(tags[..|tags| - 1], Rank(tags[|tags| - 1])))
  }

  lemma RankedAppend(tags: seq<Tag>, t: Tag, b: bool)
    requires RankedBelow(tags, Rank(t))
    ensures RankedBelow(tags + Opt(b, t), Rank(t) + 1)
  {
    if b {
      assert (tags + [t])[..|tags|] == tags;
    } else {
      assert tags + [] == tags;
    }
  }

  lemma {:induction false} RankedBelowOrdered(tags: seq<Tag>, k: nat)
    requires RankedBelow(tags, k)
    ensures forall i, j :: 0 <= i < j < |tags| ==> Rank(tags[i]) < Rank(tags[j])
    ensures forall i :: 0 <= i < |tags| ==> Rank(tags[i]) < k
    decreases |tags|
  {
    if tags != [] {
      var init := tags[..|tags| - 1];
      RankedBelowOrdered(init, Rank(tags[|tags| - 1]));
      assert forall i :: 0 <= i < |init| ==> tags[i] == init[i];
    }
  }

  /** The flagged tags of rank below `k`, pushed one after the other in rank order. */
  function PushedUpTo(f: Flags, k: nat): seq<Tag>
    requires k <= 8
  {
    if k == 0 then [] else PushedUpTo(f, k - 1) + Opt(f.Has(TagAt(k - 1)), TagAt(k - 1))
  }

  /** The tags whose flag is set, each once, in rank order. */
  function TagsOf(f: Flags): (tags: seq<Tag>)
    ensures forall t :: t in tags <==> f.Has(t)
    ensures forall i, j :: 0 <= i < j < |tags| ==> Rank(tags[i]) < Rank(tags[j])
  {
    TagsOfPushed(f, 8);
    RankedBelowOrdered(PushedUpTo(f, 8), 8);
    PushedUpTo(f, 8)
  }

  /** After `k` pushes the list holds exactly the flagged tags of rank below `k`,
      in strictly increasing rank order. */
  lemma {:induction false} TagsOfPushed(f: Flags, k: nat)
    requires k <= 8
    ensures forall t :: t in PushedUpTo(f, k) <==> f.Has(t) && Rank(t) < k
    ensures RankedBelow(PushedUpTo(f, k), k)
  {
    if k > 0 {
      TagsOfPushed(f, k - 1);
      var t := TagAt(k - 1);
      RankedAppend(PushedUpTo(f, k - 1), t, f.Has(t));
    }
  }

  /** The eight pushes, one flag at a time. */
  lemma PushedSteps(f: Flags)
    ensures PushedUpTo(f, 1) == Opt(f.champion, Champions)
    ensures PushedUpTo(f, 2) == PushedUpTo(f, 1) + Opt(f.cup, ChampionsCup)
    ensures PushedUpTo(f, 3) == PushedUpTo(f, 2) + Opt(f.shield, Shield)
    ensures PushedUpTo(f, 4) == PushedUpTo(f, 3) + Opt(f.promoted, AutoPromoted)
    ensures PushedUpTo(f, 5) == PushedUpTo(f, 4) + Opt(f.playoffs, Playoffs)
    ensures PushedUpTo(f, 6) == PushedUpTo(f, 5) + Opt(f.relegated, Relegated)
    ensures PushedUpTo(f, 7) == PushedUpTo(f, 6) + Opt(f.sacked, AutoSacked)
    ensures PushedUpTo(f, 8) == PushedUpTo(f, 7) + Opt(f.winner, PlayoffWinner)
  {
    assert TagAt(0) == Champions && TagAt(1) == ChampionsCup && TagAt(2) == Shield && TagAt(3) == AutoPromoted;
    assert TagAt(4) == Playoffs && TagAt(5) == Relegated && TagAt(6) == AutoSacked && TagAt(7) == PlayoffWinner;
    assert [] + Opt(f.champion, Champions) == Opt(f.champion, Champions);
  }

  /** The tags of a row: every tag whose rule holds, each once, in the fixed
      order Champions, Cup, Shield, Auto-Promoted, Playoffs, Relegated,
      Auto-Sacked, Playoff Winner. */
  function TeamTags(position: string, division: string, team: string, season: string,
                    winners: Option<set<string>>): (tags: seq<Tag>)
    ensures forall t :: t in tags <==> TagHolds(t, position, division, team, season, winners)
    ensures forall i, j :: 0 <= i < j < |tags| ==> Rank(tags[i]) < Rank(tags[j])
  {
    var f := RowFlags(position, division, team, season, winners);
    assert forall t :: f.Has(t) == TagHolds(t, position, division, team, season, winners);
    TagsOf(f)
  }

  /** `getTeamTags`: one `push` per rule that holds, in rule order. */
  method GetTeamTags(position: string, division: string, team: string, season: string,
                     winners: Option<set<string>>) returns (tags: seq<Tag>)
    ensures tags == TeamTags(position, division, team, season, winners)
  {
    var champion, cup, shield := IsChampion(position), IsD1Cup(division, position), IsD1Shield(division, position);
    var promoted, playoffs := IsAutoPromo(division, position), IsPlayoffBand(division, position);
    var relegated, sacked := IsRelegated(division, position), IsAutoSacked(position);
    var winner := WonPlayoff(season, division, team, winners);
    ghost var f := Flags(champion, cup, shield, promoted, playoffs, relegated, sacked, winner);
    assert f == RowFlags(position, division, team, season, winners);
    PushedSteps(f);
    tags := [];
    if champion { tags := tags + [Champions]; }
    assert tags == PushedUpTo(f, 1);
    if cup { tags := tags + [ChampionsCup]; }
    assert tags == PushedUpTo(f, 2);
    if shield { tags := tags + [Shield]; }
    assert tags == PushedUpTo(f, 3);
    if promoted { tags := tags + [AutoPromoted]; }
    assert tags == PushedUpTo(f, 4);
    if playoffs { tags := tags + [Playoffs]; }
    assert tags == PushedUpTo(f, 5);
    if relegated { tags := tags + [Relegated]; }
    assert tags == PushedUpTo(f, 6);
    if sacked { tags := tags + [AutoSacked]; }
    assert tags == PushedUpTo(f, 7);
    if winner { tags := tags + [PlayoffWinner]; }
    assert tags == PushedUpTo(f, 8);
  }

  /** The badge over the position number, with its background and icon. */
  datatype Badge = Sacked | Down | Crown | Up | Cup | ShieldBadge | Plain {
    function Background(): string {
      match this
      case Sacked => "bg-rose-600"
      case Down => "bg-red-600"
      case Crown => "bg-yellow-500"
      case Up => "bg-green-600"
      case Cup => "bg-purple-600"
      case ShieldBadge => "bg-indigo-600"
      case Plain => "bg-gray-200"
    }
    function Icon(): string {
      match this
      case Sacked => "⛔"
      case Down => "⬇️"
      case Crown => "👑"
      case Up => "⬆️"
      case Cup => "🏆"
      case ShieldBadge => "🛡️"
      case Plain => ""
    }
  }

  /** `getPositionBadge`: the first rule that holds picks the badge. */
  function PositionBadge(position: string, division: string, team: string, season: string,
                         winners: Option<set<string>>): Badge {
    BadgeOf(RowFlags(position, division, team, season, winners))
  }

  /** The badge for a row with flags `f`: sacked, relegated, champion,
      promoted or play-off winner, cup, shield, plain. */
  function BadgeOf(f: Flags): Badge {
    if f.sacked then Sacked
    else if f.relegated then Down
    else if f.champion then Crown
    else if f.promoted then Up
    else if f.playoffs && f.winner then Up
    else if f.cup then Cup
    else if f.shield then ShieldBadge
    else Plain
  }

  /** The background of the whole row. */
  datatype RowColour = YellowRow | GreenRow | RedRow | BlueRow | RoseRow | WhiteRow {
    function Class(): string {
      match this
      case YellowRow => "bg-yellow-50"
      case GreenRow => "bg-green-50"
      case RedRow => "bg-red-50"
      case BlueRow => "bg-blue-50"
      case RoseRow => "bg-rose-50"
      case WhiteRow => "bg-white"
    }
  }

  /** `getRowStyling`: champion, promotion, relegation, play-offs, sacking. */
  function RowStyle(position: string, division: string): RowColour {
    if IsChampion(position) then YellowRow
    else if IsAutoPromo(division, position) then GreenRow
    else if IsRelegated(division, position) then RedRow
    else if IsPlayoffBand(division, position) then BlueRow
    else if IsAutoSacked(position) then RoseRow
    else WhiteRow
  }

  /** The badge is chosen by precedence: each badge appears exactly when its
      rule holds and no rule ranked above it does. */
  lemma BadgePrecedence(position: string, division: string, team: string, season: string,
                        winners: Option<set<string>>)
    ensures var b := PositionBadge(position, division, team, season, winners);
      && (b == Sacked <==> IsAutoSacked(position))
      && (b == Down <==> !IsAutoSacked(position) && IsRelegated(division, position))
      && (b == Crown <==> !IsAutoSacked(position) && IsChampion(position))
      && (b == Up <==> !IsAutoSacked(position) && !IsRelegated(division, position)
                       && (IsAutoPromo(division, position)
                           || (IsPlayoffBand(division, position) && WonPlayoff(season, division, team, winners))))
      && (b == Cup <==> IsD1Cup(division, position))
      && (b == ShieldBadge <==> IsD1Shield(division, position))
  {
    StatusBandsDisjoint(division, position);
  }

  /** The tag that stands behind a badge, for a row with flags `f`. */
  function BadgeTag(b: Badge, f: Flags): Option<Tag> {
    match b
    case Sacked => Some(AutoSacked)
    case Down => Some(Relegated)
    case Crown => Some(Champions)
    case Up => Some(if f.promoted then AutoPromoted else PlayoffWinner)
    case Cup => Some(ChampionsCup)
    case ShieldBadge => Some(Shield)
    case Plain => None
  }

  /** On flags: a badge other than the plain one has a flagged tag behind it,
      and no flag at all gives the plain badge. */
  lemma BadgeOfBacked(f: Flags)
    ensures BadgeOf(f) != Plain ==> BadgeTag(BadgeOf(f), f).Some? && f.Has(BadgeTag(BadgeOf(f), f).value)
    ensures (forall t :: !f.Has(t)) ==> BadgeOf(f) == Plain
  {
    if forall t :: !f.Has(t) {
      assert !f.Has(AutoSacked) && !f.Has(Relegated) && !f.Has(Champions) && !f.Has(AutoPromoted);
      assert !f.Has(PlayoffWinner) && !f.Has(ChampionsCup) && !f.Has(Shield);
    }
  }

  /** Every badge other than the plain one is backed by a tag the row also
      carries; a row without tags gets the plain badge. */
  lemma BadgeBackedByTag(position: string, division: string, team: string, season: string,
                         winners: Option<set<string>>)
    ensures var f := RowFlags(position, division, team, season, winners);
      var b := PositionBadge(position, division, team, season, winners);
      && (b != Plain ==> BadgeTag(b, f).Some?
                         && TagHolds(BadgeTag(b, f).value, position, division, team, season, winners))
      && ((forall t :: !TagHolds(t, position, division, team, season, winners)) ==> b == Plain)
  {
    var f := RowFlags(position, division, team, season, winners);
    assert forall t :: f.Has(t) == TagHolds(t, position, division, team, season, winners);
    BadgeOfBacked(f);
  }

  /** The row colour follows its own precedence: champion, promotion,
      relegation, play-offs, sacking. */
  lemma RowStylePrecedence(position: string, division: string)
    ensures var c := RowStyle(position, division);
      && (c == YellowRow <==> IsChampion(position))
      && (c == GreenRow <==> IsAutoPromo(division, position))
      && (c == RedRow <==> IsRelegated(division, position))
      && (c == BlueRow <==> IsPlayoffBand(division, position))
      && (c == RoseRow <==> IsAutoSacked(position) && !IsRelegated(division, position))
      && (c == WhiteRow <==> !IsChampion(position) && !IsAutoPromo(division, position)
                             && !IsRelegated(division, position) && !IsPlayoffBand(division, position)
                             && !IsAutoSacked(position))
  {
    StatusBandsDisjoint(division, position);
  }

  /** The two precedences disagree in the sack zone of a relegating
      division: places 18 to 20 of divisions 1 to 4 get the sacking badge
      but the relegation colour. */
  lemma BadgeAndRowDisagreeInSackZone(d: int, p: int, team: string, season: string, winners: Option<set<string>>)
    requires 1 <= d <= 4 && 18 <= p <= 20
    ensures PositionBadge(Decimal(p), Decimal(d), team, season, winners) == Sacked
    ensures RowStyle(Decimal(p), Decimal(d)) == RedRow
  {
    ClassificationTable(d, p);
  }

  /** Division 1, position 19: the sacking badge on a relegation-coloured row. */
  lemma DivisionOnePosition19(team: string, season: string, winners: Option<set<string>>)
    ensures PositionBadge("19", "1", team, season, winners) == Sacked
    ensures RowStyle("19", "1") == RedRow
  {
    assert Decimal(19) == "19" && Decimal(1) == "1";
    BadgeAndRowDisagreeInSackZone(1, 19, team, season, winners);
  }
}
