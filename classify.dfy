/** The standing rules of the league: which finishing positions in which
    division win a title, a cup place or a shield place, go up, go to the
    play-offs, go down, or cost a manager the job. Every rule reads its
    arguments with `parseInt(x || 0, 10)`; a NaN reading satisfies none. */
module Classify {
  import opened Base
  import opened JsInt

  /** The reading is a number between `lo` and `hi`; false for NaN. */
  predicate InRange(v: Option<int>, lo: int, hi: int) {
    v.Some? && lo <= v.value <= hi
  }

  predicate IsChampion(pos: string) {
    ParseIntOrZero(pos) == Some(1)
  }

  /** Places 2 to 4 of division 1 qualify for the Champions Cup. */
  predicate IsD1Cup(div: string, pos: string) {
    ParseIntOrZero(div) == Some(1) && InRange(ParseIntOrZero(pos), 2, 4)
  }

  /** Places 5 to 10 of division 1 qualify for the Shield. */
  predicate IsD1Shield(div: string, pos: string) {
    ParseIntOrZero(div) == Some(1) && InRange(ParseIntOrZero(pos), 5, 10)
  }

  /** Places 2 and 3 of divisions 2 to 5 go up automatically. */
  predicate IsAutoPromo(div: string, pos: string) {
    InRange(ParseIntOrZero(div), 2, 5) && (ParseIntOrZero(pos) == Some(2) || ParseIntOrZero(pos) == Some(3))
  }

  /** Places 4 to 7 of divisions 2 to 5 play off for promotion. */
  predicate IsPlayoffBand(div: string, pos: string) {
    InRange(ParseIntOrZero(div), 2, 5) && InRange(ParseIntOrZero(pos), 4, 7)
  }

  /** Places 17 to 20 of divisions 1 to 4 go down. */
  predicate IsRelegated(div: string, pos: string) {
    InRange(ParseIntOrZero(div), 1, 4) && InRange(ParseIntOrZero(pos), 17, 20)
  }

  /** Places 18 to 20 of any division cost the manager the job. */
  predicate IsAutoSacked(pos: string) {
    InRange(ParseIntOrZero(pos), 18, 20)
  }

  /** On the decimal renderings of a division `d` and a position `p` the
      rules are exactly the league table of statuses. */
  lemma ClassificationTable(d: int, p: int)
    ensures IsChampion(Decimal(p)) <==> p == 1
    ensures IsD1Cup(Decimal(d), Decimal(p)) <==> d == 1 && 2 <= p <= 4
    ensures IsD1Shield(Decimal(d), Decimal(p)) <==> d == 1 && 5 <= p <= 10
    ensures IsAutoPromo(Decimal(d), Decimal(p)) <==> 2 <= d <= 5 && 2 <= p <= 3
    ensures IsPlayoffBand(Decimal(d), Decimal(p)) <==> 2 <= d <= 5 && 4 <= p <= 7
    ensures IsRelegated(Decimal(d), Decimal(p)) <==> 1 <= d <= 4 && 17 <= p <= 20
    ensures IsAutoSacked(Decimal(p)) <==> 18 <= p <= 20
  {
    ParseDecimalRoundTrip(d);
    ParseDecimalRoundTrip(p);
  }

  /** A position that does not parse (NaN) earns no status at all. */
  lemma UnparsablePositionHasNoStatus(div: string, pos: string)
    requires ParseIntOrZero(pos).None?
    ensures !IsChampion(pos) && !IsD1Cup(div, pos) && !IsD1Shield(div, pos)
    ensures !IsAutoPromo(div, pos) && !IsPlayoffBand(div, pos)
    ensures !IsRelegated(div, pos) && !IsAutoSacked(pos)
  {
  }

  /** An empty position reads as 0, which is no place in any table. */
  lemma BlankPositionHasNoStatus(div: string)
    ensures !IsChampion("") && !IsD1Cup(div, "") && !IsD1Shield(div, "")
    ensures !IsAutoPromo(div, "") && !IsPlayoffBand(div, "")
    ensures !IsRelegated(div, "") && !IsAutoSacked("")
  {
  }

  /** Outside divisions 2 to 5 nobody goes up, automatically or by play-off. */
  lemma NoPromotionOutsideLowerDivisions(div: string, pos: string)
    requires !InRange(ParseIntOrZero(div), 2, 5)
    ensures !IsAutoPromo(div, pos) && !IsPlayoffBand(div, pos)
  {
  }

  /** The title, cup, shield, promotion, play-off and relegation bands never
      overlap, and the sack zone lies inside the relegation zone wherever a
      division is relegated from. */
  lemma StatusBandsDisjoint(div: string, pos: string)
    ensures IsChampion(pos) ==>
      !IsD1Cup(div, pos) && !IsD1Shield(div, pos) && !IsAutoPromo(div, pos)
      && !IsPlayoffBand(div, pos) && !IsRelegated(div, pos) && !IsAutoSacked(pos)
    ensures IsD1Cup(div, pos) ==>
      !IsD1Shield(div, pos) && !IsAutoPromo(div, pos) && !IsPlayoffBand(div, pos)
      && !IsRelegated(div, pos) && !IsAutoSacked(pos)
    ensures IsAutoPromo(div, pos) ==>
      !IsPlayoffBand(div, pos) && !IsRelegated(div, pos) && !IsAutoSacked(pos) && !IsD1Shield(div, pos)
    ensures IsPlayoffBand(div, pos) ==> !IsRelegated(div, pos) && !IsAutoSacked(pos) && !IsD1Shield(div, pos)
    ensures IsAutoSacked(pos) && InRange(ParseIntOrZero(div), 1, 4) ==> IsRelegated(div, pos)
  {
  }
}
