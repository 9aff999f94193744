/** Worked headers of the play-off column pattern
    `division\s*([2-5])\s*play-?off`, applied to lower-cased headers. */
module WinnerSetExamples {
  import opened Base
  import opened Text
  import opened WinnerSet

  /** One space on each side of the digit, and the hyphenated spelling. */
  lemma SpacedHyphenated()
    ensures PlayoffMatchAt("division 3 play-off") == Some('3')
  {
    assert "division" + (" " + (['3'] + (" " + "play-off"))) == "division 3 play-off";
    assert StartsWith("play-off", "play-off");
    PlayoffMatchOf(" ", '3', " ", "play-off");
  }

  /** Two spaces before the digit and none after it. */
  lemma DoubleSpaceNoSpace()
    ensures PlayoffMatchAt("division  4playoff") == Some('4')
  {
    assert "division" + ("  " + (['4'] + ("" + "playoff"))) == "division  4playoff";
    assert StartsWith("playoff", "playoff");
    PlayoffMatchOf("  ", '4', "", "playoff");
  }

  /** Division 1 has no play-off column. */
  lemma DivisionOneIsNoPlayoff()
    ensures PlayoffMatchAt("division 1 playoff") == None
  {
    assert "division" + (" " + (['1'] + (" " + "playoff"))) == "division 1 playoff";
    PlayoffMatchOf(" ", '1', " ", "playoff");
  }

  /** The match may start anywhere in the header. */
  lemma MatchInsideHeader()
    ensures PlayoffDivision("men's division 5 playoff") == Some('5')
  {
    var p, h := "men's ", "division 5 playoff";
    assert 'd' !in p by {
      assert forall k :: 0 <= k < |p| ==> p[k] != 'd';
    }
    assert p + h == "men's division 5 playoff";
    assert PlayoffMatchAt(h) == Some('5') by {
      assert "division" + (" " + (['5'] + (" " + "playoff"))) == h;
      assert StartsWith("playoff", "playoff");
      PlayoffMatchOf(" ", '5', " ", "playoff");
    }
    PlayoffDivisionAfter(p, h);
  }
}
