/** Worked inputs of `normalizeName` that show its less obvious behaviour.
    Each stage is evaluated in a lemma of its own. */
module NameExamples {
  import opened Text
  import opened Names

  lemma SkipOneSpace(x: string)
    requires x != [] && IsLowerAlnum(x[0])
    ensures SkipNonAlnum(" " + x) == x
  {
    assert (" " + x)[1..] == x;
  }

  lemma CollapseE()
    ensures CollapseNonAlnum("e") == "e"
  {
    assert "e"[1..] == [];
  }

  lemma CollapseSpaceE()
    ensures CollapseNonAlnum(" e") == " e"
  {
    SkipOneSpace("e");
    CollapseE();
    assert " " + "e" == " e";
  }

  lemma FoldSpaceE()
    ensures FoldDiacritics(" é") == " e"
  {
  }

  lemma LowerSpaceE()
    ensures ToLower(" e") == " e"
  {
  }

  lemma TrimSpaceE()
    ensures Trim(" e") == "e"
  {
    assert SkipSpaces(" e", 0) == 1 by {
      assert SkipSpaces(" e", 1) == 1;
    }
    assert TrimStart(" e") == "e";
    TrimKeeps("e");
  }

  lemma DropClub()
    ensures DropStopWords("Clubé", AppStopWords, false) == " é"
  {
    var s := "Clubé";
    assert DropStopWords("é", AppStopWords, true) == "é" by {
      assert StopWordAt("é", AppStopWords, true) == 0;
      assert "é"[1..] == [];
    }
    assert s[4..] == "é" && IsWordChar(s[3]);
    assert DropStopWords(s, AppStopWords, false) == " " + DropStopWords(s[4..], AppStopWords, IsWordChar(s[3])) by {
      ClubIsStop();
    }
  }

  /** "club" is the stop word found at the front of "Clubé", after the four
      before it in the list fail to match. */
  lemma ClubIsStop()
    ensures StopWordAt("Clubé", AppStopWords, false) == 4
  {
    var s := "Clubé";
    var w := AppStopWords;
    assert ToLower(s[..4]) == "club" by { assert s[..4] == "Club"; }
    assert ToLower(s[..2]) == "cl" by { assert s[..2] == "Cl"; }
    assert ToLower(s[..3]) == "clu" by { assert s[..3] == "Clu"; }
    assert BoundaryBefore(false, s);
    assert StopWordAt(s, w[4..], false) == 4 by {
      assert w[4..] == ["club"];
      assert s[4..] == "é";
    }
    assert StopWordAt(s, w[3..], false) == 4 by { assert w[3..][1..] == w[4..]; }
    assert StopWordAt(s, w[2..], false) == 4 by { assert w[2..][1..] == w[3..]; }
    assert StopWordAt(s, w[1..], false) == 4 by { assert w[1..][1..] == w[2..]; }
  }

  /** The word boundary is ASCII-based: `é` is not a word character, so
      "club" counts as a whole word in "Clubé" and is removed. */
  lemma ClubeLosesClub()
    ensures NormalizeName(AppStopWords, "Clubé") == "e"
  {
    assert DropParenGroups("Clubé") == "Clubé";
    assert DropStopWords("Clubé", AppStopWords, false) == " é" by { DropClub(); }
    assert FoldDiacritics(" é") == " e" by { FoldSpaceE(); }
    assert ToLower(" e") == " e" by { LowerSpaceE(); }
    assert CollapseNonAlnum(" e") == " e" by { CollapseSpaceE(); }
    assert Trim(" e") == "e" by { TrimSpaceE(); }
  }

  lemma DropNothingInFc()
    ensures DropStopWords("Fç", AppStopWords, false) == "Fç"
  {
    assert StopWordAt("Fç", AppStopWords, false) == 0;
    assert StopWordAt("ç", AppStopWords, true) == 0;
    assert DropStopWords("ç", AppStopWords, true) == "ç";
  }

  lemma FoldFc()
    ensures FoldDiacritics("Fç") == "Fc"
  {
  }

  lemma LowerFc()
    ensures ToLower("Fc") == "fc"
  {
  }

  lemma CollapseFc()
    ensures CollapseNonAlnum("fc") == "fc"
  {
    assert CollapseNonAlnum("c") == "c";
  }

  lemma TrimFc()
    ensures Trim("fc") == "fc"
  {
    TrimKeeps("fc");
  }

  lemma DropFc()
    ensures DropStopWords("fc", AppStopWords, false) == " "
  {
    assert StopWordAt("fc", AppStopWords, false) == 2;
  }

  lemma FoldLowerCollapseSpace()
    ensures CollapseNonAlnum(ToLower(FoldDiacritics(" "))) == " "
  {
    var f := FoldDiacritics(" ");
    assert f == " " by {
      assert " "[1..] == [];
      assert !IsDiacritic(' ') && BaseLetter(' ') == ' ';
    }
    assert ToLower(f) == " ";
    assert SkipNonAlnum(" ") == [] by {
      assert " "[1..] == [];
    }
  }

  /** `normalizeName` is not idempotent: the cedilla hides the stop word
      "fc" from the first pass, and folding it exposes the word to the
      second. */
  lemma NormalizeNameNotIdempotent()
    ensures NormalizeName(AppStopWords, "Fç") == "fc"
    ensures NormalizeName(AppStopWords, "fc") == ""
  {
    NormalizeFc();
    NormalizeFcAgain();
  }

  lemma NormalizeFc()
    ensures NormalizeName(AppStopWords, "Fç") == "fc"
  {
    var a := DropParenGroups("Fç");
    assert a == "Fç";
    var b := DropStopWords(a, AppStopWords, false);
    assert b == "Fç" by { DropNothingInFc(); }
    var c := FoldDiacritics(b);
    assert c == "Fc" by { FoldFc(); }
    var d := ToLower(c);
    assert d == "fc" by { LowerFc(); }
    var e := CollapseNonAlnum(d);
    assert e == "fc" by { CollapseFc(); }
    assert Trim(e) == "fc" by { TrimFc(); }
  }

  lemma NormalizeFcAgain()
    ensures NormalizeName(AppStopWords, "fc") == ""
  {
    var a := DropParenGroups("fc");
    assert a == "fc";
    var b := DropStopWords(a, AppStopWords, false);
    assert b == " " by { DropFc(); }
    var e := CollapseNonAlnum(ToLower(FoldDiacritics(b)));
    assert e == " " by { FoldLowerCollapseSpace(); }
    assert Trim(e) == "" by {
      assert SkipSpaces(" ", 1) == 1;
    }
  }

  /* ---------- accents and stop words ---------- */

  lemma DropFcMixed()
    ensures DropStopWords("Fc", AppStopWords, false) == " "
  {
    assert StopWordAt("Fc", AppStopWords, false) == 2 by {
      assert ToLower("Fc"[..2]) == "fc";
    }
    assert "Fc"[2..] == [];
  }

  lemma NormalizeFcMixed()
    ensures NormalizeName(AppStopWords, "Fc") == ""
  {
    assert DropParenGroups("Fc") == "Fc";
    var b := DropStopWords("Fc", AppStopWords, false);
    assert b == " " by { DropFcMixed(); }
    var e := CollapseNonAlnum(ToLower(FoldDiacritics(b)));
    assert e == " " by { FoldLowerCollapseSpace(); }
    assert Trim(e) == "" by {
      assert SkipSpaces(" ", 1) == 1;
    }
  }

  /** Accents are removed only after the stop words: "Fc" is the stop word
      and vanishes, while "Fç" is not, and folds to "fc". Two names that
      differ only in an accent can therefore normalise differently. */
  lemma AccentHidesStopWord()
    ensures NormalizeName(AppStopWords, "Fc") == ""
    ensures NormalizeName(AppStopWords, "Fç") == "fc"
  {
    NormalizeFcMixed();
    NormalizeFc();
  }

  /* ---------- Atlético ---------- */

  /** A word no stop word starts within its first two letters is kept
      whole. */
  lemma KeepWord(s: string, stops: seq<string>)
    requires |s| >= 2 && forall i :: 0 <= i < |s| ==> IsWordChar(s[i])
    requires forall k :: 0 <= k < |stops| ==> |stops[k]| >= 2 && stops[k][1] != LowerChar(s[1])
    ensures DropStopWords(s, stops, false) == s
  {
    forall k | 0 <= k < |stops|
      ensures !WordAt(s, stops[k], false)
    {
      var t := stops[k];
      if |t| <= |s| {
        assert ToLower(s[..|t|])[1] == LowerChar(s[1]);
      }
    }
    StopWordAtNone(s, stops, false);
    WordRunKept(s[1..], stops);
    assert [s[0]] + s[1..] == s;
  }

  /** After a word, a non-word character followed by a word is kept when
      no stop word contains either of the first two characters. */
  lemma KeepAccentWord(s: string, stops: seq<string>)
    requires |s| >= 2 && !IsWordChar(s[0])
    requires forall i :: 1 <= i < |s| ==> IsWordChar(s[i])
    requires forall k :: 0 <= k < |stops| ==> LowerChar(s[0]) !in stops[k] && LowerChar(s[1]) !in stops[k]
    ensures DropStopWords(s, stops, true) == s
  {
    NoStopAt(s, stops, true);
    var t := s[1..];
    NoStopAt(t, stops, false);
    WordRunKept(t[1..], stops);
    assert [t[0]] + t[1..] == t;
    assert [s[0]] + t == s;
  }

  /** A word, one non-word character, then a word: all of it is kept when
      the conditions of `KeepWord` and `KeepAccentWord` hold. */
  lemma KeepWordAccentWord(u: string, z: string, stops: seq<string>)
    requires |u| >= 2 && forall i :: 0 <= i < |u| ==> IsWordChar(u[i])
    requires forall k :: 0 <= k < |stops| ==> |stops[k]| >= 2 && stops[k][1] != LowerChar(u[1])
    requires |z| >= 2 && !IsWordChar(z[0])
    requires forall i :: 1 <= i < |z| ==> IsWordChar(z[i])
    requires forall k :: 0 <= k < |stops| ==> LowerChar(z[0]) !in stops[k] && LowerChar(z[1]) !in stops[k]
    ensures DropStopWords(u + z, stops, false) == u + z
  {
    DropStopWordsSplit(u, z, stops, false);
    KeepWord(u, stops);
    assert LastIsWord(u, false);
    KeepAccentWord(z, stops);
  }

  /** Every stop word of the standings page has a second letter, and it is
      not `t`; none of them contains `t` or `é`. */
  lemma AppStopWordsLetters()
    ensures forall k :: 0 <= k < |AppStopWords| ==> |AppStopWords[k]| >= 2 && AppStopWords[k][1] != 't'
    ensures forall k :: 0 <= k < |AppStopWords| ==> 'é' !in AppStopWords[k] && 't' !in AppStopWords[k]
  {
    var w := AppStopWords;
    assert w[0] == "fc" && w[1] == "cf" && w[2] == "afc" && w[3] == "sc" && w[4] == "club";
  }

  lemma DropAtleticoPlain()
    ensures DropStopWords("Atletico", AppStopWords, false) == "Atletico"
  {
    var s := "Atletico";
    assert LowerChar(s[1]) == 't';
    AppStopWordsLetters();
    KeepWord(s, AppStopWords);
  }

  lemma DropAtleticoAccent()
    ensures DropStopWords("Atlético", AppStopWords, false) == "Atlético"
  {
    var u, z := "Atl", "ético";
    assert u + z == "Atlético";
    assert LowerChar(u[1]) == 't' && LowerChar(z[0]) == 'é' && LowerChar(z[1]) == 't';
    AppStopWordsLetters();
    KeepWordAccentWord(u, z, AppStopWords);
  }

  /** Letters, digits and `_` pass through folding unchanged. */
  lemma FoldWordChars(s: string)
    requires forall i :: 0 <= i < |s| ==> IsWordChar(s[i])
    ensures FoldDiacritics(s) == s
  {
    assert forall i :: 0 <= i < |s| ==> Plain(s[i]);
  }

  /** One accented letter between two words is replaced by its base
      letter. */
  lemma FoldOneAccent(u: string, c: char, v: string)
    requires forall i :: 0 <= i < |u| ==> IsWordChar(u[i])
    requires forall i :: 0 <= i < |v| ==> IsWordChar(v[i])
    requires !IsDiacritic(c)
    ensures FoldDiacritics(u + [c] + v) == u + [BaseLetter(c)] + v
  {
    FoldAppend(u + [c], v);
    FoldAppend(u, [c]);
    FoldWordChars(u);
    FoldWordChars(v);
    assert FoldDiacritics([c]) == [BaseLetter(c)] by {
      assert [c][1..] == [];
    }
  }

  lemma FoldAtletico()
    ensures FoldDiacritics("Atlético") == "Atletico"
    ensures FoldDiacritics("Atletico") == "Atletico"
  {
    assert FoldDiacritics("Atl" + ['é'] + "tico") == "Atl" + ['e'] + "tico" by {
      assert !IsDiacritic('é') && BaseLetter('é') == 'e';
      FoldOneAccent("Atl", 'é', "tico");
    }
    assert "Atl" + ['é'] + "tico" == "Atlético";
    assert "Atl" + ['e'] + "tico" == "Atletico";
    FoldWordChars("Atletico");
  }

  lemma LowerAtletico()
    ensures ToLower("Atletico") == "atletico"
  {
    var l := ToLower("Atletico");
    assert forall i :: 0 <= i < |l| ==> l[i] == "atletico"[i];
  }

  lemma CleanAtletico()
    ensures Trim(CollapseNonAlnum(ToLower("Atletico"))) == "atletico"
  {
    assert ToLower("Atletico") == "atletico" by {
      LowerAtletico();
    }
    assert CollapseNonAlnum("atletico") == "atletico" by {
      CollapseFixed("atletico");
    }
    assert Trim("atletico") == "atletico" by {
      TrimKeeps("atletico");
    }
  }

  lemma NormalizeAtleticoAccent()
    ensures NormalizeName(AppStopWords, "Atlético") == "atletico"
  {
    var a := DropParenGroups("Atlético");
    assert a == "Atlético";
    var b := DropStopWords(a, AppStopWords, false);
    assert b == "Atlético" by { DropAtleticoAccent(); }
    var c := FoldDiacritics(b);
    assert c == "Atletico" by { FoldAtletico(); }
    assert Trim(CollapseNonAlnum(ToLower(c))) == "atletico" by { CleanAtletico(); }
  }

  lemma NormalizeAtleticoPlain()
    ensures NormalizeName(AppStopWords, "Atletico") == "atletico"
  {
    var a := DropParenGroups("Atletico");
    assert a == "Atletico";
    var b := DropStopWords(a, AppStopWords, false);
    assert b == "Atletico" by { DropAtleticoPlain(); }
    var c := FoldDiacritics(b);
    assert c == "Atletico" by { FoldAtletico(); }
    assert Trim(CollapseNonAlnum(ToLower(c))) == "atletico" by { CleanAtletico(); }
  }

  /** Names that normalise alike give one key, with or without " FC". */
  lemma SameWinnerKey(season: string, division: string, a: string, b: string)
    requires NormalizeName(AppStopWords, a) == NormalizeName(AppStopWords, b)
    ensures PlayoffWinnerKey(season, division, a) == PlayoffWinnerKey(season, division, b + " FC")
  {
    PlayoffWinnerKeyIgnoresSuffix(season, division, b);
  }

  lemma AtleticoFcSpelling()
    ensures "Atletico" + " FC" == "Atletico FC"
  {
  }

  /** A play-off winner spelled "Atlético" in one sheet and "Atletico FC"
      in another is the same winner of division 3 in season 12. */
  lemma AtleticoKeysAgree()
    ensures PlayoffWinnerKey("12", "3", "Atlético") == PlayoffWinnerKey("12", "3", "Atletico FC")
  {
    assert NormalizeName(AppStopWords, "Atlético") == NormalizeName(AppStopWords, "Atletico") by {
      NormalizeAtleticoAccent();
      NormalizeAtleticoPlain();
    }
    SameWinnerKey("12", "3", "Atlético", "Atletico");
    AtleticoFcSpelling();
  }

  /* ---------- stripPrefixes ---------- */

  /** "FC" is short enough to drop, so "FC Porto" loses it. */
  lemma StripFcPorto()
    ensures StripPrefixed("FC Porto") == "Porto"
  {
    assert "FC" + " " + "Porto" == "FC Porto";
    assert Utf16Length("Porto") > 3;
    assert "Porto" !in PrefixWords;
    StripDropsFirst("FC", "Porto");
  }

  /** The drop list is lower-case and "Real" has four characters, so
      "Real Madrid" keeps its first word. */
  lemma StripRealMadrid()
    ensures StripPrefixed("Real Madrid") == "Real Madrid"
  {
    assert "Real" + " " + "Madrid" == "Real Madrid";
    assert Utf16Length("Real") > 3;
    assert "Real" !in PrefixWords;
    StripKeepsFirst("Real", "Madrid");
  }

  /** A name made only of droppable words is kept whole. */
  lemma StripFcOnly()
    ensures StripPrefixed("FC") == "FC"
  {
    var ts := ["FC"];
    assert Tokens("FC") == ts by {
      SplitOnNoSeparator("FC", ' ');
    }
    assert LeadingDroppable(ts) == 1;
    assert ts[1..] == [];
  }
}
