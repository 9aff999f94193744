/** Normalisation of divisions, seasons and club names, and the keys under
    which play-off winners are looked up. Two variants exist: the standings
    page (src/App.js) and the manager profiles (src/ManagerProfiles.js),
    which uses a longer stop-word list and a looser second lookup. */
module Names {
  import opened Base
  import opened Text

  /** `normDiv` (and `seasonNorm`, which has the same body): the first run of
      digits, or the trimmed input when there is no digit. */
  function NormDiv(s: string): (r: string)
    ensures FirstDigitIndex(s) == |s| ==> r == Trim(s)
    ensures FirstDigitIndex(s) < |s| ==>
      var a := FirstDigitIndex(s);
      r != [] && a + |r| <= |s| && s[a..a + |r|] == r
      && (forall i :: 0 <= i < |r| ==> IsDigit(r[i]))
      && (a + |r| == |s| || !IsDigit(s[a + |r|]))
  {
    match FirstDigitRun(s)
    case Some(run) => run
    case None => Trim(s)
  }

  lemma NormDivKeepsOut(s: string, c: char)
    requires c !in s
    ensures c !in NormDiv(s)
  {
    if FirstDigitIndex(s) == |s| {
      TrimKeepsOut(s, c);
    }
  }

  /* ---------- normalizeName, step by step ---------- */

  /** Index of the first `c` in `s`, or `|s|`. */
  function IndexOfChar(s: string, c: char): (i: nat)
    ensures i <= |s|
    ensures forall k :: 0 <= k < i ==> s[k] != c
    ensures i < |s| ==> s[i] == c
  {
    if s == [] || s[0] == c then 0 else 1 + IndexOfChar(s[1..], c)
  }

  /** No `(` is followed, anywhere later, by a `)`. */
  predicate NoParenGroup(s: string) {
    forall i, j :: 0 <= i < j < |s| && s[i] == '(' ==> s[j] != ')'
  }

  /** Step 1, `/\([^)]*\)/g` replaced by a space: every `(` that is closed
      later, up to the first `)` after it, becomes one space. */
  function DropParenGroups(s: string): (r: string)
    ensures NoParenGroup(r)
    ensures ')' !in s ==> r == s
    ensures |r| <= |s|
    decreases |s|
  {
    if s == [] then []
    else
      var j := IndexOfChar(s[1..], ')');
      if s[0] == '(' && j < |s| - 1 then " " + DropParenGroups(s[j + 2..])
      else
        var rest := DropParenGroups(s[1..]);
        assert s[0] == '(' ==> ')' !in s[1..];
        [s[0]] + rest
  }

  lemma AppendAssoc(a: string, b: string, c: string)
    ensures a + (b + c) == (a + b) + c
  {
  }

  lemma {:induction false} IndexOfCharAppend(a: string, b: string, c: char)
    ensures IndexOfChar(a + b, c) == if IndexOfChar(a, c) < |a| then IndexOfChar(a, c) else |a| + IndexOfChar(b, c)
    decreases |a|
  {
    if a == [] {
      assert a + b == b;
    } else {
      assert (a + b)[0] == a[0];
      assert (a + b)[1..] == a[1..] + b;
      IndexOfCharAppend(a[1..], b, c);
    }
  }

  /** Text without `)` appended at the end closes no group, so it comes out
      of the bracket step unchanged. */
  lemma {:induction false} DropParenAppend(t: string, x: string)
    requires ')' !in x
    ensures DropParenGroups(t + x) == DropParenGroups(t) + x
    decreases |t|
  {
    if t == [] {
      assert t + x == x;
    } else {
      var s := t + x;
      var j := IndexOfChar(t[1..], ')');
      var closed := t[0] == '(' && j < |t| - 1;
      var k := if closed then j + 2 else 1;
      var h := if closed then " " else [t[0]];
      assert s[k..] == t[k..] + x by {
        assert s[1..] == t[1..] + x;
      }
      assert DropParenGroups(s) == h + DropParenGroups(s[k..]) by {
        assert s[0] == t[0] && s[1..] == t[1..] + x;
        IndexOfCharAppend(t[1..], x, ')');
      }
      assert DropParenGroups(t) == h + DropParenGroups(t[k..]);
      DropParenAppend(t[k..], x);
      AppendAssoc(h, DropParenGroups(t[k..]), x);
    }
  }

  /** Word boundary `\b` between a character of class `before` and `c`. */
  predicate BoundaryBefore(before: bool, s: string) {
    before != (s != [] && IsWordChar(s[0]))
  }

  /** Length of the first stop word, in alternation order, that matches at
      the front of `s` without regard to ASCII case and is followed by a word
      boundary; 0 when none does. `before` tells whether the character in
      front of `s` is a word character. */
  function StopWordAt(s: string, stops: seq<string>, before: bool): (m: nat)
    ensures m <= |s|
    ensures m > 0 ==> exists t :: t in stops && |t| == m && ToLower(s[..m]) == t
  {
    if stops == [] || !BoundaryBefore(before, s) then 0
    else
      var t := stops[0];
      if WordEndsAt(s, t) then |t|
      else StopWordAt(s, stops[1..], before)
  }

  /** `t` matches the front of `s` up to ASCII case and is followed by a
      word boundary. */
  predicate WordEndsAt(s: string, t: string) {
    0 < |t| <= |s| && ToLower(s[..|t|]) == t && BoundaryBefore(IsWordChar(s[|t| - 1]), s[|t|..])
  }

  /** `t` matches the front of `s` as a whole word. */
  predicate WordAt(s: string, t: string, before: bool) {
    BoundaryBefore(before, s) && WordEndsAt(s, t)
  }

  /** The alternation takes the first stop word, in list order, that matches
      as a whole word. */
  lemma {:induction false} StopWordAtFirst(s: string, stops: seq<string>, before: bool, j: nat)
    requires j < |stops| && WordAt(s, stops[j], before)
    requires forall k :: 0 <= k < j ==> !WordAt(s, stops[k], before)
    ensures StopWordAt(s, stops, before) == |stops[j]|
    decreases j
  {
    if j > 0 {
      assert !WordAt(s, stops[0], before);
      assert forall k :: 0 <= k < j - 1 ==> stops[1..][k] == stops[k + 1];
      StopWordAtFirst(s, stops[1..], before, j - 1);
    }
  }

  /** When no stop word matches as a whole word there is no match. */
  lemma {:induction false} StopWordAtNone(s: string, stops: seq<string>, before: bool)
    requires forall k :: 0 <= k < |stops| ==> !WordAt(s, stops[k], before)
    ensures StopWordAt(s, stops, before) == 0
    decreases |stops|
  {
    if stops != [] {
      assert !WordAt(s, stops[0], before);
      assert forall k :: 0 <= k < |stops| - 1 ==> stops[1..][k] == stops[k + 1];
      StopWordAtNone(s, stops[1..], before);
    }
  }

  /** No stop word starts at a character that none of them contains. */
  lemma NoStopAt(z: string, stops: seq<string>, before: bool)
    requires z != []
    requires forall k :: 0 <= k < |stops| ==> LowerChar(z[0]) !in stops[k]
    ensures StopWordAt(z, stops, before) == 0
  {
    forall k | 0 <= k < |stops|
      ensures !WordAt(z, stops[k], before)
    {
      var t := stops[k];
      if 0 < |t| <= |z| {
        assert ToLower(z[..|t|])[0] == LowerChar(z[0]);
        assert t[0] != LowerChar(z[0]);
      }
    }
    StopWordAtNone(z, stops, before);
  }

  /** A match in `u` cannot run into a following non-word character that no
      stop word contains, and that character is a word boundary just like
      the end of `u`. */
  lemma WordEndsAtExtend(u: string, z: string, t: string)
    requires u != [] && z != [] && !IsWordChar(z[0]) && LowerChar(z[0]) !in t
    ensures WordEndsAt(u + z, t) == WordEndsAt(u, t)
  {
    var s := u + z;
    if 0 < |t| <= |u| {
      assert s[..|t|] == u[..|t|];
      assert s[|t| - 1] == u[|t| - 1];
      if |t| < |u| {
        assert s[|t|..][0] == u[|t|..][0];
      } else {
        assert s[|t|..] == z;
      }
    } else if |u| < |t| <= |s| {
      assert ToLower(s[..|t|])[|u|] == LowerChar(z[0]);
      assert t[|u|] != LowerChar(z[0]);
    }
  }

  lemma {:induction false} StopWordAtExtend(u: string, z: string, stops: seq<string>, before: bool)
    requires u != [] && z != [] && !IsWordChar(z[0])
    requires forall k :: 0 <= k < |stops| ==> LowerChar(z[0]) !in stops[k]
    ensures StopWordAt(u + z, stops, before) == StopWordAt(u, stops, before)
    decreases |stops|
  {
    assert (u + z)[0] == u[0];
    if stops != [] && BoundaryBefore(before, u) {
      WordEndsAtExtend(u, z, stops[0]);
      assert forall k :: 0 <= k < |stops| - 1 ==> stops[1..][k] == stops[k + 1];
      StopWordAtExtend(u, z, stops[1..], before);
    }
  }

  /** Step 2, `/\b(w1|w2|…)\b/gi` replaced by a space. */
  function DropStopWords(s: string, stops: seq<string>, before: bool): (r: string)
    ensures |r| <= |s|
    decreases |s|
  {
    if s == [] then []
    else
      var m := StopWordAt(s, stops, before);
      if m > 0 then " " + DropStopWords(s[m..], stops, IsWordChar(s[m - 1]))
      else [s[0]] + DropStopWords(s[1..], stops, IsWordChar(s[0]))
  }

  /** Whether the last character read is a word character. */
  function LastIsWord(u: string, before: bool): bool {
    if u == [] then before else IsWordChar(u[|u| - 1])
  }

  /** The first step of the stop-word scan: a matched stop word becomes one
      space, any other character is kept. */
  lemma DropStopWordsUnfold(s: string, stops: seq<string>, before: bool) returns (k: nat, h: string)
    requires s != []
    ensures k == (if StopWordAt(s, stops, before) > 0 then StopWordAt(s, stops, before) else 1)
    ensures h == (if StopWordAt(s, stops, before) > 0 then " " else [s[0]])
    ensures 0 < k <= |s|
    ensures DropStopWords(s, stops, before) == h + DropStopWords(s[k..], stops, IsWordChar(s[k - 1]))
  {
    var m := StopWordAt(s, stops, before);
    k := if m > 0 then m else 1;
    h := if m > 0 then " " else [s[0]];
  }

  /** One step of the stop-word scan over `u` is the same step over `u + z`
      when `z` starts with a non-word character no stop word contains. */
  lemma DropStopWordsStep(u: string, z: string, stops: seq<string>, before: bool)
    returns (k: nat, h: string, b: bool)
    requires u != [] && z != [] && !IsWordChar(z[0])
    requires forall i :: 0 <= i < |stops| ==> LowerChar(z[0]) !in stops[i]
    ensures 0 < k <= |u| && b == IsWordChar(u[k - 1])
    ensures DropStopWords(u + z, stops, before) == h + DropStopWords(u[k..] + z, stops, b)
    ensures DropStopWords(u, stops, before) == h + DropStopWords(u[k..], stops, b)
  {
    var s := u + z;
    StopWordAtExtend(u, z, stops, before);
    var k1, h1 := DropStopWordsUnfold(s, stops, before);
    k, h := DropStopWordsUnfold(u, stops, before);
    assert h1 == h by {
      assert s[0] == u[0];
    }
    assert k1 == k;
    b := IsWordChar(u[k - 1]);
    assert s[k - 1] == u[k - 1];
    DropAppend(u, z, k);
    assert s[k1..] == u[k..] + z;
  }

  /** The stop-word step works on the two sides of a non-word character
      that no stop word contains independently. */
  lemma {:induction false} DropStopWordsSplit(u: string, z: string, stops: seq<string>, before: bool)
    requires z != [] && !IsWordChar(z[0])
    requires forall k :: 0 <= k < |stops| ==> LowerChar(z[0]) !in stops[k]
    ensures DropStopWords(u + z, stops, before)
         == DropStopWords(u, stops, before) + DropStopWords(z, stops, LastIsWord(u, before))
    decreases |u|
  {
    if u == [] {
      assert u + z == z;
    } else {
      var k, h, b := DropStopWordsStep(u, z, stops, before);
      var v := u[k..];
      var front := DropStopWords(v, stops, b);
      var back := DropStopWords(z, stops, LastIsWord(u, before));
      assert DropStopWords(v + z, stops, b) == front + back by {
        DropStopWordsSplit(v, z, stops, b);
        assert LastIsWord(v, b) == LastIsWord(u, before) by {
          if v != [] {
            assert v[|v| - 1] == u[|u| - 1];
          }
        }
      }
      AppendAssoc(h, front, back);
    }
  }

  /** A space is never part of a stop word, so it is kept. */
  lemma DropStopWordsSpace(y: string, stops: seq<string>, before: bool)
    requires forall k :: 0 <= k < |stops| ==> ' ' !in stops[k]
    ensures DropStopWords(" " + y, stops, before) == " " + DropStopWords(y, stops, false)
  {
    assert LowerChar(' ') == ' ';
    NoStopAt(" " + y, stops, before);
    assert (" " + y)[1..] == y;
  }

  /** Characters with the Unicode `Diacritic` property among the ones
      modelled: the combining marks U+0300–U+034E, U+0350–U+0357 and
      U+035D–U+0362, and the spacing accents of ASCII and Latin-1. */
  predicate IsDiacritic(c: char) {
    var n := c as int;
    (0x300 <= n <= 0x34E) || (0x350 <= n <= 0x357) || (0x35D <= n <= 0x362)
    || n == 0x5E || n == 0x60 || n == 0xA8 || n == 0xAF || n == 0xB4 || n == 0xB7 || n == 0xB8
  }

  /** The base letter canonical decomposition (NFD) leaves for a Latin-1
      accented letter; every other character is its own base. */
  function BaseLetter(c: char): (b: char)
    ensures !IsDiacritic(c) ==> !IsDiacritic(b)
  {
    var n := c as int;
    if 0xC0 <= n <= 0xC5 then 'A' else if n == 0xC7 then 'C'
    else if 0xC8 <= n <= 0xCB then 'E' else if 0xCC <= n <= 0xCF then 'I'
    else if n == 0xD1 then 'N' else if 0xD2 <= n <= 0xD6 then 'O'
    else if 0xD9 <= n <= 0xDC then 'U' else if n == 0xDD then 'Y'
    else if 0xE0 <= n <= 0xE5 then 'a' else if n == 0xE7 then 'c'
    else if 0xE8 <= n <= 0xEB then 'e' else if 0xEC <= n <= 0xEF then 'i'
    else if n == 0xF1 then 'n' else if 0xF2 <= n <= 0xF6 then 'o'
    else if 0xF9 <= n <= 0xFC then 'u' else if n == 0xFD || n == 0xFF then 'y'
    else c
  }

  /** Steps 3 and 4, `normalize("NFD")` then removal of `\p{Diacritic}`:
      accented letters lose their accent, stand-alone accents vanish. */
  function FoldDiacritics(s: string): (r: string)
    ensures |r| <= |s|
    ensures forall i :: 0 <= i < |r| ==> !IsDiacritic(r[i])
    ensures (forall i :: 0 <= i < |s| ==> Plain(s[i])) ==> r == s
  {
    if s == [] then []
    else
      var rest := FoldDiacritics(s[1..]);
      if IsDiacritic(s[0]) then rest else [BaseLetter(s[0])] + rest
  }

  /** A character that folding keeps as it is. */
  predicate Plain(c: char) {
    !IsDiacritic(c) && BaseLetter(c) == c
  }

  /** Folding works character by character. */
  lemma {:induction false} FoldAppend(a: string, b: string)
    ensures FoldDiacritics(a + b) == FoldDiacritics(a) + FoldDiacritics(b)
    decreases |a|
  {
    if a == [] {
      assert a + b == b;
    } else {
      assert (a + b)[0] == a[0];
      assert (a + b)[1..] == a[1..] + b;
      FoldAppend(a[1..], b);
    }
  }

  /** `s` with its leading characters outside `[a-z0-9]` removed. */
  function SkipNonAlnum(s: string): (r: string)
    ensures |r| <= |s| && r == s[|s| - |r|..]
    ensures r == [] || IsLowerAlnum(r[0])
    ensures s != [] && !IsLowerAlnum(s[0]) ==> |r| < |s|
  {
    if s == [] || IsLowerAlnum(s[0]) then s else SkipNonAlnum(s[1..])
  }

  /** Step 6, `/[^a-z0-9]+/g` replaced by a space. */
  function CollapseNonAlnum(s: string): (r: string)
    ensures forall i :: 0 <= i < |r| ==> IsLowerAlnum(r[i]) || r[i] == ' '
    ensures forall i :: 0 <= i < |r| - 1 ==> IsLowerAlnum(r[i]) || IsLowerAlnum(r[i + 1])
    ensures s == [] <==> r == []
    ensures s != [] ==> (if IsLowerAlnum(s[0]) then r[0] == s[0] else r[0] == ' ')
    decreases |s|
  {
    if s == [] then []
    else if IsLowerAlnum(s[0]) then [s[0]] + CollapseNonAlnum(s[1..])
    else " " + CollapseNonAlnum(SkipNonAlnum(s))
  }

  lemma {:induction false} SkipKeepsAlnum(s: string)
    ensures Filter(SkipNonAlnum(s), IsLowerAlnum) == Filter(s, IsLowerAlnum)
    decreases |s|
  {
    if s != [] && !IsLowerAlnum(s[0]) {
      SkipKeepsAlnum(s[1..]);
      assert SkipNonAlnum(s) == SkipNonAlnum(s[1..]);
      FilterCons(s, IsLowerAlnum);
    }
  }

  /** Collapsing keeps every letter and digit, in order. */
  lemma {:induction false} CollapseKeepsAlnum(s: string)
    ensures Filter(CollapseNonAlnum(s), IsLowerAlnum) == Filter(s, IsLowerAlnum)
    decreases |s|
  {
    if s != [] {
      FilterCons(s, IsLowerAlnum);
      var r := CollapseNonAlnum(s);
      FilterCons(r, IsLowerAlnum);
      if IsLowerAlnum(s[0]) {
        CollapseKeepsAlnum(s[1..]);
        assert r[1..] == CollapseNonAlnum(s[1..]);
      } else {
        var k := SkipNonAlnum(s);
        CollapseKeepsAlnum(k);
        SkipKeepsAlnum(s);
        assert r[1..] == CollapseNonAlnum(k);
      }
    }
  }

  /** A string of letters, digits and single spaces collapses to itself. */
  lemma {:induction false} CollapseFixed(s: string)
    requires forall i :: 0 <= i < |s| ==> IsLowerAlnum(s[i]) || s[i] == ' '
    requires forall i :: 0 <= i < |s| - 1 ==> IsLowerAlnum(s[i]) || IsLowerAlnum(s[i + 1])
    ensures CollapseNonAlnum(s) == s
    decreases |s|
  {
    if s != [] {
      var t := s[1..];
      assert CollapseNonAlnum(t) == t by {
        CollapseFixed(t);
      }
      var h := if IsLowerAlnum(s[0]) then [s[0]] else " ";
      assert CollapseNonAlnum(s) == h + CollapseNonAlnum(t) by {
        if !IsLowerAlnum(s[0]) {
          assert SkipNonAlnum(s) == t by {
            assert SkipNonAlnum(t) == t;
          }
        }
      }
      assert s == h + t;
    }
  }

  /** Collapsing twice equals collapsing once. */
  lemma CollapseIdempotent(s: string)
    ensures CollapseNonAlnum(CollapseNonAlnum(s)) == CollapseNonAlnum(s)
  {
    CollapseFixed(CollapseNonAlnum(s));
  }

  lemma {:induction false} SkipAllNonAlnum(sp: string)
    requires forall k :: 0 <= k < |sp| ==> !IsLowerAlnum(sp[k])
    ensures SkipNonAlnum(sp) == []
    decreases |sp|
  {
    if sp != [] {
      SkipAllNonAlnum(sp[1..]);
    }
  }

  lemma {:induction false} SkipAppendNonAlnum(x: string, sp: string)
    requires forall k :: 0 <= k < |sp| ==> !IsLowerAlnum(sp[k])
    ensures SkipNonAlnum(x + sp) == if SkipNonAlnum(x) == [] then [] else SkipNonAlnum(x) + sp
    decreases |x|
  {
    if x == [] {
      assert x + sp == sp;
      SkipAllNonAlnum(sp);
    } else {
      assert (x + sp)[0] == x[0];
      if !IsLowerAlnum(x[0]) {
        assert (x + sp)[1..] == x[1..] + sp;
        SkipAppendNonAlnum(x[1..], sp);
      }
    }
  }

  /** Characters outside `[a-z0-9]` appended at the end add at most one
      trailing space. */
  lemma {:induction false} CollapseAppendNonAlnum(x: string, sp: string)
    requires forall k :: 0 <= k < |sp| ==> !IsLowerAlnum(sp[k])
    ensures CollapseNonAlnum(x + sp) == CollapseNonAlnum(x)
         || CollapseNonAlnum(x + sp) == CollapseNonAlnum(x) + " "
    decreases |x|
  {
    if x == [] {
      assert x + sp == sp;
      if sp != [] {
        SkipAllNonAlnum(sp);
      }
    } else {
      var s := x + sp;
      var cx := CollapseNonAlnum(x);
      assert s[0] == x[0];
      if IsLowerAlnum(x[0]) {
        var t := x[1..];
        assert s[1..] == t + sp;
        CollapseAppendNonAlnum(t, sp);
        var ct, cs := CollapseNonAlnum(t), CollapseNonAlnum(t + sp);
        assert cx == [x[0]] + ct;
        assert CollapseNonAlnum(s) == [x[0]] + cs;
        AppendAssoc([x[0]], ct, " ");
      } else {
        SkipAppendNonAlnum(x, sp);
        var k := SkipNonAlnum(x);
        var ck := CollapseNonAlnum(k);
        assert CollapseNonAlnum(s) == " " + CollapseNonAlnum(SkipNonAlnum(s));
        assert cx == " " + ck;
        if k != [] {
          CollapseAppendNonAlnum(k, sp);
          AppendAssoc(" ", ck, " ");
        }
      }
    }
  }

  /** What a normalised name looks like: lower-case letters and digits in
      words separated by single spaces. */
  predicate IsCanonicalName(r: string) {
    && (forall i :: 0 <= i < |r| ==> IsLowerAlnum(r[i]) || r[i] == ' ')
    && (forall i :: 0 <= i < |r| - 1 ==> IsLowerAlnum(r[i]) || IsLowerAlnum(r[i + 1]))
    && (r == [] || (IsLowerAlnum(r[0]) && IsLowerAlnum(r[|r| - 1])))
  }

  /** Trimming a string of letters, digits and single spaces leaves a
      canonical name. */
  lemma TrimCanonical(s: string)
    requires forall i :: 0 <= i < |s| ==> IsLowerAlnum(s[i]) || s[i] == ' '
    requires forall i :: 0 <= i < |s| - 1 ==> IsLowerAlnum(s[i]) || IsLowerAlnum(s[i + 1])
    ensures IsCanonicalName(Trim(s))
  {
    TrimIsInnerPiece(s);
    var a, r := LeadingSpaces(s), Trim(s);
    assert forall i :: 0 <= i < |r| ==> r[i] == s[a + i];
  }

  /** The stop words of the standings page. */
  const AppStopWords: seq<string> := ["fc", "cf", "afc", "sc", "club"]

  /** The stop words of the manager profiles. */
  const ProfileStopWords: seq<string> := ["fc", "cf", "cp", "fk", "cr", "afc", "sc", "club"]

  /** `normalizeName` with the given stop-word list. */
  function NormalizeName(stops: seq<string>, s: string): (r: string)
    ensures IsCanonicalName(r)
  {
    var c := CollapseNonAlnum(ToLower(FoldDiacritics(DropStopWords(DropParenGroups(s), stops, false))));
    TrimCanonical(c);
    Trim(c)
  }

  /** `playoffWinnerKey`: trimmed season, normalised division and normalised
      club name, separated by `|`. */
  function PlayoffWinnerKey(season: string, division: string, team: string): string {
    Trim(season) + "|" + NormDiv(division) + "|" + NormalizeName(AppStopWords, team)
  }

  /** A run of spaces passes unchanged through folding and lower-casing, and
      holds no letter or digit. */
  lemma SpacesPass(sp: string)
    requires forall k :: 0 <= k < |sp| ==> sp[k] == ' '
    ensures FoldDiacritics(sp) == sp && ToLower(sp) == sp
    ensures forall k :: 0 <= k < |sp| ==> !IsLowerAlnum(sp[k]) && IsJsSpace(sp[k])
  {
    assert FoldDiacritics(sp) == sp by {
      assert Plain(' ') by {
        assert !IsDiacritic(' ') && BaseLetter(' ') == ' ';
      }
      assert forall k :: 0 <= k < |sp| ==> Plain(sp[k]);
    }
    assert ToLower(sp) == sp by {
      assert LowerChar(' ') == ' ';
      var l := ToLower(sp);
      assert forall k :: 0 <= k < |sp| ==> l[k] == sp[k];
    }
    assert !IsLowerAlnum(' ') && IsJsSpace(' ');
  }

  /** Appending a space and a tail made only of stop words (and holding no
      `)`) does not change the normalised name: the tail turns into spaces
      that collapse and are trimmed away. */
  lemma NormalizeNameIgnoresTail(stops: seq<string>, t: string, y: string)
    requires forall k :: 0 <= k < |stops| ==> ' ' !in stops[k]
    requires ')' !in y
    requires forall k :: 0 <= k < |DropStopWords(y, stops, false)| ==> DropStopWords(y, stops, false)[k] == ' '
    ensures NormalizeName(stops, t + " " + y) == NormalizeName(stops, t)
  {
    var v := DropStopWords(DropParenGroups(t), stops, false);
    var sp := DropTail(stops, t, y);
    CleanIgnoresSpaces(v, sp);
  }

  /** The first two steps turn the appended tail into spaces. */
  lemma DropTail(stops: seq<string>, t: string, y: string) returns (sp: string)
    requires forall k :: 0 <= k < |stops| ==> ' ' !in stops[k]
    requires ')' !in y
    requires forall k :: 0 <= k < |DropStopWords(y, stops, false)| ==> DropStopWords(y, stops, false)[k] == ' '
    ensures forall k :: 0 <= k < |sp| ==> sp[k] == ' '
    ensures DropStopWords(DropParenGroups(t + " " + y), stops, false)
         == DropStopWords(DropParenGroups(t), stops, false) + sp
  {
    var z := " " + y;
    assert t + " " + y == t + z;
    var u := DropParenGroups(t);
    assert DropParenGroups(t + z) == u + z by {
      DropParenAppend(t, z);
    }
    sp := " " + DropStopWords(y, stops, false);
    assert DropStopWords(u + z, stops, false) == DropStopWords(u, stops, false) + sp by {
      assert LowerChar(' ') == ' ';
      DropStopWordsSplit(u, z, stops, false);
      DropStopWordsSpace(y, stops, LastIsWord(u, false));
    }
  }

  /** The last three steps ignore trailing spaces. */
  lemma CleanIgnoresSpaces(v: string, sp: string)
    requires forall k :: 0 <= k < |sp| ==> sp[k] == ' '
    ensures Trim(CollapseNonAlnum(ToLower(FoldDiacritics(v + sp))))
         == Trim(CollapseNonAlnum(ToLower(FoldDiacritics(v))))
  {
    SpacesPass(sp);
    var w := FoldDiacritics(v);
    assert FoldDiacritics(v + sp) == w + sp by {
      FoldAppend(v, sp);
    }
    var x := ToLower(w);
    assert ToLower(w + sp) == x + sp by {
      ToLowerAppend(w, sp);
    }
    var c := CollapseNonAlnum(x);
    var c' := CollapseNonAlnum(x + sp);
    assert c' == c || c' == c + " " by {
      CollapseAppendNonAlnum(x, sp);
    }
    assert Trim(c') == Trim(c) by {
      TrimPadded(c, " ");
    }
  }

  /** Inside a run of word characters there is no word boundary, so no stop
      word matches and the run is kept as it is. */
  lemma {:induction false} WordRunKept(s: string, stops: seq<string>)
    requires forall i :: 0 <= i < |s| ==> IsWordChar(s[i])
    ensures DropStopWords(s, stops, true) == s
    decreases |s|
  {
    if s != [] {
      assert StopWordAt(s, stops, true) == 0;
      WordRunKept(s[1..], stops);
    }
  }

  /** "FC" on its own is the stop word "fc" and becomes one space. */
  lemma DropUpperFc()
    ensures DropStopWords("FC", AppStopWords, false) == " "
  {
    assert StopWordAt("FC", AppStopWords, false) == 2 by {
      assert ToLower("FC"[..2]) == "fc";
    }
    assert "FC"[2..] == [];
  }

  /** "AFC" on its own is the stop word "afc", the third in the list, and
      becomes one space. */
  lemma DropUpperAfc()
    ensures DropStopWords("AFC", AppStopWords, false) == " "
  {
    assert StopWordAt("AFC", AppStopWords, false) == 3 by {
      assert ToLower("AFC"[..2]) == "af";
      assert ToLower("AFC"[..3]) == "afc";
      StopWordAtFirst("AFC", AppStopWords, false, 2);
    }
    assert "AFC"[3..] == [];
  }

  /** No stop word of the standings page holds a space. */
  lemma AppStopWordsSpaceFree()
    ensures forall k :: 0 <= k < |AppStopWords| ==> ' ' !in AppStopWords[k]
  {
    var w := AppStopWords;
    assert w[0] == "fc" && w[1] == "cf" && w[2] == "afc" && w[3] == "sc" && w[4] == "club";
  }

  /** A trailing " FC" does not change the normalised name. */
  lemma NormalizeNameIgnoresFc(t: string)
    ensures NormalizeName(AppStopWords, t + " FC") == NormalizeName(AppStopWords, t)
  {
    var y := "FC";
    assert t + " FC" == t + " " + y;
    assert ')' !in y;
    var d := DropStopWords(y, AppStopWords, false);
    assert forall k :: 0 <= k < |d| ==> d[k] == ' ' by {
      DropUpperFc();
    }
    AppStopWordsSpaceFree();
    NormalizeNameIgnoresTail(AppStopWords, t, y);
  }

  /** A trailing " AFC" does not change the normalised name. */
  lemma NormalizeNameIgnoresAfc(t: string)
    ensures NormalizeName(AppStopWords, t + " AFC") == NormalizeName(AppStopWords, t)
  {
    var y := "AFC";
    assert t + " AFC" == t + " " + y;
    assert ')' !in y;
    var d := DropStopWords(y, AppStopWords, false);
    assert forall k :: 0 <= k < |d| ==> d[k] == ' ' by {
      DropUpperAfc();
    }
    AppStopWordsSpaceFree();
    NormalizeNameIgnoresTail(AppStopWords, t, y);
  }

  /** A play-off winner recorded with or without a trailing " FC" or " AFC"
      has the same key, so the two spellings are one winner. */
  lemma PlayoffWinnerKeyIgnoresSuffix(season: string, division: string, team: string)
    ensures PlayoffWinnerKey(season, division, team + " FC") == PlayoffWinnerKey(season, division, team)
    ensures PlayoffWinnerKey(season, division, team + " AFC") == PlayoffWinnerKey(season, division, team)
  {
    NormalizeNameIgnoresFc(team);
    NormalizeNameIgnoresAfc(team);
  }

  /** The key identifies its three parts: keys built from seasons and
      divisions without `|` are equal exactly when the trimmed seasons, the
      normalised divisions and the normalised names are. */
  lemma PlayoffWinnerKeyFields(s1: string, d1: string, t1: string, s2: string, d2: string, t2: string)
    requires '|' !in s1 && '|' !in s2 && '|' !in d1 && '|' !in d2
    ensures PlayoffWinnerKey(s1, d1, t1) == PlayoffWinnerKey(s2, d2, t2) <==>
      Trim(s1) == Trim(s2) && NormDiv(d1) == NormDiv(d2)
      && NormalizeName(AppStopWords, t1) == NormalizeName(AppStopWords, t2)
  {
    TrimKeepsOut(s1, '|');
    TrimKeepsOut(s2, '|');
    NormDivKeepsOut(d1, '|');
    NormDivKeepsOut(d2, '|');
    SplitThreeFields(Trim(s1), NormDiv(d1), NormalizeName(AppStopWords, t1),
                     Trim(s2), NormDiv(d2), NormalizeName(AppStopWords, t2));
  }

  lemma SplitThreeFields(a: string, b: string, c: string, a': string, b': string, c': string)
    requires '|' !in a && '|' !in a' && '|' !in b && '|' !in b'
    ensures a + "|" + b + "|" + c == a' + "|" + b' + "|" + c' <==> a == a' && b == b' && c == c'
  {
    assert a + "|" + b + "|" + c == a + "|" + (b + "|" + c);
    assert a' + "|" + b' + "|" + c' == a' + "|" + (b' + "|" + c');
    SplitAtBar(a, b + "|" + c, a', b' + "|" + c');
    SplitAtBar(b, c, b', c');
  }

  /* ---------- the looser lookup of the manager profiles ---------- */

  /** The prefixes `stripPrefixes` drops (matched case-sensitively). */
  const PrefixWords: set<string> := {"rcd", "real", "rb", "ac", "as", "ss", "ud", "sd", "cd", "cf", "fc",
                                     "sc", "afc", "ssc", "psv", "deportivo", "club", "club de"}

  predicate Droppable(token: string) {
    token in PrefixWords || Utf16Length(token) <= 3
  }

  /** How many leading tokens `stripPrefixes` drops: the droppable ones at the
      front, but never more than two. */
  function LeadingDroppable(tokens: seq<string>): (k: nat)
    ensures k <= 2 && k <= |tokens|
    ensures forall j :: 0 <= j < k ==> Droppable(tokens[j])
    ensures k < 2 && k < |tokens| ==> !Droppable(tokens[k])
  {
    if |tokens| > 0 && Droppable(tokens[0]) then
      if |tokens| > 1 && Droppable(tokens[1]) then 2 else 1
    else 0
  }

  /** The value of `stripPrefixes`: the name without its droppable leading
      tokens, or the name itself when nothing would remain. */
  function StripPrefixed(name: string): (r: string)
    ensures r == [] ==> name == []
    ensures var ts := Tokens(name);
      var rest := Trim(Join(ts[LeadingDroppable(ts)..], " "));
      (rest != [] ==> r == rest) && (r != name ==> r == rest)
  {
    var ts := Tokens(name);
    var rest := Trim(Join(ts[LeadingDroppable(ts)..], " "));
    if rest == [] then name else rest
  }

  /** Of a two-word name, a droppable first word is stripped when the
      second is not droppable. */
  lemma StripDropsFirst(a: string, b: string)
    requires a != [] && b != [] && ' ' !in a && ' ' !in b
    requires Droppable(a) && !Droppable(b)
    requires !IsJsSpace(b[0]) && !IsJsSpace(b[|b| - 1])
    ensures StripPrefixed(a + " " + b) == b
  {
    var ts := [a, b];
    TokensOfPair(a, b);
    assert LeadingDroppable(ts) == 1;
    assert ts[1..] == [b];
    TrimKeeps(b);
  }

  /** A two-word name whose first word is not droppable is kept whole. */
  lemma StripKeepsFirst(a: string, b: string)
    requires a != [] && b != [] && ' ' !in a && ' ' !in b
    requires !Droppable(a)
    requires !IsJsSpace(a[0]) && !IsJsSpace(b[|b| - 1])
    ensures StripPrefixed(a + " " + b) == a + " " + b
  {
    var ts := [a, b];
    TokensOfPair(a, b);
    assert LeadingDroppable(ts) == 0;
    assert ts[0..] == ts;
    assert [a, b][..1] == [a];
    var n := a + " " + b;
    assert Join(ts, " ") == n;
    assert n[0] == a[0] && n[|n| - 1] == b[|b| - 1];
    TrimKeeps(n);
  }

  /** `stripPrefixes`: advances over at most two droppable tokens. */
  method StripPrefixes(name: string) returns (r: string)
    ensures r == StripPrefixed(name)
  {
    var tokens := Tokens(name);
    var i := 0;
    while i < |tokens| && i < 2 && Droppable(tokens[i])
      invariant i <= 2 && i <= |tokens|
      invariant forall j :: 0 <= j < i ==> Droppable(tokens[j])
    {
      i := i + 1;
    }
    assert i == LeadingDroppable(tokens);
    var rest := Trim(Join(tokens[i..], " "));
    if rest == [] {
      r := name;
    } else {
      r := rest;
    }
  }

  /** `keyExact`: like the standings key, but the season is normalised like
      a division and the longer stop-word list is used. */
  function KeyExact(season: string, division: string, team: string): string {
    NormDiv(season) + "|" + NormDiv(division) + "|" + NormalizeName(ProfileStopWords, team)
  }

  /** `keyLoose`: `keyExact` of the name with its prefixes stripped. */
  function KeyLoose(season: string, division: string, team: string): string {
    KeyExact(season, division, StripPrefixed(team))
  }

  /** `isPlayoffWinner`: false without a winners set, otherwise whether the
      exact or the loose key is in it. */
  predicate IsPlayoffWinner(season: string, division: string, team: string, winners: Option<set<string>>) {
    winners.Some? && (KeyExact(season, division, team) in winners.value
                      || KeyLoose(season, division, team) in winners.value)
  }

  /** `normDiv` and `seasonNorm` are idempotent: a run of digits is its own
      first run, and a trimmed string without digits is its own trim. */
  lemma NormDivIdempotent(s: string)
    ensures NormDiv(NormDiv(s)) == NormDiv(s)
  {
    var r := NormDiv(s);
    if FirstDigitIndex(s) == |s| {
      TrimIsInnerPiece(s);
      assert forall i :: 0 <= i < |r| ==> r[i] == s[LeadingSpaces(s) + i];
      assert FirstDigitIndex(r) == |r|;
      TrimIdempotent(s);
    } else {
      assert FirstDigitIndex(r) == 0;
      assert DigitPrefix(r) == r by {
        DigitPrefixAllDigits(r);
      }
    }
  }

  /** The profile keys identify their parts: keys built from seasons and
      divisions without `|` are equal exactly when the first digit runs of
      the seasons (`seasonNorm`), the normalised divisions and the
      normalised names are. */
  lemma KeyExactFields(s1: string, d1: string, t1: string, s2: string, d2: string, t2: string)
    requires '|' !in s1 && '|' !in s2 && '|' !in d1 && '|' !in d2
    ensures KeyExact(s1, d1, t1) == KeyExact(s2, d2, t2) <==>
      NormDiv(s1) == NormDiv(s2) && NormDiv(d1) == NormDiv(d2)
      && NormalizeName(ProfileStopWords, t1) == NormalizeName(ProfileStopWords, t2)
  {
    NormDivKeepsOut(s1, '|');
    NormDivKeepsOut(s2, '|');
    NormDivKeepsOut(d1, '|');
    NormDivKeepsOut(d2, '|');
    SplitThreeFields(NormDiv(s1), NormDiv(d1), NormalizeName(ProfileStopWords, t1),
                     NormDiv(s2), NormDiv(d2), NormalizeName(ProfileStopWords, t2));
  }

  /** The lookup reads the season only through its first run of digits:
      "Season 2015" is looked up exactly as "2015"; and without a winners
      set nobody is a play-off winner. */
  lemma IsPlayoffWinnerBySeasonRun(season: string, division: string, team: string, winners: Option<set<string>>)
    ensures IsPlayoffWinner(season, division, team, winners) == IsPlayoffWinner(NormDiv(season), division, team, winners)
    ensures winners.None? ==> !IsPlayoffWinner(season, division, team, winners)
  {
    NormDivIdempotent(season);
  }
}
