/** The JavaScript string operations the league logic relies on, on `string`
    (a sequence of Unicode scalar values). */
module Text {
  import opened Base

  /** ECMAScript WhiteSpace and LineTerminator code points: what `trim`,
      `parseInt` and the regular-expression class `\s` skip. */
  predicate IsJsSpace(c: char) {
    || '\U{0009}' <= c <= '\U{000D}'
    || c == '\U{0020}' || c == '\U{00A0}' || c == '\U{1680}'
    || '\U{2000}' <= c <= '\U{200A}'
    || c == '\U{2028}' || c == '\U{2029}' || c == '\U{202F}' || c == '\U{205F}'
    || c == '\U{3000}' || c == '\U{FEFF}'
  }

  /** `\d` in a regular expression without the `u` flag. */
  predicate IsDigit(c: char) {
    '0' <= c <= '9'
  }

  /** `\w` without the `u` flag: ASCII letters, digits and underscore. */
  predicate IsWordChar(c: char) {
    ('a' <= c <= 'z') || ('A' <= c <= 'Z') || IsDigit(c) || c == '_'
  }

  predicate IsLowerAlnum(c: char) {
    ('a' <= c <= 'z') || IsDigit(c)
  }

  /** The first index at or after `i` that holds no white space. */
  function SkipSpaces(s: string, i: nat): (j: nat)
    requires i <= |s|
    ensures i <= j <= |s|
    ensures forall k :: i <= k < j ==> IsJsSpace(s[k])
    ensures j == |s| || !IsJsSpace(s[j])
    decreases |s| - i
  {
    if i < |s| && IsJsSpace(s[i]) then SkipSpaces(s, i + 1) else i
  }

  /** The last index at or before `j` after which there is only white space. */
  function SkipSpacesBack(s: string, j: nat): (i: nat)
    requires j <= |s|
    ensures i <= j
    ensures forall k :: i <= k < j ==> IsJsSpace(s[k])
    ensures i == 0 || !IsJsSpace(s[i - 1])
  {
    if j > 0 && IsJsSpace(s[j - 1]) then SkipSpacesBack(s, j - 1) else j
  }

  /** `String.prototype.trimStart`. */
  function TrimStart(s: string): (r: string)
    ensures |r| <= |s| && r == s[|s| - |r|..]
    ensures forall k :: 0 <= k < |s| - |r| ==> IsJsSpace(s[k])
    ensures r == [] || !IsJsSpace(r[0])
  {
    s[SkipSpaces(s, 0)..]
  }

  /** White space in front of a string that starts with none is what
      `trimStart` removes. */
  lemma TrimStartAfterSpaces(sp: string, x: string)
    requires forall k :: 0 <= k < |sp| ==> IsJsSpace(sp[k])
    requires x == [] || !IsJsSpace(x[0])
    ensures TrimStart(sp + x) == x
  {
    assert (sp + x)[|sp|..] == x;
  }

  /** `String.prototype.trimEnd`. */
  function TrimEnd(s: string): (r: string)
    ensures |r| <= |s| && r == s[..|r|]
    ensures forall k :: |r| <= k < |s| ==> IsJsSpace(s[k])
    ensures r == [] || !IsJsSpace(r[|r| - 1])
  {
    s[..SkipSpacesBack(s, |s|)]
  }

  /** `String.prototype.trim`. */
  function Trim(s: string): (r: string)
    ensures r == [] || (!IsJsSpace(r[0]) && !IsJsSpace(r[|r| - 1]))
    ensures |r| <= |s|
  {
    TrimEnd(TrimStart(s))
  }

  /** A string with no white space at either end is its own trim. */
  lemma TrimKeeps(s: string)
    requires s != [] && !IsJsSpace(s[0]) && !IsJsSpace(s[|s| - 1])
    ensures Trim(s) == s
  {
    assert SkipSpaces(s, 0) == 0;
    assert TrimStart(s) == s;
    assert SkipSpacesBack(s, |s|) == |s|;
  }

  /** Number of white-space characters `trim` removes at the front. */
  function LeadingSpaces(s: string): nat {
    |s| - |TrimStart(s)|
  }

  /** What `trim` keeps is one contiguous piece of its argument, and everything
      around that piece is white space. */
  lemma TrimIsInnerPiece(s: string)
    ensures LeadingSpaces(s) + |Trim(s)| <= |s|
    ensures Trim(s) == s[LeadingSpaces(s)..LeadingSpaces(s) + |Trim(s)|]
    ensures forall k :: 0 <= k < LeadingSpaces(s) ==> IsJsSpace(s[k])
    ensures forall k :: LeadingSpaces(s) + |Trim(s)| <= k < |s| ==> IsJsSpace(s[k])
  {
    TrimSlice(s);
    TrimTrailing(s);
  }

  lemma TrimSlice(s: string)
    ensures LeadingSpaces(s) + |Trim(s)| <= |s|
    ensures Trim(s) == s[LeadingSpaces(s)..LeadingSpaces(s) + |Trim(s)|]
  {
    var t := TrimStart(s);
    var a := |s| - |t|;
    var r := TrimEnd(t);
    forall i | 0 <= i < |r| ensures r[i] == s[a + i] {
      assert r[i] == t[i] && t[i] == s[a + i];
    }
  }

  lemma TrimTrailing(s: string)
    ensures forall k :: LeadingSpaces(s) + |Trim(s)| <= k < |s| ==> IsJsSpace(s[k])
  {
    var t := TrimStart(s);
    var a := |s| - |t|;
    var r := TrimEnd(t);
    forall k | a + |r| <= k < |s| ensures IsJsSpace(s[k]) {
      assert IsJsSpace(t[k - a]);
      assert s[k] == t[k - a];
    }
  }

  lemma SliceOfSuffix<T>(s: seq<T>, a: nat, n: nat)
    requires a + n <= |s|
    ensures s[a..][..n] == s[a..a + n]
  {
  }

  lemma TrimKeepsOut(s: string, c: char)
    requires c !in s
    ensures c !in Trim(s)
  {
    TrimIsInnerPiece(s);
  }

  lemma TrimIdempotent(s: string)
    ensures Trim(Trim(s)) == Trim(s)
  {
    var r := Trim(s);
    assert TrimStart(r) == r;
    assert TrimEnd(r) == r;
  }

  /** `trim` yields the empty string exactly when every character is white space. */
  lemma TrimEmptyIffBlank(s: string)
    ensures Trim(s) == [] <==> forall k :: 0 <= k < |s| ==> IsJsSpace(s[k])
  {
    TrimIsInnerPiece(s);
    var a := LeadingSpaces(s);
    if Trim(s) != [] {
      assert Trim(s)[0] == s[a];
    }
  }

  /** A piece that starts and ends with no white space, padded with white
      space on both sides, is what `trim` returns. */
  lemma TrimPiece(p: string, m: string, q: string)
    requires forall k :: 0 <= k < |p| ==> IsJsSpace(p[k])
    requires forall k :: 0 <= k < |q| ==> IsJsSpace(q[k])
    requires m == [] || (!IsJsSpace(m[0]) && !IsJsSpace(m[|m| - 1]))
    ensures Trim(p + m + q) == m
  {
    var s := p + m + q;
    var j := SkipSpaces(s, 0);
    if m == [] {
      assert forall k :: 0 <= k < |s| ==> IsJsSpace(s[k]);
      assert j == |s|;
    } else {
      assert s[|p|] == m[0];
      assert forall k :: 0 <= k < |p| ==> s[k] == p[k];
      assert j == |p|;
      var t := s[j..];
      assert t == m + q;
      var i := SkipSpacesBack(t, |t|);
      assert t[|m| - 1] == m[|m| - 1];
      assert forall k :: |m| <= k < |t| ==> t[k] == q[k - |m|];
      assert i == |m|;
      assert t[..i] == m;
    }
  }

  /** The white space `trim` removes in front of and behind what it keeps. */
  lemma TrimPads(c: string) returns (p: string, q: string)
    ensures c == p + Trim(c) + q
    ensures forall k :: 0 <= k < |p| ==> IsJsSpace(p[k])
    ensures forall k :: 0 <= k < |q| ==> IsJsSpace(q[k])
  {
    TrimIsInnerPiece(c);
    var a, r := LeadingSpaces(c), Trim(c);
    p, q := c[..a], c[a + |r|..];
    assert c == p + r + q;
    forall k | 0 <= k < |q|
      ensures IsJsSpace(q[k])
    {
      assert q[k] == c[a + |r| + k];
    }
  }

  /** White space appended at the end does not change what `trim` keeps. */
  lemma TrimPadded(c: string, e: string)
    requires forall k :: 0 <= k < |e| ==> IsJsSpace(e[k])
    ensures Trim(c + e) == Trim(c)
  {
    var p, q := TrimPads(c);
    var r := Trim(c);
    assert c + e == p + r + (q + e);
    assert forall k :: 0 <= k < |q + e| ==> IsJsSpace((q + e)[k]) by {
      assert forall k :: 0 <= k < |q| ==> (q + e)[k] == q[k];
      assert forall k :: |q| <= k < |q + e| ==> (q + e)[k] == e[k - |q|];
    }
    TrimPiece(p, r, q + e);
  }

  /** The capitals `toLowerCase` is modelled on: ASCII and Latin-1. */
  predicate IsCapital(c: char) {
    'A' <= c <= 'Z' || ('\U{00C0}' <= c <= '\U{00DE}' && c != '\U{00D7}')
  }

  /** Lower-casing of one character: a capital moves to its small letter. */
  function LowerChar(c: char): char {
    if IsCapital(c) then (c as int + 32) as char else c
  }

  /** `String.prototype.toLowerCase` (see LowerChar for the characters covered). */
  function ToLower(s: string): (r: string)
    ensures |r| == |s|
    ensures forall i :: 0 <= i < |s| ==> r[i] == LowerChar(s[i])
  {
    seq(|s|, i requires 0 <= i < |s| => LowerChar(s[i]))
  }

  /** No capital is left, each capital becomes the letter 32 code points
      above it, and every other character stays. */
  lemma ToLowerNoCapitals(s: string)
    ensures forall i :: 0 <= i < |s| ==> !IsCapital(ToLower(s)[i])
    ensures forall i :: 0 <= i < |s| && IsCapital(s[i]) ==> ToLower(s)[i] as int == s[i] as int + 32
    ensures forall i :: 0 <= i < |s| && !IsCapital(s[i]) ==> ToLower(s)[i] == s[i]
  {
  }

  lemma ToLowerAppend(a: string, b: string)
    ensures ToLower(a + b) == ToLower(a) + ToLower(b)
  {
  }

  lemma ToLowerIdempotent(s: string)
    ensures ToLower(ToLower(s)) == ToLower(s)
  {
  }

  predicate StartsWith(s: string, prefix: string) {
    |prefix| <= |s| && s[..|prefix|] == prefix
  }

  /** `hay.includes(needle)`: `needle` occurs somewhere in `hay`. */
  predicate Contains(hay: string, needle: string) {
    StartsWith(hay, needle) || (hay != [] && Contains(hay[1..], needle))
  }

  lemma {:induction false} ContainsAt(hay: string, needle: string, i: nat)
    requires i + |needle| <= |hay| && hay[i..i + |needle|] == needle
    ensures Contains(hay, needle)
    decreases i
  {
    if i > 0 {
      assert hay[1..][i - 1..i - 1 + |needle|] == needle;
      ContainsAt(hay[1..], needle, i - 1);
    }
  }

  /** The longest prefix of `s` made of decimal digits. */
  function DigitPrefix(s: string): (r: string)
    ensures |r| <= |s| && r == s[..|r|]
    ensures forall i :: 0 <= i < |r| ==> IsDigit(r[i])
    ensures |r| == |s| || !IsDigit(s[|r|])
  {
    if s != [] && IsDigit(s[0]) then [s[0]] + DigitPrefix(s[1..]) else []
  }

  /** A string of digits is its own longest digit prefix. */
  lemma {:induction false} DigitPrefixAllDigits(s: string)
    requires forall i :: 0 <= i < |s| ==> IsDigit(s[i])
    ensures DigitPrefix(s) == s
    decreases |s|
  {
    if s != [] {
      DigitPrefixAllDigits(s[1..]);
    }
  }

  /** Index of the first decimal digit of `s`, or `|s|` when there is none. */
  function FirstDigitIndex(s: string): (i: nat)
    ensures i <= |s|
    ensures forall k :: 0 <= k < i ==> !IsDigit(s[k])
    ensures i < |s| ==> IsDigit(s[i])
  {
    if s == [] || IsDigit(s[0]) then 0 else 1 + FirstDigitIndex(s[1..])
  }

  /** The match of `/\d+/` in `s`: the leftmost, longest run of digits. */
  function FirstDigitRun(s: string): (r: Option<string>)
    ensures r.None? <==> forall i :: 0 <= i < |s| ==> !IsDigit(s[i])
    ensures r.Some? ==> r.value != [] && forall i :: 0 <= i < |r.value| ==> IsDigit(r.value[i])
    ensures r.Some? ==> var a := FirstDigitIndex(s);
      a + |r.value| <= |s| && s[a..a + |r.value|] == r.value
      && (a + |r.value| == |s| || !IsDigit(s[a + |r.value|]))
  {
    var a := FirstDigitIndex(s);
    if a == |s| then None else Some(DigitPrefix(s[a..]))
  }

  /** `parts.join(sep)`. */
  function Join(parts: seq<string>, sep: string): string {
    if parts == [] then []
    else if |parts| == 1 then parts[0]
    else Join(parts[..|parts| - 1], sep) + sep + parts[|parts| - 1]
  }

  /** `s.split(c)` for a one-character separator. */
  function SplitOn(s: string, c: char): (r: seq<string>)
    ensures |r| >= 1
    ensures forall i :: 0 <= i < |r| ==> c !in r[i]
  {
    if s == [] then [[]]
    else
      var rest := SplitOn(s[1..], c);
      if s[0] == c then [[]] + rest else [[s[0]] + rest[0]] + rest[1..]
  }

  /** A string without the separator splits into itself alone. */
  lemma {:induction false} SplitOnNoSeparator(b: string, c: char)
    requires c !in b
    ensures SplitOn(b, c) == [b]
    decreases |b|
  {
    if b != [] {
      SplitOnNoSeparator(b[1..], c);
      assert b == [b[0]] + b[1..];
    }
  }

  /** Two pieces joined by the separator, neither holding it, split back
      into those pieces. */
  lemma {:induction false} SplitOnPair(a: string, b: string, c: char)
    requires c !in a && c !in b
    ensures SplitOn(a + [c] + b, c) == [a, b]
    decreases |a|
  {
    if a == [] {
      assert [c] + b == a + [c] + b;
      assert ([c] + b)[1..] == b;
      SplitOnNoSeparator(b, c);
    } else {
      SplitOnPair(a[1..], b, c);
      assert (a + [c] + b)[1..] == a[1..] + [c] + b;
      assert a == [a[0]] + a[1..];
    }
  }

  /** Joining with a first piece in front adds that piece and a separator. */
  lemma {:induction false} JoinCons(a: string, ps: seq<string>, sep: string)
    requires ps != []
    ensures Join([a] + ps, sep) == a + sep + Join(ps, sep)
    decreases |ps|
  {
    var qs := [a] + ps;
    if |ps| == 1 {
      assert qs[..1] == [a];
    } else {
      var init := ps[..|ps| - 1];
      assert qs[..|qs| - 1] == [a] + init;
      JoinCons(a, init, sep);
    }
  }

  /** Lengthening the first piece at its front lengthens the joined string
      at its front. */
  lemma JoinPrependFirst(x: string, ps: seq<string>, sep: string)
    requires ps != []
    ensures Join([x + ps[0]] + ps[1..], sep) == x + Join(ps, sep)
  {
    if |ps| > 1 {
      JoinCons(x + ps[0], ps[1..], sep);
      JoinCons(ps[0], ps[1..], sep);
      assert [ps[0]] + ps[1..] == ps;
    } else {
      assert [x + ps[0]] + ps[1..] == [x + ps[0]];
    }
  }

  /** Splitting loses nothing: the pieces joined by the separator give back
      the string. With `SplitOn`'s own guarantee that no piece holds the
      separator, this fixes the pieces completely. */
  lemma {:induction false} SplitOnJoin(s: string, c: char)
    ensures Join(SplitOn(s, c), [c]) == s
    decreases |s|
  {
    if s != [] {
      var rest := SplitOn(s[1..], c);
      SplitOnJoin(s[1..], c);
      if s[0] == c {
        JoinCons([], rest, [c]);
        assert s == [c] + s[1..];
      } else {
        JoinPrependFirst([s[0]], rest, [c]);
        assert s == [s[0]] + s[1..];
      }
    }
  }

  /** A first piece without the separator, then the separator, splits off
      as that piece. */
  lemma {:induction false} SplitOnPrefix(a: string, rest: string, c: char)
    requires c !in a
    ensures SplitOn(a + [c] + rest, c) == [a] + SplitOn(rest, c)
    decreases |a|
  {
    var s := a + [c] + rest;
    if a == [] {
      assert s == [c] + rest;
      assert s[1..] == rest;
    } else {
      assert s[0] == a[0];
      assert s[1..] == a[1..] + [c] + rest;
      SplitOnPrefix(a[1..], rest, c);
      assert a == [a[0]] + a[1..];
    }
  }

  /** Pieces without the separator, joined by it, split back into those
      pieces. */
  lemma {:induction false} SplitOnJoined(ps: seq<string>, c: char)
    requires ps != []
    requires forall i :: 0 <= i < |ps| ==> c !in ps[i]
    ensures SplitOn(Join(ps, [c]), c) == ps
    decreases |ps|
  {
    if |ps| == 1 {
      SplitOnNoSeparator(ps[0], c);
    } else {
      var tail := ps[1..];
      SplitOnJoined(tail, c);
      JoinCons(ps[0], tail, [c]);
      assert [ps[0]] + tail == ps;
      SplitOnPrefix(ps[0], Join(tail, [c]), c);
    }
  }

  /** Joining with a bar is injective when the first parts hold no bar. */
  lemma SplitAtBar(a: string, b: string, a': string, b': string)
    requires '|' !in a && '|' !in a'
    ensures a + "|" + b == a' + "|" + b' <==> a == a' && b == b'
  {
    var x, y := a + "|" + b, a' + "|" + b';
    if x == y {
      assert forall i :: 0 <= i < |a| ==> x[i] != '|';
      assert forall i :: 0 <= i < |a'| ==> y[i] != '|';
      assert x[|a|] == '|' && y[|a'|] == '|';
      assert |a| == |a'|;
      assert a == x[..|a|] == a';
      assert b == x[|a| + 1..] == b';
    }
  }

  /** `s.split(" ").filter(Boolean)`: the non-empty pieces between spaces. */
  function Tokens(s: string): (r: seq<string>)
    ensures forall i :: 0 <= i < |r| ==> r[i] != [] && ' ' !in r[i]
  {
    Filter(SplitOn(s, ' '), (t: string) => t != [])
  }

  /** Two words joined by one space are its two tokens. */
  lemma TokensOfPair(a: string, b: string)
    requires a != [] && b != [] && ' ' !in a && ' ' !in b
    ensures Tokens(a + " " + b) == [a, b]
  {
    assert a + " " + b == a + [' '] + b;
    SplitOnPair(a, b, ' ');
    var p := (t: string) => t != [];
    assert Tokens(a + " " + b) == Filter([a, b], p);
    assert [a, b][..1] == [a];
    assert [a][..0] == [];
    assert Filter([a], p) == [a];
  }

  /** Words without spaces, joined by single spaces, are the tokens of the
      joined string. */
  lemma TokensOfJoin(ts: seq<string>)
    requires forall i :: 0 <= i < |ts| ==> ts[i] != [] && ' ' !in ts[i]
    ensures Tokens(Join(ts, " ")) == ts
  {
    var p := (t: string) => t != [];
    if ts == [] {
      assert SplitOn([], ' ') == [[]];
      FilterSingle([], p);
    } else {
      assert " " == [' '];
      SplitOnJoined(ts, ' ');
      FilterAll(ts, p);
    }
  }

  /** The JavaScript `length` of a string: UTF-16 code units, so characters
      outside the Basic Multilingual Plane count twice. */
  function Utf16Length(s: string): (n: nat)
    ensures |s| <= n <= 2 * |s|
  {
    if s == [] then 0
    else Utf16Length(s[..|s| - 1]) + (if s[|s| - 1] as int > 0xFFFF then 2 else 1)
  }
}
