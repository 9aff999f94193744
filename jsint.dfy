/** JavaScript's `parseInt(x, 10)` on strings and the two `numeric` helpers
    built on it. A NaN result is `None`. */
module JsInt {
  import opened Base
  import opened Text

  function DigitValue(c: char): nat
    requires IsDigit(c)
  {
    c as int - '0' as int
  }

  /** The number a string of decimal digits denotes. */
  function DigitsValue(ds: string): nat
    requires forall i :: 0 <= i < |ds| ==> IsDigit(ds[i])
  {
    if ds == [] then 0 else 10 * DigitsValue(ds[..|ds| - 1]) + DigitValue(ds[|ds| - 1])
  }

  /** `parseInt(s, 10)`: skip leading white space, read an optional sign, then
      the longest run of digits; NaN when there is no digit there. */
  function ParseInt(s: string): Option<int> {
    var t := TrimStart(s);
    var neg := t != [] && t[0] == '-';
    var u := if t != [] && (t[0] == '-' || t[0] == '+') then t[1..] else t;
    var ds := DigitPrefix(u);
    if ds == [] then None
    else
      var v: int := DigitsValue(ds);
      Some(if neg then -v else v)
  }

  /** `parseInt(x || 0, 10)`: the empty string is replaced by the number 0. */
  function ParseIntOrZero(s: string): Option<int> {
    if s == [] then Some(0) else ParseInt(s)
  }

  /** `numeric` of src/App.js: the parsed value, or 0 when the parse fails. */
  function Numeric(s: string): int {
    ParseInt(s).GetOr(0)
  }

  /** `numeric` of src/ManagerProfiles.js: every character other than a digit
      or `-` is removed first, then the rest is parsed, 0 on failure. */
  function NumericLoose(s: string): int {
    ParseInt(Filter(s, NumericChar)).GetOr(0)
  }

  /** The characters the loose `numeric` keeps. */
  predicate NumericChar(c: char) {
    IsDigit(c) || c == '-'
  }

  /** The decimal digits of a natural number, without leading zeros. */
  function DigitsOf(n: nat): (r: string)
    ensures r != []
    ensures forall i :: 0 <= i < |r| ==> IsDigit(r[i])
  {
    var last := ('0' as int + n % 10) as char;
    if n < 10 then [last] else DigitsOf(n / 10) + [last]
  }

  /** `String(n)` for an integer `n`. */
  function Decimal(n: int): (r: string)
    ensures r != []
  {
    if n < 0 then "-" + DigitsOf(-n) else DigitsOf(n)
  }

  lemma {:induction false} DigitsOfValue(n: nat)
    ensures DigitsValue(DigitsOf(n)) == n
    decreases n
  {
    var r := DigitsOf(n);
    if n >= 10 {
      DigitsOfValue(n / 10);
      assert r[..|r| - 1] == DigitsOf(n / 10);
    }
  }

  lemma TrimStartKeeps(s: string)
    requires s != [] && !IsJsSpace(s[0])
    ensures TrimStart(s) == s
  {
  }

  /** Parsing the decimal rendering of any integer gives the integer back. */
  lemma ParseDecimalRoundTrip(n: int)
    ensures ParseInt(Decimal(n)) == Some(n)
  {
    if n < 0 {
      ParseNegativeDecimal(n);
    } else {
      ParseNonNegativeDecimal(n);
    }
  }

  lemma ParseNonNegativeDecimal(n: int)
    requires n >= 0
    ensures ParseInt(Decimal(n)) == Some(n)
  {
    var ds := DigitsOf(n);
    assert Decimal(n) == ds;
    assert ParseInt(ds) == Some(n) by {
      DigitsOfValue(n);
      ParseAllDigits(ds);
    }
  }

  lemma ParseNegativeDecimal(n: int)
    requires n < 0
    ensures ParseInt(Decimal(n)) == Some(n)
  {
    var s := Decimal(n);
    var ds := DigitsOf(-n);
    assert s != [] && s[0] == '-' && DigitPrefix(s[1..]) == ds by {
      assert s == "-" + ds;
      assert s[1..] == ds;
      DigitPrefixAllDigits(ds);
    }
    assert DigitsValue(ds) == -n by {
      DigitsOfValue(-n);
    }
    ParseMinus(s, ds);
  }

  /** `parseInt` of a string that starts with neither white space nor a sign
      reads its leading digits. */
  lemma ParseUnsigned(s: string)
    requires s != [] && !IsJsSpace(s[0]) && s[0] != '-' && s[0] != '+'
    ensures ParseInt(s) == (if DigitPrefix(s) == [] then None else Some(DigitsValue(DigitPrefix(s)) as int))
  {
    var t := TrimStart(s);
    assert t == s by {
      TrimStartKeeps(s);
    }
  }

  /** `parseInt` of a string that starts with a minus sign followed by the
      digits `ds` negates the number `ds` denotes. */
  lemma ParseMinus(s: string, ds: string)
    requires s != [] && s[0] == '-' && ds != [] && DigitPrefix(s[1..]) == ds
    ensures ParseInt(s) == Some(-(DigitsValue(ds) as int))
  {
    var t := TrimStart(s);
    assert t == s by {
      assert !IsJsSpace(s[0]);
      TrimStartKeeps(s);
    }
    assert t[1..] == s[1..];
  }

  lemma DigitIsNoSpaceNorSign(c: char)
    requires IsDigit(c)
    ensures !IsJsSpace(c) && c != '-' && c != '+'
  {
  }

  /** A non-empty run of digits parses to the number it denotes. */
  lemma ParseAllDigits(ds: string)
    requires ds != [] && forall i :: 0 <= i < |ds| ==> IsDigit(ds[i])
    ensures ParseInt(ds) == Some(DigitsValue(ds))
  {
    DigitIsNoSpaceNorSign(ds[0]);
    ParseUnsigned(ds);
    DigitPrefixAllDigits(ds);
  }

  /** A minus sign followed by a non-empty run of digits parses to the negated number. */
  lemma ParseMinusDigits(ds: string)
    requires ds != [] && forall i :: 0 <= i < |ds| ==> IsDigit(ds[i])
    ensures ParseInt("-" + ds) == Some(-(DigitsValue(ds) as int))
  {
    var s := "-" + ds;
    assert s[1..] == ds;
    DigitPrefixAllDigits(ds);
    ParseMinus(s, ds);
  }

  /** A string without a single digit parses to NaN. */
  lemma ParseIntNaN(s: string)
    requires forall i :: 0 <= i < |s| ==> !IsDigit(s[i])
    ensures ParseInt(s) == None
  {
    var t := TrimStart(s);
    var u := if t != [] && (t[0] == '-' || t[0] == '+') then t[1..] else t;
    assert forall i :: 0 <= i < |t| ==> t[i] == s[|s| - |t| + i];
    if u != [] {
      assert !IsDigit(u[0]);
    }
  }

  /** Every character other than a digit or `-` is ignored by the loose
      `numeric`: "1,234" reads as "1234". */
  lemma NumericLooseIgnores(a: string, c: char, b: string)
    requires !NumericChar(c)
    ensures NumericLoose(a + [c] + b) == NumericLoose(a + b)
  {
    FilterAppend(a + [c], b, NumericChar);
    FilterAppend(a, [c], NumericChar);
    FilterSingle(c, NumericChar);
    FilterAppend(a, b, NumericChar);
  }

  /** The loose `numeric` reads the decimal rendering of every integer back. */
  lemma NumericLooseDecimal(n: int)
    ensures NumericLoose(Decimal(n)) == n
  {
    var s := Decimal(n);
    assert forall i :: 0 <= i < |s| ==> NumericChar(s[i]);
    FilterAll(s, NumericChar);
    ParseDecimalRoundTrip(n);
  }
}
