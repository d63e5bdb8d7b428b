/**
 * String rules the cleaner applies to headers and cells: Python's `str.strip()`,
 * ASCII lower-casing, the header normalisation of the cleaning handler, and the
 * decimal integer syntax that Python's `int(str)` accepts.
 */
module Text {
  import opened Wrappers

  /** The characters for which Python's `str.isspace()` holds. */
  predicate IsSpace(c: char) {
    ('\t' <= c <= '\r') || ('\U{1c}' <= c <= '\U{1f}') || c == ' '
    || c == '\U{85}' || c == '\U{a0}' || c == '\U{1680}'
    || ('\U{2000}' <= c <= '\U{200a}') || c == '\U{2028}' || c == '\U{2029}'
    || c == '\U{202f}' || c == '\U{205f}' || c == '\U{3000}'
  }

  /**
   * The whitespace `int(str)` skips around a number. Non-ASCII whitespace is
   * first mapped to `' '`, then only ASCII `\t\n\v\f\r` and `' '` are
   * stripped, so the separators U+001C..U+001F, which `str.isspace()` counts,
   * are not skipped.
   */
  predicate IntSpace(c: char) {
    IsSpace(c) && !('\U{1c}' <= c <= '\U{1f}')
  }

  /** No leading and no trailing character that `ws` counts as whitespace. */
  predicate TrimmedBy(ws: char -> bool, s: string) {
    s == [] || (!ws(s[0]) && !ws(s[|s| - 1]))
  }

  /** No leading and no trailing whitespace in the sense of `str.isspace()`. */
  predicate Trimmed(s: string) {
    TrimmedBy(IsSpace, s)
  }

  /** The number of whitespace characters `s` starts with. */
  function LeadCount(ws: char -> bool, s: string): (n: nat)
    ensures n <= |s|
    ensures forall k :: 0 <= k < n ==> ws(s[k])
    ensures n < |s| ==> !ws(s[n])
  {
    if |s| > 0 && ws(s[0]) then 1 + LeadCount(ws, s[1..]) else 0
  }

  /** The number of whitespace characters `s` ends with. */
  function TrailCount(ws: char -> bool, s: string): (n: nat)
    ensures n <= |s|
    ensures forall k :: |s| - n <= k < |s| ==> ws(s[k])
    ensures n < |s| ==> !ws(s[|s| - 1 - n])
  {
    if |s| > 0 && ws(s[|s| - 1]) then 1 + TrailCount(ws, s[..|s| - 1]) else 0
  }

  /**
   * The infix of `s` between its leading and its trailing whitespace, as `ws`
   * classifies characters; empty when `s` is all whitespace.
   */
  function StripBy(ws: char -> bool, s: string): (r: string)
    ensures LeadCount(ws, s) < |s| ==>
              LeadCount(ws, s) + TrailCount(ws, s) < |s| && r == s[LeadCount(ws, s)..|s| - TrailCount(ws, s)]
    ensures LeadCount(ws, s) == |s| ==> r == []
    ensures TrimmedBy(ws, r)
  {
    var i := LeadCount(ws, s);
    if i == |s| then []
    else
      var j := TrailCount(ws, s);
      assert !ws(s[i]);
      assert i < |s| - j;
      s[i..|s| - j]
  }

  /** Stripping an already trimmed string changes nothing. */
  lemma StripByTrimmed(ws: char -> bool, s: string)
    requires TrimmedBy(ws, s)
    ensures StripBy(ws, s) == s
  {
    if s != [] {
      assert LeadCount(ws, s) == 0;
      assert TrailCount(ws, s) == 0;
      assert s[0..|s|] == s;
    }
  }

  /**
   * Python's `str.strip()`: the infix of `s` between its leading and its
   * trailing `str.isspace()` characters; empty when `s` is all whitespace.
   */
  function Strip(s: string): (r: string)
    ensures LeadCount(IsSpace, s) < |s| ==> r == s[LeadCount(IsSpace, s)..|s| - TrailCount(IsSpace, s)]
    ensures LeadCount(IsSpace, s) == |s| ==> r == []
    ensures Trimmed(r)
  {
    StripBy(IsSpace, s)
  }

  /** Stripping an already trimmed string changes nothing. */
  lemma StripTrimmed(s: string)
    requires Trimmed(s)
    ensures Strip(s) == s
  {
    StripByTrimmed(IsSpace, s);
  }

  /** `str.lower()` on one character; only ASCII letters are mapped. */
  function Lower(c: char): char {
    if 'A' <= c <= 'Z' then (c as int + 32) as char else c
  }

  /** One header character after lower-casing and replacing `' '` with `'_'`. */
  function HeaderChar(c: char): char {
    if c == ' ' then '_' else Lower(c)
  }

  /** Neither lower-casing nor replacing the space turns a non-space into whitespace. */
  lemma HeaderCharNotSpace(c: char)
    requires !IsSpace(c)
    ensures !IsSpace(HeaderChar(c)) && HeaderChar(c) != ' '
  {
  }

  /**
   * `s.strip().lower().replace(" ", "_")`: no surrounding whitespace, no space at
   * all, and each character is the lower-cased character of the stripped
   * original at the same position (a space giving `'_'`).
   */
  function NormalizeHeader(s: string): (r: string)
    ensures |r| == |Strip(s)|
    ensures forall k :: 0 <= k < |r| ==>
      r[k] == (if Strip(s)[k] == ' ' then '_' else Lower(Strip(s)[k]))
    ensures ' ' !in r
    ensures Trimmed(r)
  {
    var t := Strip(s);
    var r := seq(|t|, k requires 0 <= k < |t| => HeaderChar(t[k]));
    if r == [] then r
    else
      HeaderCharNotSpace(t[0]);
      HeaderCharNotSpace(t[|t| - 1]);
      assert r[0] == HeaderChar(t[0]) && r[|r| - 1] == HeaderChar(t[|t| - 1]);
      r
  }

  lemma HeaderCharIdempotent(c: char)
    ensures HeaderChar(HeaderChar(c)) == HeaderChar(c)
  {
  }

  /** Normalising a header twice gives the same header as normalising it once. */
  lemma NormalizeHeaderIdempotent(s: string)
    ensures NormalizeHeader(NormalizeHeader(s)) == NormalizeHeader(s)
  {
    var t := Strip(s);
    var r := NormalizeHeader(s);
    StripTrimmed(r);
    var rr := NormalizeHeader(r);
    forall k | 0 <= k < |r| ensures rr[k] == r[k] {
      assert r[k] == HeaderChar(t[k]);
      assert rr[k] == HeaderChar(r[k]);
      HeaderCharIdempotent(t[k]);
    }
  }

  // ---------------------------------------------------------------- integers

  predicate IsDigit(c: char) {
    '0' <= c <= '9'
  }

  /** A non-empty run of ASCII decimal digits. */
  predicate IsDigits(s: string) {
    |s| > 0 && forall k :: 0 <= k < |s| ==> IsDigit(s[k])
  }

  /** The value of a run of digits, most significant first. */
  function DigitsValue(s: string): nat
    requires forall k :: 0 <= k < |s| ==> IsDigit(s[k])
  {
    if s == [] then 0
    else
      assert IsDigit(s[|s| - 1]);
      10 * DigitsValue(s[..|s| - 1]) + (s[|s| - 1] as int - '0' as int)
  }

  /** An optional sign and at least one digit: what `int` accepts once whitespace is stripped. */
  function ParseSigned(t: string): (r: Option<int>)
    ensures r.Some? <==> |t| > 0 && IsDigits(if t[0] == '+' || t[0] == '-' then t[1..] else t)
    ensures r.Some? ==>
              r.value == (if t[0] == '-' then -1 else 1) * DigitsValue(if t[0] == '+' || t[0] == '-' then t[1..] else t)
  {
    if |t| > 0 && (t[0] == '+' || t[0] == '-') then
      if IsDigits(t[1..]) then
        var v: int := DigitsValue(t[1..]);
        Some(if t[0] == '-' then -v else v)
      else None
    else if IsDigits(t) then Some(DigitsValue(t))
    else None
  }

  /**
   * Python's `int(s)` for a string: surrounding `IntSpace` whitespace is
   * ignored, then an optional sign and at least one digit. `None` is the
   * `ValueError` it raises.
   */
  function ParseInt(s: string): (r: Option<int>)
    ensures r.Some? <==> var t := StripBy(IntSpace, s);
      |t| > 0 && IsDigits(if t[0] == '+' || t[0] == '-' then t[1..] else t)
    ensures r.Some? ==> var t := StripBy(IntSpace, s);
              r.value == (if t[0] == '-' then -1 else 1) * DigitsValue(if t[0] == '+' || t[0] == '-' then t[1..] else t)
  {
    ParseSigned(StripBy(IntSpace, s))
  }

  /** Leading zeros do not change the value of a run of digits. */
  lemma {:induction false} LeadingZeroValue(s: string)
    requires forall k :: 0 <= k < |s| ==> IsDigit(s[k])
    ensures DigitsValue("0" + s) == DigitsValue(s)
  {
    var t := "0" + s;
    if s != [] {
      assert t[..|t| - 1] == "0" + s[..|s| - 1];
      assert t[|t| - 1] == s[|s| - 1];
      LeadingZeroValue(s[..|s| - 1]);
    } else {
      assert t[..|t| - 1] == [];
    }
  }

  /** What `int` makes of a few typical cells. */
  lemma ParseIntLeadingZeros()
    ensures ParseInt("007") == Some(7)
  {
    StripByTrimmed(IntSpace, "007");
    assert "007"[..2] == "00" && "00"[..1] == "0" && "0"[..0] == [];
  }

  lemma ParseIntPlus()
    ensures ParseInt("+5") == Some(5)
  {
    StripByTrimmed(IntSpace, "+5");
    assert "+5"[1..] == "5" && "5"[..0] == [];
  }

  lemma ParseIntSpaces()
    ensures ParseInt(" 5 ") == Some(5)
  {
    assert LeadCount(IntSpace, " 5 ") == 1 by { assert " 5 "[1..] == "5 "; }
    assert TrailCount(IntSpace, " 5 ") == 1 by { assert " 5 "[..2] == " 5"; }
    assert "5"[..0] == [];
  }

  /** Non-ASCII whitespace such as U+00A0 is skipped like a space. */
  lemma ParseIntWideSpace()
    ensures ParseInt("\U{a0}5") == Some(5)
  {
    assert LeadCount(IntSpace, "\U{a0}5") == 1 by { assert "\U{a0}5"[1..] == "5"; }
    assert TrailCount(IntSpace, "\U{a0}5") == 0;
    assert StripBy(IntSpace, "\U{a0}5") == "5" by { assert "\U{a0}5"[1..2] == "5"; }
    assert "5"[..0] == [];
  }

  /** `str.strip()` removes the separator U+001C, but `int` refuses it. */
  lemma ParseIntSeparator()
    ensures Strip("\U{1c}5") == "5"
    ensures ParseInt("\U{1c}5") == None
  {
    assert LeadCount(IsSpace, "\U{1c}5") == 1 by { assert "\U{1c}5"[1..] == "5"; }
    assert "\U{1c}5"[1..] == "5";
    StripByTrimmed(IntSpace, "\U{1c}5");
  }

  lemma ParseIntMinus()
    ensures ParseInt("-12") == Some(-12)
  {
    StripByTrimmed(IntSpace, "-12");
    assert "-12"[1..] == "12" && "12"[..1] == "1" && "1"[..0] == [];
  }

  lemma ParseIntRejects()
    ensures ParseInt("5.0") == None
    ensures ParseInt("") == None
  {
    StripByTrimmed(IntSpace, "5.0");
    assert !IsDigit("5.0"[1]);
  }

  /** The decimal digits of a natural number, as `str(n)` writes them. */
  function NatDigits(n: nat): (r: string)
    ensures IsDigits(r)
  {
    if n < 10 then ['0' + n as char] else NatDigits(n / 10) + ['0' + (n % 10) as char]
  }

  /** `str(n)` for an integer. */
  function Decimal(n: int): string {
    if n < 0 then "-" + NatDigits(-n) else NatDigits(n)
  }

  lemma {:induction false} NatDigitsValue(n: nat)
    ensures DigitsValue(NatDigits(n)) == n
  {
    var d := NatDigits(n);
    if n >= 10 {
      NatDigitsValue(n / 10);
      assert d[..|d| - 1] == NatDigits(n / 10);
    }
  }

  lemma DigitNotSpace(c: char)
    requires IsDigit(c)
    ensures !IsSpace(c)
  {
  }

  /** The decimal form of an integer has no surrounding whitespace. */
  lemma DecimalTrimmed(n: int)
    ensures StripBy(IntSpace, Decimal(n)) == Decimal(n)
  {
    var d := NatDigits(if n < 0 then -n else n);
    DigitNotSpace(d[0]);
    DigitNotSpace(d[|d| - 1]);
    var s := Decimal(n);
    if n < 0 {
      assert s == "-" + d;
      assert s[0] == '-' && s[|s| - 1] == d[|d| - 1];
      assert !IsSpace('-');
    }
    assert TrimmedBy(IntSpace, s);
    StripByTrimmed(IntSpace, s);
  }

  /** The sign-and-digits parser reads the decimal form of an integer back. */
  lemma ParseSignedDecimal(n: int)
    ensures ParseSigned(Decimal(n)) == Some(n)
  {
    var s := Decimal(n);
    if n < 0 {
      var d := NatDigits(-n);
      NatDigitsValue(-n);
      assert s == "-" + d && s[0] == '-' && s[1..] == d;
    } else {
      var d := NatDigits(n);
      NatDigitsValue(n);
      assert IsDigit(d[0]);
    }
  }

  /** `int(str(n)) == n`: parsing the decimal form of an integer gives it back. */
  lemma ParseIntDecimal(n: int)
    ensures ParseInt(Decimal(n)) == Some(n)
  {
    DecimalTrimmed(n);
    ParseSignedDecimal(n);
  }
}
