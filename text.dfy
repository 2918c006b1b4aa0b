/**
 * The string operations the two pipelines rely on: Python's `str.strip()`
 * and `str.upper()`, substring search, decimal digits, `str(int)`, and the
 * numeric coercion `pd.to_numeric(..., errors="coerce")` of a text cell.
 */
module Text {
  import opened Nullable

  /** Python's `str.isspace()`: the characters `str.strip()` removes. */
  predicate IsSpace(c: char) {
    || ('\U{0009}' <= c <= '\U{000D}')
    || ('\U{001C}' <= c <= '\U{0020}')
    || c == '\U{0085}' || c == '\U{00A0}' || c == '\U{1680}'
    || ('\U{2000}' <= c <= '\U{200A}')
    || c == '\U{2028}' || c == '\U{2029}' || c == '\U{202F}' || c == '\U{205F}' || c == '\U{3000}'
  }

  /** Number of whitespace characters at the start of `s`. */
  function LeadingSpaces(s: string): (k: nat)
    ensures k <= |s|
    ensures forall i :: 0 <= i < k ==> IsSpace(s[i])
    ensures k < |s| ==> !IsSpace(s[k])
  {
    if s == [] || !IsSpace(s[0]) then 0
    else
      var k := LeadingSpaces(s[1..]);
      assert forall i :: 1 <= i < k + 1 ==> s[i] == s[1..][i - 1];
      1 + k
  }

  /** Number of whitespace characters at the end of `s`. */
  function TrailingSpaces(s: string): (k: nat)
    ensures k <= |s|
    ensures forall i :: |s| - k <= i < |s| ==> IsSpace(s[i])
    ensures k < |s| ==> !IsSpace(s[|s| - 1 - k])
  {
    if s == [] || !IsSpace(s[|s| - 1]) then 0
    else 1 + TrailingSpaces(s[..|s| - 1])
  }

  /** `s.strip()`: `s` without its leading and trailing whitespace. */
  function Strip(s: string): (r: string)
    ensures r == [] || (!IsSpace(r[0]) && !IsSpace(r[|r| - 1]))
    ensures exists a, b ::
      (&& 0 <= a <= b <= |s| && r == s[a..b]
       && (forall i :: 0 <= i < a ==> IsSpace(s[i]))
       && (forall i :: b <= i < |s| ==> IsSpace(s[i])))
  {
    var a := LeadingSpaces(s);
    var rest := s[a..];
    var t := TrailingSpaces(rest);
    assert forall i :: a + |rest| - t <= i < |s| ==> s[i] == rest[i - a];
    s[a..a + |rest| - t]
  }

  /** Stripping twice is stripping once. */
  lemma StripIdempotent(s: string)
    ensures Strip(Strip(s)) == Strip(s)
  {
    var r := Strip(s);
    assert LeadingSpaces(r) == 0;
    assert r[0..] == r;
    assert TrailingSpaces(r) == 0;
  }

  /** `c.upper()` for the ASCII letters; every other character is unchanged. */
  function UpperChar(c: char): char {
    if 'a' <= c <= 'z' then (c as int - 32) as char else c
  }

  /** `s.upper()`, character by character. */
  function Upper(s: string): string {
    seq(|s|, i requires 0 <= i < |s| => UpperChar(s[i]))
  }

  /** `sub in s` for strings: `sub` occurs as a contiguous block of `s`. */
  predicate Contains(s: string, sub: string) {
    exists i :: 0 <= i <= |s| && sub <= s[i..]
  }

  predicate IsDigit(c: char) {
    '0' <= c <= '9'
  }

  predicate AllDigits(s: string) {
    forall i :: 0 <= i < |s| ==> IsDigit(s[i])
  }

  function Digit(d: nat): (c: char)
    requires d < 10
    ensures IsDigit(c)
  {
    ('0' as int + d) as char
  }

  /** The number a string of decimal digits spells (the empty string spells 0). */
  function DigitsValue(s: string): nat
    requires AllDigits(s)
  {
    if s == [] then 0
    else DigitsValue(s[..|s| - 1]) * 10 + (s[|s| - 1] as int - '0' as int)
  }

  lemma DigitsValueAppend(s: string, d: nat)
    requires AllDigits(s) && d < 10
    ensures AllDigits(s + [Digit(d)]) && DigitsValue(s + [Digit(d)]) == DigitsValue(s) * 10 + d
  {
    assert (s + [Digit(d)])[..|s|] == s;
  }

  /** Leading zeros do not change the value. */
  lemma {:induction false} DigitsValueLeadingZero(s: string)
    requires AllDigits(s)
    ensures AllDigits("0" + s) && DigitsValue("0" + s) == DigitsValue(s)
    decreases |s|
  {
    if s != [] {
      var init := s[..|s| - 1];
      DigitsValueLeadingZero(init);
      assert ("0" + s)[..|"0" + s| - 1] == "0" + init;
    }
  }

  /** `str(n)` for a non-negative integer: its decimal digits, without leading zeros. */
  function NatToString(n: nat): (s: string)
    ensures |s| > 0 && AllDigits(s) && DigitsValue(s) == n
    ensures n >= 10 ==> s[0] != '0'
  {
    if n < 10 then [Digit(n)]
    else
      var init := NatToString(n / 10);
      DigitsValueAppend(init, n % 10);
      init + [Digit(n % 10)]
  }

  function Pow10(k: nat): (p: nat)
    ensures p >= 1
  {
    if k == 0 then 1 else 10 * Pow10(k - 1)
  }

  /** A number below 10^k has at most k digits. */
  lemma {:induction false} NatToStringLength(n: nat, k: nat)
    requires k >= 1 && n < Pow10(k)
    ensures |NatToString(n)| <= k
  {
    if n >= 10 {
      assert k >= 2;
      assert n / 10 < Pow10(k - 1);
      NatToStringLength(n / 10, k - 1);
    }
  }

  /** `s` left-padded with zeros to at least `width` characters (`%0*d`). */
  function ZeroPad(s: string, width: nat): (r: string)
    requires AllDigits(s)
    ensures AllDigits(r) && DigitsValue(r) == DigitsValue(s)
    ensures |r| == if |s| >= width then |s| else width
    decreases width - |s|
  {
    if |s| >= width then s
    else
      DigitsValueLeadingZero(s);
      ZeroPad("0" + s, width)
  }

  /** Position of the first `c` in `s`, or `|s|` when there is none. */
  function IndexOf(s: string, c: char): (k: nat)
    ensures k <= |s|
    ensures forall i :: 0 <= i < k ==> s[i] != c
    ensures k < |s| ==> s[k] == c
  {
    if s == [] then 0
    else if s[0] == c then 0
    else
      var k := IndexOf(s[1..], c);
      assert forall i :: 1 <= i < k + 1 ==> s[i] == s[1..][i - 1];
      1 + k
  }

  /** A character that can appear in a decimal literal. */
  predicate IsNumeric(c: char) {
    IsDigit(c) || c == '.' || c == '-' || c == '+'
  }

  /** An unsigned decimal literal: digits, optionally one '.', then digits; at least one digit. */
  function ParseUnsigned(s: string): Option<real> {
    var dot := IndexOf(s, '.');
    var whole := s[..dot];
    var frac := if dot < |s| then s[dot + 1..] else "";
    if AllDigits(whole) && AllDigits(frac) && |whole| + |frac| > 0 then
      Some(DigitsValue(whole) as real + (if frac == "" then 0.0 else DigitsValue(frac) as real / Pow10(|frac|) as real))
    else None
  }

  /**
   * `pd.to_numeric(text, errors="coerce")` on a decimal literal with an
   * optional sign: its value, or null when the text is not a number.
   */
  function ParseDecimal(s: string): Option<real> {
    if |s| > 0 && (s[0] == '-' || s[0] == '+') then
      match ParseUnsigned(s[1..])
      case Some(v) => Some(if s[0] == '-' then -v else v)
      case None => None
    else ParseUnsigned(s)
  }

  /** A text cell holding `str(n)` coerces back to the number `n`. */
  lemma ParseNatToString(n: nat)
    ensures ParseDecimal(NatToString(n)) == Some(n as real)
    ensures ParseDecimal("-" + NatToString(n)) == Some(-(n as real))
  {
    var s := NatToString(n);
    UnsignedDigits(s);
    assert !(s[0] == '-' || s[0] == '+');
    var m := "-" + s;
    assert m[0] == '-' && m[1..] == s;
  }

  /** A non-empty digit string is an unsigned literal with that value. */
  lemma UnsignedDigits(s: string)
    requires |s| > 0 && AllDigits(s)
    ensures ParseUnsigned(s) == Some(DigitsValue(s) as real)
  {
    assert forall i :: 0 <= i < |s| ==> s[i] != '.' by {
      forall i | 0 <= i < |s| ensures s[i] != '.' {
        assert IsDigit(s[i]);
      }
    }
    var dot := IndexOf(s, '.');
    assert dot == |s|;
    assert s[..dot] == s;
  }

  /** Text containing a character that cannot occur in a number coerces to null. */
  lemma NonNumericIsNull(s: string, k: nat)
    requires k < |s| && !IsNumeric(s[k])
    ensures ParseDecimal(s) == None
  {
    if |s| > 0 && (s[0] == '-' || s[0] == '+') {
      assert s[1..][k - 1] == s[k];
      UnsignedNonNumeric(s[1..], k - 1);
    } else {
      UnsignedNonNumeric(s, k);
    }
  }

  lemma UnsignedNonNumeric(s: string, k: nat)
    requires k < |s| && !IsNumeric(s[k])
    ensures ParseUnsigned(s) == None
  {
    var dot := IndexOf(s, '.');
    if k < dot {
      assert s[..dot][k] == s[k];
    } else {
      assert k != dot;
      assert s[dot + 1..][k - dot - 1] == s[k];
    }
  }

  /** Coercion of sample cells: "12.5" is 12.5, "-3" is -3 and "n/a" is null. */
  lemma ParseDecimalExamples()
    ensures ParseDecimal("12.5") == Some(12.5)
    ensures ParseDecimal("-3") == Some(-3.0)
    ensures ParseDecimal("n/a") == None
  {
    TwelvePointFive("12.5");
    ParseNatToString(3);
    NonNumericIsNull("n/a", 0);
  }

  lemma TwelvePointFive(a: string)
    requires a == "12.5"
    ensures ParseDecimal(a) == Some(12.5)
  {
    var dot := IndexOf(a, '.');
    assert a[0] == '1' && a[1] == '2' && a[2] == '.';
    assert dot == 2;
    assert a[..2] == "12" && a[3..] == "5";
    assert DigitsValue("12") == 12 by {
      assert "12"[..1] == "1";
    }
    assert DigitsValue("5") == 5 by {
      assert "5"[..0] == "";
    }
    assert Pow10(1) == 10;
    assert 12.0 + 5.0 / 10.0 == 12.5;
  }
}
