/**
 * Small pieces of the Java library the code uses on strings:
 * `Integer.valueOf(String)`, the decimal form of an integer,
 * `StringUtils.isWhitespace` and `String.startsWith`.
 */
module JavaText {
  import opened Outcomes
  import opened JavaNum

  predicate IsDigit(c: char) { '0' <= c <= '9' }

  predicate AllDigits(s: string) { forall i :: 0 <= i < |s| ==> IsDigit(s[i]) }

  /** The value of a string of decimal digits. */
  function DigitsValue(s: string): nat
    requires AllDigits(s)
  {
    if |s| == 0 then 0 else 10 * DigitsValue(s[..|s| - 1]) + (s[|s| - 1] as int - '0' as int)
  }

  /**
   * `Integer.valueOf(s).intValue()`: an optional sign and at least one
   * digit, with a value in the `int` range; anything else is a
   * `NumberFormatException`, here `None`.  Only ASCII digits are accepted.
   */
  function ParseInt(s: string): (r: Option<int>)
    ensures r.Some? ==> InInt(r.value)
    ensures |s| == 0 ==> r.None?
  {
    if |s| == 0 then None
    else
      var neg := s[0] == '-';
      var body := if s[0] == '-' || s[0] == '+' then s[1..] else s;
      if |body| == 0 || !AllDigits(body) then None
      else
        var v: int := if neg then -(DigitsValue(body) as int) else DigitsValue(body);
        if InInt(v) then Some(v) else None
  }

  function DigitChar(d: nat): (c: char)
    requires d < 10
    ensures IsDigit(c) && c as int - '0' as int == d
  {
    (d + '0' as int) as char
  }

  /** The decimal digits of a natural number, without leading zeros. */
  function NatText(n: nat): (s: string)
    ensures |s| > 0 && AllDigits(s)
    decreases n
  {
    if n < 10 then [DigitChar(n)] else NatText(n / 10) + [DigitChar(n % 10)]
  }

  /** `Integer.toString(n)` / `Long.toString(n)`. */
  function DecimalText(n: int): (s: string)
    ensures |s| > 0
  {
    if n < 0 then "-" + NatText(-n) else NatText(n)
  }

  lemma {:induction false} DigitsOfNatText(n: nat)
    ensures DigitsValue(NatText(n)) == n
    decreases n
  {
    if n >= 10 {
      DigitsOfNatText(n / 10);
      var s := NatText(n);
      assert s[..|s| - 1] == NatText(n / 10);
    }
  }

  /** Parsing the decimal form of an `int` gives the `int` back. */
  lemma ParseDecimal(n: int)
    requires InInt(n)
    ensures ParseInt(DecimalText(n)) == Some(n)
  {
    var s := DecimalText(n);
    if n < 0 {
      var t := NatText(-n);
      DigitsOfNatText(-n);
      assert s == "-" + t;
      assert s[0] == '-' && s[1..] == t;
    } else {
      var t := NatText(n);
      DigitsOfNatText(n);
      assert s == t && IsDigit(t[0]);
    }
  }

  /**
   * `Character.isWhitespace`: the Unicode space, line and paragraph
   * separators other than the no-break spaces, and the ASCII controls
   * TAB, LF, VT, FF, CR and FS..US.
   */
  predicate IsWhitespaceChar(c: char)
  {
    ('\t' <= c <= '\r') || ('\U{001C}' <= c <= ' ') ||
    c == '\U{1680}' || ('\U{2000}' <= c <= '\U{2006}') || ('\U{2008}' <= c <= '\U{200A}') ||
    c == '\U{2028}' || c == '\U{2029}' || c == '\U{205F}' || c == '\U{3000}'
  }

  /** `StringUtils.isWhitespace`: `null`, empty, or only whitespace. */
  predicate IsWhitespace(s: Option<string>)
  {
    s.None? || forall i :: 0 <= i < |s.value| ==> IsWhitespaceChar(s.value[i])
  }

  /** `s.startsWith(p)`. */
  predicate StartsWith(s: string, p: string)
  {
    |p| <= |s| && s[..|p|] == p
  }
}
