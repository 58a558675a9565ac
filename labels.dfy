/** The two JavaScript runtime steps behind the level and session labels of
    term progression: `parseInt(label)` (section 19.2.5 of ECMA-262), which
    reads the integer at the front of a label, and the template literal
    `${n} Level`, which turns the number back into decimal text. NaN is None. */
module Labels {
  import opened Wrappers

  /** WhiteSpace and LineTerminator code points, the characters `parseInt`
      strips from the front of its argument. */
  predicate IsJsWhitespace(c: char)
  {
    c == '\t' || c == '\n' || c == '\U{B}' || c == '\U{C}' || c == '\r' || c == ' ' ||
    c == '\U{A0}' || c == '\U{1680}' || ('\U{2000}' <= c <= '\U{200A}') ||
    c == '\U{2028}' || c == '\U{2029}' || c == '\U{202F}' || c == '\U{205F}' || c == '\U{3000}' || c == '\U{FEFF}'
  }

  /** The argument with its leading white space removed. */
  function TrimStart(s: string): (r: string)
    ensures |r| <= |s| && r == s[|s| - |r|..]
    ensures r == [] || !IsJsWhitespace(r[0])
    ensures forall i :: 0 <= i < |s| - |r| ==> IsJsWhitespace(s[i])
  {
    if s != [] && IsJsWhitespace(s[0]) then TrimStart(s[1..]) else s
  }

  /** The value of c as a digit in the given radix (10 or 16). */
  function DigitValue(c: char, radix: nat): (d: Option<nat>)
    requires radix == 10 || radix == 16
    ensures d.Some? ==> d.value < radix
  {
    if '0' <= c <= '9' then Some(c as nat - '0' as nat)
    else if radix == 16 && 'a' <= c <= 'f' then Some(c as nat - 'a' as nat + 10)
    else if radix == 16 && 'A' <= c <= 'F' then Some(c as nat - 'A' as nat + 10)
    else None
  }

  /** The length of the longest prefix of s made of radix digits. */
  function DigitPrefixLength(s: string, radix: nat): (n: nat)
    requires radix == 10 || radix == 16
    ensures n <= |s|
    ensures forall i :: 0 <= i < n ==> DigitValue(s[i], radix).Some?
    ensures n < |s| ==> DigitValue(s[n], radix).None?
  {
    if s == [] || DigitValue(s[0], radix).None? then 0 else 1 + DigitPrefixLength(s[1..], radix)
  }

  /** The number a string of radix digits denotes, most significant first. */
  function DigitsValue(s: string, radix: nat): nat
    requires radix == 10 || radix == 16
    requires forall i :: 0 <= i < |s| ==> DigitValue(s[i], radix).Some?
  {
    if s == [] then 0
    else DigitsValue(s[..|s| - 1], radix) * radix + DigitValue(s[|s| - 1], radix).value
  }

  /** The digits after the sign: a `0x` or `0X` prefix switches to radix 16;
      then as many digits as there are, none at all giving NaN. */
  function ParseMagnitude(u: string): Option<nat>
  {
    var hex := |u| >= 2 && u[0] == '0' && (u[1] == 'x' || u[1] == 'X');
    var radix := if hex then 16 else 10;
    var body := if hex then u[2..] else u;
    var n := DigitPrefixLength(body, radix);
    if n == 0 then None else Some(DigitsValue(body[..n], radix))
  }

  /** `parseInt(s)` without a radix: leading white space, then an optional
      sign, then the magnitude. */
  function ParseInt(s: string): Option<int>
  {
    var t := TrimStart(s);
    var signed := t != [] && (t[0] == '+' || t[0] == '-');
    match ParseMagnitude(if signed then t[1..] else t)
    case None => None
    case Some(m) =>
      var v: int := if signed && t[0] == '-' then -(m as int) else m;
      Some(v)
  }

  function DigitChar(d: nat): (c: char)
    requires d < 10
    ensures DigitValue(c, 10) == Some(d)
  {
    ('0' as int + d) as char
  }

  /** The decimal text JavaScript writes for a natural number. */
  function DecimalText(n: nat): (s: string)
    ensures |s| >= 1
    ensures forall i :: 0 <= i < |s| ==> DigitValue(s[i], 10).Some?
    ensures |s| >= 2 ==> s[0] != '0'
  {
    if n < 10 then [DigitChar(n)] else DecimalText(n / 10) + [DigitChar(n % 10)]
  }

  /** `${v}` for an integer or NaN. */
  function NumberText(v: Option<int>): string
  {
    match v
    case None => "NaN"
    case Some(n) => if n < 0 then "-" + DecimalText(-n) else DecimalText(n)
  }

  /** Reading the decimal text back gives the number. */
  lemma {:induction false} DecimalTextValue(n: nat)
    ensures DigitsValue(DecimalText(n), 10) == n
  {
    if n >= 10 {
      DecimalTextValue(n / 10);
      var s := DecimalText(n);
      assert s[..|s| - 1] == DecimalText(n / 10);
    }
  }

  /** The digits of a digit string followed by a non-digit are exactly that string. */
  lemma {:induction false} DigitPrefixOfDigits(d: string, suffix: string, radix: nat)
    requires radix == 10 || radix == 16
    requires forall i :: 0 <= i < |d| ==> DigitValue(d[i], radix).Some?
    requires suffix == [] || DigitValue(suffix[0], radix).None?
    ensures DigitPrefixLength(d + suffix, radix) == |d|
  {
    if d != [] {
      assert (d + suffix)[1..] == d[1..] + suffix;
      DigitPrefixOfDigits(d[1..], suffix, radix);
    } else {
      assert d + suffix == suffix;
    }
  }

  /** Decimal text followed by a non-digit that cannot start a hex prefix
      reads back as its number. */
  lemma MagnitudeOfDecimalText(m: nat, suffix: string)
    requires suffix == [] || (DigitValue(suffix[0], 10).None? && suffix[0] != 'x' && suffix[0] != 'X')
    ensures ParseMagnitude(DecimalText(m) + suffix) == Some(m)
  {
    var d := DecimalText(m);
    var u := d + suffix;
    assert u[0] == d[0];
    assert |u| >= 2 && u[0] == '0' ==> |d| == 1 && u[1] == suffix[0];
    DecimalTextValue(m);
    DigitPrefixOfDigits(d, suffix, 10);
    assert u[..|d|] == d;
  }

  /** Text that does not start with white space is left as it is. */
  lemma TrimStartKeeps(s: string)
    requires s != [] && !IsJsWhitespace(s[0])
    ensures TrimStart(s) == s
  {
  }

  /** Text starting with a digit is read without a sign. */
  lemma ParseIntUnsigned(u: string, m: nat)
    requires u != [] && '0' <= u[0] <= '9'
    requires ParseMagnitude(u) == Some(m)
    ensures ParseInt(u) == Some(m as int)
  {
    TrimStartKeeps(u);
  }

  /** A leading minus sign negates the magnitude that follows it. */
  lemma ParseIntMinus(u: string, m: nat)
    requires ParseMagnitude(u) == Some(m)
    ensures ParseInt(['-'] + u) == Some(-(m as int))
  {
    var s := ['-'] + u;
    TrimStartKeeps(s);
    assert s[1..] == u;
  }

  /** The text of a negative number is a minus sign and the decimal text of
      its magnitude. */
  lemma NegativeText(n: int, m: nat, suffix: string)
    requires n < 0 && m == -n
    ensures NumberText(Some(n)) + suffix == ['-'] + (DecimalText(m) + suffix)
  {
  }

  lemma ParseNegativeDecimal(m: nat, suffix: string)
    requires suffix == [] || (DigitValue(suffix[0], 10).None? && suffix[0] != 'x' && suffix[0] != 'X')
    ensures ParseInt(['-'] + (DecimalText(m) + suffix)) == Some(-(m as int))
  {
    var u := DecimalText(m) + suffix;
    MagnitudeOfDecimalText(m, suffix);
    ParseIntMinus(u, m);
  }

  /** A number written by a template literal and followed by a word, as in
      "200 Level" or "2024 Session", reads back as that number. */
  lemma NumberTextRoundTrip(n: int, suffix: string)
    requires suffix == [] || (DigitValue(suffix[0], 10).None? && suffix[0] != 'x' && suffix[0] != 'X')
    ensures ParseInt(NumberText(Some(n)) + suffix) == Some(n)
  {
    if n < 0 {
      var m: nat := -n;
      NegativeText(n, m, suffix);
      ParseNegativeDecimal(m, suffix);
    } else {
      var d := DecimalText(n);
      MagnitudeOfDecimalText(n, suffix);
      assert NumberText(Some(n)) == d;
      assert DigitValue(d[0], 10).Some?;
      ParseIntUnsigned(d + suffix, n);
    }
  }

  /** NaN text does not parse, so NaN survives every later step. */
  lemma NaNTextIsNaN(suffix: string)
    ensures ParseInt(NumberText(None) + suffix) == None
  {
    var s := NumberText(None) + suffix;
    assert s[0] == 'N';
    TrimStartKeeps(s);
  }
}
