/**
 * The JavaScript conversions between integers and their text that the
 * proposal code relies on: `parseInt(s)` (no radix), `BigInt(s)` and
 * `n.toString()` for an integer `n`. Integers are unbounded here; the
 * precision a JavaScript number loses above 2^53 is not modelled.
 */
module JsNumbers {
  import opened Optional

  /** ECMAScript WhiteSpace and LineTerminator characters: what `parseInt` skips and `BigInt` trims. */
  predicate IsWhiteSpace(c: char)
  {
    || ('\t' <= c <= '\r')
    || c == ' ' || c == '\U{A0}' || c == '\U{1680}'
    || ('\U{2000}' <= c <= '\U{200A}')
    || c == '\U{2028}' || c == '\U{2029}' || c == '\U{202F}' || c == '\U{205F}'
    || c == '\U{3000}' || c == '\U{FEFF}'
  }

  /** `s` with its leading white space removed. */
  function TrimStart(s: string): (t: string)
    ensures |t| <= |s| && t == s[|s| - |t|..]
    ensures forall i :: 0 <= i < |s| - |t| ==> IsWhiteSpace(s[i])
    ensures |t| > 0 ==> !IsWhiteSpace(t[0])
  {
    if |s| > 0 && IsWhiteSpace(s[0]) then TrimStart(s[1..]) else s
  }

  /** Text that does not start with white space is left as it is. */
  lemma TrimStartNoWhiteSpace(s: string)
    requires |s| > 0 && !IsWhiteSpace(s[0])
    ensures TrimStart(s) == s
  {
  }

  /** `s` with its trailing white space removed. */
  function TrimEnd(s: string): (t: string)
    ensures |t| <= |s| && t == s[..|t|]
    ensures forall i :: |t| <= i < |s| ==> IsWhiteSpace(s[i])
    ensures |t| > 0 ==> !IsWhiteSpace(t[|t| - 1])
  {
    if |s| > 0 && IsWhiteSpace(s[|s| - 1]) then TrimEnd(s[..|s| - 1]) else s
  }

  predicate IsHexDigit(c: char)
  {
    '0' <= c <= '9' || 'a' <= c <= 'f' || 'A' <= c <= 'F'
  }

  /** The value of a hexadecimal digit of either case; decimal digits are exactly those below ten. */
  function DigitValue(c: char): (v: nat)
    requires IsHexDigit(c)
    ensures v < 16
    ensures '0' <= c <= '9' <==> v < 10
  {
    if '0' <= c <= '9' then c as int - '0' as int
    else if 'a' <= c <= 'f' then c as int - 'a' as int + 10
    else c as int - 'A' as int + 10
  }

  /** `c` is a digit in base `radix` (2, 8, 10 or 16 in this model). */
  predicate IsRadixDigit(c: char, radix: nat)
  {
    IsHexDigit(c) && DigitValue(c) < radix
  }

  predicate AllRadixDigits(s: string, radix: nat)
  {
    forall i :: 0 <= i < |s| ==> IsRadixDigit(s[i], radix)
  }

  /** The longest prefix of `s` made of digits in base `radix`. */
  function DigitPrefix(s: string, radix: nat): (z: string)
    ensures z <= s
    ensures AllRadixDigits(z, radix)
    ensures |z| < |s| ==> !IsRadixDigit(s[|z|], radix)
  {
    if |s| > 0 && IsRadixDigit(s[0], radix) then [s[0]] + DigitPrefix(s[1..], radix) else ""
  }

  /** The number a string of digits denotes in base `radix`, most significant digit first. */
  function DigitsValue(z: string, radix: nat): nat
    requires AllRadixDigits(z, radix)
  {
    if |z| == 0 then 0 else DigitsValue(z[..|z| - 1], radix) * radix + DigitValue(z[|z| - 1])
  }

  /**
   * `parseInt(s)` with no radix argument; `None` stands for NaN. Leading white
   * space is skipped, one sign is read, a `0x`/`0X` prefix switches to base 16,
   * and the longest run of digits that follows is read; anything after it is
   * ignored. No digits at all gives NaN.
   */
  function ParseInt(s: string): (r: Option<int>)
    ensures r.Some? ==> var t := TrimStart(s);
      |t| > 0 && (IsRadixDigit(t[0], 10) || ((t[0] == '-' || t[0] == '+') && |t| > 1 && IsRadixDigit(t[1], 10)))
    ensures r.Some? && r.value < 0 ==> TrimStart(s)[0] == '-'
  {
    ParseSigned(TrimStart(s))
  }

  /** `parseInt` after the white space: one optional sign, then the unsigned part. */
  function ParseSigned(t: string): (r: Option<int>)
    ensures r.Some? ==>
      |t| > 0 && (IsRadixDigit(t[0], 10) || ((t[0] == '-' || t[0] == '+') && |t| > 1 && IsRadixDigit(t[1], 10)))
    ensures r.Some? && r.value < 0 ==> t[0] == '-'
  {
    if |t| > 0 && t[0] == '-' then
      match ParseUnsigned(t[1..])
      case Some(v) => Some(-v)
      case None => None
    else if |t| > 0 && t[0] == '+' then ParseUnsigned(t[1..])
    else ParseUnsigned(t)
  }

  /** `parseInt` after the sign: a `0x`/`0X` prefix selects base 16, then the longest digit run is read. */
  function ParseUnsigned(u: string): (r: Option<int>)
    ensures r.Some? ==> |u| > 0 && IsRadixDigit(u[0], 10) && r.value >= 0
  {
    var hex := |u| >= 2 && u[0] == '0' && (u[1] == 'x' || u[1] == 'X');
    var radix := if hex then 16 else 10;
    var z := DigitPrefix(if hex then u[2..] else u, radix);
    if |z| == 0 then None else Some(DigitsValue(z, radix))
  }

  /** The base a `BigInt` literal prefix (`0x`, `0o`, `0b`, either case) selects, or 0 for none. */
  function PrefixRadix(c: char): nat
  {
    if c == 'x' || c == 'X' then 16
    else if c == 'o' || c == 'O' then 8
    else if c == 'b' || c == 'B' then 2
    else 0
  }

  /**
   * `BigInt(s)` for a string `s`; `None` stands for the SyntaxError it throws.
   * The text is trimmed at both ends; what is left must be empty (giving 0),
   * a decimal integer with an optional sign, or an unsigned `0x`/`0o`/`0b`
   * literal; nothing may follow the digits.
   */
  function ParseBigInt(s: string): (r: Option<int>)
    ensures TrimStart(TrimEnd(s)) == "" ==> r == Some(0)
    ensures r.Some? && TrimStart(TrimEnd(s)) != "" ==> var t := TrimStart(TrimEnd(s)); IsRadixDigit(t[|t| - 1], 16)
    ensures r.Some? && r.value < 0 ==> TrimStart(TrimEnd(s))[0] == '-'
  {
    ParseBigIntLiteral(TrimStart(TrimEnd(s)))
  }

  /** `BigInt` on text already trimmed: empty, a prefixed literal, or a signed decimal integer. */
  function ParseBigIntLiteral(t: string): (r: Option<int>)
    ensures t == "" ==> r == Some(0)
    ensures r.Some? && t != "" ==> IsRadixDigit(t[|t| - 1], 16)
    ensures r.Some? && r.value < 0 ==> t[0] == '-'
  {
    if t == "" then Some(0)
    else if |t| >= 2 && t[0] == '0' && PrefixRadix(t[1]) != 0 then
      var radix := PrefixRadix(t[1]);
      var ds := t[2..];
      if |ds| > 0 && AllRadixDigits(ds, radix) then Some(DigitsValue(ds, radix)) else None
    else
      var negative := t[0] == '-';
      var ds := if t[0] == '-' || t[0] == '+' then t[1..] else t;
      if |ds| > 0 && AllRadixDigits(ds, 10) then
        var v: int := DigitsValue(ds, 10);
        Some(if negative then -v else v)
      else None
  }

  /** The decimal digit character for `d`. */
  function DecimalDigit(d: nat): (c: char)
    requires d < 10
    ensures IsRadixDigit(c, 10) && DigitValue(c) == d
  {
    ('0' as int + d) as char
  }

  /** The decimal text of `n`: at least one digit, only digits, denoting `n`, and no leading zero. */
  function NatToString(n: nat): (s: string)
    ensures |s| >= 1 && AllRadixDigits(s, 10)
    ensures DigitsValue(s, 10) == n
    ensures n == 0 || s[0] != '0'
  {
    if n < 10 then [DecimalDigit(n)]
    else
      var s := NatToString(n / 10) + [DecimalDigit(n % 10)];
      assert s[..|s| - 1] == NatToString(n / 10);
      s
  }

  /** `n.toString()` for an integer `n`: a minus sign for negatives, then the decimal digits. */
  function IntToString(n: int): (s: string)
    ensures |s| >= 1 && (s[0] == '-' <==> n < 0)
    ensures var digits := if n < 0 then s[1..] else s;
      |digits| >= 1 && AllRadixDigits(digits, 10) && DigitsValue(digits, 10) == (if n < 0 then -n else n)
    ensures var digits := if n < 0 then s[1..] else s;
      n == 0 || digits[0] != '0'
  {
    if n < 0 then "-" + NatToString(-n) else NatToString(n)
  }

  /** A string that is all digits is its own longest digit prefix. */
  lemma {:induction false} DigitPrefixOfDigits(s: string, radix: nat)
    requires AllRadixDigits(s, radix)
    ensures DigitPrefix(s, radix) == s
  {
    if s != "" {
      DigitPrefixOfDigits(s[1..], radix);
    }
  }

  /** An unsigned run of decimal digits is read whole, in base 10. */
  lemma ParseUnsignedOfDigits(s: string)
    requires |s| >= 1 && AllRadixDigits(s, 10)
    ensures ParseUnsigned(s) == Some(DigitsValue(s, 10))
  {
    if |s| >= 2 {
      assert IsRadixDigit(s[1], 10);
      assert s[1] != 'x' && s[1] != 'X';
    }
    DigitPrefixOfDigits(s, 10);
  }

  /** `parseInt` reads back what `toString` wrote, for every integer. */
  lemma ParseIntOfIntToString(n: int)
    ensures ParseInt(IntToString(n)) == Some(n)
  {
    if n < 0 {
      ParseIntOfNegative(-n);
    } else {
      ParseIntOfNatToString(n);
    }
  }

  /** `parseInt` reads the decimal text of a natural number. */
  lemma ParseIntOfNatToString(m: nat)
    ensures ParseInt(NatToString(m)) == Some(m as int)
  {
    var t := NatToString(m);
    assert IsRadixDigit(t[0], 10);
    TrimStartNoWhiteSpace(t);
    ParseSignedOfNatToString(m);
  }

  /** `parseInt` reads a minus sign and the decimal text of a number as its negation. */
  lemma ParseIntOfNegative(m: nat)
    ensures ParseInt("-" + NatToString(m)) == Some(-(m as int))
  {
    var t := "-" + NatToString(m);
    assert t[0] == '-';
    TrimStartNoWhiteSpace(t);
    ParseSignedOfNegative(m);
  }

  /** The decimal text of a natural number is read whole, with no sign. */
  lemma ParseSignedOfNatToString(m: nat)
    ensures ParseSigned(NatToString(m)) == Some(m as int)
  {
    var t := NatToString(m);
    assert IsRadixDigit(t[0], 10);
    ParseUnsignedOfDigits(t);
  }

  /** A minus sign followed by the decimal text of a number reads as its negation. */
  lemma ParseSignedOfNegative(m: nat)
    ensures ParseSigned("-" + NatToString(m)) == Some(-(m as int))
  {
    var t := "-" + NatToString(m);
    assert t[1..] == NatToString(m);
    ParseUnsignedOfDigits(NatToString(m));
  }

  /** `toString` writes no white space at either end, so trimming leaves its text as it is. */
  lemma IntToStringIsTrimmed(n: int)
    ensures TrimStart(TrimEnd(IntToString(n))) == IntToString(n)
  {
    var s := IntToString(n);
    assert !IsWhiteSpace(s[|s| - 1]);
    assert TrimEnd(s) == s;
    assert !IsWhiteSpace(s[0]);
  }

  /** `BigInt` reads back what `toString` wrote, for every integer. */
  lemma ParseBigIntOfIntToString(n: int)
    ensures ParseBigInt(IntToString(n)) == Some(n)
  {
    IntToStringIsTrimmed(n);
    if n < 0 {
      ParseBigIntOfNegative(-n);
    } else {
      ParseBigIntOfNatToString(n);
    }
  }

  /** `BigInt` reads back what `toString` wrote, stated for all integers at once. */
  lemma ParseBigIntOfEveryIntToString()
    ensures forall n: int :: ParseBigInt(IntToString(n)) == Some(n)
  {
    forall n: int
      ensures ParseBigInt(IntToString(n)) == Some(n)
    {
      ParseBigIntOfIntToString(n);
    }
  }

  /** The decimal text of a natural number is read by the decimal branch of `BigInt`, not as a prefixed literal. */
  lemma ParseBigIntOfNatToString(m: nat)
    ensures ParseBigIntLiteral(NatToString(m)) == Some(m as int)
  {
    var t := NatToString(m);
    if |t| >= 2 {
      assert IsRadixDigit(t[1], 10);
      assert PrefixRadix(t[1]) == 0;
    }
    assert IsRadixDigit(t[0], 10);
  }

  /** A minus sign followed by the decimal text of a positive number reads as its negation. */
  lemma ParseBigIntOfNegative(m: nat)
    requires m > 0
    ensures ParseBigIntLiteral("-" + NatToString(m)) == Some(-(m as int))
  {
    var t := "-" + NatToString(m);
    assert t[1..] == NatToString(m);
  }

  /** Text that starts with neither white space nor a sign is read by the unsigned part directly. */
  lemma ParseIntOfUnsigned(s: string)
    requires |s| > 0 && !IsWhiteSpace(s[0]) && s[0] != '-' && s[0] != '+'
    ensures ParseInt(s) == ParseUnsigned(s)
  {
    TrimStartNoWhiteSpace(s);
  }

  /** The digit run ends where the first non-digit begins. */
  lemma {:induction false} DigitPrefixStops(ds: string, rest: string, radix: nat)
    requires AllRadixDigits(ds, radix)
    requires rest == "" || !IsRadixDigit(rest[0], radix)
    ensures DigitPrefix(ds + rest, radix) == ds
  {
    if ds != [] {
      assert (ds + rest)[1..] == ds[1..] + rest;
      DigitPrefixStops(ds[1..], rest, radix);
    }
  }

  /** Leading white space is skipped one character at a time. */
  lemma ParseIntSkipsWhiteSpace(c: char, s: string)
    requires IsWhiteSpace(c)
    ensures ParseInt([c] + s) == ParseInt(s)
  {
    assert ([c] + s)[1..] == s;
  }

  /** `parseInt` stops at the first character that is not a digit. */
  lemma ParseIntStopsAtNonDigit()
    ensures ParseInt("12abc") == Some(12)
  {
    ParseIntOfUnsigned("12abc");
    assert "12abc" == "12" + "abc";
    DigitPrefixStops("12", "abc", 10);
    assert "12"[..1] == "1";
    assert DigitsValue("1", 10) == 1;
  }

  /** `parseInt` skips leading white space and reads a sign. */
  lemma ParseIntSkipsSpaceAndSign()
    ensures ParseInt(" -7") == Some(-7)
  {
    assert IntToString(-7) == "-7";
    assert " -7" == [' '] + IntToString(-7);
    ParseIntSkipsWhiteSpace(' ', IntToString(-7));
    ParseIntOfIntToString(-7);
  }

  /** A `0x` prefix makes `parseInt` read hexadecimal. */
  lemma ParseIntReadsHexPrefix()
    ensures ParseInt("0x1f") == Some(31)
  {
    ParseIntOfUnsigned("0x1f");
    assert "0x1f"[2..] == "1f" + "";
    DigitPrefixStops("1f", "", 16);
    assert "1f"[..1] == "1";
    assert DigitsValue("1", 16) == 1;
  }

  /** Text without leading digits, and the empty string, parse to NaN. */
  lemma ParseIntNaN()
    ensures ParseInt("abc") == None
    ensures ParseInt("") == None
  {
    TrimStartNoWhiteSpace("abc");
    assert !IsRadixDigit("abc"[0], 10);
    assert TrimStart("") == "";
  }
}
