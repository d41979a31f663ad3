/** Integer/text conversions of the JavaScript runtime: the decimal form that
    `${n}` and `n.toString()` give an integer, and the global `parseInt` with no
    radix argument. */
module Numerals {
  import opened Wrappers
  import opened Text

  predicate IsDecimalDigit(c: char) { '0' <= c <= '9' }

  function DigitChar(d: nat): (c: char)
    requires d < 10
    ensures IsDecimalDigit(c)
  {
    ('0' as int + d) as char
  }

  /** Decimal form of a non-negative integer: digits only, no leading zero. */
  function NatToDecimal(n: nat): (s: string)
    ensures |s| > 0
    ensures forall i :: 0 <= i < |s| ==> IsDecimalDigit(s[i])
    ensures s[0] == '0' ==> n == 0 && |s| == 1
    decreases n
  {
    if n < 10 then [DigitChar(n)] else NatToDecimal(n / 10) + [DigitChar(n % 10)]
  }

  /** `${n}` for an integer `n`: a minus sign for negatives, then the digits,
      with no leading zero unless the number is 0. */
  function IntToDecimal(n: int): (s: string)
    ensures |s| > 0
    ensures forall i :: 0 <= i < |s| ==> IsDecimalDigit(s[i]) || s[i] == '-'
    ensures s[0] == '-' <==> n < 0
    ensures var d := if n < 0 then s[1..] else s;
      && |d| > 0
      && (forall i :: 0 <= i < |d| ==> IsDecimalDigit(d[i]))
      && (d[0] == '0' ==> n == 0 && |d| == 1)
  {
    if n < 0 then "-" + NatToDecimal(-n) else NatToDecimal(n)
  }

  /** The value of a character as a digit in radix up to 36, or -1 if it is none. */
  function DigitValue(c: char): (d: int)
    ensures -1 <= d < 36
    ensures IsDecimalDigit(c) ==> d == c as int - '0' as int
  {
    if '0' <= c <= '9' then c as int - '0' as int
    else if 'a' <= c <= 'z' then c as int - 'a' as int + 10
    else if 'A' <= c <= 'Z' then c as int - 'A' as int + 10
    else -1
  }

  predicate IsRadixDigit(c: char, radix: nat) {
    0 <= DigitValue(c) < radix
  }

  /** The length of the longest prefix of `s` made of digits in `radix`. */
  function DigitPrefixLength(s: string, radix: nat): (k: nat)
    ensures k <= |s|
    ensures forall i :: 0 <= i < k ==> IsRadixDigit(s[i], radix)
    ensures k < |s| ==> !IsRadixDigit(s[k], radix)
  {
    if |s| == 0 || !IsRadixDigit(s[0], radix) then 0
    else 1 + DigitPrefixLength(s[1..], radix)
  }

  /** The number that a string of digits in `radix` denotes. */
  function DigitsValue(s: string, radix: nat): int
    requires forall i :: 0 <= i < |s| ==> IsRadixDigit(s[i], radix)
  {
    if |s| == 0 then 0
    else
      assert IsRadixDigit(s[|s| - 1], radix);
      DigitsValue(s[..|s| - 1], radix) * radix + DigitValue(s[|s| - 1])
  }

  /** `parseInt(s)`: skip leading whitespace, take an optional sign, read a
      `0x`/`0X` prefix as radix 16 (radix 10 otherwise), and convert the longest
      run of digits that follows; with no digit at all the result is `NaN`
      (`None`). For a `0x` prefix only the `NaN` condition is stated; the
      hexadecimal value is computed but no lemma states it (the
      decimal value is stated by `ParseIntOfDigitRun`). */
  function ParseInt(s: string): (r: Option<int>)
    ensures r.None? <==> var t := TrimStart(s);
      var u := if |t| > 0 && (t[0] == '-' || t[0] == '+') then t[1..] else t;
      var hex := |u| >= 2 && u[0] == '0' && (u[1] == 'x' || u[1] == 'X');
      (if hex then |u| == 2 || !IsRadixDigit(u[2], 16) else |u| == 0 || !IsRadixDigit(u[0], 10))
  {
    ParseSigned(TrimStart(s))
  }

  /** `parseInt` once the leading whitespace is gone: the sign, then the digits. */
  function ParseSigned(t: string): (r: Option<int>)
    ensures r.None? <==> ParseUnsigned(if |t| > 0 && (t[0] == '-' || t[0] == '+') then t[1..] else t).None?
  {
    var negative := |t| > 0 && t[0] == '-';
    var u := if |t| > 0 && (t[0] == '-' || t[0] == '+') then t[1..] else t;
    match ParseUnsigned(u)
    case None => None
    case Some(m) => Some(if negative then -m else m)
  }

  /** `parseInt` after the sign: an optional `0x`/`0X` prefix, then the longest
      run of digits. For a `0x` prefix only the `None` condition is stated;
      the decimal value is stated by `ParseUnsignedOfDigitRun`. */
  function ParseUnsigned(u: string): (r: Option<int>)
    ensures r.None? <==> var hex := |u| >= 2 && u[0] == '0' && (u[1] == 'x' || u[1] == 'X');
      (if hex then |u| == 2 || !IsRadixDigit(u[2], 16) else |u| == 0 || !IsRadixDigit(u[0], 10))
  {
    var hex := |u| >= 2 && u[0] == '0' && (u[1] == 'x' || u[1] == 'X');
    var radix := if hex then 16 else 10;
    var digits := if hex then u[2..] else u;
    var k := DigitPrefixLength(digits, radix);
    assert k == 0 <==> |digits| == 0 || !IsRadixDigit(digits[0], radix);
    if k == 0 then None
    else Some(DigitsValue(digits[..k], radix))
  }

  lemma {:induction false} DigitsValueOfDecimal(n: nat)
    ensures forall i :: 0 <= i < |NatToDecimal(n)| ==> IsRadixDigit(NatToDecimal(n)[i], 10)
    ensures DigitsValue(NatToDecimal(n), 10) == n
    decreases n
  {
    var s := NatToDecimal(n);
    if n >= 10 {
      DigitsValueOfDecimal(n / 10);
      assert s[..|s| - 1] == NatToDecimal(n / 10);
    }
  }

  lemma {:induction false} DigitPrefixOfAllDigits(s: string, radix: nat)
    requires forall i :: 0 <= i < |s| ==> IsRadixDigit(s[i], radix)
    ensures DigitPrefixLength(s, radix) == |s|
  {
    if |s| > 0 {
      DigitPrefixOfAllDigits(s[1..], radix);
    }
  }

  /** Reading back the decimal form of an integer with `parseInt` gives the integer. */
  lemma ParseIntOfDecimal(n: int)
    ensures ParseInt(IntToDecimal(n)) == Some(n)
  {
    var s := IntToDecimal(n);
    var m: nat := if n < 0 then -n else n;
    var d := NatToDecimal(m);
    LeadingWsCountExact(s, 0);
    assert TrimStart(s) == s;
    var u := if s[0] == '-' then s[1..] else s;
    assert u == d;
    DigitsValueOfDecimal(m);
    DigitPrefixOfAllDigits(d, 10);
    assert d[..|d|] == d;
  }

  /** A decimal digit is a digit in radix 10, and no other character is. */
  lemma RadixTenDigit(c: char)
    ensures IsRadixDigit(c, 10) <==> IsDecimalDigit(c)
  {
  }

  /** Every decimal digit of a string is a digit in radix 10. */
  lemma DecimalDigitsAreRadixTen(d: string)
    requires forall i :: 0 <= i < |d| ==> IsDecimalDigit(d[i])
    ensures forall i :: 0 <= i < |d| ==> IsRadixDigit(d[i], 10)
  {
    forall i | 0 <= i < |d| ensures IsRadixDigit(d[i], 10) {
      RadixTenDigit(d[i]);
    }
  }

  /** The digit prefix ends exactly where the first non-digit stands. */
  lemma {:induction false} DigitPrefixExact(s: string, k: nat, radix: nat)
    requires k <= |s|
    requires forall i :: 0 <= i < k ==> IsRadixDigit(s[i], radix)
    requires k == |s| || !IsRadixDigit(s[k], radix)
    ensures DigitPrefixLength(s, radix) == k
  {
    if k > 0 {
      var tail := s[1..];
      assert forall i :: 0 <= i < k - 1 ==> tail[i] == s[i + 1];
      DigitPrefixExact(tail, k - 1, radix);
    }
  }

  /** Without a `0x` prefix, `parseInt` after the sign reads the leading decimal
      digits. */
  lemma DecimalReading(u: string, k: nat)
    requires !(|u| >= 2 && u[0] == '0' && (u[1] == 'x' || u[1] == 'X'))
    requires 0 < k <= |u|
    requires forall i :: 0 <= i < k ==> IsRadixDigit(u[i], 10)
    requires k == |u| || !IsRadixDigit(u[k], 10)
    ensures ParseUnsigned(u) == Some(DigitsValue(u[..k], 10))
  {
    DigitPrefixExact(u, k, 10);
  }

  /** A run of decimal digits not followed by another digit reads as its value. */
  lemma ParseUnsignedOfDigitRun(d: string, rest: string)
    requires |d| > 0 && forall i :: 0 <= i < |d| ==> IsDecimalDigit(d[i])
    requires |rest| == 0 || !IsDecimalDigit(rest[0])
    requires !(d == "0" && |rest| > 0 && (rest[0] == 'x' || rest[0] == 'X'))
    ensures forall i :: 0 <= i < |d| ==> IsRadixDigit(d[i], 10)
    ensures ParseUnsigned(d + rest) == Some(DigitsValue(d, 10))
  {
    DecimalDigitsAreRadixTen(d);
    var u := d + rest;
    assert u[..|d|] == d;
    assert !(|u| >= 2 && u[0] == '0' && (u[1] == 'x' || u[1] == 'X')) by {
      if |d| == 1 && |rest| > 0 {
        assert d == [d[0]] && u[1] == rest[0];
      } else if |d| >= 2 {
        assert u[1] == d[1];
      }
    }
    if |rest| > 0 {
      RadixTenDigit(rest[0]);
      assert u[|d|] == rest[0];
    }
    DecimalReading(u, |d|);
  }

  /** The number a sign gives to the value `m` of the digits after it. */
  function ApplySign(sign: string, m: int): int {
    if sign == "-" then -m else m
  }

  /** A sign in front of a digit is read as the sign of the number. */
  lemma ParseSignedOfDigits(sign: string, u: string, m: int)
    requires sign == "" || sign == "-" || sign == "+"
    requires |u| > 0 && IsDecimalDigit(u[0]) && ParseUnsigned(u) == Some(m)
    ensures |sign + u| > 0 && !IsWs((sign + u)[0])
    ensures ParseSigned(sign + u) == Some(ApplySign(sign, m))
  {
    if sign == "" {
      assert sign + u == u;
      ParseSignedOfUnsigned(u);
    } else {
      ParseSignedAfterSign(sign[0], u, m);
      assert sign == [sign[0]];
    }
  }

  lemma ParseSignedOfUnsigned(u: string)
    requires |u| > 0 && IsDecimalDigit(u[0])
    ensures !IsWs(u[0])
    ensures ParseSigned(u) == ParseUnsigned(u)
  {
  }

  lemma ParseSignedAfterSign(c: char, u: string, m: int)
    requires c == '-' || c == '+'
    requires ParseUnsigned(u) == Some(m)
    ensures !IsWs(([c] + u)[0])
    ensures ParseSigned([c] + u) == Some(if c == '-' then -m else m)
  {
    assert ([c] + u)[1..] == u;
  }

  /** Whitespace in front of text that starts with something else is skipped. */
  lemma TrimStartAfterWs(ws: string, t: string)
    requires AllWs(ws) && |t| > 0 && !IsWs(t[0])
    ensures TrimStart(ws + t) == t
  {
    var s := ws + t;
    assert s[..|ws|] == ws && s[|ws|] == t[0];
    LeadingWsCountExact(s, |ws|);
    assert s[|ws|..] == t;
  }

  /** Leading whitespace does not change what `parseInt` reads. */
  lemma ParseIntSkipsWs(ws: string, t: string)
    requires AllWs(ws) && |t| > 0 && !IsWs(t[0])
    ensures ParseInt(ws + t) == ParseSigned(t)
  {
    TrimStartAfterWs(ws, t);
  }

  lemma RegroupFour(a: string, b: string, c: string, e: string)
    ensures a + b + c + e == a + (b + (c + e))
  {
  }

  /** A sign and a run of decimal digits give the signed value of the run. */
  lemma ParseSignedOfDigitRun(sign: string, d: string, rest: string)
    requires sign == "" || sign == "-" || sign == "+"
    requires |d| > 0 && forall i :: 0 <= i < |d| ==> IsDecimalDigit(d[i])
    requires |rest| == 0 || !IsDecimalDigit(rest[0])
    requires !(d == "0" && |rest| > 0 && (rest[0] == 'x' || rest[0] == 'X'))
    ensures forall i :: 0 <= i < |d| ==> IsRadixDigit(d[i], 10)
    ensures |sign + (d + rest)| > 0 && !IsWs((sign + (d + rest))[0])
    ensures ParseSigned(sign + (d + rest))
      == Some(ApplySign(sign, DigitsValue(d, 10)))
  {
    ParseUnsignedOfDigitRun(d, rest);
    var u := d + rest;
    var m := DigitsValue(d, 10);
    assert IsDecimalDigit(u[0]);
    ParseSignedOfDigits(sign, u, m);
  }

  /** `parseInt` of whitespace, an optional sign, a run of decimal digits and any
      text that does not go on with a digit reads the run and ignores the rest.
      A lone "0" followed by 'x' or 'X' is the start of a hexadecimal number
      instead, so it is excluded. */
  lemma ParseIntOfDigitRun(ws: string, sign: string, d: string, rest: string)
    requires AllWs(ws)
    requires sign == "" || sign == "-" || sign == "+"
    requires |d| > 0 && forall i :: 0 <= i < |d| ==> IsDecimalDigit(d[i])
    requires |rest| == 0 || !IsDecimalDigit(rest[0])
    requires !(d == "0" && |rest| > 0 && (rest[0] == 'x' || rest[0] == 'X'))
    ensures forall i :: 0 <= i < |d| ==> IsRadixDigit(d[i], 10)
    ensures ParseInt(ws + sign + d + rest)
      == Some(ApplySign(sign, DigitsValue(d, 10)))
  {
    ParseSignedOfDigitRun(sign, d, rest);
    ParseIntSkipsWs(ws, sign + (d + rest));
    RegroupFour(ws, sign, d, rest);
  }

  /** "12.5" reads as 12: the fraction is ignored. */
  lemma ParseIntStopsAtPoint()
    ensures ParseInt("12.5") == Some(12)
  {
    SplitPoint();
    ParseIntOfDigitRun("", "", "12", ".5");
  }

  /** "1e3" reads as 1: the exponent is ignored. */
  lemma ParseIntStopsAtExponent()
    ensures ParseInt("1e3") == Some(1)
  {
    SplitExponent();
    ParseIntOfDigitRun("", "", "1", "e3");
  }

  /** "007" reads as 7: leading zeros are no octal prefix. */
  lemma ParseIntLeadingZeros()
    ensures ParseInt("007") == Some(7)
  {
    SplitLeadingZeros();
    ParseIntOfDigitRun("", "", "007", "");
  }

  // The examples' strings cut into whitespace, sign, digits and the rest, kept
  // apart so that the proofs above never unroll the literals.

  lemma SplitPoint()
    ensures "" + "" + "12" + ".5" == "12.5"
  {
  }

  lemma SplitExponent()
    ensures "" + "" + "1" + "e3" == "1e3"
  {
  }

  lemma SplitLeadingZeros()
    ensures "" + "" + "007" + "" == "007"
    ensures DigitsValue("007", 10) == 7
  {
    assert DigitsValue("0", 10) == 0;
    assert DigitsValue("00", 10) == 0;
  }
}
