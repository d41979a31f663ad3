/** String primitives of the JavaScript runtime that the modelled code relies on:
    the whitespace class shared by `String.prototype.trim` and the regular-expression
    escape `\s`, trimming, ASCII case folding and `String.prototype.includes`. */
module Text {

  /** ECMAScript WhiteSpace and LineTerminator code points: what `trim` strips and
      what `\s` matches. */
  predicate IsWs(c: char) {
    var u := c as int;
    u == 0x09 || u == 0x0A || u == 0x0B || u == 0x0C || u == 0x0D || u == 0x20
    || u == 0xA0 || u == 0x1680 || (0x2000 <= u <= 0x200A) || u == 0x2028
    || u == 0x2029 || u == 0x202F || u == 0x205F || u == 0x3000 || u == 0xFEFF
  }

  predicate AllWs(s: string) {
    forall i :: 0 <= i < |s| ==> IsWs(s[i])
  }

  /** A string is blank when `s.trim().length` would be 0. */
  predicate IsBlank(s: string) {
    AllWs(s)
  }

  /** The length of the run of whitespace that starts `s`. */
  function LeadingWsCount(s: string): (k: nat)
    ensures k <= |s| && AllWs(s[..k])
    ensures k < |s| ==> !IsWs(s[k])
  {
    if |s| == 0 || !IsWs(s[0]) then 0
    else
      var k := 1 + LeadingWsCount(s[1..]);
      assert s[..k] == [s[0]] + s[1..][..k - 1];
      k
  }

  /** The length of the run of whitespace that ends `s`. */
  function TrailingWsCount(s: string): (k: nat)
    ensures k <= |s| && AllWs(s[|s| - k..])
    ensures k < |s| ==> !IsWs(s[|s| - k - 1])
  {
    if |s| == 0 || !IsWs(s[|s| - 1]) then 0
    else
      var j := TrailingWsCount(s[..|s| - 1]);
      WsRunExtends(s, j);
      j + 1
  }

  lemma WsRunExtends(s: string, j: nat)
    requires j < |s| && IsWs(s[|s| - 1])
    requires AllWs(s[..|s| - 1][|s| - 1 - j..])
    requires j < |s| - 1 ==> !IsWs(s[..|s| - 1][|s| - 2 - j])
    ensures AllWs(s[|s| - j - 1..])
    ensures j + 1 < |s| ==> !IsWs(s[|s| - j - 2])
  {
    assert s[|s| - j - 1..] == s[..|s| - 1][|s| - 1 - j..] + [s[|s| - 1]];
  }

  lemma {:induction false} LeadingWsCountExact(s: string, j: nat)
    requires j <= |s| && AllWs(s[..j])
    requires j < |s| ==> !IsWs(s[j])
    ensures LeadingWsCount(s) == j
  {
    if j > 0 {
      assert IsWs(s[..j][0]);
      assert s[1..][..j - 1] == s[..j][1..];
      LeadingWsCountExact(s[1..], j - 1);
    }
  }

  /** `String.prototype.trimStart`. */
  function TrimStart(s: string): (r: string)
    ensures |r| <= |s| && r == s[|s| - |r|..]
    ensures AllWs(s[..|s| - |r|])
    ensures |r| > 0 ==> !IsWs(r[0])
  {
    s[LeadingWsCount(s)..]
  }

  /** `String.prototype.trimEnd`. */
  function TrimEnd(s: string): (r: string)
    ensures |r| <= |s| && r == s[..|r|]
    ensures AllWs(s[|r|..])
    ensures |r| > 0 ==> !IsWs(r[|r| - 1])
  {
    s[..|s| - TrailingWsCount(s)]
  }

  /** `String.prototype.trim`: the result is a slice of `s`, everything cut off is
      whitespace, the result neither starts nor ends with whitespace, and it is
      empty exactly when `s` is blank. */
  function Trim(s: string): (r: string)
    ensures |r| <= |s|
    ensures |r| > 0 ==> !IsWs(r[0]) && !IsWs(r[|r| - 1])
    ensures |r| == 0 <==> IsBlank(s)
  {
    TrimIsSlice(s);
    TrimEnd(TrimStart(s))
  }

  /** What `trim` keeps is a slice of its input with only whitespace around it. */
  lemma TrimRemovesOnlyWs(s: string)
    ensures exists i :: (0 <= i <= |s| - |Trim(s)| && s[i..i + |Trim(s)|] == Trim(s)
                         && AllWs(s[..i]) && AllWs(s[i + |Trim(s)|..]))
  {
    TrimAt(s);
  }

  /** The slice `trim` keeps starts where `trimStart` cuts. */
  lemma TrimAt(s: string)
    ensures var i := |s| - |TrimStart(s)|;
      0 <= i <= |s| - |Trim(s)| && s[i..i + |Trim(s)|] == Trim(s)
      && AllWs(s[..i]) && AllWs(s[i + |Trim(s)|..])
  {
    TrimIsSlice(s);
  }

  lemma TrimIsSlice(s: string)
    ensures var r := TrimEnd(TrimStart(s)); var i := |s| - |TrimStart(s)|;
      0 <= i <= |s| - |r| && s[i..i + |r|] == r && AllWs(s[..i]) && AllWs(s[i + |r|..])
      && (|r| == 0 <==> IsBlank(s))
  {
    var t := TrimStart(s);
    var r := TrimEnd(t);
    var i := |s| - |t|;
    assert s[i..i + |r|] == r;
    assert s[i + |r|..] == t[|r|..];
    if |r| == 0 {
      assert AllWs(t) by { assert t[|r|..] == t; }
      assert s[..i] == s;
    } else {
      assert s[i] == r[0];
    }
  }

  /** Trimming is idempotent: a string that neither starts nor ends with
      whitespace is its own trim. */
  lemma TrimOfTrimmed(s: string)
    requires |s| > 0 ==> !IsWs(s[0]) && !IsWs(s[|s| - 1])
    ensures Trim(s) == s
  {
    LeadingWsCountExact(s, 0);
    assert TrimStart(s) == s;
    if |s| > 0 {
      assert TrailingWsCount(s) == 0;
    }
    assert TrimEnd(s) == s;
  }

  predicate IsAsciiUpper(c: char) { 'A' <= c <= 'Z' }
  predicate IsAsciiLower(c: char) { 'a' <= c <= 'z' }
  predicate IsAsciiLetter(c: char) { IsAsciiUpper(c) || IsAsciiLower(c) }

  /** Lower-cases an ASCII letter and leaves every other character alone. */
  function LowerChar(c: char): (d: char)
    ensures !IsAsciiUpper(d)
    ensures IsAsciiLetter(c) <==> IsAsciiLetter(d)
    ensures !IsAsciiLetter(c) ==> d == c
  {
    if IsAsciiUpper(c) then (c as int + 32) as char else c
  }

  /** Lower-cases every ASCII letter of `s`. */
  function Lower(s: string): (r: string)
    ensures |r| == |s|
    ensures forall i :: 0 <= i < |s| ==> r[i] == LowerChar(s[i])
  {
    seq(|s|, i requires 0 <= i < |s| => LowerChar(s[i]))
  }

  /** Equality up to ASCII letter case. */
  predicate EqualsIgnoringCase(x: string, y: string) {
    |x| == |y| && forall i :: 0 <= i < |x| ==> LowerChar(x[i]) == LowerChar(y[i])
  }

  /** `s.includes(sub)`. */
  predicate Contains(s: string, sub: string) {
    exists i :: 0 <= i <= |s| - |sub| && OccursAt(s, sub, i)
  }

  /** `sub` occurs in `s` at index `i`. */
  predicate OccursAt(s: string, sub: string, i: int)
    requires 0 <= i <= |s| - |sub|
  {
    s[i..i + |sub|] == sub
  }

  /** `s.includes(sub)` holds exactly when `s` is some text, then `sub`, then
      some more text. */
  lemma ContainsIffInfix(s: string, sub: string)
    ensures Contains(s, sub) <==> exists a, b :: s == a + sub + b
  {
    if Contains(s, sub) {
      var i :| 0 <= i <= |s| - |sub| && OccursAt(s, sub, i);
      assert s == s[..i] + sub + s[i + |sub|..];
    }
    if exists a, b :: s == a + sub + b {
      var a, b :| s == a + sub + b;
      assert s[|a|..|a| + |sub|] == sub;
      assert OccursAt(s, sub, |a|);
    }
  }
}
