/** `renderWidgetCopy` of the admin route: choose the merchant's template (or the
    default one when it is missing or blank) and substitute the two placeholders
    with the regular expressions `/{{\s*minQty\s*}}/gi` and
    `/{{\s*percentOff\s*}}/gi`. */
module WidgetCopy {
  import opened Wrappers
  import opened Text
  import opened Numerals

  const DefaultWidgetTemplate: string := "Buy {{minQty}}, get {{percentOff}}% off"

  /** A placeholder name made of ASCII letters, as "minQty" and "percentOff" are. */
  predicate IsPlaceholderName(name: string) {
    |name| > 0 && forall i :: 0 <= i < |name| ==> IsAsciiLetter(name[i])
  }

  /** What `${n}` can produce for an integer: a non-empty run of digits and signs. */
  predicate IsNumeral(v: string) {
    |v| > 0 && forall i :: 0 <= i < |v| ==> IsNumeralChar(v[i])
  }

  predicate IsNumeralChar(c: char) {
    IsDecimalDigit(c) || c == '-'
  }

  /** Inside `t`, from index `a` on, stands the name (in any letter case), with
      only whitespace between it and the opening and closing braces. */
  ghost predicate NameAt(t: string, name: string, a: int)
    requires 2 <= a <= |t| - 2 - |name|
  {
    AllWs(t[2..a]) && EqualsIgnoringCase(t[a..a + |name|], name) && AllWs(t[a + |name|..|t| - 2])
  }

  /** `t`, as a whole, matches `/{{\s*name\s*}}/i`. */
  ghost predicate IsPlaceholder(t: string, name: string) {
    && |t| >= 4 + |name|
    && t[..2] == "{{"
    && t[|t| - 2..] == "}}"
    && exists a :: 2 <= a <= |t| - 2 - |name| && NameAt(t, name, a)
  }

  /** Some substring of `s` is a placeholder for `name`. */
  ghost predicate HasPlaceholder(s: string, name: string) {
    exists i, k :: 0 <= i <= k <= |s| && IsPlaceholder(s[i..k], name)
  }

  /** The regular expression tried at the start of `s`: the length of the match,
      if there is one. `\s*` is greedy and can give nothing back, since what
      follows it is a letter or a brace. */
  function MatchAt(s: string, name: string): (m: Option<nat>)
    ensures m.Some? ==> 4 + |name| <= m.value <= |s|
  {
    if |s| < 2 || s[..2] != "{{" then None
    else
      var a := 2 + LeadingWsCount(s[2..]);
      if a + |name| > |s| || !EqualsIgnoringCase(s[a..a + |name|], name) then None
      else
        var b := a + |name| + LeadingWsCount(s[a + |name|..]);
        if b + 2 > |s| || s[b..b + 2] != "}}" then None
        else Some(b + 2)
  }

  /** What the regular expression matches at the start of `s` is a placeholder. */
  lemma MatchAtSoundness(s: string, name: string)
    ensures MatchAt(s, name).Some? ==> IsPlaceholder(s[..MatchAt(s, name).value], name)
  {
    if MatchAt(s, name).Some? {
      var a := 2 + LeadingWsCount(s[2..]);
      var b := a + |name| + LeadingWsCount(s[a + |name|..]);
      MatchAtSound(s, name, a, b);
    }
  }

  lemma MatchAtSound(s: string, name: string, a: nat, b: nat)
    requires 2 <= a && a + |name| <= b && b + 2 <= |s|
    requires s[..2] == "{{" && s[b..b + 2] == "}}"
    requires AllWs(s[2..][..a - 2]) && EqualsIgnoringCase(s[a..a + |name|], name)
    requires AllWs(s[a + |name|..][..b - a - |name|])
    ensures IsPlaceholder(s[..b + 2], name)
  {
    var t := s[..b + 2];
    assert s[2..][..a - 2] == t[2..a];
    assert s[a + |name|..][..b - a - |name|] == t[a + |name|..|t| - 2];
    assert t[2..a] == s[2..a];
    assert t[a..a + |name|] == s[a..a + |name|];
    assert t[a + |name|..|t| - 2] == s[a + |name|..b];
    assert NameAt(t, name, a);
  }

  /** Every placeholder at the start of `s` is found, with its exact length. */
  lemma MatchAtComplete(s: string, name: string, k: nat)
    requires IsPlaceholderName(name)
    requires k <= |s| && IsPlaceholder(s[..k], name)
    ensures MatchAt(s, name) == Some(k)
  {
    var t := s[..k];
    var a :| 2 <= a <= k - 2 - |name| && NameAt(t, name, a);
    PlaceholderLayout(s, name, k, a);
    MatchAtLayout(s, name, k, a);
  }

  /** The parts of a placeholder at the start of `s`, read off `s` itself. */
  lemma PlaceholderLayout(s: string, name: string, k: nat, a: nat)
    requires IsPlaceholderName(name)
    requires k <= |s| && |s[..k]| >= 4 + |name| && s[..k][..2] == "{{" && s[..k][k - 2..] == "}}"
    requires 2 <= a <= k - 2 - |name| && NameAt(s[..k], name, a)
    ensures s[..2] == "{{" && s[k - 2..k] == "}}"
    ensures AllWs(s[2..][..a - 2]) && !IsWs(s[2..][a - 2])
    ensures EqualsIgnoringCase(s[a..a + |name|], name)
    ensures AllWs(s[a + |name|..][..k - 2 - a - |name|]) && !IsWs(s[a + |name|..][k - 2 - a - |name|])
  {
    var t := s[..k];
    assert t[2..a] == s[2..][..a - 2];
    assert t[a..a + |name|] == s[a..a + |name|];
    assert LowerChar(s[a]) == LowerChar(name[0]) by {
      assert s[a..a + |name|][0] == s[a];
    }
    assert IsAsciiLetter(name[0]);
    assert t[a + |name|..k - 2] == s[a + |name|..][..k - 2 - a - |name|];
    assert s[k - 2..k] == t[k - 2..];
    assert s[a + |name|..][k - 2 - a - |name|] == s[k - 2] == s[k - 2..k][0];
  }

  lemma MatchAtLayout(s: string, name: string, k: nat, a: nat)
    requires 2 <= a <= k - 2 - |name| && k <= |s|
    requires s[..2] == "{{" && s[k - 2..k] == "}}"
    requires AllWs(s[2..][..a - 2]) && !IsWs(s[2..][a - 2])
    requires EqualsIgnoringCase(s[a..a + |name|], name)
    requires AllWs(s[a + |name|..][..k - 2 - a - |name|]) && !IsWs(s[a + |name|..][k - 2 - a - |name|])
    ensures MatchAt(s, name) == Some(k)
  {
    LeadingWsCountExact(s[2..], a - 2);
    LeadingWsCountExact(s[a + |name|..], k - 2 - a - |name|);
    MatchAtFromPieces(s, name, a, k);
  }

  /** `MatchAt` finds the placeholder whose name starts at `a` and whose closing
      braces end at `k`, once the two whitespace runs are known. */
  lemma MatchAtFromPieces(s: string, name: string, a: nat, k: nat)
    requires 2 <= a && a + |name| + 2 <= k <= |s|
    requires s[..2] == "{{" && s[k - 2..k] == "}}"
    requires 2 + LeadingWsCount(s[2..]) == a
    requires EqualsIgnoringCase(s[a..a + |name|], name)
    requires a + |name| + LeadingWsCount(s[a + |name|..]) == k - 2
    ensures MatchAt(s, name) == Some(k)
  {
  }

  /** A placeholder starts with a brace and holds no digit and no minus sign. */
  lemma PlaceholderHasNoNumeralChar(t: string, name: string)
    requires IsPlaceholderName(name) && IsPlaceholder(t, name)
    ensures t[0] == '{'
    ensures forall i :: 0 <= i < |t| ==> !IsNumeralChar(t[i])
  {
    var a :| 2 <= a <= |t| - 2 - |name| && NameAt(t, name, a);
    assert t[0] == t[..2][0];
    forall i | 0 <= i < |t| ensures !IsNumeralChar(t[i]) {
      if i < 2 {
        assert t[i] == t[..2][i];
      } else if i < a {
        assert t[i] == t[2..a][i - 2];
      } else if i < a + |name| {
        assert t[i] == t[a..a + |name|][i - a];
        assert IsAsciiLetter(name[i - a]);
      } else if i < |t| - 2 {
        assert t[i] == t[a + |name|..|t| - 2][i - a - |name|];
      } else {
        assert t[i] == t[|t| - 2..][i - (|t| - 2)];
      }
    }
  }

  /** `s.replace(/{{\s*name\s*}}/gi, value)`: scan left to right; where a
      placeholder starts, put `value` in its place and go on after it. */
  function ReplaceAll(s: string, name: string, value: string): string
    decreases |s|
  {
    if |s| == 0 then ""
    else
      match MatchAt(s, name)
      case Some(k) => value + ReplaceAll(s[k..], name, value)
      case None => [s[0]] + ReplaceAll(s[1..], name, value)
  }

  /** A match at the start of `s` is a placeholder substring of `s`. */
  lemma MatchIsPlaceholderAtZero(s: string, name: string)
    ensures MatchAt(s, name).Some? ==> IsPlaceholder(s[0..MatchAt(s, name).value], name)
  {
    MatchAtSoundness(s, name);
    if MatchAt(s, name).Some? {
      assert s[0..MatchAt(s, name).value] == s[..MatchAt(s, name).value];
    }
  }

  /** Where a placeholder starts, the output starts with the value. */
  lemma ReplaceAllHead(u: string, name: string, value: string)
    ensures |u| > 0 && |value| > 0 && MatchAt(u, name).Some? ==>
              |ReplaceAll(u, name, value)| > 0 && ReplaceAll(u, name, value)[0] == value[0]
  {
  }

  /** A string without placeholders comes back unchanged. */
  lemma {:induction false} ReplaceAllWithoutPlaceholder(s: string, name: string, value: string)
    requires !HasPlaceholder(s, name)
    ensures ReplaceAll(s, name, value) == s
    decreases |s|
  {
    if |s| > 0 {
      MatchIsPlaceholderAtZero(s, name);
      forall i, k | 0 <= i <= k <= |s| - 1 ensures !IsPlaceholder(s[1..][i..k], name) {
        assert s[1..][i..k] == s[i + 1..k + 1];
      }
      ReplaceAllWithoutPlaceholder(s[1..], name, value);
    }
  }

  /** A placeholder at the front is replaced by `value`. */
  lemma ReplaceAllLeadingPlaceholder(p: string, rest: string, name: string, value: string)
    requires IsPlaceholderName(name) && IsPlaceholder(p, name)
    ensures ReplaceAll(p + rest, name, value) == value + ReplaceAll(rest, name, value)
  {
    assert (p + rest)[..|p|] == p;
    MatchAtComplete(p + rest, name, |p|);
    assert (p + rest)[|p|..] == rest;
  }

  /** Until the first inserted numeral, the output is a copy of the input. */
  lemma {:induction false} ReplacePrefixUnchanged(u: string, name: string, value: string, j: nat)
    requires IsNumeral(value)
    requires j <= |ReplaceAll(u, name, value)|
    requires forall i :: 0 <= i < j ==> !IsNumeralChar(ReplaceAll(u, name, value)[i])
    ensures j <= |u| && ReplaceAll(u, name, value)[..j] == u[..j]
    decreases |u|
  {
    if j > 0 {
      var r := ReplaceAll(u, name, value);
      ReplaceAllHead(u, name, value);
      var rest := ReplaceAll(u[1..], name, value);
      assert r == [u[0]] + rest;
      assert forall i :: 0 <= i < j - 1 ==> rest[i] == r[i + 1];
      ReplacePrefixUnchanged(u[1..], name, value, j - 1);
      assert r[..j] == [u[0]] + rest[..j - 1];
      assert u[..j] == [u[0]] + u[1..][..j - 1];
    }
  }

  /** Replacing with a numeral removes every placeholder for `name`, and creates
      no placeholder for any other name. */
  lemma ReplaceAllLeavesNoPlaceholder(s: string, name: string, value: string, other: string)
    requires IsPlaceholderName(name) && IsPlaceholderName(other) && IsNumeral(value)
    requires other == name || !HasPlaceholder(s, other)
    ensures !HasPlaceholder(ReplaceAll(s, name, value), other)
  {
    var r := ReplaceAll(s, name, value);
    forall i, k | 0 <= i <= k <= |r| ensures !IsPlaceholder(r[i..k], other) {
      NoPlaceholderInOutput(s, name, value, other, i, k);
    }
  }

  lemma {:induction false} NoPlaceholderInOutput(s: string, name: string, value: string, other: string, i: nat, k: nat)
    requires IsPlaceholderName(name) && IsPlaceholderName(other) && IsNumeral(value)
    requires other == name || !HasPlaceholder(s, other)
    requires i <= k <= |ReplaceAll(s, name, value)|
    ensures !IsPlaceholder(ReplaceAll(s, name, value)[i..k], other)
    decreases |s|, 2
  {
    if |s| == 0 {
      assert ReplaceAll(s, name, value)[i..k] == "";
    } else if MatchAt(s, name).Some? {
      NoPlaceholderAfterMatch(s, name, value, other, i, k);
    } else {
      NoPlaceholderAfterCopy(s, name, value, other, i, k);
    }
  }

  /** The case where a placeholder starts `s` and the value replaces it. */
  lemma {:induction false} NoPlaceholderAfterMatch(s: string, name: string, value: string, other: string, i: nat, k: nat)
    requires IsPlaceholderName(name) && IsPlaceholderName(other) && IsNumeral(value)
    requires other == name || !HasPlaceholder(s, other)
    requires |s| > 0 && MatchAt(s, name).Some?
    requires i <= k <= |ReplaceAll(s, name, value)|
    ensures !IsPlaceholder(ReplaceAll(s, name, value)[i..k], other)
    decreases |s|, 1
  {
    if i < |value| {
      NoPlaceholderInValue(s, name, value, other, i, k);
    } else {
      if other != name {
        SuffixHasNoPlaceholder(s, MatchAt(s, name).value, other);
      }
      NoPlaceholderAfterValue(s, name, value, other, i, k);
    }
  }

  /** Past the inserted value, the output is that of the text after the
      placeholder, which has no placeholder for `other` either. */
  lemma {:induction false} NoPlaceholderAfterValue(s: string, name: string, value: string, other: string, i: nat, k: nat)
    requires IsPlaceholderName(name) && IsPlaceholderName(other) && IsNumeral(value)
    requires |s| > 0 && MatchAt(s, name).Some?
    requires other == name || !HasPlaceholder(s[MatchAt(s, name).value..], other)
    requires |value| <= i <= k <= |ReplaceAll(s, name, value)|
    ensures !IsPlaceholder(ReplaceAll(s, name, value)[i..k], other)
    decreases |s|, 0
  {
    var m := MatchAt(s, name).value;
    var piece := ReplaceAll(s[m..], name, value)[i - |value|..k - |value|];
    MatchShift(s, name, value, i, k);
    assert ReplaceAll(s, name, value)[i..k] == piece;
    var t := s[m..];
    var i', k' := i - |value|, k - |value|;
    NoPlaceholderInOutput(t, name, value, other, i', k');
    assert !IsPlaceholder(ReplaceAll(t, name, value)[i'..k'], other);
    assert ReplaceAll(t, name, value)[i'..k'] == piece;
  }

  /** Where a placeholder was replaced, the output after the value is the output
      for the input after the placeholder. */
  lemma MatchShift(s: string, name: string, value: string, i: nat, k: nat)
    requires |s| > 0 && MatchAt(s, name).Some?
    requires |value| <= i <= k <= |ReplaceAll(s, name, value)|
    ensures k - |value| <= |ReplaceAll(s[MatchAt(s, name).value..], name, value)|
    ensures ReplaceAll(s, name, value)[i..k]
      == ReplaceAll(s[MatchAt(s, name).value..], name, value)[i - |value|..k - |value|]
  {
    var m := MatchAt(s, name).value;
    assert ReplaceAll(s, name, value) == value + ReplaceAll(s[m..], name, value);
  }

  /** No placeholder starts inside an inserted numeral. */
  lemma NoPlaceholderInValue(s: string, name: string, value: string, other: string, i: nat, k: nat)
    requires IsNumeral(value)
    requires |s| > 0 && MatchAt(s, name).Some?
    requires i < |value| && i <= k <= |ReplaceAll(s, name, value)|
    ensures !IsPlaceholder(ReplaceAll(s, name, value)[i..k], other)
  {
    var r := ReplaceAll(s, name, value);
    var m := MatchAt(s, name).value;
    assert r == value + ReplaceAll(s[m..], name, value);
    PlaceholderStartsWithBrace(r[i..k], other);
    assert i < k ==> r[i..k][0] == value[i];
  }

  /** The case where no placeholder starts `s` and its first character is copied. */
  lemma {:induction false} NoPlaceholderAfterCopy(s: string, name: string, value: string, other: string, i: nat, k: nat)
    requires IsPlaceholderName(name) && IsPlaceholderName(other) && IsNumeral(value)
    requires other == name || !HasPlaceholder(s, other)
    requires |s| > 0 && MatchAt(s, name).None?
    requires i <= k <= |ReplaceAll(s, name, value)|
    ensures !IsPlaceholder(ReplaceAll(s, name, value)[i..k], other)
    decreases |s|, 1
  {
    if i > 0 {
      CopyShift(s, name, value, i, k);
      if other != name {
        SuffixHasNoPlaceholder(s, 1, other);
      }
      NoPlaceholderInOutput(s[1..], name, value, other, i - 1, k - 1);
    } else {
      NoPlaceholderAtCopiedStart(s, name, value, other, k);
    }
  }

  /** Where no placeholder was found, the output after its first character is
      the output for the rest of the input. */
  lemma CopyShift(s: string, name: string, value: string, i: nat, k: nat)
    requires |s| > 0 && MatchAt(s, name).None?
    requires 0 < i <= k <= |ReplaceAll(s, name, value)|
    ensures k - 1 <= |ReplaceAll(s[1..], name, value)|
    ensures ReplaceAll(s, name, value)[i..k] == ReplaceAll(s[1..], name, value)[i - 1..k - 1]
  {
    assert ReplaceAll(s, name, value) == [s[0]] + ReplaceAll(s[1..], name, value);
  }

  /** Where no placeholder was found, none starts the output either. */
  lemma NoPlaceholderAtCopiedStart(s: string, name: string, value: string, other: string, k: nat)
    requires IsPlaceholderName(name) && IsPlaceholderName(other) && IsNumeral(value)
    requires other == name || !HasPlaceholder(s, other)
    requires |s| > 0 && MatchAt(s, name).None?
    requires k <= |ReplaceAll(s, name, value)|
    ensures !IsPlaceholder(ReplaceAll(s, name, value)[0..k], other)
  {
    CopiedPlaceholder(s, name, value, other, k);
    if other == name {
      MatchAtFindsPlaceholder(s, name, k);
    } else {
      assert k <= |s| ==> s[0..k] == s[..k];
    }
  }

  /** A placeholder begins with a brace. */
  lemma PlaceholderStartsWithBrace(t: string, name: string)
    ensures IsPlaceholder(t, name) ==> |t| > 0 && t[0] == '{'
  {
    if IsPlaceholder(t, name) {
      assert t[0] == t[..2][0];
    }
  }

  lemma MatchAtFindsPlaceholder(s: string, name: string, k: nat)
    requires IsPlaceholderName(name)
    ensures k <= |s| && IsPlaceholder(s[..k], name) ==> MatchAt(s, name) == Some(k)
  {
    if k <= |s| && IsPlaceholder(s[..k], name) {
      MatchAtComplete(s, name, k);
    }
  }

  /** A placeholder at the start of the output is one that was already at the
      start of the input: it holds no digit, so it was copied. */
  lemma CopiedPlaceholder(s: string, name: string, value: string, other: string, k: nat)
    requires IsPlaceholderName(other) && IsNumeral(value)
    requires k <= |ReplaceAll(s, name, value)|
    ensures IsPlaceholder(ReplaceAll(s, name, value)[0..k], other) ==> k <= |s| && IsPlaceholder(s[..k], other)
  {
    var r := ReplaceAll(s, name, value);
    if IsPlaceholder(r[0..k], other) {
      PlaceholderHasNoNumeralChar(r[0..k], other);
      assert forall x :: 0 <= x < k ==> r[x] == r[0..k][x];
      ReplacePrefixUnchanged(s, name, value, k);
      assert r[0..k] == r[..k];
    }
  }

  lemma SuffixHasNoPlaceholder(s: string, m: nat, name: string)
    requires m <= |s| && !HasPlaceholder(s, name)
    ensures !HasPlaceholder(s[m..], name)
  {
    forall i, k | 0 <= i <= k <= |s| - m ensures !IsPlaceholder(s[m..][i..k], name) {
      assert s[m..][i..k] == s[m + i..m + k];
    }
  }

  /** The template actually used: the merchant's one unless it is missing or
      blank (empty or whitespace only). */
  function BaseTemplate(template: Option<string>): (base: string)
    ensures template.Some? && !IsBlank(template.value) ==> base == template.value
    ensures template.None? || IsBlank(template.value) ==> base == DefaultWidgetTemplate
  {
    if template.Some? && template.value != "" && |Trim(template.value)| > 0 then template.value
    else DefaultWidgetTemplate
  }

  const MinQtyName: string := "minQty"
  const PercentOffName: string := "percentOff"

  lemma PlaceholderNamesAreValid()
    ensures IsPlaceholderName(MinQtyName) && IsPlaceholderName(PercentOffName)
  {
  }

  /** The two replacements of `renderWidgetCopy`, minQty first, on a piece of text. */
  function FillPlaceholders(t: string, minQty: int, percentOff: int): string
  {
    var withQty := ReplaceAll(t, MinQtyName, IntToDecimal(minQty));
    ReplaceAll(withQty, PercentOffName, IntToDecimal(percentOff))
  }

  /** `renderWidgetCopy(template, minQty, percentOff)`. */
  function RenderWidgetCopy(template: Option<string>, minQty: int, percentOff: int): string
  {
    FillPlaceholders(BaseTemplate(template), minQty, percentOff)
  }

  /** After rendering, no placeholder of either kind is left: every occurrence,
      in any letter case and with any inner whitespace, has been replaced. */
  lemma RenderedCopyHasNoPlaceholder(template: Option<string>, minQty: int, percentOff: int)
    ensures !HasPlaceholder(RenderWidgetCopy(template, minQty, percentOff), MinQtyName)
    ensures !HasPlaceholder(RenderWidgetCopy(template, minQty, percentOff), PercentOffName)
  {
    PlaceholderNamesAreValid();
    var base := BaseTemplate(template);
    var qty, pct := IntToDecimal(minQty), IntToDecimal(percentOff);
    var withQty := ReplaceAll(base, MinQtyName, qty);
    ReplaceAllLeavesNoPlaceholder(base, MinQtyName, qty, MinQtyName);
    ReplaceAllLeavesNoPlaceholder(withQty, PercentOffName, pct, PercentOffName);
    ReplaceAllLeavesNoPlaceholder(withQty, PercentOffName, pct, MinQtyName);
  }

  /** A non-blank template without placeholders is shown exactly as written. */
  lemma TemplateWithoutPlaceholdersIsKept(template: string, minQty: int, percentOff: int)
    requires !IsBlank(template)
    requires !HasPlaceholder(template, MinQtyName) && !HasPlaceholder(template, PercentOffName)
    ensures RenderWidgetCopy(Some(template), minQty, percentOff) == template
  {
    ReplaceAllWithoutPlaceholder(template, MinQtyName, IntToDecimal(minQty));
    ReplaceAllWithoutPlaceholder(template, PercentOffName, IntToDecimal(percentOff));
  }

  /** In any template, a minQty placeholder (in any letter case, with any inner
      whitespace) comes out as the decimal minimum quantity, and the text on
      either side is rendered on its own. */
  lemma RenderMinQtyPlaceholder(template: string, a: string, p: string, b: string, minQty: int, percentOff: int)
    requires !IsBlank(template) && template == a + p + b
    requires IsPlaceholder(p, MinQtyName)
    ensures RenderWidgetCopy(Some(template), minQty, percentOff)
            == FillPlaceholders(a, minQty, percentOff) + IntToDecimal(minQty) + FillPlaceholders(b, minQty, percentOff)
  {
    PlaceholderNamesAreValid();
    var qty, pct := IntToDecimal(minQty), IntToDecimal(percentOff);
    ReplaceAllPlaceholderAnywhere(a, p, b, MinQtyName, qty);
    ReplaceAllKeepsNumeral(ReplaceAll(a, MinQtyName, qty), qty, ReplaceAll(b, MinQtyName, qty), PercentOffName, pct);
  }

  /** In any template, a percentOff placeholder comes out as the decimal
      percentage, and the text on either side is rendered on its own. */
  lemma RenderPercentOffPlaceholder(template: string, a: string, p: string, b: string, minQty: int, percentOff: int)
    requires !IsBlank(template) && template == a + p + b
    requires IsPlaceholder(p, PercentOffName)
    ensures RenderWidgetCopy(Some(template), minQty, percentOff)
            == FillPlaceholders(a, minQty, percentOff) + IntToDecimal(percentOff) + FillPlaceholders(b, minQty, percentOff)
  {
    PlaceholderNamesAreValid();
    PlaceholderNamesDiffer();
    var qty, pct := IntToDecimal(minQty), IntToDecimal(percentOff);
    ReplaceAllOtherPlaceholderAnywhere(a, p, b, MinQtyName, PercentOffName, qty);
    ReplaceAllPlaceholderAnywhere(ReplaceAll(a, MinQtyName, qty), p, ReplaceAll(b, MinQtyName, qty), PercentOffName, pct);
  }

  // Kept apart so that other proofs never unroll the literals.
  lemma PlaceholderNamesDiffer()
    ensures LowerChar(MinQtyName[0]) != LowerChar(PercentOffName[0])
  {
  }

  /** A placeholder written without inner whitespace, in the name's own case. */
  lemma TightPlaceholder(name: string)
    requires IsPlaceholderName(name)
    ensures IsPlaceholder("{{" + name + "}}", name)
  {
    var t := "{{" + name + "}}";
    assert t[2..2] == "" && t[2..2 + |name|] == name && t[2 + |name|..|t| - 2] == "";
    assert NameAt(t, name, 2);
  }

  /** Text without an opening brace is copied as it is. */
  lemma {:induction false} ReplaceAllNoBrace(a: string, rest: string, name: string, value: string)
    requires forall i :: 0 <= i < |a| ==> a[i] != '{'
    ensures ReplaceAll(a + rest, name, value) == a + ReplaceAll(rest, name, value)
    decreases |a|
  {
    if |a| > 0 {
      var s := a + rest;
      assert MatchAt(s, name).None? by {
        assert |s| >= 2 ==> s[..2][0] == a[0];
      }
      assert s[1..] == a[1..] + rest;
      assert ReplaceAll(s, name, value) == [a[0]] + ReplaceAll(a[1..] + rest, name, value);
      ReplaceAllNoBrace(a[1..], rest, name, value);
      PrependFirst(a, ReplaceAll(rest, name, value));
    } else {
      assert a + rest == rest;
    }
  }

  lemma PrependFirst(a: string, x: string)
    requires |a| > 0
    ensures [a[0]] + (a[1..] + x) == a + x
  {
    assert a == [a[0]] + a[1..];
  }

  /** A placeholder preceded by brace-free text is replaced in place. */
  lemma ReplaceAllAround(a: string, p: string, rest: string, name: string, value: string)
    requires IsPlaceholderName(name) && IsPlaceholder(p, name)
    requires forall i :: 0 <= i < |a| ==> a[i] != '{'
    ensures ReplaceAll(a + p + rest, name, value) == a + value + ReplaceAll(rest, name, value)
  {
    assert a + p + rest == a + (p + rest);
    ReplaceAllNoBrace(a, p + rest, name, value);
    ReplaceAllLeadingPlaceholder(p, rest, name, value);
  }

  /** Brace-free text is not changed at all. */
  lemma ReplaceAllKeepsBraceFree(a: string, name: string, value: string)
    requires IsPlaceholderName(name)
    requires forall i :: 0 <= i < |a| ==> a[i] != '{'
    ensures ReplaceAll(a, name, value) == a
  {
    ReplaceAllNoBrace(a, "", name, value);
    assert a + "" == a;
  }

  /** Text that no match begun in front of it can run into: it starts with a
      digit or a minus sign, which a placeholder never holds, or with "{{",
      whose second brace can be neither the start of a name nor whitespace. */
  predicate StopsMatches(q: string) {
    |q| > 0 && (IsNumeralChar(q[0]) || (|q| >= 2 && q[0] == '{' && q[1] == '{'))
  }

  /** The regular expression tried at the start of `u + q` finds what it finds at
      the start of `u`: no match can reach into `q`. */
  lemma MatchAtBefore(u: string, q: string, name: string)
    requires IsPlaceholderName(name) && StopsMatches(q) && |u| > 0
    ensures MatchAt(u + q, name) == MatchAt(u, name)
  {
    MatchSurvivesStop(u, q, name);
    MatchStaysBeforeStop(u, q, name);
    MatchBeforeStopIsMatch(u, q, name);
  }

  lemma MatchSurvivesStop(u: string, q: string, name: string)
    requires IsPlaceholderName(name)
    ensures MatchAt(u, name).Some? ==> MatchAt(u + q, name) == MatchAt(u, name)
  {
    if MatchAt(u, name).Some? {
      var k := MatchAt(u, name).value;
      MatchAtSoundness(u, name);
      assert (u + q)[..k] == u[..k];
      MatchAtComplete(u + q, name, k);
    }
  }

  lemma MatchBeforeStopIsMatch(u: string, q: string, name: string)
    requires IsPlaceholderName(name)
    ensures MatchAt(u + q, name).Some? && MatchAt(u + q, name).value <= |u| ==>
              MatchAt(u, name) == MatchAt(u + q, name)
  {
    var s := u + q;
    if MatchAt(s, name).Some? && MatchAt(s, name).value <= |u| {
      var k := MatchAt(s, name).value;
      MatchAtSoundness(s, name);
      assert s[..k] == u[..k];
      MatchAtComplete(u, name, k);
    }
  }

  /** A match cannot cover the first character of the stop. */
  lemma MatchStaysBeforeStop(u: string, q: string, name: string)
    requires IsPlaceholderName(name) && StopsMatches(q) && |u| > 0
    ensures MatchAt(u + q, name).Some? ==> MatchAt(u + q, name).value <= |u|
  {
    var s := u + q;
    if MatchAt(s, name).Some? {
      var k := MatchAt(s, name).value;
      MatchAtSoundness(s, name);
      PlaceholderHoldsNoStop(s, k, name);
      assert s[|u|..] == q;
    }
  }

  /** No stop starts inside a placeholder, except at its very start: past the
      first brace a placeholder holds no digit, no minus sign and, after the
      second brace, no brace that opens. */
  lemma PlaceholderHoldsNoStop(s: string, k: nat, name: string)
    requires IsPlaceholderName(name) && k <= |s| && IsPlaceholder(s[..k], name)
    ensures forall j :: 1 <= j < k ==> !StopsMatches(s[j..])
  {
    var t := s[..k];
    var a :| 2 <= a <= |t| - 2 - |name| && NameAt(t, name, a);
    PlaceholderHasNoNumeralChar(t, name);
    PlaceholderInside(t, name, a);
    forall j | 1 <= j < k ensures !StopsMatches(s[j..]) {
      assert s[j..][0] == t[j];
      if j == 1 {
        assert s[j..][1] == t[2];
      }
    }
  }

  /** `replace` works on `u` and on `q` separately when `q` stops every match
      begun in `u`. */
  lemma {:induction false} ReplaceAllAcross(u: string, q: string, name: string, value: string)
    requires IsPlaceholderName(name) && StopsMatches(q)
    ensures ReplaceAll(u + q, name, value) == ReplaceAll(u, name, value) + ReplaceAll(q, name, value)
    decreases |u|
  {
    if |u| == 0 {
      assert u + q == q;
    } else {
      MatchAtBefore(u, q, name);
      var k := if MatchAt(u, name).Some? then MatchAt(u, name).value else 1;
      ReplaceAllAcross(u[k..], q, name, value);
      AcrossStep(u, q, name, value, k);
    }
  }

  /** One step of `replace` is the same on `u + q` as on `u`. */
  lemma AcrossStep(u: string, q: string, name: string, value: string, k: nat)
    requires |u| > 0 && MatchAt(u + q, name) == MatchAt(u, name)
    requires k == if MatchAt(u, name).Some? then MatchAt(u, name).value else 1
    requires ReplaceAll(u[k..] + q, name, value)
             == ReplaceAll(u[k..], name, value) + ReplaceAll(q, name, value)
    ensures ReplaceAll(u + q, name, value) == ReplaceAll(u, name, value) + ReplaceAll(q, name, value)
  {
    var s := u + q;
    SliceAppend(u, q, k);
    var head := if MatchAt(u, name).Some? then value else [u[0]];
    ReplaceAllStep(s, name, value, head, k);
    ReplaceAllStep(u, name, value, head, k);
    AppendAssoc(head, ReplaceAll(u[k..], name, value), ReplaceAll(q, name, value));
  }

  lemma SliceAppend(a: string, b: string, k: nat)
    requires k <= |a|
    ensures (a + b)[..k] == a[..k] && (a + b)[k..] == a[k..] + b
  {
  }

  lemma AppendAssoc(a: string, b: string, c: string)
    ensures a + (b + c) == a + b + c
  {
  }

  /** `replace` as its first step and the rest. */
  lemma ReplaceAllStep(s: string, name: string, value: string, head: string, k: nat)
    requires |s| > 0
    requires k == if MatchAt(s, name).Some? then MatchAt(s, name).value else 1
    requires head == if MatchAt(s, name).Some? then value else [s[0]]
    ensures k <= |s| && ReplaceAll(s, name, value) == head + ReplaceAll(s[k..], name, value)
  {
  }

  /** Wherever a placeholder stands, `value` takes its place, and the text on
      either side is replaced on its own. */
  lemma ReplaceAllPlaceholderAnywhere(a: string, p: string, rest: string, name: string, value: string)
    requires IsPlaceholderName(name) && IsPlaceholder(p, name)
    ensures ReplaceAll(a + p + rest, name, value)
            == ReplaceAll(a, name, value) + value + ReplaceAll(rest, name, value)
  {
    assert p[0] == p[..2][0] && p[1] == p[..2][1];
    assert (p + rest)[0] == p[0] && (p + rest)[1] == p[1];
    ReplaceAllAcross(a, p + rest, name, value);
    ReplaceAllLeadingPlaceholder(p, rest, name, value);
    AppendAssoc(a, p, rest);
    AppendAssoc(ReplaceAll(a, name, value), value, ReplaceAll(rest, name, value));
  }

  /** An inserted numeral survives a later replacement, and the text on either
      side is replaced on its own. */
  lemma ReplaceAllKeepsNumeral(a: string, v: string, rest: string, name: string, value: string)
    requires IsPlaceholderName(name) && IsNumeral(v)
    ensures ReplaceAll(a + v + rest, name, value)
            == ReplaceAll(a, name, value) + v + ReplaceAll(rest, name, value)
  {
    assert (v + rest)[0] == v[0];
    ReplaceAllAcross(a, v + rest, name, value);
    assert forall i :: 0 <= i < |v| ==> v[i] != '{' by {
      forall i | 0 <= i < |v| ensures v[i] != '{' {
        assert IsNumeralChar(v[i]);
      }
    }
    ReplaceAllNoBrace(v, rest, name, value);
    AppendAssoc(a, v, rest);
    AppendAssoc(ReplaceAll(a, name, value), v, ReplaceAll(rest, name, value));
  }

  /** The expression for `name` passes over a placeholder for a name with another
      first letter. */
  lemma ReplaceAllSkipsOtherPlaceholder(p: string, rest: string, name: string, other: string, value: string)
    requires IsPlaceholderName(name) && IsPlaceholderName(other) && IsPlaceholder(p, other)
    requires LowerChar(name[0]) != LowerChar(other[0])
    ensures ReplaceAll(p + rest, name, value) == p + ReplaceAll(rest, name, value)
  {
    var s := p + rest;
    var open, mid := p[..2], p[2..];
    OtherPlaceholderStartsNoMatch(p, rest, name, other);
    ReplaceAllTwoCopied(s, name, value);
    SliceAppend(p, rest, 2);
    ReplaceAllNoBrace(mid, rest, name, value);
    AppendAssoc(open, mid, ReplaceAll(rest, name, value));
    assert open + mid == p;
  }

  /** Neither of the first two characters of a placeholder for `other` starts a
      match for `name`, and after them it holds no opening brace. */
  lemma OtherPlaceholderStartsNoMatch(p: string, rest: string, name: string, other: string)
    requires IsPlaceholderName(name) && IsPlaceholderName(other) && IsPlaceholder(p, other)
    requires LowerChar(name[0]) != LowerChar(other[0])
    ensures |p + rest| >= 2 && MatchAt(p + rest, name).None? && MatchAt((p + rest)[1..], name).None?
    ensures forall i :: 0 <= i < |p[2..]| ==> p[2..][i] != '{'
  {
    var s := p + rest;
    var a :| 2 <= a <= |p| - 2 - |other| && NameAt(p, other, a);
    assert s[..|p|] == p;
    PlaceholderLayout(s, other, |p|, a);
    LeadingWsCountExact(s[2..], a - 2);
    assert MatchAt(s, name).None? by {
      assert s[a..a + |other|][0] == s[a];
      assert a + |name| <= |s| ==> s[a..a + |name|][0] == s[a];
    }
    PlaceholderInside(p, other, a);
    assert s[1..][..2] == [p[1], p[2]];
  }

  /** Where no match starts at the first two characters, both are copied. */
  lemma ReplaceAllTwoCopied(s: string, name: string, value: string)
    requires |s| >= 2 && MatchAt(s, name).None? && MatchAt(s[1..], name).None?
    ensures ReplaceAll(s, name, value) == s[..2] + ReplaceAll(s[2..], name, value)
  {
    assert s[1..][1..] == s[2..];
    assert ReplaceAll(s, name, value) == [s[0]] + ([s[1]] + ReplaceAll(s[2..], name, value));
    assert s[..2] == [s[0]] + [s[1]];
  }

  /** Wherever a placeholder for a name with another first letter stands, it is
      kept, and the text on either side is replaced on its own. */
  lemma ReplaceAllOtherPlaceholderAnywhere(a: string, p: string, rest: string, name: string, other: string, value: string)
    requires IsPlaceholderName(name) && IsPlaceholderName(other) && IsPlaceholder(p, other)
    requires LowerChar(name[0]) != LowerChar(other[0])
    ensures ReplaceAll(a + p + rest, name, value)
            == ReplaceAll(a, name, value) + p + ReplaceAll(rest, name, value)
  {
    assert p[0] == p[..2][0] && p[1] == p[..2][1];
    assert (p + rest)[0] == p[0] && (p + rest)[1] == p[1];
    ReplaceAllAcross(a, p + rest, name, value);
    ReplaceAllSkipsOtherPlaceholder(p, rest, name, other, value);
    AppendAssoc(a, p, rest);
    AppendAssoc(ReplaceAll(a, name, value), p, ReplaceAll(rest, name, value));
  }

  /** After its two opening braces, a placeholder holds no opening brace. */
  lemma PlaceholderInside(p: string, name: string, a: nat)
    requires IsPlaceholderName(name) && |p| >= 4 + |name|
    requires p[|p| - 2..] == "}}"
    requires 2 <= a <= |p| - 2 - |name| && NameAt(p, name, a)
    ensures forall i :: 2 <= i < |p| ==> p[i] != '{'
  {
    forall i | 2 <= i < |p| ensures p[i] != '{' {
      if i < a {
        assert p[i] == p[2..a][i - 2];
      } else if i < a + |name| {
        assert p[i] == p[a..a + |name|][i - a];
        assert IsAsciiLetter(name[i - a]);
      } else if i < |p| - 2 {
        assert p[i] == p[a + |name|..|p| - 2][i - a - |name|];
      } else {
        assert p[i] == p[|p| - 2..][i - (|p| - 2)];
      }
    }
  }

  /** The default template is "Buy ", the minQty placeholder, ", get ", the
      percentOff placeholder and "% off". Facts about string literals are kept in
      small lemmas like this one so that other proofs never unroll a literal. */
  lemma DefaultTemplateLayout()
    ensures DefaultWidgetTemplate
            == "Buy " + ("{{" + MinQtyName + "}}") + (", get " + ("{{" + PercentOffName + "}}" + "% off"))
  {
  }

  /** First pass over the default template: only "{{minQty}}" changes. */
  lemma DefaultTemplateFirstPass(t: string, qty: string)
    requires t == DefaultWidgetTemplate
    ensures ReplaceAll(t, MinQtyName, qty) == "Buy " + qty + (", get " + ("{{" + PercentOffName + "}}" + "% off"))
  {
    var rest := ", get " + ("{{" + PercentOffName + "}}" + "% off");
    PlaceholderNamesAreValid();
    DefaultTemplateLayout();
    TightPlaceholder(MinQtyName);
    ReplaceAllAround("Buy ", "{{" + MinQtyName + "}}", rest, MinQtyName, qty);
    TailFirstPass(rest, qty);
  }

  /** The text after "{{minQty}}" in the default template holds no minQty
      placeholder. */
  lemma TailFirstPass(rest: string, qty: string)
    requires rest == ", get " + ("{{" + PercentOffName + "}}" + "% off")
    ensures ReplaceAll(rest, MinQtyName, qty) == rest
  {
    var head, tail := ", get ", "% off";
    BraceFreeLiterals(head, tail);
    PlaceholderNamesAreValid();
    ReplaceAllNoBrace(head, "{{" + PercentOffName + "}}" + tail, MinQtyName, qty);
    PercentOffPlaceholderIsNotMinQty(tail, qty);
  }

  // Kept apart so that other proofs never unroll the literals.
  lemma BraceFreeLiterals(head: string, tail: string)
    requires head == ", get " && tail == "% off"
    ensures forall i :: 0 <= i < |head| ==> head[i] != '{'
    ensures forall i :: 0 <= i < |tail| ==> tail[i] != '{'
  {
  }

  /** Second pass: "{{percentOff}}" changes, the inserted quantity stays. */
  lemma DefaultTemplateSecondPass(qty: string, pct: string)
    requires IsNumeral(qty)
    ensures ReplaceAll("Buy " + qty + (", get " + ("{{" + PercentOffName + "}}" + "% off")), PercentOffName, pct)
            == "Buy " + qty + ", get " + pct + "% off"
  {
    PlaceholderNamesAreValid();
    var a := "Buy " + qty + ", get ";
    SecondPassLayout(qty, a);
    TightPlaceholder(PercentOffName);
    ReplaceAllAround(a, "{{" + PercentOffName + "}}", "% off", PercentOffName, pct);
    BraceFreeLiterals(", get ", "% off");
    ReplaceAllKeepsBraceFree("% off", PercentOffName, pct);
  }

  /** After the first pass the text is brace-free, a placeholder, then "% off". */
  lemma SecondPassLayout(qty: string, a: string)
    requires IsNumeral(qty) && a == "Buy " + qty + ", get "
    ensures "Buy " + qty + (", get " + ("{{" + PercentOffName + "}}" + "% off"))
            == a + ("{{" + PercentOffName + "}}") + "% off"
    ensures forall i :: 0 <= i < |a| ==> a[i] != '{'
  {
    forall i | 0 <= i < |a| ensures a[i] != '{' {
      if 4 <= i < 4 + |qty| { assert a[i] == qty[i - 4]; }
    }
  }

  /** With the default template (no template, or a blank one) the copy reads
      "Buy <minQty>, get <percentOff>% off". */
  lemma DefaultTemplateRendering(template: Option<string>, minQty: int, percentOff: int)
    requires template.None? || IsBlank(template.value)
    ensures RenderWidgetCopy(template, minQty, percentOff)
            == "Buy " + IntToDecimal(minQty) + ", get " + IntToDecimal(percentOff) + "% off"
  {
    DefaultTemplateFirstPass(BaseTemplate(template), IntToDecimal(minQty));
    DefaultTemplateSecondPass(IntToDecimal(minQty), IntToDecimal(percentOff));
  }

  /** The minQty expression does not match "{{percentOff}}". */
  lemma PercentOffPlaceholderIsNotMinQty(tail: string, qty: string)
    requires forall i :: 0 <= i < |tail| ==> tail[i] != '{'
    ensures ReplaceAll("{{" + PercentOffName + "}}" + tail, MinQtyName, qty) == "{{" + PercentOffName + "}}" + tail
  {
    PlaceholderNamesAreValid();
    var s := "{{" + PercentOffName + "}}" + tail;
    LeadingWsCountExact(s[2..], 0);
    assert !EqualsIgnoringCase(s[2..2 + |MinQtyName|], MinQtyName) by {
      assert LowerChar(s[2]) == 'p' && LowerChar(MinQtyName[0]) == 'm';
    }
    assert MatchAt(s, MinQtyName).None?;
    assert s[1..][..2] == "{p";
    assert MatchAt(s[1..], MinQtyName).None?;
    assert s[2..] == PercentOffName + "}}" + tail;
    ReplaceAllKeepsBraceFree(PercentOffName + "}}" + tail, MinQtyName, qty);
  }

  /** The copy shown for the default offer of two items at ten percent. */
  lemma DefaultCopyExample(template: Option<string>, minQty: int, percentOff: int)
    requires template.None? || IsBlank(template.value)
    requires minQty == 2 && percentOff == 10
    ensures RenderWidgetCopy(template, minQty, percentOff) == "Buy 2, get 10% off"
  {
    DefaultTemplateRendering(template, minQty, percentOff);
    CopyLiteral(IntToDecimal(minQty), IntToDecimal(percentOff));
  }

  // Kept apart so that other proofs never unroll the literals.
  lemma CopyLiteral(qty: string, pct: string)
    requires qty == "2" && pct == "10"
    ensures "Buy " + qty + ", get " + pct + "% off" == "Buy 2, get 10% off"
  {
  }
}
