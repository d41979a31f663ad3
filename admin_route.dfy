/** The pure helpers of the admin page: how the selected product ids travel
    through the form as one comma-separated field, the percentage input clamp,
    the search for the deployed discount function, and the configuration that
    the save action stores in the shop metafield. */
module AdminRoute {
  import opened Wrappers
  import opened Json
  import opened Text
  import opened Numerals
  import opened WidgetCopy

  // ---------------------------------------------------------------------------
  // Product ids: `selectedProducts.join(",")` and `split(",").filter((id) => id)`
  // ---------------------------------------------------------------------------

  /** `ids.join(",")`. */
  function JoinIds(ids: seq<string>): string
  {
    if |ids| == 0 then ""
    else if |ids| == 1 then ids[0]
    else ids[0] + "," + JoinIds(ids[1..])
  }

  /** `s.split(",")`: the pieces between commas, at least one (the empty string
      splits into one empty piece), none of them holding a comma. */
  function SplitOnComma(s: string): (parts: seq<string>)
    ensures |parts| >= 1
    ensures forall i :: 0 <= i < |parts| ==> ',' !in parts[i]
    ensures forall p :: p in parts ==> ',' !in p
  {
    if |s| == 0 then [""]
    else
      var r := SplitOnComma(s[1..]);
      if s[0] == ',' then [""] + r else [[s[0]] + r[0]] + r[1..]
  }

  /** `parts.filter((id) => id)`: the non-empty pieces, in order. */
  function KeepNonEmpty(parts: seq<string>): (r: seq<string>)
    ensures |r| <= |parts|
    ensures forall i :: 0 <= i < |r| ==> r[i] != ""
    ensures forall x :: x in r <==> x in parts && x != ""
  {
    if |parts| == 0 then []
    else if parts[0] == "" then KeepNonEmpty(parts[1..])
    else [parts[0]] + KeepNonEmpty(parts[1..])
  }

  /** Filtering distributes over concatenation, so it keeps the order of the
      pieces and every repeated piece. */
  lemma {:induction false} KeepNonEmptyAppend(a: seq<string>, b: seq<string>)
    ensures KeepNonEmpty(a + b) == KeepNonEmpty(a) + KeepNonEmpty(b)
    decreases |a|
  {
    if |a| > 0 {
      assert (a + b)[1..] == a[1..] + b;
      KeepNonEmptyAppend(a[1..], b);
    } else {
      assert a + b == b;
    }
  }

  /** The `products` of the saved configuration: no ids when the field is
      missing or empty, otherwise the non-empty comma-separated pieces. */
  function ParseProductIds(field: Option<string>): (ids: seq<string>)
    ensures field.None? || field.value == "" ==> ids == []
    ensures forall i :: 0 <= i < |ids| ==> ids[i] != "" && ',' !in ids[i]
    ensures field.Some? ==> forall x :: x in ids <==> x in SplitOnComma(field.value) && x != ""
    ensures field.Some? && field.value != "" ==> ids == KeepNonEmpty(SplitOnComma(field.value))
  {
    if field.None? || field.value == "" then [] else KeepNonEmpty(SplitOnComma(field.value))
  }

  /** Ids that survive the trip through one comma-separated field. */
  predicate SafeIds(ids: seq<string>) {
    forall i :: 0 <= i < |ids| ==> ids[i] != "" && ',' !in ids[i]
  }

  /** Splitting loses nothing: joining the pieces again gives back the text. */
  lemma {:induction false} JoinOfSplit(s: string)
    ensures JoinIds(SplitOnComma(s)) == s
  {
    if |s| > 0 {
      var r := SplitOnComma(s[1..]);
      JoinOfSplit(s[1..]);
      if s[0] == ',' {
        assert ([""] + r)[1..] == r;
        assert s == [','] + s[1..];
      } else {
        var parts := [[s[0]] + r[0]] + r[1..];
        if |r| == 1 {
          assert s == [s[0]] + s[1..];
        } else {
          assert parts[1..] == r[1..];
          assert s == [s[0]] + (r[0] + "," + JoinIds(r[1..]));
        }
      }
    }
  }

  /** Comma-free text glued in front of `t` only extends the first piece. */
  lemma {:induction false} SplitAfterCommaFree(a: string, t: string)
    requires ',' !in a
    ensures SplitOnComma(a + t) == [a + SplitOnComma(t)[0]] + SplitOnComma(t)[1..]
  {
    if |a| == 0 {
      var parts := SplitOnComma(t);
      assert a + t == t && a + parts[0] == parts[0];
      assert parts == [parts[0]] + parts[1..];
    } else {
      assert (a + t)[0] == a[0] && (a + t)[1..] == a[1..] + t;
      assert a[0] in a;
      assert ',' !in a[1..] by {
        forall i | 0 <= i < |a[1..]| ensures a[1..][i] != ',' {
          assert a[1..][i] == a[i + 1];
        }
      }
      SplitAfterCommaFree(a[1..], t);
      assert [a[0]] + (a[1..] + SplitOnComma(t)[0]) == a + SplitOnComma(t)[0];
    }
  }

  /** Splitting a join gives the ids back, when no id holds a comma. */
  lemma {:induction false} SplitOfJoin(ids: seq<string>)
    requires |ids| >= 1
    requires forall i :: 0 <= i < |ids| ==> ',' !in ids[i]
    ensures SplitOnComma(JoinIds(ids)) == ids
  {
    if |ids| == 1 {
      SplitAfterCommaFree(ids[0], "");
      assert ids[0] + "" == ids[0];
    } else {
      var x := JoinIds(ids[1..]);
      SplitOfJoin(ids[1..]);
      assert ("," + x)[1..] == x;
      assert SplitOnComma("," + x) == [""] + ids[1..];
      assert ids[0] + "," + x == ids[0] + ("," + x);
      SplitAfterCommaFree(ids[0], "," + x);
      assert ids[0] + "" == ids[0];
      assert ([""] + ids[1..])[1..] == ids[1..];
    }
  }

  /** Filtering a list without empty pieces keeps it whole. */
  lemma {:induction false} KeepNonEmptyOfNonEmpty(parts: seq<string>)
    requires forall i :: 0 <= i < |parts| ==> parts[i] != ""
    ensures KeepNonEmpty(parts) == parts
  {
    if |parts| > 0 {
      KeepNonEmptyOfNonEmpty(parts[1..]);
    }
  }

  /** The ids the merchant picked reach the saved configuration unchanged, in
      order, provided no id is empty or holds a comma; no ids gives no ids. */
  lemma ProductIdsRoundTrip(ids: seq<string>)
    requires SafeIds(ids)
    ensures ParseProductIds(Some(JoinIds(ids))) == ids
  {
    if |ids| > 0 {
      SplitOfJoin(ids);
      KeepNonEmptyOfNonEmpty(ids);
    }
  }

  // ---------------------------------------------------------------------------
  // Percentage input: `Math.min(Math.max(parseInt(value) || 10, 1), 80)`
  // ---------------------------------------------------------------------------

  /** The percentage kept after the merchant edits the input: what `parseInt`
      reads, 10 when it reads nothing or zero, then clamped into 1..80. */
  function ClampPercent(raw: string): (p: int)
    ensures 1 <= p <= 80
    ensures ParseInt(raw).None? || ParseInt(raw) == Some(0) ==> p == 10
    ensures ParseInt(raw).Some? && 1 <= ParseInt(raw).value <= 80 ==> p == ParseInt(raw).value
    ensures ParseInt(raw).Some? && ParseInt(raw).value < 0 ==> p == 1
    ensures ParseInt(raw).Some? && ParseInt(raw).value > 80 ==> p == 80
  {
    var value := match ParseInt(raw) case None => 10 case Some(n) => if n == 0 then 10 else n;
    var atLeastOne := if value > 1 then value else 1;
    if atLeastOne < 80 then atLeastOne else 80
  }

  /** Every percentage in 1..80, typed in decimal, is kept as it is. */
  lemma ClampKeepsValidPercent(n: int)
    requires 1 <= n <= 80
    ensures ClampPercent(IntToDecimal(n)) == n
  {
    ParseIntOfDecimal(n);
  }

  /** Clamping the displayed value again changes nothing. */
  lemma ClampIsIdempotent(raw: string)
    ensures ClampPercent(IntToDecimal(ClampPercent(raw))) == ClampPercent(raw)
  {
    ClampKeepsValidPercent(ClampPercent(raw));
  }

  // ---------------------------------------------------------------------------
  // Finding the deployed discount function
  // ---------------------------------------------------------------------------

  /** `normalize(value)`: a string trimmed and lower-cased, anything else "". */
  function Normalize(v: Option<Json>): (r: string)
    ensures !(v.Some? && v.value.JString?) ==> r == ""
    ensures forall i :: 0 <= i < |r| ==> !IsAsciiUpper(r[i])
    ensures |r| > 0 ==> !IsWs(r[0]) && !IsWs(r[|r| - 1])
    ensures v.Some? && v.value.JString? ==> TrimmedUpToCase(v.value.s, r)
  {
    match v
    case Some(JString(s)) => NormalizedString(s); Lower(Trim(s))
    case _ => ""
  }

  /** `r` is `s` without its leading and trailing whitespace, up to letter case. */
  ghost predicate TrimmedUpToCase(s: string, r: string) {
    exists i :: (0 <= i <= |s| - |r| && EqualsIgnoringCase(s[i..i + |r|], r)
                 && AllWs(s[..i]) && AllWs(s[i + |r|..]))
  }

  lemma NormalizedString(s: string)
    ensures var r := Lower(Trim(s));
      && (|r| > 0 ==> !IsWs(r[0]) && !IsWs(r[|r| - 1]))
      && TrimmedUpToCase(s, r)
  {
    LowerKeepsWs(Trim(s));
    LowerOfTrimIsTrimmed(s);
  }

  lemma LowerOfTrimIsTrimmed(s: string)
    ensures TrimmedUpToCase(s, Lower(Trim(s)))
  {
    var t := Trim(s);
    TrimAt(s);
    LowerKeepsWs(t);
    TrimmedAt(s, Lower(t), |s| - |TrimStart(s)|);
  }

  lemma TrimmedAt(s: string, r: string, i: int)
    requires 0 <= i <= |s| - |r| && EqualsIgnoringCase(s[i..i + |r|], r)
    requires AllWs(s[..i]) && AllWs(s[i + |r|..])
    ensures TrimmedUpToCase(s, r)
  {
  }

  /** Lower-casing neither creates nor removes whitespace, and matches the
      original up to case. */
  lemma LowerKeepsWs(s: string)
    ensures forall i :: 0 <= i < |s| ==> (IsWs(Lower(s)[i]) <==> IsWs(s[i]))
    ensures EqualsIgnoringCase(s, Lower(s))
  {
  }

  /** A string already trimmed and in lower case is left alone. */
  lemma LowerTrimOfNormalized(r: string)
    requires forall i :: 0 <= i < |r| ==> !IsAsciiUpper(r[i])
    requires |r| > 0 ==> !IsWs(r[0]) && !IsWs(r[|r| - 1])
    ensures Lower(Trim(r)) == r
  {
    TrimOfTrimmed(r);
    assert forall i :: 0 <= i < |r| ==> LowerChar(r[i]) == r[i];
    assert Lower(r) == r;
  }

  /** Normalizing twice is normalizing once. */
  lemma NormalizeIsIdempotent(v: Option<Json>)
    ensures Normalize(Some(JString(Normalize(v)))) == Normalize(v)
  {
    LowerTrimOfNormalized(Normalize(v));
  }

  /** `edge?.node?.[key]`. */
  function NodeField(edge: Json, key: string): (v: Option<Json>)
    ensures v.Some? <==> Field(edge, "node").Some? && Field(Field(edge, "node").value, key).Some?
  {
    match Field(edge, "node")
    case None => None
    case Some(node) => Field(node, key)
  }

  /** `normalize(edge?.node?.[key])`: "" unless the field is a string. */
  function NormalizedField(edge: Json, key: string): (t: string)
    ensures !(NodeField(edge, key).Some? && NodeField(edge, key).value.JString?) ==> t == ""
    ensures forall i :: 0 <= i < |t| ==> !IsAsciiUpper(t[i])
  {
    Normalize(NodeField(edge, key))
  }

  function Title(edge: Json): string { NormalizedField(edge, "title") }

  function ApiType(edge: Json): string { NormalizedField(edge, "apiType") }

  /** The finder's test: the normalized title names the volume discount, or the
      normalized API type names the cart-lines or product discount target. */
  predicate IsDiscountFunction(edge: Json) {
    var title := Title(edge);
    var apiType := ApiType(edge);
    || title == "volume discount function"
    || Contains(title, "volume discount")
    || apiType == "cart_lines_discounts_generate_run"
    || apiType == "product_discounts"
    || Contains(apiType, "cart_lines_discounts")
    || Contains(apiType, "product_discounts")
  }

  /** A string contains each of its prefixes. */
  lemma ContainsPrefix(s: string, p: string, rest: string)
    requires s == p + rest
    ensures Contains(s, p)
  {
    assert OccursAt(s, p, 0);
  }

  // Kept apart so that other proofs never unroll the literals.
  lemma AcceptedNamesExtendSubstrings()
    ensures "volume discount function" == "volume discount" + " function"
    ensures "cart_lines_discounts_generate_run" == "cart_lines_discounts" + "_generate_run"
    ensures "product_discounts" == "product_discounts" + ""
  {
  }

  /** The three equality tests add nothing: each is covered by a substring test,
      so a function is accepted exactly when one of the substring tests holds. */
  lemma DiscountFunctionBySubstring(edge: Json)
    ensures IsDiscountFunction(edge) <==>
      || Contains(Title(edge), "volume discount")
      || Contains(ApiType(edge), "cart_lines_discounts")
      || Contains(ApiType(edge), "product_discounts")
  {
    var title, apiType := Title(edge), ApiType(edge);
    AcceptedNamesExtendSubstrings();
    if title == "volume discount function" {
      ContainsPrefix(title, "volume discount", " function");
    }
    if apiType == "cart_lines_discounts_generate_run" {
      ContainsPrefix(apiType, "cart_lines_discounts", "_generate_run");
    }
    if apiType == "product_discounts" {
      ContainsPrefix(apiType, "product_discounts", "");
    }
  }

  /** `xs.find(accept)`, as the index of the element found: the first element
      that `accept` holds for, or none when it holds for no element. */
  function FindFirst<T>(xs: seq<T>, accept: T -> bool): (r: Option<nat>)
    ensures r.Some? ==> r.value < |xs| && accept(xs[r.value])
    ensures r.Some? ==> forall j :: 0 <= j < r.value ==> !accept(xs[j])
    ensures r.None? <==> forall j :: 0 <= j < |xs| ==> !accept(xs[j])
  {
    if |xs| == 0 then None
    else if accept(xs[0]) then Some(0)
    else
      match FindFirst(xs[1..], accept)
      case None => None
      case Some(k) => Some(k + 1)
  }

  /** The discount function among the deployed functions, as the save action
      looks it up. */
  function FindDiscountFunction(edges: seq<Json>): Option<nat>
  {
    FindFirst(edges, IsDiscountFunction)
  }

  // ---------------------------------------------------------------------------
  // The saved configuration
  // ---------------------------------------------------------------------------

  /** The `VolumeDiscountConfig` that the save action writes. */
  datatype SavedConfig = SavedConfig(products: seq<string>, minQty: int, percentOff: int, widgetTemplate: string)

  /** The save action's configuration from the submitted fields: the parsed
      product ids, a fixed minimum of 2, the percentage, and the template, or the
      default template when the field is missing or empty. */
  function SaveActionConfig(productIds: Option<string>, percentOff: int, widgetTemplate: Option<string>): (c: SavedConfig)
    ensures c.minQty == 2
    ensures c.percentOff == percentOff
    ensures c.products == ParseProductIds(productIds)
    ensures SafeIds(c.products)
    ensures widgetTemplate.None? || widgetTemplate.value == "" ==> c.widgetTemplate == DefaultWidgetTemplate
    ensures widgetTemplate.Some? && widgetTemplate.value != "" ==> c.widgetTemplate == widgetTemplate.value
  {
    var template := if widgetTemplate.Some? && widgetTemplate.value != "" then widgetTemplate.value
                    else DefaultWidgetTemplate;
    SavedConfig(ParseProductIds(productIds), 2, percentOff, template)
  }

  /** The template field the page submits: the trimmed template, or the default
      one when it is blank. */
  function SubmittedTemplate(template: string): (t: string)
    ensures IsBlank(template) ==> t == DefaultWidgetTemplate
    ensures !IsBlank(template) ==> t == Trim(template)
    ensures t != ""
  {
    var trimmed := Trim(template);
    if trimmed != "" then trimmed else DefaultWidgetTemplate
  }

  /** What the page submits is what gets saved: the picked ids (when safe) and
      the submitted template, which is never blank and so is the one the
      preview renders. */
  lemma SaveKeepsSubmission(selected: seq<string>, percentOff: int, template: string)
    requires SafeIds(selected)
    ensures var c := SaveActionConfig(Some(JoinIds(selected)), percentOff, Some(SubmittedTemplate(template)));
      && c.products == selected
      && c.widgetTemplate == SubmittedTemplate(template)
      && BaseTemplate(Some(c.widgetTemplate)) == c.widgetTemplate
  {
    ProductIdsRoundTrip(selected);
    var t := SubmittedTemplate(template);
    if IsBlank(template) {
      assert t[0] == 'B';
    } else {
      assert !IsWs(t[0]);
    }
    assert !IsBlank(t);
  }

  /** The object that `JSON.stringify(config)` describes, as `JSON.parse`
      gives it back. */
  function ToJson(c: SavedConfig): Json
  {
    JObject(map[
      "products" := JArray(JStrings(c.products)),
      "minQty" := JNumber(c.minQty),
      "percentOff" := JNumber(c.percentOff),
      "widgetTemplate" := JString(c.widgetTemplate)])
  }

  function JStrings(ids: seq<string>): (js: seq<Json>)
    ensures |js| == |ids|
    ensures forall i :: 0 <= i < |ids| ==> js[i] == JString(ids[i])
  {
    seq(|ids|, i requires 0 <= i < |ids| => JString(ids[i]))
  }
}
