/** The cart-lines discount function: from the cart, the requested discount
    classes and the shop's `volume_discount.rules` metafield, it decides on zero or
    one product-discount operation. Everything here is a pure function of its
    input; `JSON.parse` is the parameter `parse`. */
module DiscountRun {
  import opened Wrappers
  import opened Json
  import opened Numerals

  datatype DiscountClass = Order | Product | Shipping

  /** A cart line's merchandise: only a product variant carries a product id. */
  datatype Merchandise = ProductVariant(productId: string) | OtherMerchandise

  datatype CartLine = CartLine(id: string, quantity: int, merchandise: Merchandise)

  datatype Metafield = Metafield(value: string)

  datatype CartInput = CartInput(
    lines: seq<CartLine>,
    discountClasses: seq<DiscountClass>,
    metafield: Option<Metafield>)

  datatype SelectionStrategy = All | First | Maximum

  datatype Target = CartLineTarget(id: string)

  datatype Candidate = Candidate(message: string, targets: seq<Target>, percentage: int)

  datatype Operation = ProductDiscountsAdd(candidates: seq<Candidate>, selectionStrategy: SelectionStrategy)

  /** The stored configuration once it has passed validation. `products` keeps the
      JSON array's elements as they are; `widgetTemplate` is never read here. */
  datatype VolumeDiscountConfig = VolumeDiscountConfig(products: seq<Json>, minQty: int, percentOff: int)

  /** The configuration gate: the decoded value must be truthy, `products` an
      array, `minQty` and `percentOff` numbers, `products` non-empty and
      `percentOff` positive. */
  function ValidateConfig(j: Json): (c: Option<VolumeDiscountConfig>)
    ensures !j.JObject? ==> c.None?
    ensures !(Field(j, "products").Some? && Field(j, "products").value.JArray?) ==> c.None?
    ensures !(Field(j, "minQty").Some? && Field(j, "minQty").value.JNumber?) ==> c.None?
    ensures !(Field(j, "percentOff").Some? && Field(j, "percentOff").value.JNumber?) ==> c.None?
    ensures c.Some? <==>
              && j.JObject?
              && Field(j, "products").Some? && Field(j, "products").value.JArray?
              && |Field(j, "products").value.items| > 0
              && Field(j, "minQty").Some? && Field(j, "minQty").value.JNumber?
              && Field(j, "percentOff").Some? && Field(j, "percentOff").value.JNumber?
              && Field(j, "percentOff").value.n > 0
    ensures c.Some? ==>
              && c.value.products == j.fields["products"].items
              && c.value.minQty == j.fields["minQty"].n
              && c.value.percentOff == j.fields["percentOff"].n
              && |c.value.products| > 0 && c.value.percentOff > 0
  {
    if IsFalsy(j) then None
    else
      match (Field(j, "products"), Field(j, "minQty"), Field(j, "percentOff"))
      case (Some(JArray(products)), Some(JNumber(minQty)), Some(JNumber(percentOff))) =>
        if |products| == 0 || percentOff <= 0 then None
        else Some(VolumeDiscountConfig(products, minQty, percentOff))
      case _ => None
  }

  /** Reading the metafield: a missing metafield or an empty value, and a value
      that `JSON.parse` rejects, all mean "no configuration". */
  function ReadConfig(metafield: Option<Metafield>, parse: string -> ParseOutcome): (c: Option<VolumeDiscountConfig>)
    ensures metafield.None? ==> c.None?
    ensures metafield.Some? && metafield.value.value == "" ==> c.None?
    ensures metafield.Some? && parse(metafield.value.value).ParseError? ==> c.None?
    ensures c.Some? ==>
              && metafield.Some? && parse(metafield.value.value).Parsed?
              && c == ValidateConfig(parse(metafield.value.value).value)
    ensures metafield.Some? && metafield.value.value != "" && parse(metafield.value.value).Parsed? ==>
              c == ValidateConfig(parse(metafield.value.value).value)
  {
    match metafield
    case None => None
    case Some(m) =>
      if m.value == "" then None
      else
        match parse(m.value)
        case ParseError => None
        case Parsed(j) => ValidateConfig(j)
  }

  /** A line is configured when its merchandise is a product variant whose
      (non-empty) product id is one of the configured products. Matching is exact
      equality with a string element of the array. */
  predicate Matches(line: CartLine, products: seq<Json>) {
    line.merchandise.ProductVariant?
    && line.merchandise.productId != ""
    && JString(line.merchandise.productId) in products
  }

  /** The configured lines, in cart order. */
  function MatchedLines(lines: seq<CartLine>, products: seq<Json>): (r: seq<CartLine>)
    ensures |r| <= |lines|
    ensures forall l :: l in r ==> l in lines && Matches(l, products)
    ensures forall l :: l in lines && Matches(l, products) ==> l in r
  {
    if |lines| == 0 then []
    else
      var rest := MatchedLines(lines[1..], products);
      assert forall l :: l in lines[1..] ==> l in lines;
      if Matches(lines[0], products) then [lines[0]] + rest else rest
  }

  /** Sum of the lines' quantities, as the source's `reduce` computes it. */
  function TotalQuantity(lines: seq<CartLine>): int
  {
    if |lines| == 0 then 0 else lines[0].quantity + TotalQuantity(lines[1..])
  }

  /** One target per line, referring to the line by id, in the lines' order. */
  function TargetsOf(lines: seq<CartLine>): (ts: seq<Target>)
    ensures |ts| == |lines|
    ensures forall i :: 0 <= i < |lines| ==> ts[i] == CartLineTarget(lines[i].id)
  {
    seq(|lines|, i requires 0 <= i < |lines| => CartLineTarget(lines[i].id))
  }

  /** The message the function hard-codes: "Buy <minQty>, get <percentOff>% off". */
  function DiscountMessage(minQty: int, percentOff: int): string
  {
    "Buy " + IntToDecimal(minQty) + ", get " + IntToDecimal(percentOff) + "% off"
  }

  /** `cartLinesDiscountsGenerateRun`: the chain of gates, then the single
      operation that discounts every configured line by `percentOff`. */
  function Evaluate(input: CartInput, parse: string -> ParseOutcome): (ops: seq<Operation>)
    ensures |ops| <= 1
    ensures Product !in input.discountClasses ==> ops == []
    ensures |input.lines| == 0 ==> ops == []
    ensures ReadConfig(input.metafield, parse).None? ==> ops == []
  {
    if Product !in input.discountClasses then []
    else if |input.lines| == 0 then []
    else
      match ReadConfig(input.metafield, parse)
      case None => []
      case Some(config) =>
        var matched := MatchedLines(input.lines, config.products);
        if |matched| == 0 then []
        else if TotalQuantity(matched) < config.minQty then []
        else
          [ProductDiscountsAdd(
            [Candidate(DiscountMessage(config.minQty, config.percentOff), TargetsOf(matched), config.percentOff)],
            All)]
  }

  /** The conditions under which the function discounts anything. */
  ghost predicate Qualifies(input: CartInput, parse: string -> ParseOutcome) {
    && Product in input.discountClasses
    && |input.lines| > 0
    && ReadConfig(input.metafield, parse).Some?
    && var config := ReadConfig(input.metafield, parse).value;
       && (exists l :: l in input.lines && Matches(l, config.products))
       && TotalQuantity(MatchedLines(input.lines, config.products)) >= config.minQty
  }

  /** An operation is emitted exactly when every gate passes: product class
      requested, non-empty cart, usable configuration, at least one configured
      line, and the configured lines' total quantity at least `minQty`. */
  lemma EmitsIffQualifies(input: CartInput, parse: string -> ParseOutcome)
    ensures |Evaluate(input, parse)| == 1 <==> Qualifies(input, parse)
    ensures Evaluate(input, parse) == [] <==> !Qualifies(input, parse)
  {
    if ReadConfig(input.metafield, parse).Some? {
      var config := ReadConfig(input.metafield, parse).value;
      var matched := MatchedLines(input.lines, config.products);
      if |matched| > 0 {
        assert matched[0] in matched;
      }
    }
  }

  /** The emitted operation: one candidate, strategy `All`, percentage
      `percentOff`, the hard-coded message, and exactly the configured lines, in
      cart order, as targets. */
  lemma EmittedOperation(input: CartInput, parse: string -> ParseOutcome, config: VolumeDiscountConfig)
    requires ReadConfig(input.metafield, parse) == Some(config)
    requires Evaluate(input, parse) != []
    ensures var op := Evaluate(input, parse)[0];
      && op.selectionStrategy == All
      && |op.candidates| == 1
      && op.candidates[0].percentage == config.percentOff
      && op.candidates[0].message == "Buy " + IntToDecimal(config.minQty) + ", get " + IntToDecimal(config.percentOff) + "% off"
      && op.candidates[0].targets == TargetsOf(MatchedLines(input.lines, config.products))
      && (forall l :: l in input.lines && Matches(l, config.products) ==> CartLineTarget(l.id) in op.candidates[0].targets)
      && (forall t :: t in op.candidates[0].targets ==> exists l :: l in input.lines && Matches(l, config.products) && t.id == l.id)
  {
    var matched := MatchedLines(input.lines, config.products);
    var ts := TargetsOf(matched);
    forall l | l in input.lines && Matches(l, config.products) ensures CartLineTarget(l.id) in ts {
      var i :| 0 <= i < |matched| && matched[i] == l;
      assert ts[i] == CartLineTarget(l.id);
    }
    forall t | t in ts ensures exists l :: l in input.lines && Matches(l, config.products) && t.id == l.id {
      var i :| 0 <= i < |ts| && ts[i] == t;
      assert matched[i] in matched;
    }
  }

  /** Filtering distributes over concatenation: the configured lines of `a + b`
      are those of `a` followed by those of `b`, so cart order is kept. */
  lemma {:induction false} MatchedLinesAppend(a: seq<CartLine>, b: seq<CartLine>, products: seq<Json>)
    ensures MatchedLines(a + b, products) == MatchedLines(a, products) + MatchedLines(b, products)
  {
    if |a| > 0 {
      assert (a + b)[1..] == a[1..] + b;
      MatchedLinesAppend(a[1..], b, products);
    } else {
      assert a + b == b;
    }
  }

  lemma {:induction false} TotalQuantityAppend(a: seq<CartLine>, b: seq<CartLine>)
    ensures TotalQuantity(a + b) == TotalQuantity(a) + TotalQuantity(b)
  {
    if |a| > 0 {
      assert (a + b)[1..] == a[1..] + b;
      TotalQuantityAppend(a[1..], b);
    } else {
      assert a + b == b;
    }
  }

  lemma MatchedLinesCons(lines: seq<CartLine>, products: seq<Json>)
    requires |lines| > 0
    ensures MatchedLines(lines, products)
            == (if Matches(lines[0], products) then [lines[0]] else []) + MatchedLines(lines[1..], products)
  {
  }

  lemma TargetsOfCons(l: CartLine, rest: seq<CartLine>)
    ensures TargetsOf([l] + rest) == [CartLineTarget(l.id)] + TargetsOf(rest)
  {
  }

  /** Raising one line's quantity: `lines` with line `i` holding `extra` more units. */
  function Bumped(lines: seq<CartLine>, i: nat, extra: int): (r: seq<CartLine>)
    requires i < |lines|
    ensures |r| == |lines|
    ensures forall j :: 0 <= j < |lines| && j != i ==> r[j] == lines[j]
    ensures r[i].id == lines[i].id && r[i].merchandise == lines[i].merchandise
    ensures r[i].quantity == lines[i].quantity + extra
  {
    lines[i := lines[i].(quantity := lines[i].quantity + extra)]
  }

  /** Changing one line's quantity changes neither which lines are configured nor
      their ids. */
  lemma {:induction false} BumpKeepsTargets(lines: seq<CartLine>, products: seq<Json>, i: nat, extra: int)
    requires i < |lines|
    ensures TargetsOf(MatchedLines(Bumped(lines, i, extra), products)) == TargetsOf(MatchedLines(lines, products))
  {
    var bumped := Bumped(lines, i, extra);
    var l0, b0 := lines[0], bumped[0];
    assert Matches(b0, products) == Matches(l0, products) && b0.id == l0.id;
    if i == 0 {
      assert bumped[1..] == lines[1..];
    } else {
      assert bumped[1..] == Bumped(lines[1..], i - 1, extra);
      BumpKeepsTargets(lines[1..], products, i - 1, extra);
    }
    var ml, mb := MatchedLines(lines[1..], products), MatchedLines(bumped[1..], products);
    MatchedLinesCons(lines, products);
    MatchedLinesCons(bumped, products);
    if Matches(l0, products) {
      TargetsOfCons(l0, ml);
      TargetsOfCons(b0, mb);
    } else {
      assert [] + mb == mb;
      assert [] + ml == ml;
    }
  }

  /** Changing one line's quantity by `extra` moves the configured total by
      `extra` when the line is configured, and leaves it alone otherwise. */
  lemma {:induction false} BumpMovesTotal(lines: seq<CartLine>, products: seq<Json>, i: nat, extra: int)
    requires i < |lines|
    ensures TotalQuantity(MatchedLines(Bumped(lines, i, extra), products))
            == TotalQuantity(MatchedLines(lines, products)) + (if Matches(lines[i], products) then extra else 0)
  {
    var bumped := Bumped(lines, i, extra);
    var l0, b0 := lines[0], bumped[0];
    assert Matches(b0, products) == Matches(l0, products);
    if i == 0 {
      assert bumped[1..] == lines[1..];
    } else {
      assert bumped[1..] == Bumped(lines[1..], i - 1, extra);
      BumpMovesTotal(lines[1..], products, i - 1, extra);
    }
    var ml, mb := MatchedLines(lines[1..], products), MatchedLines(bumped[1..], products);
    MatchedLinesCons(lines, products);
    MatchedLinesCons(bumped, products);
    if Matches(l0, products) {
      assert ([b0] + mb)[1..] == mb;
      assert ([l0] + ml)[1..] == ml;
    } else {
      assert [] + mb == mb;
      assert [] + ml == ml;
    }
  }

  /** Threshold monotonicity: with everything else fixed, adding to any line's
      quantity never withdraws a discount, and the discount stays the same. */
  lemma MoreQuantityKeepsDiscount(input: CartInput, parse: string -> ParseOutcome, i: nat, extra: nat)
    requires i < |input.lines|
    requires Evaluate(input, parse) != []
    ensures Evaluate(input.(lines := Bumped(input.lines, i, extra)), parse) == Evaluate(input, parse)
  {
    var config := ReadConfig(input.metafield, parse).value;
    BumpKeepsTargets(input.lines, config.products, i, extra);
    BumpMovesTotal(input.lines, config.products, i, extra);
  }

  /** The other half of monotonicity: raising a configured line's quantity far
      enough turns "no discount" into one operation, once the earlier gates
      (product class requested, usable configuration) pass. */
  lemma EnoughQuantityEarnsDiscount(input: CartInput, parse: string -> ParseOutcome, i: nat, extra: int)
    requires i < |input.lines|
    requires Product in input.discountClasses
    requires ReadConfig(input.metafield, parse).Some?
    requires Matches(input.lines[i], ReadConfig(input.metafield, parse).value.products)
    requires TotalQuantity(MatchedLines(input.lines, ReadConfig(input.metafield, parse).value.products)) + extra
             >= ReadConfig(input.metafield, parse).value.minQty
    ensures |Evaluate(input.(lines := Bumped(input.lines, i, extra)), parse)| == 1
  {
    var config := ReadConfig(input.metafield, parse).value;
    var bumped := Bumped(input.lines, i, extra);
    BumpMovesTotal(input.lines, config.products, i, extra);
    assert bumped[i] in bumped && Matches(bumped[i], config.products);
    assert bumped[i] in MatchedLines(bumped, config.products);
  }

  /** Lines that are not configured never count: inserting one anywhere in the
      cart leaves the result unchanged. */
  lemma UnmatchedLineIsIgnored(input: CartInput, parse: string -> ParseOutcome, k: nat, line: CartLine)
    requires k <= |input.lines|
    requires ReadConfig(input.metafield, parse).Some?
    requires !Matches(line, ReadConfig(input.metafield, parse).value.products)
    ensures Evaluate(input.(lines := input.lines[..k] + [line] + input.lines[k..]), parse) == Evaluate(input, parse)
  {
    var products := ReadConfig(input.metafield, parse).value.products;
    InsertUnmatched(input.lines[..k], input.lines[k..], line, products);
    assert input.lines[..k] + input.lines[k..] == input.lines;
  }

  lemma InsertUnmatched(a: seq<CartLine>, b: seq<CartLine>, line: CartLine, products: seq<Json>)
    requires !Matches(line, products)
    ensures MatchedLines(a + [line] + b, products) == MatchedLines(a + b, products)
  {
    MatchedLinesAppend(a + [line], b, products);
    MatchedLinesAppend(a, [line], products);
    MatchedLinesAppend(a, b, products);
    MatchedLinesCons([line], products);
    assert MatchedLines([line], products) == [];
  }
}
