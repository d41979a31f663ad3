/** How the two halves of the app fit together: the configuration the admin
    page saves is the one the discount function reads, and the message the
    function attaches is the admin page's default widget copy. */
module ConfigContract {
  import opened Wrappers
  import opened Json
  import opened DiscountRun
  import opened WidgetCopy
  import opened AdminRoute

  /** The function's hard-coded message is the widget copy rendered from the
      default template. */
  lemma MessageIsDefaultCopy(minQty: int, percentOff: int)
    ensures DiscountMessage(minQty, percentOff) == RenderWidgetCopy(None, minQty, percentOff)
  {
    DefaultTemplateRendering(None, minQty, percentOff);
  }

  /** A saved configuration, read back from the metafield, is accepted exactly
      when it names at least one product and a positive percentage; it then
      carries the saved ids as strings, minimum 2 and the saved percentage. */
  lemma SavedConfigIsRead(saved: SavedConfig, text: string, parse: string -> ParseOutcome)
    requires saved.minQty == 2
    requires text != "" && parse(text) == Parsed(ToJson(saved))
    ensures ReadConfig(Some(Metafield(text)), parse).Some? <==> |saved.products| > 0 && saved.percentOff > 0
    ensures ReadConfig(Some(Metafield(text)), parse).Some? ==>
      ReadConfig(Some(Metafield(text)), parse).value
      == VolumeDiscountConfig(JStrings(saved.products), 2, saved.percentOff)
  {
    var j := ToJson(saved);
    assert Field(j, "products") == Some(JArray(JStrings(saved.products)));
    assert Field(j, "minQty") == Some(JNumber(2));
    assert Field(j, "percentOff") == Some(JNumber(saved.percentOff));
  }

  /** Against saved ids, a cart line matches exactly when it is a product
      variant whose non-empty product id is one of the ids. */
  lemma SavedProductMatches(line: CartLine, ids: seq<string>)
    ensures Matches(line, JStrings(ids)) <==>
      line.merchandise.ProductVariant? && line.merchandise.productId != "" && line.merchandise.productId in ids
  {
    if line.merchandise.ProductVariant? && line.merchandise.productId in ids {
      var k :| 0 <= k < |ids| && ids[k] == line.merchandise.productId;
      assert JStrings(ids)[k] == JString(line.merchandise.productId);
    }
  }

  /** End to end: after the merchant saves safe product ids and a positive
      percentage, a cart holding at least two units of those products, with the
      product class requested, gets the discount, at the saved percentage. */
  lemma SavedOfferApplies(
    selected: seq<string>, percentOff: int, template: Option<string>,
    text: string, parse: string -> ParseOutcome, input: CartInput)
    requires SafeIds(selected) && |selected| > 0 && percentOff > 0
    requires text != ""
    requires parse(text) == Parsed(ToJson(SaveActionConfig(Some(JoinIds(selected)), percentOff, template)))
    requires input.metafield == Some(Metafield(text)) && Product in input.discountClasses
    requires TotalQuantity(MatchedLines(input.lines, JStrings(selected))) >= 2
    ensures |Evaluate(input, parse)| == 1
    ensures Evaluate(input, parse)[0].candidates[0].percentage == percentOff
  {
    var saved := SaveActionConfig(Some(JoinIds(selected)), percentOff, template);
    ProductIdsRoundTrip(selected);
    SavedConfigIsRead(saved, text, parse);
    var matched := MatchedLines(input.lines, JStrings(selected));
    assert |matched| > 0;
  }
}
