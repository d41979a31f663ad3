# Volume discount app — a Dafny model

This project models the core of a Shopify "buy 2, get X% off" app in Dafny and
proves properties of the model.

- **The discount function.** `cartLinesDiscountsGenerateRun` receives the cart,
  the requested discount classes and the shop metafield `volume_discount.rules`.
  It returns either no operation or one `productDiscountsAdd` operation. That
  operation discounts every configured cart line by the configured percentage.
  In the model this is `DiscountRun.Evaluate`, a pure function of the cart input
  and of the JSON parser's outcome.
- **The admin page helpers.** These produce the configuration the function reads:
  - the widget copy renderer (`renderWidgetCopy`, with its two case-insensitive
    placeholders `{{ minQty }}` and `{{ percentOff }}`);
  - the comma-separated product-id field and how the save action splits it;
  - the clamp on the percentage input;
  - `normalize` and the search for the deployed discount function;
  - the configuration object the save action stores.
- **Cross-module lemmas.** `ConfigContract` connects the two halves:
  - a saved configuration is read back by the function as expected;
  - the function's hard-coded message equals the admin page's default widget copy.

Modules:

| file | module | what it holds |
|---|---|---|
| wrappers.dfy | `Wrappers` | `Option` |
| json.dfy | `Json` | parsed JSON values, parse outcome, truthiness, property access |
| text.dfy | `Text` | JavaScript whitespace, `trim`, ASCII case folding, `includes` |
| numerals.dfy | `Numerals` | `${n}` for integers, `parseInt` |
| discount_run.dfy | `DiscountRun` | the discount function |
| widget_copy.dfy | `WidgetCopy` | `renderWidgetCopy` and the regular-expression replacement |
| admin_route.dfy | `AdminRoute` | product ids, percentage clamp, function finder, saved configuration |
| config_contract.dfy | `ConfigContract` | lemmas connecting the admin page and the function |

The admin page stores a `widgetTemplate`, but the function never reads it:
- The function hard-codes the message `Buy ${minQty}, get ${percentOff}% off`.
- `ConfigContract.MessageIsDefaultCopy` shows that this message is the widget
  copy rendered from the default template.

Two further points the code decides:
- A product id is tested with `!productId`, so an empty product id never matches.
- Product ids are compared as JSON values (`Set.has`), so only string elements of
  `products` can match.

## Model

| member | source | states |
|---|---|---|
| Json.IsFalsy | extensions/discount-function/src/cart_lines_discounts_generate_run.ts:48 | The falsy parsed values behind `!config`: `null`, `false`, `0` and `""`. `DiscountRun.ValidateConfig` rejects every one of them, since none is an object. |
| Json.Field | extensions/discount-function/src/cart_lines_discounts_generate_run.ts:49-53 | Property access: a value exactly when the parsed value is an object with that key, and then it is that member. Every other value reads as `undefined`. |
| DiscountRun.ValidateConfig | extensions/discount-function/src/cart_lines_discounts_generate_run.ts:47-56 | The configuration is accepted exactly when all of these hold: the value is an object, `products` is a non-empty array, `minQty` and `percentOff` are numbers, and `percentOff > 0`. Each failing check alone rejects it. An accepted configuration carries the decoded fields. |
| DiscountRun.ReadConfig | extensions/discount-function/src/cart_lines_discounts_generate_run.ts:33-45 | A missing metafield, an empty value, or a value `JSON.parse` rejects all give no configuration. A present, non-empty value that parses gives exactly the validation of the parsed value. |
| DiscountRun.Matches | extensions/discount-function/src/cart_lines_discounts_generate_run.ts:61-71 | The filter callback: a line is configured when it is a product variant whose product id is non-empty and, as a JSON string, one of `products`. `ConfigContract.SavedProductMatches` restates it for saved string ids. |
| DiscountRun.MatchedLines | extensions/discount-function/src/cart_lines_discounts_generate_run.ts:58-71 | The configured lines are exactly the cart lines that are product variants with a non-empty product id listed in `products`. The result is never longer than the cart. |
| DiscountRun.TotalQuantity | extensions/discount-function/src/cart_lines_discounts_generate_run.ts:77-80 | The `reduce` over quantities, starting from 0. `TotalQuantityAppend` and `BumpMovesTotal` state how it adds up. |
| DiscountRun.TargetsOf | extensions/discount-function/src/cart_lines_discounts_generate_run.ts:92-94 | One target per line, in the lines' order, each naming that line's id. |
| DiscountRun.DiscountMessage | extensions/discount-function/src/cart_lines_discounts_generate_run.ts:91 | The hard-coded message. `ConfigContract.MessageIsDefaultCopy` shows it equals the widget copy rendered from the default template. |
| DiscountRun.Evaluate | extensions/discount-function/src/cart_lines_discounts_generate_run.ts:15-109 | The result has at most one operation. There is none when the product class is not requested, when the cart is empty, or when there is no usable configuration. |
| DiscountRun.EmitsIffQualifies | extensions/discount-function/src/cart_lines_discounts_generate_run.ts:19-84 | An operation is emitted if and only if every gate passes: product class requested, cart non-empty, usable configuration, some configured line, and the configured lines' total quantity at least `minQty`. |
| DiscountRun.EmittedOperation | extensions/discount-function/src/cart_lines_discounts_generate_run.ts:86-108 | The emitted operation has strategy `All` and exactly one candidate. The candidate has percentage `percentOff` and message "Buy <minQty>, get <percentOff>% off". Its targets are the configured lines in cart order, every configured line is targeted, and every target is a configured line. |
| DiscountRun.MatchedLinesAppend | extensions/discount-function/src/cart_lines_discounts_generate_run.ts:61-71 | The configured lines of `a + b` are those of `a` followed by those of `b`, so cart order is kept. |
| DiscountRun.TotalQuantityAppend | extensions/discount-function/src/cart_lines_discounts_generate_run.ts:77-80 | The quantity sum of `a + b` is the sum of `a` plus the sum of `b`. |
| DiscountRun.BumpKeepsTargets | extensions/discount-function/src/cart_lines_discounts_generate_run.ts:61-71 | Changing one line's quantity does not change which lines are configured, nor their targets. |
| DiscountRun.BumpMovesTotal | extensions/discount-function/src/cart_lines_discounts_generate_run.ts:77-80 | Changing one line's quantity by `extra` moves the configured total by `extra` when that line is configured, and leaves it unchanged otherwise. |
| DiscountRun.MoreQuantityKeepsDiscount | extensions/discount-function/src/cart_lines_discounts_generate_run.ts:77-84 | Adding quantity to any line never withdraws an emitted discount, and the operation stays the same. |
| DiscountRun.EnoughQuantityEarnsDiscount | extensions/discount-function/src/cart_lines_discounts_generate_run.ts:77-84 | Suppose the product class is requested and the configuration is usable. Then raising a configured line's quantity until the total reaches `minQty` yields one operation. |
| DiscountRun.InsertUnmatched | extensions/discount-function/src/cart_lines_discounts_generate_run.ts:61-71 | Inserting a line that is not configured leaves the configured lines unchanged. |
| DiscountRun.UnmatchedLineIsIgnored | extensions/discount-function/src/cart_lines_discounts_generate_run.ts:58-84 | Inserting a line that is not configured, anywhere in the cart, leaves the result unchanged. |
| Numerals.IntToDecimal | extensions/discount-function/src/cart_lines_discounts_generate_run.ts:91 | `${n}` of an integer is a non-empty string. It starts with '-' exactly when `n` is negative, and the rest is a non-empty run of decimal digits with no leading zero unless `n` is 0. |
| Numerals.ParseInt | app/routes/app._index.tsx:451 | `parseInt` returns `NaN` (`None`) exactly when no digit of the chosen radix follows the leading whitespace, the sign and any `0x` prefix. |
| Numerals.ParseSigned | app/routes/app._index.tsx:451 | `parseInt` after the whitespace: `NaN` exactly when no digit follows the optional sign. |
| Numerals.ParseUnsigned | app/routes/app._index.tsx:451 | `parseInt` after the sign: `NaN` exactly when no digit of the chosen radix follows; a `0x` or `0X` prefix selects radix 16, otherwise radix 10. |
| Numerals.ParseIntOfDecimal | app/routes/app._index.tsx:451 | `parseInt` of `${n}` gives back `n` for every integer `n`. |
| Numerals.ParseIntOfDigitRun | app/routes/app._index.tsx:451 | `parseInt` of whitespace, an optional sign, a run of decimal digits and a rest that does not start with a digit gives the run's value with that sign. The rest is ignored. A lone "0" followed by 'x' or 'X' starts a hexadecimal number and is excluded. |
| Numerals.ParseIntStopsAtPoint | app/routes/app._index.tsx:451 | `parseInt("12.5")` is 12. |
| Numerals.ParseIntStopsAtExponent | app/routes/app._index.tsx:451 | `parseInt("1e3")` is 1. |
| Numerals.ParseIntLeadingZeros | app/routes/app._index.tsx:451 | `parseInt("007")` is 7. |
| Text.Trim | app/routes/app._index.tsx:27 | `trim` never lengthens its input. The result neither starts nor ends with whitespace, and it is empty exactly when the input is blank. |
| Text.TrimRemovesOnlyWs | app/routes/app._index.tsx:27 | What `trim` returns is a slice of the input with only whitespace cut off on each side. |
| Text.Lower | app/routes/app._index.tsx:170 | Models `toLowerCase` on ASCII letters only: it keeps the length, lower-cases each ASCII letter and leaves every other character alone. |
| Text.Contains | app/routes/app._index.tsx:179-183 | `includes`: `sub` occurs in `s` at some index. `ContainsIffInfix` states its reference reading. |
| Text.ContainsIffInfix | app/routes/app._index.tsx:179-183 | `s.includes(sub)` holds exactly when `s` is some text, then `sub`, then some more text. |
| Text.TrimOfTrimmed | app/routes/app._index.tsx:170 | Trimming a string that neither starts nor ends with whitespace changes nothing. |
| WidgetCopy.MatchAt | app/routes/app._index.tsx:32-33 | The regular expression tried at the start of the text. A match is at least four characters longer than the name and fits in the text. `MatchAtSoundness` and `MatchAtComplete` state that it matches exactly the placeholders. |
| WidgetCopy.ReplaceAll | app/routes/app._index.tsx:32-33 | The global `replace`. `ReplaceAllPlaceholderAnywhere`, `ReplaceAllKeepsNumeral`, `ReplaceAllOtherPlaceholderAnywhere`, `ReplaceAllWithoutPlaceholder` and `ReplaceAllLeavesNoPlaceholder` state what it does to each part of any text. |
| WidgetCopy.ReplaceAllAcross | app/routes/app._index.tsx:32-33 | When the text after a cut starts with a digit, a minus sign or `{{`, replacing the whole text equals replacing each side and joining the results. No match of the regular expression crosses such a cut. |
| WidgetCopy.MatchAtBefore | app/routes/app._index.tsx:32-33 | Appending text that starts with a digit, a minus sign or `{{` does not change whether the regular expression matches at the start, nor the length of the match. |
| WidgetCopy.ReplaceAllPlaceholderAnywhere | app/routes/app._index.tsx:32-33 | A placeholder for the name, anywhere in any text, is replaced by the value. The text before and after it is replaced on its own. |
| WidgetCopy.ReplaceAllKeepsNumeral | app/routes/app._index.tsx:32-33 | A number (digits and minus signs) anywhere in any text comes through unchanged. The text on either side is replaced on its own. |
| WidgetCopy.ReplaceAllSkipsOtherPlaceholder | app/routes/app._index.tsx:32-33 | A placeholder for a name with another first letter, at the start of the text, is kept as written. |
| WidgetCopy.ReplaceAllOtherPlaceholderAnywhere | app/routes/app._index.tsx:32-33 | A placeholder for a name with another first letter, anywhere in any text, is kept as written. The text on either side is replaced on its own. |
| WidgetCopy.MatchAtSoundness | app/routes/app._index.tsx:32-33 | When the regular expression matches at the start of the text, the matched prefix is a placeholder: `{{`, optional whitespace, the name in any letter case, optional whitespace, `}}`. |
| WidgetCopy.MatchAtComplete | app/routes/app._index.tsx:32-33 | Every placeholder at the start of the text is matched, with its exact length. |
| WidgetCopy.PlaceholderHasNoNumeralChar | app/routes/app._index.tsx:32-33 | A placeholder begins with a brace and contains no digit or minus sign, so an inserted number never forms one. |
| WidgetCopy.ReplaceAllWithoutPlaceholder | app/routes/app._index.tsx:32-33 | Text with no placeholder for the name comes back unchanged from the replacement. |
| WidgetCopy.ReplaceAllLeavesNoPlaceholder | app/routes/app._index.tsx:32-33 | Replacing with a number leaves no placeholder for the name, in any case or spacing, and creates none for another name. |
| WidgetCopy.BaseTemplate | app/routes/app._index.tsx:26-29 | The merchant's template is used as given unless it is missing, empty or all whitespace. In those cases the default template is used. |
| WidgetCopy.RenderWidgetCopy | app/routes/app._index.tsx:21-34 | `renderWidgetCopy`: both replacements applied to the chosen template. `RenderMinQtyPlaceholder`, `RenderPercentOffPlaceholder`, `RenderedCopyHasNoPlaceholder`, `TemplateWithoutPlaceholdersIsKept` and `DefaultTemplateRendering` state its properties. |
| WidgetCopy.RenderMinQtyPlaceholder | app/routes/app._index.tsx:21-34 | In any non-blank template, a `minQty` placeholder (any letter case, any inner whitespace) comes out as the decimal minimum quantity. The text on either side is rendered on its own. |
| WidgetCopy.RenderPercentOffPlaceholder | app/routes/app._index.tsx:21-34 | In any non-blank template, a `percentOff` placeholder comes out as the decimal percentage. The text on either side is rendered on its own. |
| WidgetCopy.RenderedCopyHasNoPlaceholder | app/routes/app._index.tsx:21-34 | The rendered copy contains no `minQty` placeholder and no `percentOff` placeholder. |
| WidgetCopy.TemplateWithoutPlaceholdersIsKept | app/routes/app._index.tsx:26-33 | A non-blank template without placeholders is shown exactly as written. |
| WidgetCopy.DefaultTemplateRendering | app/routes/app._index.tsx:19-34 | With no template or a blank one, the copy is "Buy <minQty>, get <percentOff>% off". |
| WidgetCopy.DefaultCopyExample | app/routes/app._index.tsx:19-34 | With the default template, `minQty = 2` and `percentOff = 10`, the copy is exactly "Buy 2, get 10% off". |
| AdminRoute.JoinIds | app/routes/app._index.tsx:368 | `join(",")`. `SplitOfJoin` and `JoinOfSplit` state that it is undone by `split(",")` and undoes it. |
| AdminRoute.SplitOnComma | app/routes/app._index.tsx:87 | `split(",")` gives at least one piece, and no piece contains a comma. |
| AdminRoute.KeepNonEmpty | app/routes/app._index.tsx:87 | `filter((id) => id)` keeps exactly the non-empty pieces and never lengthens the list. |
| AdminRoute.KeepNonEmptyAppend | app/routes/app._index.tsx:87 | Filtering distributes over concatenation, so the kept pieces stay in order and repeated pieces are kept. |
| AdminRoute.ParseProductIds | app/routes/app._index.tsx:87 | A missing or empty field gives no ids. Otherwise the ids are the comma-separated pieces with the empty ones filtered out, in order and with repeats. No id is empty or contains a comma. |
| AdminRoute.JoinOfSplit | app/routes/app._index.tsx:87 | Joining the pieces of `split(",")` with commas gives back the original text. |
| AdminRoute.SplitOfJoin | app/routes/app._index.tsx:368 | Splitting `ids.join(",")` gives back `ids`, when the list is non-empty and no id contains a comma. |
| AdminRoute.KeepNonEmptyOfNonEmpty | app/routes/app._index.tsx:87 | Filtering a list with no empty piece returns it whole. |
| AdminRoute.ProductIdsRoundTrip | app/routes/app._index.tsx:368 | The ids the merchant selected reach the saved configuration unchanged and in order, provided none is empty or contains a comma. No ids gives no ids. |
| AdminRoute.ClampPercent | app/routes/app._index.tsx:451-452 | The kept percentage lies in 1..80. An unreadable or zero input gives 10. A value already in 1..80 is kept, a negative value gives 1, and a value above 80 gives 80. |
| AdminRoute.ClampKeepsValidPercent | app/routes/app._index.tsx:451-452 | Every percentage in 1..80, typed in decimal, is kept as typed. |
| AdminRoute.ClampIsIdempotent | app/routes/app._index.tsx:451-452 | Clamping the displayed value a second time changes nothing. |
| AdminRoute.Normalize | app/routes/app._index.tsx:169-170 | For a non-string the result is "". For a string, the result neither starts nor ends with whitespace, has no upper-case ASCII letter, and equals the input minus surrounding whitespace, up to case. |
| AdminRoute.NormalizeIsIdempotent | app/routes/app._index.tsx:169-170 | Normalizing a normalized value changes nothing. |
| AdminRoute.NodeField | app/routes/app._index.tsx:174-175 | `edge?.node?.[key]`: a value exactly when the edge has a `node` member and that member has the key. |
| AdminRoute.NormalizedField | app/routes/app._index.tsx:174-175 | A normalized node field: "" unless the field is a string, and never an upper-case ASCII letter. |
| AdminRoute.Title | app/routes/app._index.tsx:174 | The normalized title, `NormalizedField(edge, "title")`, with the contract stated there. |
| AdminRoute.ApiType | app/routes/app._index.tsx:175 | The normalized API type, `NormalizedField(edge, "apiType")`, with the contract stated there. |
| AdminRoute.IsDiscountFunction | app/routes/app._index.tsx:173-185 | The `find` callback: the six tests on the normalized title and API type. `DiscountFunctionBySubstring` reduces them to three substring tests. |
| AdminRoute.FindDiscountFunction | app/routes/app._index.tsx:173-185 | The first accepted function edge, as `FindFirst` states for any test. |
| AdminRoute.DiscountFunctionBySubstring | app/routes/app._index.tsx:177-184 | A function is accepted exactly when its normalized title contains "volume discount", or its normalized API type contains "cart_lines_discounts" or "product_discounts". The three equality tests are subsumed by these. |
| AdminRoute.FindFirst | app/routes/app._index.tsx:173-185 | `find` returns the first accepted function: every earlier one is rejected. It returns none exactly when no function is accepted. |
| AdminRoute.SaveActionConfig | app/routes/app._index.tsx:80-91 | The saved configuration always has `minQty = 2` and the submitted percentage. Its products are the ids parsed from the submitted field, so they contain no empty id and no comma. Its template is the submitted one, or the default when the field is missing or empty. |
| AdminRoute.ToJson | app/routes/app._index.tsx:117 | `JSON.stringify(config)` as a JSON object with the four fields. `ConfigContract.SavedConfigIsRead` states that the function reads it back with the saved fields. |
| AdminRoute.SubmittedTemplate | app/routes/app._index.tsx:370-373 | The submitted template is the trimmed template, or the default one when it is blank. It is never empty. |
| AdminRoute.SaveKeepsSubmission | app/routes/app._index.tsx:366-373 | The page's submission is saved as sent: the selected ids (when safe) and the submitted template. The template is never blank, so the preview uses it as it is. |
| ConfigContract.MessageIsDefaultCopy | extensions/discount-function/src/cart_lines_discounts_generate_run.ts:91 | The function's hard-coded message equals the admin page's widget copy rendered from the default template. |
| ConfigContract.SavedConfigIsRead | extensions/discount-function/src/cart_lines_discounts_generate_run.ts:47-56 | A saved configuration read back from the metafield is accepted exactly when it has at least one product and a positive percentage. It is then read with the saved ids as strings, minimum 2, and the saved percentage. |
| ConfigContract.SavedProductMatches | extensions/discount-function/src/cart_lines_discounts_generate_run.ts:58-71 | Against saved ids, a cart line matches exactly when it is a product variant whose non-empty product id is among the ids. |
| ConfigContract.SavedOfferApplies | extensions/discount-function/src/cart_lines_discounts_generate_run.ts:73-97 | Suppose safe ids and a positive percentage were saved, the product class is requested, and the cart holds at least two units of saved products. Then the function emits one operation at the saved percentage. |

## Left out

- GraphQL I/O is not modelled: reading and writing the metafield, looking up, creating and updating the automatic discount, and the `userErrors` handling (app/routes/app._index.tsx:36-53, :94-278). app/routes/app.shop-gid.tsx is not part of this model either.
- `authenticate.admin`, `new Date().toISOString()` and `fetch` are foreign calls or the clock, and are left out.
- The React component is left out: state hooks, effects, toasts, the resource picker, and the markup.
- `JSON.parse` is a parameter of the model (`parse`): the model never reads JSON text. `JSON.stringify(config)` is represented by `AdminRoute.ToJson`, assuming the parser reads back what the serializer wrote.
- JSON numbers are integers, so fractional percentages and quantities are not modelled. `${n}` is modelled only in its plain decimal form; JavaScript switches to exponent notation from 1e21, which is not modelled.
- `Number(formData.get("percentOff"))` is not modelled: the save action receives the percentage as an integer.
- Numerals.ParseInt: the integer result is exact, whereas JavaScript rounds above 2^53. The clamp is not affected, because any such value is already above 80.
- Text.Lower and AdminRoute.Normalize: lower-case ASCII letters only, because JavaScript's full Unicode `toLowerCase` table is not modelled.
- The loader's default configuration and its in-place patch of `widgetTemplate` (app/routes/app._index.tsx:55-70) only feed the page's initial state, and are left out.
- `formData.get` returning a `File` is not modelled. A form field is a string, or `None` when absent.
- The GraphQL response envelope around the function edges (`data?.shopifyFunctions?.edges || []`) is not modelled. The finder takes the list of edges.
- Strings are sequences of Unicode scalar values, while JavaScript strings are UTF-16 code units. The modelled operations only examine ASCII characters and Basic Multilingual Plane whitespace, so this does not change their results. Lone surrogates cannot be represented.
