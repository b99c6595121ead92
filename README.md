# Theme scripts of a Shopify storefront, modelled in Dafny

This project models the parts of the theme's JavaScript that make decisions.
The browser, the network and the timers are left out. It covers three script files.

- **The cart drawer's remove-one-unit / undo flow** (`assets/cart.js`).
  - The undo ledger is a comma-joined list of variant ids kept in browser storage under `removedItems`.
  - Page load clears it.
  - Each answered single-unit removal appends the variant id.
  - Undo pops the newest id and asks the server to add one unit back.
  - The undo banner counts the decoded entries.
  - Cart requests are returned as `Request` values instead of being sent.
- **Small helpers of `assets/global.js`**:
  - `SectionId`'s qualified ids;
  - `Shopify.setSelectorByValue`;
  - `QuantityInput.validateQtyRules`;
  - `throttle`;
  - the quick-order `BulkAdd` validator, queue and id→quantity map;
  - the announcement bar's wrap-around step;
  - the two FAQ accordions;
  - the reserve popup's variant matcher and its reserve-button check.
- **The collection page's price filter** (`assets/script.js`):
  - `normalizeNumber` and `formatNumber`;
  - the page-load "selected" rule;
  - the click handler;
  - `clearFields`.

How the model is built:
- State that the scripts update in place is a Dafny `class` whose methods carry `modifies` clauses: the ledger, a `<select>`, a quantity input, the throttle closure, the bulk-add element, an accordion, the reserve popup, the price filter and its inputs.
- Each such method is specified by a pure function or a predicate, and the promised properties are proved as lemmas about that function.
- Strings are `seq<char>`.
- The JavaScript string built-ins the scripts rely on are written out in `JsStrings`: `trim`, `replace(/c/g, '')`, `split`, `join` and `filter(Boolean)`.
- A JavaScript number that may be NaN is an `Option<int>`, with `None` standing for NaN.
- Clock readings (`new Date().getTime()`) are parameters.
- Whether an HTTP response arrived is a boolean parameter.

## Model

| member | source | states |
|---|---|---|
| JsStrings.TrimStartRemovesPrefix | assets/script.js:136 | the leading pass of `trim` removes a prefix made only of whitespace and stops at the first other character |
| JsStrings.TrimEndRemovesSuffix | assets/script.js:136 | the trailing pass of `trim` removes a suffix made only of whitespace and stops at the last other character |
| JsStrings.TrimClean | assets/script.js:136 | `trim` leaves no whitespace at either edge and never lengthens the text |
| JsStrings.TrimIsInfix | assets/script.js:136 | `trim` removes only whitespace, and only from the two ends |
| JsStrings.TrimKeepsCharacters | assets/script.js:71-72 | every character of a trimmed text occurs in the original |
| JsStrings.TrimOfTrimmed | assets/script.js:136 | trimming a text with no edge whitespace returns it unchanged |
| JsStrings.RemoveCharRemovesAll | assets/script.js:97 | `replace(/,/g, '')` leaves no comma |
| JsStrings.RemoveCharKeepsOthers | assets/script.js:97 | `replace(/,/g, '')` keeps every other character, as a multiset |
| JsStrings.RemoveCharAbsent | assets/script.js:97 | `replace(/,/g, '')` is the identity on comma-free text |
| JsStrings.IndexOf | assets/global.js:14 | the separator search finds the first occurrence, or reports that there is none |
| JsStrings.Split | assets/cart.js:112 | `split` always yields at least one piece |
| JsStrings.FilterNonEmpty | assets/cart.js:112 | `filter(Boolean)` keeps no empty string, never grows the list, and changes nothing when no piece is empty |
| JsStrings.FilterNonEmptyMembers | assets/cart.js:112 | `filter(Boolean)` keeps exactly the non-empty strings: a string is in the result iff it is in the list and not empty |
| JsStrings.FilterNonEmptyAppend | assets/cart.js:112 | filtering a concatenation is the concatenation of the filtered parts, so the kept strings stay in their order |
| JsStrings.FilterNonEmptySingle | assets/cart.js:112 | a single string is kept exactly when it is not empty |
| JsStrings.SplitOfPieceFree | assets/global.js:14 | text without the separator splits into itself alone |
| JsStrings.SplitAfterPiece | assets/cart.js:112 | a piece that ends at its first separator is the first piece `split` returns, and the rest is split on its own |
| JsStrings.SplitJoin | assets/cart.js:176 | splitting the `join` of pieces returns the pieces, when the separator can only be found at the joins |
| JsStrings.BeforeFirst | assets/script.js:97 | the text before the first `c` is a prefix without `c`, and is the whole text when there is no `c` |
| JsStrings.BeforeFirstStopsAt | assets/script.js:97 | the text before the first `c` ends exactly at the first `c` |
| JsStrings.SplitHeadIsBeforeFirst | assets/script.js:97 | `split(c)[0]` for a one-character separator is the text before the first `c` |
| JsStrings.NatToString | assets/cart.js:135 | a count prints as one or more decimal digits, a single digit exactly when it is below 10 |
| JsStrings.NatToStringReadsBack | assets/cart.js:135 | the printed digits denote the count itself, so the banner's number is the number of entries |
| Cart.EncodeEmpty | assets/cart.js:176 | the joined ledger is the empty text exactly when the ledger has no entry |
| Cart.DecodeEncode | assets/cart.js:111-112 | decoding the joined ledger returns the ledger (`''` decodes to `[]`), both with `filter(Boolean)` and with the store's `split` |
| Cart.DecodeRepresented | assets/cart.js:206-207 | whatever storage holds, decoding it yields the ledger it represents |
| Cart.UndoLedger.constructor | assets/cart.js:172 | a page starts from whatever value storage holds |
| Cart.UndoLedger.ClearOnPageLoad | assets/cart.js:1-4 | page load removes the key, leaving the ledger empty |
| Cart.UndoLedger.StoreDeletedVariant | assets/cart.js:171-177 | the id is appended at the end and duplicates are kept; storage then holds the joined ledger, so the ledger grows by exactly one |
| Cart.UndoLedger.UndoDelete | assets/cart.js:205-215 | an empty ledger sends nothing and writes nothing; otherwise the newest id is popped (LIFO), `Add(id, 1)` is requested, and the remaining prefix is written whether or not the add succeeds |
| Cart.UndoBanner | assets/cart.js:110-135 | no banner when the decoded ledger is empty or the container is missing; otherwise the text for the number of decoded entries |
| Cart.BannerCountsLedger | assets/cart.js:111-116 | the banner counts exactly the entries of the ledger in storage, and shows nothing for an empty ledger |
| Cart.BannerPlural | assets/cart.js:135 | "1 item removed from bag", and "N items removed from bag" for N > 1 |
| Cart.RemoveItemFromCart | assets/cart.js:31-59 | with an item at `line`, exactly one `{line, quantity: q-1}` change request; once the response arrives the variant is appended once and storage holds the joined ledger, and before that storage is untouched; with no item or no cart, no request and the ledger unchanged |
| Cart.DoubledRemoveClick | assets/cart.js:1-4 | with the remove listener attached twice (assets/cart.js:1-4 and 259), one click sends the same `{line, quantity: q-1}` request twice and records the id once per answered request; storage is rewritten to the joined ledger once either request is answered, and is untouched when neither is or when the line has no item |
| Cart.ChangeVariantRequest | assets/cart.js:265-292 | a request is issued iff the click hit a `.change-variant` button with truthy `data-line` and `data-variant-id`, and it always asks for quantity 1 |
| Cart.RemovalsThenUndos | assets/cart.js:171-215 | `k` removals followed by `j <= k` undos leave the first `k - j` recorded ids, and the undos ask the newest ids back first |
| SectionIds.PlainIdEndsAtSeparator | assets/global.js:14 | for a plain section id, the first `__` in `id + '__'` is the appended one |
| SectionIds.ParseIdOfQualified | assets/global.js:13-15 | `parseId(getIdForSection(s, n)) == s` for every name, when `s` has no `__` and does not end in `_` |
| SectionIds.ParseSectionNameOfQualified | assets/global.js:18-20 | `parseSectionName(getIdForSection(s, n)) == n` when neither `s` nor `n` contains `__` and `s` does not end in `_` |
| SectionIds.TrailingUnderscoreIsNotRecovered | assets/global.js:23-25 | a section id ending in `_` is not recovered: `'a_'` comes back as `'a'`, with name `'_b'` |
| SectionIds.NoUnderscore | assets/global.js:10 | an id without `_` can hold no separator |
| SectionIds.DocumentedParseExamples | assets/global.js:12-17 | the examples in the source's comments: `template--22224696705326__main` parses to the id `template--22224696705326` and the name `main` |
| ShopifyCommon.Selector.constructor | assets/global.js:326 | a `<select>` with its options and selected index |
| ShopifyCommon.Selector.SetSelectorByValue | assets/global.js:326-334 | returns the smallest index whose value or label equals the target and selects it; with no match, returns nothing and leaves the selection unchanged |
| QuantityRules.QtyRuleToggles | assets/global.js:269-280 | the minus button is toggled only when `min` is set, and disabled iff `value <= min`; the plus button is toggled only when `max` is set, and disabled iff `value >= max`; NaN disables neither |
| QuantityRules.RangeKeepsOneButtonEnabled | assets/global.js:269-280 | with `min < max`, both buttons are never disabled together, and a value strictly between enables both |
| QuantityRules.QuantityInput.constructor | assets/global.js:270 | a quantity input with its value, bounds and the buttons' `disabled` classes as the markup renders them |
| QuantityRules.QuantityInput.ValidateQtyRules | assets/global.js:269-280 | each button's `disabled` class becomes its toggle's value, and stays as it was when the attribute is not set |
| Throttling.RunsAreSpaced | assets/global.js:293-303 | whatever the clock does, runs of `fn` are at least `delay` apart, and the first is at least `delay` after the start |
| Throttling.RunsAreCalls | assets/global.js:295-301 | each run happens at some call time, and there are never more runs than calls |
| Throttling.Throttle.constructor | assets/global.js:294 | `lastCall` starts at 0 |
| Throttling.Throttle.Call | assets/global.js:295-302 | `fn` runs iff `now - lastCall >= delay`; `lastCall` becomes `now` exactly when it runs, and a rejected call changes nothing |
| Throttling.Throttle.CallAll | assets/global.js:293-303 | repeated calls of the wrapper run `fn` at exactly the times `RunTimes` picks (so the spacing lemmas hold of the closure), and `lastCall` ends at the last run |
| BulkOrder.CheckQuantity | assets/global.js:1243-1258 | min is checked, then max, then step, and only the first failure is reported; an accepted value is a multiple of the step and within any bound that is set |
| BulkOrder.ItemsMap | assets/global.js:1221-1224 | the id→quantity map holds exactly the ids of the sent entries |
| BulkOrder.LastEntryWins | assets/global.js:1222-1224 | for an id, the map holds the quantity of its last entry: later entries overwrite earlier ones |
| BulkOrder.Without | assets/global.js:1225 | the filtered queue keeps exactly the queued entries that were not sent |
| BulkOrder.SendingAllEmptiesQueue | assets/global.js:1211 | sending the whole queue, as the polling loop does, leaves it empty |
| BulkOrder.UnsentStayInOrder | assets/global.js:1225 | if nothing queued was sent, the queue is unchanged |
| BulkOrder.WithoutAppend | assets/global.js:1225 | the filter distributes over concatenation, so after a partial send the unsent entries keep the order they were queued in |
| BulkOrder.WithoutSingle | assets/global.js:1225 | a single entry stays exactly when it was not sent |
| BulkOrder.WithoutKeepsDistinct | assets/global.js:1225 | dropping the sent objects keeps each remaining object once in the queue |
| BulkOrder.BulkAdd.constructor | assets/global.js:1199-1204 | an empty queue, with no request started |
| BulkOrder.BulkAdd.StartQueue | assets/global.js:1207 | a new, distinct entry is pushed at the back of the queue, and every queued object still appears once (distinct tickets, part of the element's invariant) |
| BulkOrder.BulkAdd.ValidateQuantity | assets/global.js:1243-1258 | reports the verdict of the ordered rules, and only an accepted value is queued |
| BulkOrder.BulkAdd.SendRequest | assets/global.js:1219-1228 | sets `requestStarted`, builds the map from the sent entries, and removes exactly the sent entries from the queue, keeping each remaining object once |
| AnnouncementBar.JsRem | assets/global.js:1021 | JavaScript's `%` has the sign of the dividend (never positive for a negative one) and a magnitude below the divisor; for a non-negative dividend it is the ordinary remainder |
| AnnouncementBar.JsRemSmall | assets/global.js:1021 | a dividend strictly between `-n` and `n` is its own remainder, and `n` or `-n` leaves `0` |
| AnnouncementBar.Step | assets/global.js:1014-1034 | nothing without a slider; "next" gives `c+1`, wrapping to `0` after the last item; any other button gives `c-1`, or `n-1` at the first item |
| AnnouncementBar.DirectionFollowsIndex | assets/global.js:1030-1034 | with "next", or with "previous" and more than one item, the fade direction is "next" iff the index moves forward, so wrapping around reverses it |
| AnnouncementBar.SingleItemPreviousAnimatesNext | assets/global.js:1018-1034 | with a single item, "previous" stays on it but animates as "next", the one case where the direction does not follow the index |
| AnnouncementBar.OtherButtonMovesBack | assets/global.js:1018-1034 | any button name other than "next" moves back and animates as "previous" |
| AnnouncementBar.PreviousUndoesNext | assets/global.js:1018-1022 | stepping forward and then back returns to the item shown before |
| Faq.Toggled | assets/global.js:1635-1644 | the clicked panel's answer flips, and its heading is active exactly when the answer is open |
| Faq.CloseOthers | assets/global.js:1625-1633 | every other panel is closed and inactive, and the clicked one is untouched |
| Faq.ClickLeavesAtMostOneOpen | assets/global.js:1624-1645 | after any click in section 2, every other panel is closed, the clicked one flips, and at most one answer is open |
| Faq.Click1Effects | assets/global.js:1787-1821 | in section 1, a click outside the heading changes nothing; a click on the heading leaves at most one answer open; a click inside the "Lace Calendar" answer leaves that panel as it was |
| Faq.FirstLaceCalendar | assets/global.js:1754-1766 | the first panel titled "Lace Calendar", or none when no panel has that title |
| Faq.InitialSection1Opens | assets/global.js:1754-1781 | from closed panels, page load opens exactly the first "Lace Calendar" answer, or, when there is none, exactly the "Details" answers |
| Faq.Accordion.constructor | assets/global.js:1612 | the panels of one section |
| Faq.Accordion.InitSection2 | assets/global.js:1614-1622 | only the first answer opens at load, and its heading does not become active |
| Faq.Accordion.CloseOtherPanels | assets/global.js:1625-1633 | the loop closes every panel but the clicked one |
| Faq.Accordion.Click2 | assets/global.js:1624-1645 | section 2's handler yields the click's specified effect |
| Faq.Accordion.Click1 | assets/global.js:1787-1821 | section 1's handler yields the click's specified effect |
| Faq.Accordion.InitSection1 | assets/global.js:1754-1781 | the two load loops open the first "Lace Calendar" panel, or else every "Details" panel |
| Reserve.LastPick | assets/global.js:2036-2043 | the last input picked by the selected colour and product, or none when no input matches |
| Reserve.ReservePopup.constructor | assets/global.js:2029 | the popup's inputs, with the hidden field empty |
| Reserve.ReservePopup.UpdateSelectedVariant | assets/global.js:2029-2049 | every input matching the colour within the selected product gets checked, and all other inputs are untouched; the hidden field holds the last match's id, or `''` when nothing matched |
| Reserve.ReserveClick | assets/global.js:2085-2127 | "Please select variant." when the checked product radio has no truthy value (its `.val()`, the value `updateSelectedVariant` uses as the colour); otherwise "Please select your size." without a size; otherwise one `add` request for one unit of the hidden field's variant, with the Size and "Reserve Product: Yes" properties |
| Reserve.SubmitsWithoutMatchedVariant | assets/global.js:2029-2110 | the hidden field is never checked: when the product radio's value is truthy but, as the colour, matched no variant of the product named by its `data-title`, `updateSelectedVariant` leaves the field empty and the button still sends the request, with that empty id |
| PriceFilter.NormalizeNumberSplits | assets/script.js:96-98 | the model's `normalizeNumber` is the first piece of `split('.')` of the comma-free text |
| PriceFilter.NormalizeNumberClean | assets/script.js:96-98 | a normalized number contains no `,` and no `.`, and normalizing again changes nothing |
| PriceFilter.NormalizeNumberKeepsPlain | assets/script.js:96-98 | a number without `,` and `.` is its own normalization |
| PriceFilter.FormatNumberClean | assets/script.js:135-137 | a formatted number has no comma and no edge whitespace, and formatting again changes nothing |
| PriceFilter.Reselected | assets/script.js:78-90 | each item is "selected" iff both its `data-min` and its `data-max` equal the normalized values; its bounds are kept |
| PriceFilter.ReselectedIsExclusive | assets/script.js:78-90 | when no two presets share a range, at most one item ends "selected" |
| PriceFilter.PunctuatedBoundNeverSelected | assets/script.js:71-85 | a preset whose `data-min` is written with a `,` or a `.` is never selected on page load |
| PriceFilter.ClickedRangeIsReselected | assets/script.js:66-137 | for bounds without `,`, `.` or edge whitespace, the values a click writes into the inputs normalize back to the clicked preset's bounds; when both bounds are non-empty, page load selects that preset again, and when one is empty the guard of `applySelectedClass` (assets/script.js:77, stated by `PriceFilter.Filter.ApplySelectedClass`) fails and nothing is re-marked |
| PriceFilter.TextInput.constructor | assets/script.js:67 | an input with its current value |
| PriceFilter.ClearEvents | assets/script.js:150-156 | clearing dispatches two events per input |
| PriceFilter.ClearEventsHaveNoCallback | assets/script.js:150-156 | clearing dispatches only events, never the callback |
| PriceFilter.FirstNull | assets/script.js:150-151 | the position where `forEach` reaches a null input and throws, or the list's length when there is none |
| PriceFilter.ClearFields | assets/script.js:147-163 | every input before the first null is emptied, with an `input` and a `change` event each, and no other input is touched; a null throws; the callback is started after the last input when the list is non-empty, has no null and a callback is given |
| PriceFilter.ClearPair | assets/script.js:119 | for the two-input list, where the loop stops and which events it dispatches |
| PriceFilter.CallbackWhenAllCleared | assets/script.js:147-163 | the callback starts exactly when the list is non-empty, has no null and a callback is given; an empty list does nothing at all |
| PriceFilter.CallbackOnlyLast | assets/script.js:157-161 | the callback, when it starts, is the very last action: nothing before the end of the trace is a callback |
| PriceFilter.Filter.constructor | assets/script.js:63-68 | the preset items and the two range inputs, which are distinct elements |
| PriceFilter.Filter.ApplySelectedClass | assets/script.js:66-93 | with both inputs present and both trimmed, normalized values non-empty, every item is re-marked by the range rule; otherwise no item changes |
| PriceFilter.Filter.MarkRange | assets/script.js:78-90 | the loop over the presets re-marks every item by the range rule and changes nothing else |
| PriceFilter.Filter.SelectOnly | assets/script.js:102-109 | afterwards exactly the clicked item has "selected", and the items are otherwise unchanged |
| PriceFilter.Filter.WriteBounds | assets/script.js:119-124 | the callback writes `formatNumber` of each bound and announces both changes; a missing bound throws at `formatNumber(null)` |
| PriceFilter.Filter.HandleClick | assets/script.js:101-125 | exactly the clicked item is selected; with both inputs and both bounds present, the inputs end holding `formatNumber(data-min)` and `formatNumber(data-max)`, after the clearing events, the callback and both change events; a missing input or bound throws: with no `minInput` nothing is touched, with no `maxInput` only `minInput` is emptied, and with a missing bound both are emptied and the trace ends at the callback's start (with `minInput` holding its formatted bound when only `data-max` is missing) |

Definitions without a contract of their own, and the rows that state their properties:
- `Cart.Encode`, `Cart.Decode`, `Cart.ReadForStore` (assets/cart.js:111-112, 173-176): `Cart.EncodeEmpty`, `Cart.DecodeEncode`, `Cart.DecodeRepresented` and the ledger methods.
- `Cart.BannerText` (assets/cart.js:135): `Cart.BannerPlural`, `Cart.UndoBanner`, `JsStrings.NatToStringReadsBack`.
- `Cart.ItemAt` (assets/cart.js:35): `Cart.RemoveItemFromCart`.
- `SectionIds.GetIdForSection`, `SectionIds.ParseId`, `SectionIds.ParseSectionName` (assets/global.js:13-25): `SectionIds.ParseIdOfQualified`, `SectionIds.ParseSectionNameOfQualified`, `SectionIds.TrailingUnderscoreIsNotRecovered`, `SectionIds.DocumentedParseExamples`.
- `Throttling.RunTimes` (assets/global.js:293-303): `Throttling.RunsAreSpaced`, `Throttling.RunsAreCalls`, `Throttling.Throttle.CallAll`.
- `Faq.AfterClick2`, `Faq.AfterClick1`, `Faq.InitialSection1` (assets/global.js:1624-1645, 1787-1821, 1754-1781): `Faq.ClickLeavesAtMostOneOpen`, `Faq.Click1Effects`, `Faq.InitialSection1Opens`, and the `Faq.Accordion` methods proved equal to them.
- `Reserve.HiddenVariantAfter` (assets/global.js:2036-2048): `Reserve.ReservePopup.UpdateSelectedVariant`, `Reserve.SubmitsWithoutMatchedVariant`.
- `JsStrings.Trim`, `JsStrings.RemoveChar`, `JsStrings.Join` (assets/script.js:97, 136; assets/cart.js:176): the `Trim…`, `RemoveChar…` and `SplitJoin` rows.
- `PriceFilter.NormalizeNumber`, `PriceFilter.FormatNumber` (assets/script.js:96-98, 135-137): `PriceFilter.NormalizeNumberSplits`, `PriceFilter.NormalizeNumberClean`, `PriceFilter.NormalizeNumberKeepsPlain`, `PriceFilter.FormatNumberClean`, `PriceFilter.ClickedRangeIsReselected`.
- `PriceFilter.ClearTrace` (assets/script.js:147-163): `PriceFilter.ClearFields`, `PriceFilter.CallbackWhenAllCleared`, `PriceFilter.CallbackOnlyLast`.

## Left out

- HTTP and DOM I/O are not performed: `fetch` and `$.ajax`, `refreshCart`, `render_cart`, `addItemToCart`'s network call (assets/cart.js:68-83), section-fragment splicing and `HTMLUpdateUtility`. Requests are returned values; an answered request is a boolean parameter.
- `Cart.UndoLedger` does not cover races between overlapping remove and undo requests, or two tabs writing the same key, because the scripts do not coordinate them.
- The server's cart semantics (what `/cart/change.js` does at quantity 0) are not modelled, because they are external.
- The commented-out earlier implementations in assets/cart.js are not modelled: the whole-line removal, the unique-only store, the `id|quantity` JSON store, the older undo functions and the old `CartItems` class.
- The `$.each(items, ...)` at the top level of assets/cart.js (lines 62-65) is not modelled. `items` is not declared in that file, and what follows it depends on whether the page defines it.
- Cart.ChangeVariantRequest: states what the `.change-variant` handler does once it is attached. If the page does not define `items`, line 62 throws a ReferenceError while the script loads. The rest of the file's top level then never runs: neither the second `DOMContentLoaded` registration (line 259) nor this click listener (lines 265-292) is attached, and the model does not capture that the handler is then absent.
- Cart.RemoveItemFromCart: models one listener call. If the page defines `items`, `attachRemoveEventListeners` is registered twice (lines 1-4 and 259), so each remove button present when the page loads has two listeners and one click calls `removeItemFromCart` twice. `refreshCart` (lines 86-109) replaces the drawer's children and never calls `attachRemoveEventListeners` again, although the comment at line 244 says it does, so remove buttons rendered after a removal or an undo have no listener at all; the model does not track which buttons are listened to. `Cart.DoubledRemoveClick` covers the case where both carts are read before either change is sent. `Cart.RemovalsThenUndos` counts one recorded id per removal, which then means one per answered listener call rather than one per click.
- The remove button's `data-index` guard (assets/cart.js:245-257) is not modelled.
- `Cart.RemoveItemFromCart` takes `line` as a number. The button passes `data-index` as text (assets/cart.js:249-254); `line - 1` converts it for the lookup, but the change request body sends that same text as `line` (assets/cart.js:47), whereas `ChangeLine` carries a number.
- Cart: ledger entries are assumed to be non-empty, comma-free variant ids, as Shopify ids are. With a comma inside an id, the joined form would not decode back.
- Timers are not modelled: `debounce`, `BulkAdd.startQueue`'s 250 ms polling (`setInterval`), slideshow autoplay and the delayed label swaps. The model, like these files, never resets `requestStarted`, so the polling loop sends only the first batch.
- `Math.random`, pixel geometry and floating-point layout are not modelled: slider page arithmetic, the logo scroll, media centring and touch gestures.
- Focus handling, drawers, modals and the jQuery/slick wrappers are not modelled.
- `QuantityInput.onButtonClick` is not modelled, because it defers to the browser's `stepUp`/`stepDown`.
- Conversions of attribute text to numbers are not modelled: `parseInt`, `Number` in `<` against `dataset.min`, and jQuery `.data()`'s number conversion. Numbers arrive already converted, with NaN as `None`.
- `PriceFilter.ClickedRangeIsReselected` promises re-selection only when both bounds are non-empty: for an open-ended preset (an empty `data-min` or `data-max`) `applySelectedClass` re-marks nothing on page load, so no preset is selected again.
- `BulkOrder.BulkAdd.SendRequest` drops the call to `updateMultipleQty`. The map it would send is the method's result.
- `AnnouncementBar.Step` requires the current page to lie between 1 and the item count, as the slider keeps it. With zero items JavaScript's `% 0` gives NaN, which the model does not cover.
- `Faq`: answer heights (`scrollHeight`, `style.height`) are not modelled. A panel's title is already its heading's trimmed text.
- `Reserve.ReservePopup.UpdateSelectedVariant` treats the buy-variant inputs as independent. If they are radio buttons of one group, checking one makes the browser uncheck every other input of the group, both earlier matches and any previously checked input that does not match, so its "all other inputs are untouched" holds only for the model's independent inputs.
- The reserve popup's out-of-stock list toggling and the clearing of its error message on change (assets/global.js:2060-2083) are not modelled, because they are display only.
- `PriceFilter.Filter.ApplySelectedClass` and `HandleClick` do not record `console.log` output. Attribute values are text or `None` (missing); `getAttribute` never yields anything else.
