/** The cart drawer's remove-one-unit / undo flow (assets/cart.js).

    Removing on a line asks the server to lower that line's quantity by one and,
    once the server has answered, records the variant id in the undo ledger: a
    comma-joined string of variant ids kept in browser storage under the key
    `removedItems`. Undo pops the most recent id and asks the server to add one
    unit of it back. The storage key is cleared on every page load.

    HTTP calls are not performed: each operation returns the request it would
    send, as a `Request` value. */
module Cart {
  import opened Optional
  import opened JsStrings

  /** One line of the cart as `/cart.js` returns it. */
  datatype LineItem = LineItem(variantId: string, quantity: nat)

  /** The cart requests the flow can issue. */
  datatype Request =
    | NoRequest
      /** POST /cart/change.js with `{line, quantity}` */
    | ChangeLine(line: int, quantity: int)
      /** POST /cart/change.js with `{line, id, quantity}` */
    | ReplaceVariant(lineText: string, id: string, quantity: int)
      /** POST /cart/add.js with `{id, quantity}` */
    | AddItem(id: string, quantity: int)

  /** A variant id as the ledger can hold it: the digits of a Shopify id are
      never empty and never contain the separator. */
  predicate IsVariantId(id: string) {
    id != [] && ',' !in id
  }

  predicate AllVariantIds(ids: seq<string>) {
    forall k :: 0 <= k < |ids| ==> IsVariantId(ids[k])
  }

  /** `list.join(',')`, the string written to storage. */
  function Encode(ids: seq<string>): string {
    Join(ids, ",")
  }

  /** `(localStorage.getItem('removedItems') || '').split(',').filter(Boolean)`,
      the decoding used by the undo banner and by undo. */
  function Decode(stored: Option<string>): seq<string> {
    FilterNonEmpty(Split(stored.GetOr(""), ","))
  }

  /** `deletedItems ? deletedItems.split(',') : []`, the decoding used when a
      removal is recorded (no `filter(Boolean)`, an empty string reads as `[]`). */
  function ReadForStore(stored: Option<string>): seq<string> {
    if stored.None? || stored.value == "" then [] else Split(stored.value, ",")
  }

  /** The persisted value `stored` holds exactly the ledger `entries`: absent
      only when the ledger is empty, otherwise their comma-joined form. */
  predicate Represents(stored: Option<string>, entries: seq<string>) {
    AllVariantIds(entries) &&
    (stored.None? ==> entries == []) &&
    (stored.Some? ==> stored.value == Encode(entries))
  }

  lemma {:induction false} EncodeEmpty(ids: seq<string>)
    requires AllVariantIds(ids)
    ensures Encode(ids) == "" <==> ids == []
  {
    if |ids| == 1 {
      assert Encode(ids) == ids[0];
    } else if |ids| > 1 {
      assert |Encode(ids)| >= |ids[0]|;
    }
  }

  /** Decoding the comma-joined ledger gives the ledger back, for every ledger
      of valid ids; in particular `''` decodes to `[]`. */
  lemma {:induction false} DecodeEncode(ids: seq<string>)
    requires AllVariantIds(ids)
    ensures Decode(Some(Encode(ids))) == ids
    ensures ReadForStore(Some(Encode(ids))) == ids
  {
    EncodeEmpty(ids);
    if ids == [] {
      NotContainsChar("", ',');
      SplitOfPieceFree("", ",");
      FilterNonEmptySingle("");
    } else {
      forall k | 0 <= k < |ids| - 1
        ensures EndsAtSeparator(ids[k], ",")
      {
        CharSeparator(ids[k], ',');
      }
      NotContainsChar(ids[|ids| - 1], ',');
      assert SeparablePieces(ids, ",");
      SplitJoin(ids, ",");
    }
  }

  /** Whatever the storage holds, decoding it reads the ledger it represents. */
  lemma DecodeRepresented(stored: Option<string>, entries: seq<string>)
    requires Represents(stored, entries)
    ensures Decode(stored) == entries
  {
    if stored.None? {
      DecodeEncode([]);
    } else {
      DecodeEncode(entries);
    }
  }

  /** The persisted undo ledger. `stored` is the storage key's value (`None`
      when the key is absent); `entries` is the list of variant ids it encodes. */
  class UndoLedger {
    var stored: Option<string>
    ghost var entries: seq<string>

    ghost predicate Valid()
      reads this
    {
      Represents(stored, entries)
    }

    /** The ledger as the browser hands it to a new page: whatever an earlier
        page left in storage. */
    constructor (persisted: Option<string>)
      ensures stored == persisted
    {
      stored := persisted;
      entries := Decode(persisted);
    }

    /** `localStorage.removeItem('removedItems')` on DOMContentLoaded: the
        ledger is empty whatever the storage held before. */
    method ClearOnPageLoad()
      modifies this
      ensures Valid()
      ensures stored == None && entries == []
    {
      stored := None;
      entries := [];
    }

    /** `storeDeletedVariant`: read, append one id (duplicates kept), write back. */
    method StoreDeletedVariant(variantId: string)
      requires Valid() && IsVariantId(variantId)
      modifies this
      ensures Valid()
      ensures entries == old(entries) + [variantId]
      ensures stored == Some(Encode(entries))
    {
      DecodeEncode(entries);
      EncodeEmpty(entries);
      var deletedItems := ReadForStore(stored);
      deletedItems := deletedItems + [variantId];
      stored := Some(Join(deletedItems, ","));
      entries := entries + [variantId];
    }

    /** `undoDelete`: with an empty ledger, no request and no write; otherwise
        pop the newest id, ask to add one unit of it back, and write the rest
        (the write does not wait for the add request). */
    method UndoDelete() returns (req: Request)
      requires Valid()
      modifies this
      ensures Valid()
      ensures old(entries) == [] ==> req == NoRequest && stored == old(stored) && entries == []
      ensures old(entries) != [] ==>
                && req == AddItem(old(entries)[|old(entries)| - 1], 1)
                && entries == old(entries)[..|old(entries)| - 1]
                && stored == Some(Encode(entries))
    {
      DecodeRepresented(stored, entries);
      var deletedList := Decode(stored);
      if |deletedList| == 0 {
        return NoRequest;
      }
      var lastDeletedVariant := deletedList[|deletedList| - 1];
      deletedList := deletedList[..|deletedList| - 1];
      req := AddItem(lastDeletedVariant, 1);
      stored := Some(Join(deletedList, ","));
      entries := deletedList;
    }
  }

  /** The banner text for `n` removed units. */
  function BannerText(n: nat): string {
    NatToString(n) + " item" + (if n > 1 then "s" else "") + " removed from bag"
  }

  /** `showUndoMessage`: nothing when the decoded ledger is empty or the
      `#undo-message-text` container is missing, otherwise the banner for the
      number of decoded entries. */
  function UndoBanner(stored: Option<string>, containerFound: bool): (r: Option<string>)
    ensures r.None? <==> Decode(stored) == [] || !containerFound
    ensures r.Some? ==> r.value == BannerText(|Decode(stored)|)
  {
    var deletedCount := |Decode(stored)|;
    if deletedCount == 0 then None
    else if !containerFound then None
    else Some(BannerText(deletedCount))
  }

  /** The banner counts exactly the entries of the ledger the storage holds. */
  lemma BannerCountsLedger(stored: Option<string>, entries: seq<string>)
    requires Represents(stored, entries)
    ensures UndoBanner(stored, true) == if entries == [] then None else Some(BannerText(|entries|))
  {
    DecodeRepresented(stored, entries);
  }

  /** The plural "s" is there exactly when more than one unit was removed. */
  lemma BannerPlural(n: nat)
    requires n >= 1
    ensures n == 1 ==> BannerText(n) == "1 item removed from bag"
    ensures n > 1 ==> BannerText(n) == NatToString(n) + " items removed from bag"
  {
    if n == 1 {
      assert NatToString(n) == "1";
    }
  }

  /** The cart line at 1-based position `line`, `undefined` when there is none. */
  function ItemAt(items: seq<LineItem>, line: int): (r: Option<LineItem>)
    ensures r.Some? <==> 1 <= line <= |items|
    ensures r.Some? ==> r.value == items[line - 1]
  {
    if 1 <= line <= |items| then Some(items[line - 1]) else None
  }

  predicate CartHoldsVariantIds(items: seq<LineItem>) {
    forall k :: 0 <= k < |items| ==> IsVariantId(items[k].variantId)
  }

  /** `removeItemFromCart(line)`. `cart` is the answer to GET /cart.js (`None`
      when that fetch fails) and `changeAnswered` says whether the change
      request's response arrived. When an item is at `line`, exactly one change
      request lowers its quantity by one, and its variant id is recorded only
      once the response arrived; otherwise nothing is sent and nothing stored. */
  method RemoveItemFromCart(ledger: UndoLedger, cart: Option<seq<LineItem>>, line: int, changeAnswered: bool)
    returns (req: Request)
    requires ledger.Valid()
    requires cart.Some? ==> CartHoldsVariantIds(cart.value)
    modifies ledger
    ensures ledger.Valid()
    ensures (cart.None? || ItemAt(cart.value, line).None?) ==>
              req == NoRequest && ledger.stored == old(ledger.stored) && ledger.entries == old(ledger.entries)
    ensures cart.Some? && ItemAt(cart.value, line).Some? ==>
              var item := cart.value[line - 1];
              && req == ChangeLine(line, item.quantity - 1)
              && ledger.entries == old(ledger.entries) + (if changeAnswered then [item.variantId] else [])
              && ledger.stored == if changeAnswered then Some(Encode(ledger.entries)) else old(ledger.stored)
  {
    if cart.None? {
      return NoRequest;
    }
    var item := ItemAt(cart.value, line);
    if item.None? {
      return NoRequest;
    }
    var newQty := item.value.quantity - 1;
    req := ChangeLine(line, newQty);
    if changeAnswered {
      ledger.StoreDeletedVariant(item.value.variantId);
    }
  }

  /** One click on a remove button when assets/cart.js has attached
      `attachRemoveEventListeners` twice (on both `DOMContentLoaded`
      registrations): both listeners call `removeItemFromCart(line)`. When both
      GET /cart.js answers arrive before either change request is sent, they
      carry the same cart, so both requests ask for the same quantity, one
      below the current one, while the ledger records the id once per
      answered request. */
  method DoubledRemoveClick(ledger: UndoLedger, cart: seq<LineItem>, line: int, firstAnswered: bool, secondAnswered: bool)
    returns (first: Request, second: Request)
    requires ledger.Valid() && CartHoldsVariantIds(cart)
    modifies ledger
    ensures ledger.Valid()
    ensures !(1 <= line <= |cart|) ==>
              && first == NoRequest && second == NoRequest
              && ledger.entries == old(ledger.entries) && ledger.stored == old(ledger.stored)
    ensures 1 <= line <= |cart| ==>
              var item := cart[line - 1];
              && first == ChangeLine(line, item.quantity - 1) && second == first
              && ledger.entries == old(ledger.entries) + (if firstAnswered then [item.variantId] else [])
                                                       + (if secondAnswered then [item.variantId] else [])
              && ledger.stored == if firstAnswered || secondAnswered then Some(Encode(ledger.entries))
                                  else old(ledger.stored)
  {
    first := RemoveItemFromCart(ledger, Some(cart), line, firstAnswered);
    second := RemoveItemFromCart(ledger, Some(cart), line, secondAnswered);
  }

  /** The `.change-variant` click handler: no request unless the click hit such
      a button and both `data-line` and `data-variant-id` are truthy; the
      request replaces that line with one unit of the new variant. */
  function ChangeVariantRequest(onButton: bool, line: Option<string>, newVariantId: Option<string>): (r: Request)
    ensures r != NoRequest <==> onButton && Truthy(line) && Truthy(newVariantId)
    ensures r != NoRequest ==> r == ReplaceVariant(line.value, newVariantId.value, 1)
  {
    if !onButton then NoRequest
    else if !Truthy(line) || !Truthy(newVariantId) then NoRequest
    else ReplaceVariant(line.value, newVariantId.value, 1)
  }

  /** `k` removals followed by `j <= k` undos: the ledger ends with the first
      `k - j` recorded ids, and the undos ask back the newest ids first. */
  method RemovalsThenUndos(ledger: UndoLedger, ids: seq<string>, j: nat) returns (adds: seq<Request>)
    requires ledger.Valid() && AllVariantIds(ids) && j <= |ids|
    modifies ledger
    ensures ledger.Valid()
    ensures ledger.entries == old(ledger.entries) + ids[..|ids| - j]
    ensures |adds| == j
    ensures forall t :: 0 <= t < j ==> adds[t] == AddItem(ids[|ids| - 1 - t], 1)
  {
    ghost var start := ledger.entries;
    var i := 0;
    while i < |ids|
      invariant 0 <= i <= |ids|
      invariant ledger.Valid()
      invariant ledger.entries == start + ids[..i]
    {
      ledger.StoreDeletedVariant(ids[i]);
      assert ids[..i + 1] == ids[..i] + [ids[i]];
      i := i + 1;
    }
    adds := [];
    var t := 0;
    while t < j
      invariant 0 <= t <= j
      invariant ledger.Valid()
      invariant ledger.entries == start + ids[..|ids| - t]
      invariant |adds| == t
      invariant forall u :: 0 <= u < t ==> adds[u] == AddItem(ids[|ids| - 1 - u], 1)
    {
      var req := ledger.UndoDelete();
      assert (start + ids[..|ids| - t])[..|start| + |ids| - t - 1] == start + ids[..|ids| - t - 1];
      adds := adds + [req];
      t := t + 1;
    }
  }

  /** A worked flow: three single-unit removals of a quantity-3 line after a
      page load, each recorded and counted by the banner. */
  method RemovalScenario() {
    var ledger := new UndoLedger(Some("42,42"));
    ledger.ClearOnPageLoad();
    var req := RemoveItemFromCart(ledger, Some([LineItem("V1", 3)]), 1, true);
    assert req == ChangeLine(1, 2) && ledger.entries == ["V1"];
    BannerCountsLedger(ledger.stored, ledger.entries);
    assert UndoBanner(ledger.stored, true) == Some(BannerText(1));
    req := RemoveItemFromCart(ledger, Some([LineItem("V1", 2)]), 1, true);
    req := RemoveItemFromCart(ledger, Some([LineItem("V1", 1)]), 1, true);
    assert req == ChangeLine(1, 0) && ledger.entries == ["V1", "V1", "V1"];
  }

  /** A worked flow after a page load: one undo of three recorded removals, a removal at a line
      the cart does not have, then a reload that leaves nothing to undo. */
  method UndoScenario() {
    var ledger := new UndoLedger(None);
    ledger.ClearOnPageLoad();
    var req := RemoveItemFromCart(ledger, Some([LineItem("V1", 1)]), 1, true);
    req := RemoveItemFromCart(ledger, Some([LineItem("V1", 1)]), 1, true);
    req := RemoveItemFromCart(ledger, Some([LineItem("V1", 1)]), 1, true);
    assert ledger.entries == ["V1", "V1", "V1"];
    req := ledger.UndoDelete();
    assert req == AddItem("V1", 1) && ledger.entries == ["V1", "V1"];
    req := RemoveItemFromCart(ledger, Some([LineItem("V1", 3)]), 2, true);
    assert req == NoRequest && ledger.entries == ["V1", "V1"];
    ledger.ClearOnPageLoad();
    req := ledger.UndoDelete();
    assert req == NoRequest && ledger.stored == None;
  }
}
