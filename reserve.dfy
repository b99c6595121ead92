/** The reserve popup (assets/global.js): choosing a product colour picks the
    matching buy variant into the hidden field `#reserve_v_id`, and the reserve
    button checks that a product and a size were chosen before asking to add
    one unit of that variant to the cart. */
module Reserve {
  import opened Optional
  import opened JsStrings

  /** One `input[name='reserve_buy_variant']`: the `data-title` of the
      `.product_reserve_item` it sits in, its `data-color` (`None` when the
      attribute is missing), its value (a variant id) and whether it is checked. */
  datatype VariantInput = VariantInput(productTitle: string, color: Option<string>, value: string, checked: bool)

  /** The attribute selector `[data-title="${selectedProduct}"]`: an undefined
      title is printed as the text "undefined". */
  function TitleText(selectedProduct: Option<string>): string {
    selectedProduct.GetOr("undefined")
  }

  /** A variant input that the selected colour and product pick: it sits in the
      selected product's item and `data-color === selectedColor`. */
  predicate Picks(v: VariantInput, selectedColor: Option<string>, selectedProduct: Option<string>) {
    v.productTitle == TitleText(selectedProduct) && v.color == selectedColor
  }

  /** The last picked input, if any. */
  function LastPick(vs: seq<VariantInput>, selectedColor: Option<string>, selectedProduct: Option<string>): (r: Option<nat>)
    ensures r.Some? ==> r.value < |vs| && Picks(vs[r.value], selectedColor, selectedProduct)
    ensures r.Some? ==> forall j :: r.value < j < |vs| ==> !Picks(vs[j], selectedColor, selectedProduct)
    ensures r.None? ==> forall j :: 0 <= j < |vs| ==> !Picks(vs[j], selectedColor, selectedProduct)
  {
    if vs == [] then None
    else if Picks(vs[|vs| - 1], selectedColor, selectedProduct) then Some(|vs| - 1)
    else
      var r := LastPick(vs[..|vs| - 1], selectedColor, selectedProduct);
      assert forall j :: 0 <= j < |vs| - 1 ==> vs[..|vs| - 1][j] == vs[j];
      r
  }

  /** What `updateSelectedVariant` leaves in the hidden field: the last
      picked input's value, or `''` when nothing was picked. */
  function HiddenVariantAfter(vs: seq<VariantInput>, selectedColor: Option<string>, selectedProduct: Option<string>): string {
    match LastPick(vs, selectedColor, selectedProduct)
    case Some(k) => vs[k].value
    case None => ""
  }

  /** The popup's inputs and its hidden variant-id field. */
  class ReservePopup {
    var variants: seq<VariantInput>
    var hiddenVariantId: string

    constructor (variants: seq<VariantInput>)
      ensures this.variants == variants && hiddenVariantId == ""
    {
      this.variants := variants;
      hiddenVariantId := "";
    }

    /** `updateSelectedVariant`: every picked input is checked and writes its
        value to the hidden field, so the last one wins; with no pick the field
        is emptied. Inputs that are not picked are untouched. */
    method UpdateSelectedVariant(selectedColor: Option<string>, selectedProduct: Option<string>)
      modifies this
      ensures |variants| == |old(variants)|
      ensures forall k :: 0 <= k < |variants| ==>
                variants[k] == if Picks(old(variants)[k], selectedColor, selectedProduct)
                               then old(variants)[k].(checked := true) else old(variants)[k]
      ensures hiddenVariantId == HiddenVariantAfter(old(variants), selectedColor, selectedProduct)
    {
      var matchFound := false;
      var j := 0;
      while j < |variants|
        invariant 0 <= j <= |variants| == |old(variants)|
        invariant forall k :: 0 <= k < j ==>
                    variants[k] == if Picks(old(variants)[k], selectedColor, selectedProduct)
                                   then old(variants)[k].(checked := true) else old(variants)[k]
        invariant forall k :: j <= k < |variants| ==> variants[k] == old(variants)[k]
        invariant matchFound <==> LastPick(old(variants)[..j], selectedColor, selectedProduct).Some?
        invariant matchFound ==> hiddenVariantId == old(variants)[LastPick(old(variants)[..j], selectedColor, selectedProduct).value].value
      {
        assert old(variants)[..j + 1][..j] == old(variants)[..j];
        var v := variants[j];
        if v.productTitle == TitleText(selectedProduct) && v.color == selectedColor {
          variants := variants[j := v.(checked := true)];
          hiddenVariantId := v.value;
          matchFound := true;
        }
        j := j + 1;
      }
      assert old(variants)[..j] == old(variants);
      if !matchFound {
        hiddenVariantId := "";
      }
    }
  }

  /** POST /cart/add.js with `{id, quantity, properties: {Size, "Reserve Product"}}`. */
  datatype ReserveRequest = AddReserved(id: string, quantity: int, size: Option<string>, reserveProduct: string)

  /** What a click on `#reserve-product-button` does. */
  datatype ReserveOutcome =
    | SelectVariantError
    | SelectSizeError
    | Submit(request: ReserveRequest)

  /** The reserve button's checks: the product radio first, then the size
      radio; only when both hold is the add request sent.
      `productRadioValue` is the checked product radio's `.val()`, the same
      value `updateSelectedVariant` reads as the selected colour (not its
      `data-title`); `selectedSize` is the checked size radio's value,
      `sizeValue` its `data-reserve-size`, and `variantId` the hidden field's
      value. */
  function ReserveClick(productRadioValue: Option<string>, selectedSize: Option<string>,
                        sizeValue: Option<string>, variantId: string): (r: ReserveOutcome)
    ensures r == SelectVariantError <==> !Truthy(productRadioValue)
    ensures r == SelectSizeError <==> Truthy(productRadioValue) && !Truthy(selectedSize)
    ensures r.Submit? <==> Truthy(productRadioValue) && Truthy(selectedSize)
    ensures r.Submit? ==> r.request == AddReserved(variantId, 1, sizeValue, "Yes")
  {
    if !Truthy(productRadioValue) then SelectVariantError
    else if !Truthy(selectedSize) then SelectSizeError
    else Submit(AddReserved(variantId, 1, sizeValue, "Yes"))
  }

  /** The hidden field is not checked: when choosing the colour matched no buy
      variant of the chosen product, the field is left empty and the reserve
      button still sends the request, with an empty id. The button tests the
      same radio value `color` that the match used; `product` is that radio's
      `data-title`. */
  lemma SubmitsWithoutMatchedVariant(vs: seq<VariantInput>, color: Option<string>, product: Option<string>,
                                     size: string, sizeValue: Option<string>)
    requires Truthy(color) && size != ""
    requires LastPick(vs, color, product).None?
    ensures ReserveClick(color, Some(size), sizeValue, HiddenVariantAfter(vs, color, product))
              == Submit(AddReserved("", 1, sizeValue, "Yes"))
  {
  }
}
