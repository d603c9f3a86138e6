/**
 * What a click on a promotional banner does: nothing, open an external link,
 * or open the detail card of the product the banner points at. The outcome
 * is returned as a value instead of being performed.
 */
module BannerClick {
  import opened Js
  import opened Strings
  import opened Catalog

  /** A banner record. `kind` is the record's `type` field; title, text,
      image and background only affect rendering. */
  datatype Banner = Banner(linkToProduct: Value, kind: Value)

  /** The effect of a click. */
  datatype ClickAction = NoAction | OpenExternal(url: string) | OpenProduct(product: Product)

  /** The `type` value that makes a banner an external link. */
  const External: Value := Str("external")

  /** Position `k` holds the first product whose id is strictly equal to `id`. */
  ghost predicate FirstWithId(products: seq<Product>, id: Value, k: int)
  {
    && 0 <= k < |products|
    && products[k].id == id
    && forall j :: 0 <= j < k ==> products[j].id != id
  }

  predicate NoProductWithId(products: seq<Product>, id: Value)
  {
    forall p :: p in products ==> p.id != id
  }

  /** Where `products.find(p => p.id === id)` stops: the position of the first
      product with that id, if there is one. */
  function FindIndexById(products: seq<Product>, id: Value): (r: Option<nat>)
    ensures r.None? <==> NoProductWithId(products, id)
    ensures r.Some? ==> FirstWithId(products, id, r.value)
  {
    if products == [] then None
    else if products[0].id == id then Some(0)
    else
      match FindIndexById(products[1..], id)
      case None => None
      case Some(k) =>
        assert products[k + 1] == products[1..][k];
        Some(k + 1)
  }

  /** `products.find(p => p.id === id)`: the first product with that id. */
  function FindById(products: seq<Product>, id: Value): (r: Option<Product>)
    ensures r.None? <==> NoProductWithId(products, id)
    ensures r.Some? ==> r.value in products && r.value.id == id
    ensures r.Some? ==> exists k :: FirstWithId(products, id, k) && products[k] == r.value
  {
    match FindIndexById(products, id)
    case None => None
    case Some(k) => Some(products[k])
  }

  /** The banner's click handler. A falsy link does nothing. An external
      banner opens its trimmed link; a link that is not a string has no
      `trim` and throws. Any other banner opens the first product whose id is
      strictly equal to the link, or does nothing when there is none. */
  function OnClick(b: Banner, products: seq<Product>): (r: Completion<ClickAction>)
    ensures !Truthy(b.linkToProduct) ==> r == Normal(NoAction)
    ensures r.TypeError?
            <==> Truthy(b.linkToProduct) && b.kind == External && !b.linkToProduct.Str?
    ensures Truthy(b.linkToProduct) && b.kind == External && b.linkToProduct.Str? ==>
              && r.Normal? && r.value.OpenExternal?
              && StrippedOf(b.linkToProduct.s, r.value.url)
              && (r.value.url == [] || (!IsTrimmable(r.value.url[0]) && !IsTrimmable(r.value.url[|r.value.url| - 1])))
    ensures Truthy(b.linkToProduct) && b.kind != External ==>
              && r.Normal? && !r.value.OpenExternal?
              && (r.value == NoAction <==> NoProductWithId(products, b.linkToProduct))
              && (r.value.OpenProduct? ==>
                    exists k :: FirstWithId(products, b.linkToProduct, k) && products[k] == r.value.product)
  {
    if !Truthy(b.linkToProduct) then Normal(NoAction)
    else if b.kind == External then
      match b.linkToProduct
      case Str(link) => Normal(OpenExternal(Trim(link)))
      case _ => TypeError
    else
      match FindById(products, b.linkToProduct)
      case Some(p) => Normal(OpenProduct(p))
      case None => Normal(NoAction)
  }

  /** An external banner never looks at the catalog. */
  lemma ExternalIgnoresCatalog(b: Banner, products: seq<Product>, others: seq<Product>)
    requires b.kind == External
    ensures OnClick(b, products) == OnClick(b, others)
  {
  }

  /** The product a banner opens is the same whichever catalog entries
      follow the first one with its id. */
  lemma {:induction false} OpenedProductIsFirstMatch(products: seq<Product>, id: Value, k: nat, rest: seq<Product>)
    requires FirstWithId(products, id, k)
    ensures FindById(products + rest, id) == Some(products[k])
  {
    assert (products + rest)[0] == products[0];
    if k > 0 {
      assert (products + rest)[1..] == products[1..] + rest;
      assert FirstWithId(products[1..], id, k - 1);
      OpenedProductIsFirstMatch(products[1..], id, k - 1, rest);
    }
  }

  /** Ids are compared with `===`: a link "1" does not open the product with
      the numeric id 1. */
  lemma StrictIdComparison(p: Product)
    requires p.id == Num(1)
    ensures OnClick(Banner(Str("1"), Undefined), [p]) == Normal(NoAction)
  {
  }

  /** A product whose id is 0 cannot be opened from any banner: a link
      equal to 0 is falsy, so the handler returns before the lookup. */
  lemma ZeroIdNeverOpened(b: Banner, products: seq<Product>, p: Product)
    requires p.id == Num(0)
    ensures OnClick(b, products) != Normal(OpenProduct(p))
  {
  }
}
