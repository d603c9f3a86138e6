/**
 * The product filter of the catalog view: the list of products shown for the
 * current search text and the selected category tab.
 */
module Catalog {
  import opened Js
  import opened Strings

  /** A product record. Only the fields the view logic reads are kept;
      a field the record lacks is `Undefined`. */
  datatype Product = Product(id: Value, name: Value, category: Value)

  /** The tab that selects every category ("All"). */
  const AllCategories: string := "Все"

  /* ---------------------------------------------------------------- */
  /* The filter as the page evaluates it                               */
  /* ---------------------------------------------------------------- */

  /** `matchesCategory`: the "All" tab, or an exact, case-sensitive match
      of the product's category with the selected tab. */
  predicate MatchesCategory(p: Product, selected: string): (r: bool)
    ensures selected == AllCategories ==> r
    ensures p.category == Str(selected) ==> r
    ensures r && selected != AllCategories ==> p.category == Str(selected)
  {
    selected == AllCategories || p.category == Str(selected)
  }

  /** The name can be read by `name?.toLowerCase()` without throwing:
      it is absent, `null`, or a string. */
  predicate NameReadable(p: Product)
  {
    Nullish(p.name) || p.name.Str?
  }

  /** Reference meaning of the search test: the product has a string name
      and the lower-cased search text occurs in the lower-cased name. */
  ghost predicate SearchHolds(p: Product, term: string)
  {
    p.name.Str? && exists i :: OccursAt(Lower(p.name.s), Lower(term), i)
  }

  /** Reference meaning of the whole filter test. */
  ghost predicate Visible(p: Product, term: string, selected: string)
  {
    MatchesCategory(p, selected) && SearchHolds(p, term)
  }

  /** `matchesSearch`: `undefined` when the name is absent or `null` (the
      optional chain stops), a boolean from `includes` when it is a string,
      and a TypeError for any other name (it has no `toLowerCase`). */
  function MatchesSearch(p: Product, term: string): (r: Completion<Value>)
    ensures r.TypeError? <==> !NameReadable(p)
    ensures r.Normal? ==> (Truthy(r.value) <==> SearchHolds(p, term))
  {
    match p.name
    case Str(n) =>
      Normal(Bool(Includes(Lower(n), Lower(term))))
    case Undefined => Normal(Undefined)
    case Null => Normal(Undefined)
    case Bool(_) => TypeError
    case Num(_) => TypeError
  }

  /** The filter callback: both tests are evaluated, then
      `matchesCategory && matchesSearch` is returned. The product is kept
      exactly when both tests pass. */
  function Callback(p: Product, term: string, selected: string): (r: Completion<Value>)
    ensures r.TypeError? <==> !NameReadable(p)
    ensures r.Normal? ==> (Truthy(r.value) <==> Visible(p, term, selected))
  {
    var matchesCategory := MatchesCategory(p, selected);
    match MatchesSearch(p, term)
    case TypeError => TypeError
    case Normal(matchesSearch) =>
      Normal(if matchesCategory then matchesSearch else Bool(matchesCategory))
  }

  predicate AllNamesReadable(products: seq<Product>)
  {
    forall p :: p in products ==> NameReadable(p)
  }

  /** `products.filter(callback)`: runs the callback on each product from
      left to right and keeps those for which it returns a truthy value;
      a TypeError from the callback propagates. */
  function FilterProducts(products: seq<Product>, term: string, selected: string)
    : (r: Completion<seq<Product>>)
    ensures r.TypeError? <==> !AllNamesReadable(products)
    ensures r.Normal? ==> |r.value| <= |products|
  {
    if products == [] then Normal([])
    else
      match Callback(products[0], term, selected)
      case TypeError => TypeError
      case Normal(keep) =>
        match FilterProducts(products[1..], term, selected)
        case TypeError => TypeError
        case Normal(rest) => Normal(if Truthy(keep) then [products[0]] + rest else rest)
  }

  /* ---------------------------------------------------------------- */
  /* Order                                                             */
  /* ---------------------------------------------------------------- */

  /** `idx` places each element of `r` at a position of `s`, in increasing
      order of positions. */
  ghost predicate Embedding(r: seq<Product>, s: seq<Product>, idx: seq<int>)
  {
    && |idx| == |r|
    && (forall k :: 0 <= k < |idx| ==> 0 <= idx[k] < |s| && r[k] == s[idx[k]])
    && (forall k, l :: 0 <= k < l < |idx| ==> idx[k] < idx[l])
  }

  /** `r` is a subsequence of `s`: it keeps some of its elements, in their
      original relative order. */
  ghost predicate IsSubsequence(r: seq<Product>, s: seq<Product>)
  {
    exists idx :: Embedding(r, s, idx)
  }

  ghost function Shift(idx: seq<int>): seq<int>
  {
    seq(|idx|, k requires 0 <= k < |idx| => idx[k] + 1)
  }

  /** Dropping a new first element keeps an embedding, shifted by one. */
  lemma EmbedSkip(r: seq<Product>, s: seq<Product>, x: Product, idx: seq<int>)
    requires Embedding(r, s, idx)
    ensures Embedding(r, [x] + s, Shift(idx))
  {
    var shifted := Shift(idx);
    assert |shifted| == |idx| && forall k :: 0 <= k < |idx| ==> shifted[k] == idx[k] + 1;
    assert forall k :: 0 <= k < |idx| ==> ([x] + s)[idx[k] + 1] == s[idx[k]];
  }

  /** Keeping a new first element extends an embedding at position 0. */
  lemma EmbedKeep(r: seq<Product>, s: seq<Product>, x: Product, idx: seq<int>)
    requires Embedding(r, s, idx)
    ensures Embedding([x] + r, [x] + s, [0] + Shift(idx))
  {
    EmbedSkip(r, s, x, idx);
  }

  /** One step of the filter: the first product is kept or dropped, and the
      rest is filtered the same way. */
  lemma FilterStep(products: seq<Product>, term: string, selected: string)
    requires products != [] && FilterProducts(products, term, selected).Normal?
    ensures FilterProducts(products[1..], term, selected).Normal?
    ensures var r := FilterProducts(products, term, selected).value;
            var rest := FilterProducts(products[1..], term, selected).value;
            r == rest || r == [products[0]] + rest
  {
  }

  /** The visible products are a subsequence of the catalog: the filter
      drops products but never reorders or duplicates them. */
  lemma {:induction false} FilterIsSubsequence(products: seq<Product>, term: string, selected: string)
    requires FilterProducts(products, term, selected).Normal?
    ensures IsSubsequence(FilterProducts(products, term, selected).value, products)
  {
    var r := FilterProducts(products, term, selected).value;
    if products == [] {
      assert Embedding(r, products, []);
    } else {
      FilterStep(products, term, selected);
      var rest := FilterProducts(products[1..], term, selected).value;
      FilterIsSubsequence(products[1..], term, selected);
      var idx :| Embedding(rest, products[1..], idx);
      assert [products[0]] + products[1..] == products;
      if r == rest {
        EmbedSkip(rest, products[1..], products[0], idx);
      } else {
        EmbedKeep(rest, products[1..], products[0], idx);
      }
    }
  }

  /* ---------------------------------------------------------------- */
  /* Membership                                                        */
  /* ---------------------------------------------------------------- */

  /** A product is shown if and only if it is in the catalog and passes both
      the category test and the search test. */
  lemma {:induction false} FilterMembership(products: seq<Product>, term: string, selected: string, p: Product)
    requires FilterProducts(products, term, selected).Normal?
    ensures p in FilterProducts(products, term, selected).value
            <==> p in products && Visible(p, term, selected)
  {
    if products != [] {
      FilterMembership(products[1..], term, selected, p);
      assert products == [products[0]] + products[1..];
    }
  }

  /** Joins the outcomes of filtering two halves of a list. */
  function Join(x: Completion<seq<Product>>, y: Completion<seq<Product>>): Completion<seq<Product>>
  {
    if x.Normal? && y.Normal? then Normal(x.value + y.value) else TypeError
  }

  /** The filter over a concatenation is the concatenation of the filters:
      each product's fate depends on that product alone. */
  lemma {:induction false} FilterAppend(a: seq<Product>, b: seq<Product>, term: string, selected: string)
    ensures FilterProducts(a + b, term, selected)
            == Join(FilterProducts(a, term, selected), FilterProducts(b, term, selected))
  {
    if a == [] {
      assert a + b == b;
      if FilterProducts(b, term, selected).Normal? {
        assert [] + FilterProducts(b, term, selected).value == FilterProducts(b, term, selected).value;
      }
    } else {
      assert (a + b)[0] == a[0];
      assert (a + b)[1..] == a[1..] + b;
      FilterAppend(a[1..], b, term, selected);
      var fb := FilterProducts(b, term, selected);
      var tail := FilterProducts(a[1..], term, selected);
      if Callback(a[0], term, selected).Normal? && tail.Normal? && fb.Normal? {
        if Truthy(Callback(a[0], term, selected).value) {
          assert [a[0]] + (tail.value + fb.value) == ([a[0]] + tail.value) + fb.value;
        }
      }
    }
  }

  /** Filtering the shown list again with the same search text and tab
      changes nothing. */
  lemma {:induction false} FilterIdempotent(products: seq<Product>, term: string, selected: string)
    requires FilterProducts(products, term, selected).Normal?
    ensures FilterProducts(FilterProducts(products, term, selected).value, term, selected)
            == FilterProducts(products, term, selected)
  {
    if products != [] {
      FilterIdempotent(products[1..], term, selected);
      var r := FilterProducts(products, term, selected).value;
      var rest := FilterProducts(products[1..], term, selected).value;
      if r != rest {
        assert r[0] == products[0] && r[1..] == rest;
      }
    }
  }

  /* ---------------------------------------------------------------- */
  /* The two tests                                                     */
  /* ---------------------------------------------------------------- */

  /** On the "All" tab the category never hides a product: whatever its
      category field holds, the product is shown exactly when it passes
      the search test. */
  lemma AllCategoriesShowsEverySearchMatch(products: seq<Product>, term: string, p: Product)
    requires FilterProducts(products, term, AllCategories).Normal?
    ensures p in FilterProducts(products, term, AllCategories).value
            <==> p in products && SearchHolds(p, term)
  {
    FilterMembership(products, term, AllCategories, p);
  }

  /** On any other tab only products whose category is exactly that tab's
      text are shown. */
  lemma OtherTabShowsOnlyItsCategory(products: seq<Product>, term: string, selected: string, p: Product)
    requires selected != AllCategories
    requires FilterProducts(products, term, selected).Normal?
    requires p in FilterProducts(products, term, selected).value
    ensures p.category == Str(selected)
  {
    FilterMembership(products, term, selected, p);
  }

  /** A product without a name (absent or `null`) is never shown, whatever
      the search text, the empty one included. */
  lemma NamelessNeverShown(products: seq<Product>, term: string, selected: string, p: Product)
    requires Nullish(p.name)
    requires FilterProducts(products, term, selected).Normal?
    ensures p !in FilterProducts(products, term, selected).value
  {
    FilterMembership(products, term, selected, p);
  }

  /** With an empty search text every product that has a string name and
      matches the tab is shown. */
  lemma EmptySearchShowsEveryNamed(products: seq<Product>, selected: string, p: Product)
    requires FilterProducts(products, "", selected).Normal?
    requires p in products && p.name.Str? && MatchesCategory(p, selected)
    ensures p in FilterProducts(products, "", selected).value
  {
    assert OccursAt(Lower(p.name.s), Lower(""), 0);
    FilterMembership(products, "", selected, p);
  }

  /** Case does not matter in the search text: searching for its
      lower-cased form shows the same products. */
  lemma {:induction false} SearchIgnoresCase(products: seq<Product>, term: string, selected: string)
    ensures FilterProducts(products, Lower(term), selected) == FilterProducts(products, term, selected)
  {
    LowerIdempotent(term);
    if products != [] {
      SearchIgnoresCase(products[1..], term, selected);
    }
  }

  /** Nor does case matter in the name: two products whose names agree up to
      case pass or fail the search test together. */
  lemma NameCaseIrrelevant(p: Product, q: Product, term: string)
    requires p.name.Str? && q.name.Str? && Lower(p.name.s) == Lower(q.name.s)
    ensures MatchesSearch(p, term) == MatchesSearch(q, term)
  {
  }

  /** An empty catalog shows nothing and raises nothing. */
  lemma EmptyCatalog(term: string, selected: string)
    ensures FilterProducts([], term, selected) == Normal([])
  {
  }

  /** A two-product catalog whose first product passes the callback and
      whose second fails it shows the first alone. */
  lemma FilterKeepsFirstOfTwo(p: Product, q: Product, term: string, selected: string)
    requires Callback(p, term, selected).Normal? && Truthy(Callback(p, term, selected).value)
    requires Callback(q, term, selected).Normal? && !Truthy(Callback(q, term, selected).value)
    ensures FilterProducts([p, q], term, selected) == Normal([p])
  {
    assert [q][1..] == [] && [q][0] == q;
    assert FilterProducts([q][1..], term, selected) == Normal([]);
    assert FilterProducts([q], term, selected) == Normal([]);
    assert [p, q][1..] == [q] && [p, q][0] == p;
    assert FilterProducts([p, q][1..], term, selected) == Normal([]);
    assert [p] + [] == [p];
  }

  /** "iPhone 15 Pro" passes the search for "iphone". */
  lemma PhoneNameMatches(name: string, term: string)
    requires name == "iPhone 15 Pro" && term == "iphone"
    ensures Includes(Lower(name), Lower(term))
  {
    var lowered := "iphone 15 pro";
    LowerPointwise(name, lowered);
    LowerFixesLowerCase(term);
    assert lowered[..|term|] == term;
  }

  /** A product of the selected category whose name contains the search
      text passes the callback. */
  lemma CallbackKeepsMatch(p: Product, term: string, selected: string)
    requires p.category == Str(selected) && p.name.Str?
    requires Includes(Lower(p.name.s), Lower(term))
    ensures Callback(p, term, selected).Normal? && Truthy(Callback(p, term, selected).value)
  {
  }

  /** A named product of another category fails the callback on a tab other
      than "Все". */
  lemma CallbackRejectsOtherCategory(p: Product, term: string, selected: string)
    requires selected != AllCategories && p.category != Str(selected) && p.name.Str?
    ensures Callback(p, term, selected).Normal? && !Truthy(Callback(p, term, selected).value)
  {
  }

  /** On the page's "iPhone" tab, searching "iphone" finds a phone named
      "iPhone 15 Pro" and hides a laptop of the "Macbook" category. */
  lemma SearchExample(phone: Product, laptop: Product, term: string, tab: string)
    requires phone == Product(Num(1), Str("iPhone 15 Pro"), Str("iPhone"))
    requires laptop == Product(Num(2), Str("MacBook Air M3"), Str("Macbook"))
    requires term == "iphone" && tab == "iPhone"
    ensures FilterProducts([phone, laptop], term, tab) == Normal([phone])
  {
    PhoneNameMatches(phone.name.s, term);
    CallbackKeepsMatch(phone, term, tab);
    assert tab != AllCategories && laptop.category != Str(tab);
    CallbackRejectsOtherCategory(laptop, term, tab);
    FilterKeepsFirstOfTwo(phone, laptop, term, tab);
  }
}
