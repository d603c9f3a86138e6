# Catalog view of the A-Device mini shop

The shop is a single-page storefront (`src/App.jsx`). This project models the
two pieces of its page logic that decide *what the shopper sees and where a
click leads*, and proves what they promise:

- **The product filter** (`filteredProducts`): from the loaded product list,
  the search text and the selected category tab, the list of product cards
  shown. The tab `"Все"` ("All") selects every category; any other tab
  selects the products whose `category` is exactly that text. The search is
  a case-insensitive substring test on the product `name`, written with an
  optional chain, so a product without a name is never shown.
- **The banner click** (`onClick` of a banner tile): nothing happens when the
  banner's `linkToProduct` is falsy; an `"external"` banner opens its trimmed
  link; any other banner opens the detail card of the first product whose
  `id` is strictly equal (`===`) to the link, or does nothing if there is
  none.

Records read from JSON are untyped, so product and banner fields are modelled
as JavaScript values (`Js.Value`: `undefined`, `null`, booleans, integers,
strings), with JavaScript truthiness and strict equality. Evaluations that can
throw return a `Js.Completion` (`Normal(value)` or `TypeError`): a product name
that is present but not a string makes `toLowerCase` throw, and an external
banner whose link is a number or boolean makes `trim` throw. A click's effect
(`window.open` or opening the product card) is returned as a `ClickAction`
value.

Files:

- `js.dfy` — module `Js`: values, truthiness, completions, `Option`.
- `strings.dfy` — module `Strings`: `toLowerCase`, `includes`, `trim`.
- `catalog.dfy` — module `Catalog`: products, the filter and its properties.
- `banners.dfy` — module `BannerClick`: banners, `find` by id, the click handler.

Notable behaviour of `src/App.jsx`:

- A product without a name is never shown, even for the empty search text
  (`Catalog.NamelessNeverShown`): `product.name?.toLowerCase()` yields
  `undefined`, which is falsy.
- The page has no pagination: every product that passes the filter is shown.
- The all-categories tab is the literal `'Все'` (`Catalog.AllCategories`).
- The click handler returns early on a falsy link and trims external links
  before opening them.

## Model

| member | source | states |
|---|---|---|
| Strings.LowerChar | src/App.jsx:62 | a character changes under lower-casing exactly when it is an upper-case letter of the modelled ranges, and the result is never upper-case |
| Strings.Lower | src/App.jsx:62 | `toLowerCase` keeps the length and leaves no upper-case letter |
| Strings.LowerIdempotent | src/App.jsx:62 | lower-casing a lower-cased string changes nothing |
| Strings.Includes | src/App.jsx:62 | `includes` holds if and only if the search string occurs at some position of the string |
| Strings.IncludesEmpty | src/App.jsx:62 | every string includes the empty search text |
| Strings.TrimStart | src/App.jsx:121 | the result is a suffix of the input, everything cut off is white space, and it does not start with white space |
| Strings.TrimEnd | src/App.jsx:121 | the result is a prefix of the input, everything cut off is white space, and it does not end with white space |
| Strings.Trim | src/App.jsx:121 | `trim` returns a contiguous part of the input with only white space removed before and after it, and with no white space at either end |
| Strings.TrimIdempotent | src/App.jsx:121 | trimming a trimmed link changes nothing |
| Js.Truthy | src/App.jsx:60-64 | a value is falsy exactly when it is `undefined`, `null`, `false`, `0` or `""` — the test `filter` applies to the callback's result and `!banner.linkToProduct` applies to the link (line 117) |
| Catalog.MatchesCategory | src/App.jsx:61 | the "Все" tab passes every product; a product whose category is exactly the tab's text passes; on any other tab a passing product's category is exactly, case-sensitively, the tab's text |
| Catalog.MatchesSearch | src/App.jsx:62 | the search test throws exactly when the name is neither absent, `null` nor a string, and otherwise is truthy exactly when the name is a string containing the search text, both lower-cased |
| Catalog.Callback | src/App.jsx:60-64 | the filter callback throws exactly when the name is unreadable, and otherwise returns a truthy value exactly when both the category test and the search test pass |
| Catalog.FilterProducts | src/App.jsx:60-64 | the filter throws exactly when some product's name is present but neither `null` nor a string, and otherwise returns at most as many products as it was given |
| Catalog.FilterIsSubsequence | src/App.jsx:60 | the shown products are a subsequence of the catalog, in their original relative order |
| Catalog.FilterMembership | src/App.jsx:60-64 | a product is shown if and only if it is in the catalog and passes both the category test and the search test |
| Catalog.FilterAppend | src/App.jsx:60-64 | filtering a concatenation gives the concatenation of the filtered parts, so each product's fate depends on that product alone |
| Catalog.FilterIdempotent | src/App.jsx:60-64 | filtering the shown list again with the same search text and tab returns it unchanged |
| Catalog.AllCategoriesShowsEverySearchMatch | src/App.jsx:61 | on the "Все" tab a product is shown exactly when it passes the search test, whatever its category |
| Catalog.OtherTabShowsOnlyItsCategory | src/App.jsx:61 | on any other tab every shown product's category is exactly, case-sensitively, the tab's text |
| Catalog.NamelessNeverShown | src/App.jsx:62 | a product whose name is absent or `null` is never shown, for any search text including the empty one |
| Catalog.EmptySearchShowsEveryNamed | src/App.jsx:62 | with the empty search text every product with a string name that matches the tab is shown |
| Catalog.SearchIgnoresCase | src/App.jsx:62 | searching for the lower-cased search text shows the same products as the original text |
| Catalog.NameCaseIrrelevant | src/App.jsx:62 | two names equal up to case pass or fail the search test together |
| Catalog.EmptyCatalog | src/App.jsx:60 | an empty catalog shows nothing and throws nothing |
| Catalog.FilterKeepsFirstOfTwo | src/App.jsx:60-63 | of two products, the one the callback keeps is shown and the one it rejects is not |
| Catalog.CallbackKeepsMatch | src/App.jsx:61-63 | a product of the selected category whose lower-cased name contains the lower-cased search text is kept |
| Catalog.CallbackRejectsOtherCategory | src/App.jsx:61-63 | on a tab other than "Все", a named product of another category is dropped whatever the search text |
| Catalog.PhoneNameMatches | src/App.jsx:62 | "iphone" is found in "iPhone 15 Pro" once both are lower-cased |
| Catalog.SearchExample | src/App.jsx:60-64 | on the page's "iPhone" tab the search "iphone" shows the phone "iPhone 15 Pro" and hides a laptop of the "Macbook" category |
| BannerClick.FindIndexById | src/App.jsx:124 | the lookup finds nothing exactly when no product has the id, and otherwise stops at the first product whose id is strictly equal to it |
| BannerClick.FindById | src/App.jsx:124 | `find` returns nothing exactly when no product has the id, and otherwise the product at the first position with that id |
| BannerClick.OnClick | src/App.jsx:116-126 | a falsy link does nothing; the handler throws exactly for an external banner whose link is not a string; an external banner with a string link opens that link stripped of white space at both ends; any other banner never opens a link, and does nothing exactly when no product has the linked id, otherwise opens the first product with it |
| BannerClick.ExternalIgnoresCatalog | src/App.jsx:119-121 | the outcome for an external banner is the same whatever the catalog |
| BannerClick.OpenedProductIsFirstMatch | src/App.jsx:124 | products after the first one with the linked id never change which product is opened |
| BannerClick.StrictIdComparison | src/App.jsx:124 | the link `"1"` does not open the product whose id is the number 1 |
| BannerClick.ZeroIdNeverOpened | src/App.jsx:117-125 | for every banner and every catalog, a click never opens a product whose id is 0, since a link equal to 0 is falsy |

## Left out

- Loading the catalog (`fetch` of `/products.json`, the `|| []` defaults and the hard-coded fallback list): network I/O and a constant.
- Detecting the Telegram theme: reads a browser global.
- Opening and closing the product card with its animation: driven by `requestAnimationFrame` and `setTimeout`; the model stops at the `ClickAction` value.
- Rendering, the image gallery, price formatting with `toLocaleString`, and the Telegram contact link built with `encodeURIComponent` and `window.open`.
- `admin/admin.js`: form handling and HTTP calls to a hosted database, with no logic apart from the network and the DOM.
- `tailwind.config.js`: build configuration.
- Strings.LowerChar, Strings.Lower: only the case mappings of Basic Latin A–Z and Cyrillic U+0400–U+042F are modelled; every other character lower-cases to itself (so À, Ω or Ґ stay unchanged, which `toLowerCase` would map), and the full Unicode case mapping (including mappings that change length) is not modelled.
- Strings are sequences of code points, not UTF-16 code units; characters outside the Basic Multilingual Plane are not treated as surrogate pairs.
- Numbers are integers: `NaN`, fractions and `-0` are not modelled. Object and array field values are not modelled either (an object id would compare by reference, an object name would throw).
- A `null` catalog entry is not modelled: reading its fields throws a TypeError at line 61 or 62 of `src/App.jsx`, and at line 124 on a banner click. An entry that is a number, string or boolean reads every field as `undefined`, so it behaves like a record with all fields absent (`Product(Undefined, Undefined, Undefined)`), which the model covers.
- Product and banner fields that only affect rendering (price, image, description, title, text, background) are not part of the records.
