# Product catalog and cart: a Dafny model

This project models the client-side state logic of a small product catalog with a shopping cart. It has two independent parts:

- **The cart store** (`src/store/cartSlice.ts`) is a Redux slice. Its state is a list of line items `{product, quantity}` plus a running `totalAmount`. The reducer `addItem` bumps the line for the product's id, or appends a new line with quantity 1, and then adds the product's price to the total. The reducer `removeItem` splices out the whole line for an id and subtracts price × quantity; an unknown id changes nothing. Module `CartSlice` in `cart_slice.dfy` holds this part.
- **The product list view** (`src/app/components/ClientProductList.tsx`) holds this logic:
  - `filterAndSortProducts` keeps the products whose lower-cased title contains the lower-cased search query.
  - It then sorts them stably: ascending by price, or descending by rating.
  - It shows the first `itemsPerPage × page` of them, with `itemsPerPage = 10`.
  - `loadMoreProducts` adds one page.
  - `handleAddToCart` dispatches `addItem` and keeps a `lastAddedItems` list of `{id, title, count}` keyed by id.
  - `isAllProductsLoaded` hides the "Load More" button.

  Module `ProductList` in `product_list.dfy` holds this part.

Supporting modules:
- `Products` (`products.dfy`) defines the product record.
- `Text` (`text.dfy`) defines ASCII lower-casing and the substring test of `String.prototype.includes`.
- `StableSort` (`stable_sort.dfy`) is a generic stable insertion sort by a real-valued key. It stands for `Array.prototype.sort` with a subtracting comparator, which has been required to be stable since the 2019 edition of ECMA-262. The rating order is the ascending order of the negated rating.
- `Wrappers` (`wrappers.dfy`) defines `Option`, which stands for the `-1` that `findIndex` returns when nothing is found.

Reducers and view updates are pure functions from state to state. Prices and ratings are `real`, so `totalAmount` is exact.

Three facts hold for any prices:
- each reducer keeps product ids unique;
- each reducer keeps every quantity at least 1;
- `removeItem` keeps `totalAmount = Σ price × quantity`.

`addItem` keeps that sum only when every line already stored under the id has the incoming product's price. The total grows by the incoming product's price, but the line keeps the product it was created with. `CartSlice.TotalMatchesLines` therefore requires that added products sharing an id share a price. `CartSlice.TotalDriftsWhenPricesDisagree` shows the total drifting apart from the lines when they do not.

## Model

| member | source | states |
|---|---|---|
| CartSlice.InitialState | src/store/cartSlice.ts:17-20 | The initial cart has no lines and a total of 0. It satisfies the cart invariant. |
| CartSlice.FindIndex | src/store/cartSlice.ts:40-42 | The lookup finds a line exactly when some line has the id. What it returns is the first such position. |
| CartSlice.AddItem | src/store/cartSlice.ts:26-38 | For a new id, one line `{product, 1}` is appended at the end and every earlier line is unchanged. For an id already present, the line count stays the same, only that line's quantity goes up by 1, and every other line is unchanged. In both cases the total rises by exactly the payload's price. |
| CartSlice.RemoveItem | src/store/cartSlice.ts:39-48 | An unknown id leaves items and total unchanged. Otherwise the whole first line for the id is spliced out and the other lines keep their order. The total falls by that line's price × quantity. |
| CartSlice.AddItemWellFormed | src/store/cartSlice.ts:27-35 | `addItem` keeps ids unique and every quantity at least 1. |
| CartSlice.RemoveItemWellFormed | src/store/cartSlice.ts:40-47 | `removeItem` keeps ids unique and quantities at least 1. Afterwards no line has the removed id. |
| CartSlice.AddItemConsistent | src/store/cartSlice.ts:31-37 | Suppose the total equals Σ price × quantity and the stored lines for the id carry the payload's price. Then the total still equals the sum after `addItem`. |
| CartSlice.RemoveItemConsistent | src/store/cartSlice.ts:44-46 | `removeItem` keeps the total equal to Σ price × quantity. |
| CartSlice.AddItemTwice | src/store/cartSlice.ts:27-37 | Adding a new product twice gives one line with quantity 2, not two lines. The total rises by twice the price. |
| CartSlice.RemoveUndoesAdd | src/store/cartSlice.ts:26-47 | Take a cart without the id. Adding a product and then removing its id gives back exactly the original cart. |
| CartSlice.TotalMatchesLines | src/store/cartSlice.ts:26-47 | Start from the initial state and apply any sequence of adds and removes. The ids stay unique, quantities stay positive, and the total equals Σ price × quantity. This needs products that share an id to share a price. |
| CartSlice.TotalDriftsWhenPricesDisagree | src/store/cartSlice.ts:31-37 | Add two products with id 1 at prices 10 and 20. The total is 30 while the single line is worth 20. |
| CartSlice.AddToEmptyCart | __tests__/ClientProductList.test.tsx:46-49 | Adding test product 1 (price 10) to the empty cart gives one line of quantity 1 and a total of 10. |
| Text.ToLower | src/app/components/ClientProductList.tsx:37 | Lower-casing keeps the length, folds each character, and leaves no ASCII upper-case letter. Its partner `Text.ToLowerIdempotent` shows that lower-casing twice changes nothing more. |
| Text.IncludesIffOccurs | src/app/components/ClientProductList.tsx:37 | The left-to-right `includes` scan succeeds exactly when some window of the title equals the query. |
| StableSort.SortBy | src/app/components/ClientProductList.tsx:40-43 | The sort's output is a permutation of its input (same multiset) and is non-decreasing by key. |
| StableSort.SortByStable | src/app/components/ClientProductList.tsx:40-43 | For every key value, the elements with that key keep their input order. |
| StableSort.SortedStableUnique | src/app/components/ClientProductList.tsx:40-43 | Two sequences that are both sorted by key and agree on the order within every key are equal. |
| StableSort.SortByIsTheStableSort | src/app/components/ClientProductList.tsx:40-43 | Any sorted, stable rearrangement of the input is exactly the sort's output. So the stable sort is fully determined. |
| ProductList.Matches | src/app/components/ClientProductList.tsx:37 | A product matches exactly when some window of its lower-cased title equals the lower-cased query. |
| ProductList.Filter | src/app/components/ClientProductList.tsx:36-38 | Every product kept is an input product whose lower-cased title includes the lower-cased query. |
| ProductList.FilterContents | src/app/components/ClientProductList.tsx:36-38 | A matching product is kept as many times as it occurs in the input. A product that does not match is never kept. |
| ProductList.FilterAppend | src/app/components/ClientProductList.tsx:36-38 | Filtering distributes over concatenation, so the kept products stay in input order. |
| ProductList.FilterKeepsAllIff | src/app/components/ClientProductList.tsx:36-38 | The filtered list is as long as the input exactly when every product matches. |
| ProductList.EmptyQueryKeepsAll | src/app/components/ClientProductList.tsx:22-38 | With the initial empty query, the filter returns all products in order. |
| ProductList.SortProducts | src/app/components/ClientProductList.tsx:40-43 | The sorted list is a permutation of the filtered list. It is non-decreasing by price for `price` and non-increasing by rating for `rating`. |
| ProductList.SortProductsStable | src/app/components/ClientProductList.tsx:40-43 | Products with equal price (or equal rating) keep their filter order. |
| ProductList.SortProductsUnique | src/app/components/ClientProductList.tsx:40-43 | Any sorted, stable ordering of the filtered list equals the one computed. |
| ProductList.FilterAndSortProducts | src/app/components/ClientProductList.tsx:35-47 | The displayed list is the prefix of the sorted, filtered list of length min(filtered count, 10 × page). Each displayed product is an input product that matches the query. |
| ProductList.DisplayedOrdered | src/app/components/ClientProductList.tsx:40-46 | The displayed page is itself ascending by price, or descending by rating. |
| ProductList.InitialViewShowsFirstPage | src/app/components/ClientProductList.tsx:19-33 | In the initial state (empty query, price order, page 1), once the mount effect has run, the display is the first 10 of all products, cheapest first. |
| ProductList.LoadMoreProducts | src/app/components/ClientProductList.tsx:49-53 | `loadMoreProducts` adds 1 to `page` and changes neither the query nor the sort option. Its effect on the display is stated by the next two rows. |
| ProductList.LoadMoreExtends | src/app/components/ClientProductList.tsx:46-53 | One more page keeps what was shown as a prefix. It shows strictly more while unshown matches remain. |
| ProductList.LoadMoreIdleOnceAllShown | src/app/components/ClientProductList.tsx:46-53 | Suppose 10 × page already covers the filtered count. `loadMoreProducts` still adds 1 to `page`, but the displayed list does not change. |
| ProductList.IsAllProductsLoaded | src/app/components/ClientProductList.tsx:70 | When the display is no longer than the product list, the test holds exactly when the display is as long as the whole unfiltered list. |
| ProductList.AllLoadedIff | src/app/components/ClientProductList.tsx:70 | The button is hidden exactly when every product matches the query and 10 × page is at least the unfiltered product count. |
| ProductList.LoadMoreStaysVisibleWhileFiltering | src/app/components/ClientProductList.tsx:70 | Suppose a query rejects some product. Then `isAllProductsLoaded` is false on every page. |
| ProductList.AllMatchesShownIffLoadMoreIdle | src/app/components/ClientProductList.tsx:70 | The corrected test "displayed length ≥ filtered count" holds exactly when `loadMoreProducts` would change nothing displayed. |
| ProductList.RecordAdded | src/app/components/ClientProductList.tsx:58-67 | A new id appends `{id, title, count: 1}`. A known id keeps the length. Each entry with that id keeps its id and title and gains exactly 1 in count. Entries with other ids are unchanged. |
| ProductList.RecordAddedCounts | src/app/components/ClientProductList.tsx:58-67 | Ids stay unique. The count under the added id rises by 1 and every other id's count is unchanged. |
| ProductList.RecordAllCounts | src/app/components/ClientProductList.tsx:58-67 | After a series of adds, each id's recorded count is the number of times a product with that id was added. |
| ProductList.HandleAddToCart | src/app/components/ClientProductList.tsx:55-67 | One add raises the cart total by the product's price. Afterwards the product has both a cart line and a tracker entry. Each list grows by one exactly when the id was new to it. |
| ProductList.HandleAddToCartMirrors | src/app/components/ClientProductList.tsx:55-67 | Suppose `handleAddToCart` is the only thing that touches the cart. Then `lastAddedItems` lists the cart's lines in the same order, with the same ids and titles, and counts equal to quantities. |
| ProductList.SearchScenario | __tests__/ClientProductList.test.tsx:56-62 | With the two test products, the query "Product 1" shows only product 1. "Load More" stays visible, yet pressing it changes nothing. |
| ProductList.SearchThenRatingScenario | __tests__/ClientProductList.test.tsx:56-69 | With the query "Product 1" still set, switching to rating order shows only product 1. |
| ProductList.RatingScenario | src/app/components/ClientProductList.tsx:42-43 | Sorting the two test products by rating gives product 1 (4.5) before product 2 (3.5). |

## Left out

- JSX rendering and display formatting are not modelled. This covers images, star strings, `toFixed(2)`, the 100-character description cut and the footer text. They are presentation with no state.
- React and Redux plumbing is not modelled: `useState`, `useEffect` scheduling, `useDispatch`/`useSelector`, `createSlice` and Immer drafts. Reducers are pure state-to-state functions. `displayedProducts` is recomputed from `(products, searchQuery, sortOption, page)` by `ProductList.Displayed`.
- The `isLoading` flag is not modelled. It is set to true and back to false within one call and has no observable effect.
- The search input and sort select are plain state setters. They appear only as the fields of `ProductList.ViewState`.
- Fetching the product list (`src/app/page.tsx`) and the page shell (`src/app/layout.tsx`) are not part of this model. The product list is a given `seq<Product>`.
- Floating-point arithmetic is not modelled. Prices and ratings are exact reals, so the total invariant is exact rather than within rounding. Comparator results on NaN are not modelled.
- `toLowerCase` is modelled as the ASCII fold only. Other Unicode case mappings are not modelled.
- Sorting in place is not modelled. Sequences are values, so sorting the filtered list can never reorder `products`.
- A sort option other than `price` and `rating` is not modelled. The select cannot produce one, and the source would then leave the filtered list unsorted.
- `ProductList.ViewState`: `page` is a natural number, so `slice(0, n)` with a negative `n` is not modelled. The page starts at 1 and only grows.
- Quantities and counts are unbounded integers. Loss of precision past 2^53 is not modelled.
- CartSlice.TotalMatchesLines: requires that added products sharing an id share a price, which the source does not check. Without that, the total is not the line sum (`CartSlice.TotalDriftsWhenPricesDisagree`). The condition is sufficient, not necessary: after a remove, an id may come back at a new price and the total still matches. The exact step-wise condition is the `requires` of `CartSlice.AddItemConsistent`.
- ProductList.HandleAddToCartMirrors: requires that nothing else changed the cart. The store is global, and a `removeItem` dispatched elsewhere would break the correspondence.

## Findings

| source | as written | input that shows it | evidently intended | confidence | as-written member | corrected member |
|---|---|---|---|---|---|---|
| src/app/components/ClientProductList.tsx:70 | `isAllProductsLoaded` compares the displayed length with the unfiltered `products.length` | the two test products, query "Product 1", page 1: one product is shown and 1 < 2, so "Load More" is visible, yet pressing it changes nothing | hide the button once every matching product is shown, i.e. the displayed length is at least the filtered count | medium, not executed | ProductList.LoadMoreStaysVisibleWhileFiltering | ProductList.AllMatchesShownIffLoadMoreIdle |
