/**
 The state logic of src/app/components/ClientProductList.tsx with React removed:
 the `filterAndSortProducts` derivation (filter by title, stable sort, take a
 page-sized prefix), the `loadMoreProducts` page increment, the
 `lastAddedItems` counter list kept by `handleAddToCart`, and the
 `isAllProductsLoaded` test that hides the "Load More" button.
 */
module ProductList {
  import opened Products
  import opened Text
  import opened StableSort
  import CartSlice

  /** `itemsPerPage`. */
  const ItemsPerPage: nat := 10

  /** The two values of the sort drop-down. */
  datatype SortOption = Price | Rating

  /**
   The key the comparator sorts ascending by: `a.price - b.price` orders by
   price, `b.rating - a.rating` orders by rating descending, which is
   ascending by negated rating.
   */
  function SortKey(opt: SortOption): Product -> real
  {
    match opt
    case Price => (p: Product) => p.price
    case Rating => (p: Product) => -p.rating
  }

  /** `product.title.toLowerCase().includes(searchQuery.toLowerCase())`. */
  predicate Matches(p: Product, query: string)
    ensures Matches(p, query) <==> Occurs(ToLower(p.title), ToLower(query))
  {
    IncludesIffOccurs(ToLower(p.title), ToLower(query));
    Includes(ToLower(p.title), ToLower(query))
  }

  /** `products.filter(...)`: the products whose title contains the query, in input order. */
  function Filter(products: seq<Product>, query: string): (r: seq<Product>)
    ensures |r| <= |products|
    ensures forall x :: x in r ==> x in products && Matches(x, query)
  {
    if |products| == 0 then []
    else (if Matches(products[0], query) then [products[0]] else []) + Filter(products[1..], query)
  }

  /**
   What the filter keeps: each matching product as many times as it occurs in
   the input, and nothing else.
   */
  lemma {:induction false} FilterContents(products: seq<Product>, query: string)
    ensures forall x :: multiset(Filter(products, query))[x]
                        == if Matches(x, query) then multiset(products)[x] else 0
    decreases |products|
  {
    if |products| > 0 {
      FilterContents(products[1..], query);
      assert products == [products[0]] + products[1..];
    }
  }

  /** Filtering distributes over concatenation, so the input order is kept. */
  lemma {:induction false} FilterAppend(a: seq<Product>, b: seq<Product>, query: string)
    ensures Filter(a + b, query) == Filter(a, query) + Filter(b, query)
    decreases |a|
  {
    if |a| == 0 {
      assert a + b == b;
    } else {
      assert (a + b)[0] == a[0];
      assert (a + b)[1..] == a[1..] + b;
      FilterAppend(a[1..], b, query);
    }
  }

  /** When every product matches, the filter returns its input unchanged. */
  lemma {:induction false} FilterKeepsAll(products: seq<Product>, query: string)
    requires forall i :: 0 <= i < |products| ==> Matches(products[i], query)
    ensures Filter(products, query) == products
    decreases |products|
  {
    if |products| > 0 {
      var rest := products[1..];
      forall i | 0 <= i < |rest|
        ensures Matches(rest[i], query)
      {
        assert rest[i] == products[i + 1];
      }
      FilterKeepsAll(rest, query);
      assert Matches(products[0], query);
      assert Filter(products, query) == [products[0]] + Filter(rest, query);
      assert products == [products[0]] + rest;
    }
  }

  /** A product that does not match makes the filtered list strictly shorter. */
  lemma {:induction false} FilterDropsNonMatch(products: seq<Product>, query: string, i: int)
    requires 0 <= i < |products| && !Matches(products[i], query)
    ensures |Filter(products, query)| < |products|
    decreases |products|
  {
    var h := if Matches(products[0], query) then [products[0]] else [];
    assert Filter(products, query) == h + Filter(products[1..], query);
    if i > 0 {
      assert products[1..][i - 1] == products[i];
      FilterDropsNonMatch(products[1..], query, i - 1);
    } else {
      assert h == [];
    }
  }

  /** The filter drops nothing exactly when every product matches. */
  lemma FilterKeepsAllIff(products: seq<Product>, query: string)
    ensures |Filter(products, query)| == |products|
            <==> forall i :: 0 <= i < |products| ==> Matches(products[i], query)
  {
    if forall i :: 0 <= i < |products| ==> Matches(products[i], query) {
      FilterKeepsAll(products, query);
    } else {
      var i :| 0 <= i < |products| && !Matches(products[i], query);
      FilterDropsNonMatch(products, query, i);
    }
  }

  /** An empty query keeps every product: every string includes "". */
  lemma EmptyQueryKeepsAll(products: seq<Product>)
    ensures Filter(products, "") == products
  {
    forall i | 0 <= i < |products|
      ensures Matches(products[i], "")
    {
      IncludesEmpty(ToLower(products[i].title));
    }
    FilterKeepsAll(products, "");
  }

  /**
   The in-place `sort` applied to the fresh array returned by `filter`: a
   stable sort ascending by price, or descending by rating.
   */
  function SortProducts(filtered: seq<Product>, opt: SortOption): (r: seq<Product>)
    ensures |r| == |filtered|
    ensures multiset(r) == multiset(filtered)
    ensures opt == Price ==> forall i, j :: 0 <= i < j < |r| ==> r[i].price <= r[j].price
    ensures opt == Rating ==> forall i, j :: 0 <= i < j < |r| ==> r[i].rating >= r[j].rating
  {
    var r := SortBy(filtered, SortKey(opt));
    assert forall i, j :: 0 <= i < j < |r| ==> SortKey(opt)(r[i]) <= SortKey(opt)(r[j]);
    r
  }

  /** Products with equal price (or equal rating) keep their filter order. */
  lemma SortProductsStable(filtered: seq<Product>, opt: SortOption)
    ensures StableWrt(SortProducts(filtered, opt), filtered, SortKey(opt))
  {
    SortByStable(filtered, SortKey(opt));
  }

  /** Any ordering of the filtered list that is sorted and stable is the one `SortProducts` gives. */
  lemma SortProductsUnique(filtered: seq<Product>, opt: SortOption, r: seq<Product>)
    requires SortedBy(r, SortKey(opt))
    requires StableWrt(r, filtered, SortKey(opt))
    ensures r == SortProducts(filtered, opt)
  {
    SortByIsTheStableSort(filtered, r, SortKey(opt));
  }

  function Min(a: int, b: int): int
  {
    if a <= b then a else b
  }

  /** `slice(0, n)` for a non-negative `n`. */
  function Take(s: seq<Product>, n: nat): (r: seq<Product>)
    ensures |r| == Min(|s|, n)
    ensures r <= s
  {
    if n <= |s| then s[..n] else s
  }

  /** `filterAndSortProducts`: the products displayed for a query, sort option and page. */
  function FilterAndSortProducts(products: seq<Product>, query: string, opt: SortOption, page: nat): (r: seq<Product>)
    ensures |r| == Min(|Filter(products, query)|, ItemsPerPage * page)
    ensures r <= SortProducts(Filter(products, query), opt)
    ensures forall x :: x in r ==> x in products && Matches(x, query)
  {
    var sorted := SortProducts(Filter(products, query), opt);
    var r := Take(sorted, ItemsPerPage * page);
    assert forall x :: x in r ==> x in multiset(sorted);
    r
  }

  /** The displayed list is ordered by the chosen option, like the whole sorted list. */
  lemma DisplayedOrdered(products: seq<Product>, query: string, opt: SortOption, page: nat)
    ensures var r := FilterAndSortProducts(products, query, opt, page);
            && (opt == Price ==> forall i, j :: 0 <= i < j < |r| ==> r[i].price <= r[j].price)
            && (opt == Rating ==> forall i, j :: 0 <= i < j < |r| ==> r[i].rating >= r[j].rating)
  {
    var sorted := SortProducts(Filter(products, query), opt);
    var r := FilterAndSortProducts(products, query, opt, page);
    assert forall i :: 0 <= i < |r| ==> r[i] == sorted[i];
  }

  /** The component's own state: `searchQuery`, `sortOption` and `page`. */
  datatype ViewState = ViewState(searchQuery: string, sortOption: SortOption, page: nat)

  /** The state on first render: no query, sorted by price, one page. */
  function InitialView(): ViewState
  {
    ViewState("", Price, 1)
  }

  /** `displayedProducts` as the effect recomputes it from the current state. */
  function Displayed(products: seq<Product>, v: ViewState): seq<Product>
  {
    FilterAndSortProducts(products, v.searchQuery, v.sortOption, v.page)
  }

  /** `loadMoreProducts`: one more page, nothing else changes. */
  function LoadMoreProducts(v: ViewState): (r: ViewState)
    ensures r.page == v.page + 1
    ensures r.searchQuery == v.searchQuery && r.sortOption == v.sortOption
  {
    v.(page := v.page + 1)
  }

  /** Before every match is shown, one more page extends the display, keeping what was shown. */
  lemma LoadMoreExtends(products: seq<Product>, v: ViewState)
    ensures Displayed(products, v) <= Displayed(products, LoadMoreProducts(v))
    ensures ItemsPerPage * v.page < |Filter(products, v.searchQuery)|
            ==> |Displayed(products, v)| < |Displayed(products, LoadMoreProducts(v))|
  {
    var sorted := SortProducts(Filter(products, v.searchQuery), v.sortOption);
    var a := Displayed(products, v);
    var b := Displayed(products, LoadMoreProducts(v));
    assert a <= sorted && b <= sorted && |a| <= |b|;
    assert forall i :: 0 <= i < |a| ==> a[i] == sorted[i] == b[i];
  }

  /** Once a page count covers all matches, further `loadMoreProducts` calls change nothing displayed. */
  lemma LoadMoreIdleOnceAllShown(products: seq<Product>, v: ViewState)
    requires ItemsPerPage * v.page >= |Filter(products, v.searchQuery)|
    ensures LoadMoreProducts(v).page == v.page + 1
    ensures Displayed(products, LoadMoreProducts(v)) == Displayed(products, v)
  {
    LoadMoreExtends(products, v);
  }

  /** `isAllProductsLoaded`, as written: compares with the unfiltered product count. */
  predicate IsAllProductsLoaded(displayed: seq<Product>, products: seq<Product>)
    ensures |displayed| <= |products| ==>
              (IsAllProductsLoaded(displayed, products) <==> |displayed| == |products|)
  {
    |displayed| >= |products|
  }

  /**
   The "Load More" button is hidden exactly when every product matches the
   query and the pages cover the whole product list.
   */
  lemma AllLoadedIff(products: seq<Product>, v: ViewState)
    ensures IsAllProductsLoaded(Displayed(products, v), products)
            <==> (forall i :: 0 <= i < |products| ==> Matches(products[i], v.searchQuery))
                 && ItemsPerPage * v.page >= |products|
  {
    FilterKeepsAllIff(products, v.searchQuery);
  }

  /**
   With a query that rejects some product, the button never disappears, on any
   page, although `loadMoreProducts` stops changing the display once all
   matches are shown.
   */
  lemma LoadMoreStaysVisibleWhileFiltering(products: seq<Product>, v: ViewState, i: int)
    requires 0 <= i < |products| && !Matches(products[i], v.searchQuery)
    ensures !IsAllProductsLoaded(Displayed(products, v), products)
  {
    AllLoadedIff(products, v);
  }

  /**
   The test the button evidently means: every product that matches is shown.
   It holds exactly when `loadMoreProducts` would change nothing displayed.
   */
  predicate AllMatchesShown(displayed: seq<Product>, products: seq<Product>, query: string)
  {
    |displayed| >= |Filter(products, query)|
  }

  lemma AllMatchesShownIffLoadMoreIdle(products: seq<Product>, v: ViewState)
    ensures AllMatchesShown(Displayed(products, v), products, v.searchQuery)
            <==> Displayed(products, LoadMoreProducts(v)) == Displayed(products, v)
  {
    LoadMoreExtends(products, v);
  }

  /** One entry of `lastAddedItems`. */
  datatype AddedEntry = AddedEntry(id: int, title: string, count: int)

  predicate HasEntry(entries: seq<AddedEntry>, id: int)
  {
    exists i | 0 <= i < |entries| :: entries[i].id == id
  }

  ghost predicate UniqueEntryIds(entries: seq<AddedEntry>)
  {
    forall i, j :: 0 <= i < j < |entries| ==> entries[i].id != entries[j].id
  }

  /** How many times the entries record `id` as added: the sum of counts under that id. */
  function CountOf(entries: seq<AddedEntry>, id: int): int
  {
    if |entries| == 0 then 0
    else (if entries[0].id == id then entries[0].count else 0) + CountOf(entries[1..], id)
  }

  /**
   The `setLastAddedItems` updater of `handleAddToCart`: add one to the count
   of the entry for `p.id`, or append `{id, title, count: 1}`.
   */
  function RecordAdded(entries: seq<AddedEntry>, p: Product): (r: seq<AddedEntry>)
    ensures !HasEntry(entries, p.id) ==> r == entries + [AddedEntry(p.id, p.title, 1)]
    ensures HasEntry(entries, p.id) ==> |r| == |entries|
    ensures HasEntry(entries, p.id) ==>
              forall i :: 0 <= i < |entries| && entries[i].id != p.id ==> r[i] == entries[i]
    ensures HasEntry(entries, p.id) ==>
              forall i :: 0 <= i < |entries| && entries[i].id == p.id ==>
                r[i] == AddedEntry(entries[i].id, entries[i].title, entries[i].count + 1)
    ensures forall i :: 0 <= i < |r| ==> r[i].id == p.id || (i < |entries| && r[i] == entries[i])
  {
    if HasEntry(entries, p.id) then
      seq(|entries|, i requires 0 <= i < |entries| =>
        if entries[i].id == p.id then entries[i].(count := entries[i].count + 1) else entries[i])
    else entries + [AddedEntry(p.id, p.title, 1)]
  }

  /** How many entries carry `id`. */
  function EntriesWithId(entries: seq<AddedEntry>, id: int): nat
  {
    if |entries| == 0 then 0
    else (if entries[0].id == id then 1 else 0) + EntriesWithId(entries[1..], id)
  }

  lemma {:induction false} EntriesWithIdUnique(entries: seq<AddedEntry>, id: int)
    requires UniqueEntryIds(entries)
    ensures EntriesWithId(entries, id) == if HasEntry(entries, id) then 1 else 0
    decreases |entries|
  {
    if |entries| > 0 {
      EntriesWithIdUnique(entries[1..], id);
      assert forall i :: 1 <= i < |entries| ==> entries[i] == entries[1..][i - 1];
      if entries[0].id == id && HasEntry(entries[1..], id) {
        assert false;
      }
    }
  }

  /** Bumping every entry for `pid` adds, under `pid`, one per such entry. */
  lemma {:induction false} CountOfBump(entries: seq<AddedEntry>, r: seq<AddedEntry>, pid: int, id: int)
    requires |r| == |entries|
    requires forall i :: 0 <= i < |entries| ==>
               r[i] == if entries[i].id == pid then entries[i].(count := entries[i].count + 1) else entries[i]
    ensures CountOf(r, id) == CountOf(entries, id) + (if id == pid then EntriesWithId(entries, id) else 0)
    decreases |entries|
  {
    if |entries| > 0 {
      CountOfBump(entries[1..], r[1..], pid, id);
    }
  }

  lemma {:induction false} CountOfAppend(entries: seq<AddedEntry>, e: AddedEntry, id: int)
    ensures CountOf(entries + [e], id) == CountOf(entries, id) + (if e.id == id then e.count else 0)
    decreases |entries|
  {
    if |entries| == 0 {
      assert entries + [e] == [e];
    } else {
      assert (entries + [e])[1..] == entries[1..] + [e];
      CountOfAppend(entries[1..], e, id);
    }
  }

  /** Recording `p` adds one under `p.id`, nothing under any other id, and keeps ids unique. */
  lemma RecordAddedCounts(entries: seq<AddedEntry>, p: Product, id: int)
    requires UniqueEntryIds(entries)
    ensures UniqueEntryIds(RecordAdded(entries, p))
    ensures CountOf(RecordAdded(entries, p), id) == CountOf(entries, id) + (if id == p.id then 1 else 0)
  {
    var r := RecordAdded(entries, p);
    if HasEntry(entries, p.id) {
      CountOfBump(entries, r, p.id, id);
      EntriesWithIdUnique(entries, id);
    } else {
      CountOfAppend(entries, AddedEntry(p.id, p.title, 1), id);
    }
  }

  /** `lastAddedItems` after the products in `added` are added in order. */
  function RecordAll(entries: seq<AddedEntry>, added: seq<Product>): seq<AddedEntry>
    decreases |added|
  {
    if |added| == 0 then entries else RecordAll(RecordAdded(entries, added[0]), added[1..])
  }

  /** How many of `added` have id `id`. */
  function TimesAdded(added: seq<Product>, id: int): nat
  {
    if |added| == 0 then 0
    else (if added[0].id == id then 1 else 0) + TimesAdded(added[1..], id)
  }

  /**
   Starting from no entries, the count recorded for each id is the number of
   times a product with that id was added, and ids stay unique.
   */
  lemma {:induction false} RecordAllCounts(entries: seq<AddedEntry>, added: seq<Product>, id: int)
    requires UniqueEntryIds(entries)
    ensures UniqueEntryIds(RecordAll(entries, added))
    ensures CountOf(RecordAll(entries, added), id) == CountOf(entries, id) + TimesAdded(added, id)
    decreases |added|
  {
    if |added| > 0 {
      RecordAddedCounts(entries, added[0], id);
      RecordAllCounts(RecordAdded(entries, added[0]), added[1..], id);
    }
  }

  /**
   `handleAddToCart`: dispatch `addItem` to the cart store, then record the
   product in `lastAddedItems`.
   */
  function HandleAddToCart(cart: CartSlice.CartState, entries: seq<AddedEntry>, p: Product)
    : (r: (CartSlice.CartState, seq<AddedEntry>))
    ensures r.0.totalAmount == cart.totalAmount + p.price
    ensures CartSlice.HasId(r.0.items, p.id) && HasEntry(r.1, p.id)
    ensures |r.0.items| == |cart.items| + (if CartSlice.HasId(cart.items, p.id) then 0 else 1)
    ensures |r.1| == |entries| + (if HasEntry(entries, p.id) then 0 else 1)
  {
    AddedProductIsListed(cart, entries, p);
    (CartSlice.AddItem(cart, p), RecordAdded(entries, p))
  }

  /** After an add, the product has a cart line and a tracker entry. */
  lemma AddedProductIsListed(cart: CartSlice.CartState, entries: seq<AddedEntry>, p: Product)
    ensures CartSlice.HasId(CartSlice.AddItem(cart, p).items, p.id)
    ensures HasEntry(RecordAdded(entries, p), p.id)
  {
    var cart' := CartSlice.AddItem(cart, p);
    var entries' := RecordAdded(entries, p);
    if CartSlice.HasId(cart.items, p.id) {
      var i := CartSlice.FindIndex(cart.items, p.id).value;
      assert CartSlice.FirstWithId(cart.items, p.id, i);
      assert cart'.items[i].product.id == p.id;
    } else {
      assert cart'.items[|cart.items|].product.id == p.id;
    }
    if HasEntry(entries, p.id) {
      var i :| 0 <= i < |entries| && entries[i].id == p.id;
      assert entries'[i].id == p.id;
    } else {
      assert entries'[|entries|].id == p.id;
    }
  }

  /** The tracker lists the cart's lines: same ids and titles, counts equal to quantities, same order. */
  ghost predicate Mirrors(items: seq<CartSlice.CartLine>, entries: seq<AddedEntry>)
  {
    && |items| == |entries|
    && forall i :: 0 <= i < |items| ==>
         && entries[i].id == items[i].product.id
         && entries[i].title == items[i].product.title
         && entries[i].count == items[i].quantity
  }

  /**
   When `handleAddToCart` is the only thing that touches the cart, the tracker
   and the cart move in step: each add bumps or appends the same position in both.
   */
  lemma HandleAddToCartMirrors(cart: CartSlice.CartState, entries: seq<AddedEntry>, p: Product)
    requires CartSlice.WellFormed(cart.items)
    requires Mirrors(cart.items, entries)
    ensures Mirrors(HandleAddToCart(cart, entries, p).0.items, HandleAddToCart(cart, entries, p).1)
  {
    var (cart', entries') := HandleAddToCart(cart, entries, p);
    if CartSlice.HasId(cart.items, p.id) {
      var i := CartSlice.FindIndex(cart.items, p.id).value;
      assert CartSlice.FirstWithId(cart.items, p.id, i);
      assert entries[i].id == p.id;
      assert HasEntry(entries, p.id);
    } else {
      if HasEntry(entries, p.id) {
        assert false;
      }
    }
  }

  /** On first render the display is the first page of all products, cheapest first. */
  lemma InitialViewShowsFirstPage(products: seq<Product>)
    ensures Displayed(products, InitialView()) == Take(SortProducts(products, Price), ItemsPerPage)
  {
    EmptyQueryKeepsAll(products);
  }

  /** The two products of the component's test suite. */
  function TestProduct1(): Product
  {
    Product(1, "Test Product 1", "Description 1", 10.0, 4.5, "https://via.placeholder.com/150")
  }

  function TestProduct2(): Product
  {
    Product(2, "Test Product 2", "Description 2", 20.0, 3.5, "https://via.placeholder.com/150")
  }

  lemma Product1Matches()
    ensures Matches(TestProduct1(), "Product 1")
  {
    var q := ToLower("Product 1");
    var t1 := ToLower("Test Product 1");
    assert q == "product 1";
    assert t1 == "test product 1";
    assert OccursAt(t1, q, 5);
    IncludesIffOccurs(t1, q);
  }

  lemma Product2DoesNotMatch()
    ensures !Matches(TestProduct2(), "Product 1")
  {
    var q := ToLower("Product 1");
    var t2 := ToLower("Test Product 2");
    assert q == "product 1";
    assert t2 == "test product 2";
    forall k
      ensures !OccursAt(t2, q, k)
    {
      if 0 <= k < 5 {
        assert t2[k..k + |q|][0] == t2[k] != q[0];
      } else if k == 5 {
        assert t2[k..k + |q|][8] == '2' != q[8];
      }
    }
    IncludesIffOccurs(t2, q);
  }

  /** The query "Product 1" keeps test product 1 and drops test product 2. */
  lemma SearchKeepsProduct1()
    ensures Filter([TestProduct1(), TestProduct2()], "Product 1") == [TestProduct1()]
  {
    Product1Matches();
    Product2DoesNotMatch();
    assert [TestProduct1(), TestProduct2()][1..] == [TestProduct2()];
  }

  /**
   Searching "Product 1" shows product 1 only. "Load More" stays visible,
   although pressing it changes nothing displayed.
   */
  lemma SearchScenario()
    ensures Displayed([TestProduct1(), TestProduct2()], ViewState("Product 1", Price, 1)) == [TestProduct1()]
    ensures !IsAllProductsLoaded(Displayed([TestProduct1(), TestProduct2()], ViewState("Product 1", Price, 1)),
                                 [TestProduct1(), TestProduct2()])
    ensures Displayed([TestProduct1(), TestProduct2()], LoadMoreProducts(ViewState("Product 1", Price, 1)))
            == Displayed([TestProduct1(), TestProduct2()], ViewState("Product 1", Price, 1))
  {
    var ps := [TestProduct1(), TestProduct2()];
    SearchKeepsProduct1();
    assert SortProducts([TestProduct1()], Price) == [TestProduct1()];
    LoadMoreIdleOnceAllShown(ps, ViewState("Product 1", Price, 1));
  }

  /** Switching to rating order with the query "Product 1" still set shows product 1 only. */
  lemma SearchThenRatingScenario()
    ensures Displayed([TestProduct1(), TestProduct2()], ViewState("Product 1", Rating, 1)) == [TestProduct1()]
  {
    SearchKeepsProduct1();
    assert SortProducts([TestProduct1()], Rating) == [TestProduct1()];
  }

  /** Sorting the two test products by rating puts product 1 (4.5) before product 2 (3.5). */
  lemma RatingScenario()
    ensures SortProducts([TestProduct1(), TestProduct2()], Rating) == [TestProduct1(), TestProduct2()]
  {
    var ps := [TestProduct1(), TestProduct2()];
    var key := SortKey(Rating);
    assert ps[1..] == [TestProduct2()];
    assert SortBy([TestProduct2()], key) == [TestProduct2()];
    assert SortBy(ps, key) == Insert(TestProduct1(), [TestProduct2()], key);
    assert key(TestProduct1()) <= key(TestProduct2());
  }

}
