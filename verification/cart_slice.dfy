/**
 The cart store of src/store/cartSlice.ts: a list of line items, one per
 product id, and a running total. The two reducers `addItem` and `removeItem`
 are total transitions from one cart state to the next; Immer's in-place
 draft mutation is modelled by returning the new state.
 */
module CartSlice {
  import opened Wrappers
  import opened Products

  datatype CartLine = CartLine(product: Product, quantity: int)

  datatype CartState = CartState(items: seq<CartLine>, totalAmount: real)

  /** What one line contributes to the total. */
  function Subtotal(line: CartLine): real
  {
    line.product.price * line.quantity as real
  }

  /** The sum of price × quantity over the lines: what `totalAmount` should equal. */
  function LinesTotal(items: seq<CartLine>): real
  {
    if |items| == 0 then 0.0 else Subtotal(items[0]) + LinesTotal(items[1..])
  }

  /** No two lines are for the same product id. */
  ghost predicate UniqueIds(items: seq<CartLine>)
  {
    forall i, j :: 0 <= i < j < |items| ==> items[i].product.id != items[j].product.id
  }

  /** Every line holds at least one unit. */
  ghost predicate PositiveQuantities(items: seq<CartLine>)
  {
    forall i :: 0 <= i < |items| ==> items[i].quantity >= 1
  }

  ghost predicate WellFormed(items: seq<CartLine>)
  {
    UniqueIds(items) && PositiveQuantities(items)
  }

  /** A consistent cart: well-formed lines and a total equal to their sum. */
  ghost predicate Consistent(s: CartState)
  {
    WellFormed(s.items) && s.totalAmount == LinesTotal(s.items)
  }

  ghost predicate HasId(items: seq<CartLine>, id: int)
  {
    exists i :: 0 <= i < |items| && items[i].product.id == id
  }

  /** `i` is the first position whose line is for `id`. */
  ghost predicate FirstWithId(items: seq<CartLine>, id: int, i: int)
  {
    0 <= i < |items| && items[i].product.id == id
    && forall j :: 0 <= j < i ==> items[j].product.id != id
  }

  /**
   Every line already in the cart for `p.id` carries `p`'s price. The running
   total only tracks the lines when this holds, because `addItem` adds the
   incoming product's price while the line keeps the product it was created with.
   */
  ghost predicate PriceAgrees(items: seq<CartLine>, p: Product)
  {
    forall i :: 0 <= i < |items| && items[i].product.id == p.id ==> items[i].product.price == p.price
  }

  /** `Array.prototype.findIndex` on the product id (`None` for -1). */
  function FindIndex(items: seq<CartLine>, id: int): (r: Option<nat>)
    ensures r.Some? <==> HasId(items, id)
    ensures r.Some? ==> FirstWithId(items, id, r.value)
  {
    if |items| == 0 then None
    else if items[0].product.id == id then Some(0)
    else match FindIndex(items[1..], id)
      case None =>
        assert forall i :: 1 <= i < |items| ==> items[i] == items[1..][i - 1];
        None
      case Some(i) =>
        assert items[i + 1] == items[1..][i];
        Some(i + 1)
  }

  /** The empty cart, `initialState`. */
  function InitialState(): (s: CartState)
    ensures Consistent(s)
    ensures |s.items| == 0 && s.totalAmount == 0.0
  {
    CartState([], 0.0)
  }

  /**
   `addItem`: bump the quantity of the line for `p.id`, or append a new line
   `{p, 1}` when there is none; in both cases add `p.price` to the total.
   */
  function AddItem(s: CartState, p: Product): (r: CartState)
    ensures r.totalAmount == s.totalAmount + p.price
    ensures !HasId(s.items, p.id) ==> r.items == s.items + [CartLine(p, 1)]
    ensures forall i :: FirstWithId(s.items, p.id, i) ==>
              && |r.items| == |s.items|
              && r.items[i] == CartLine(s.items[i].product, s.items[i].quantity + 1)
              && forall j :: 0 <= j < |s.items| && j != i ==> r.items[j] == s.items[j]
  {
    var items :=
      match FindIndex(s.items, p.id)
      case Some(i) => s.items[i := s.items[i].(quantity := s.items[i].quantity + 1)]
      case None => s.items + [CartLine(p, 1)];
    CartState(items, s.totalAmount + p.price)
  }

  /**
   `removeItem`: drop the whole line for `id` and subtract its price × quantity
   from the total; an id with no line leaves the cart as it is.
   */
  function RemoveItem(s: CartState, id: int): (r: CartState)
    ensures !HasId(s.items, id) ==> r == s
    ensures forall i :: FirstWithId(s.items, id, i) ==>
              && r.items == s.items[..i] + s.items[i + 1..]
              && r.totalAmount == s.totalAmount - s.items[i].product.price * s.items[i].quantity as real
  {
    match FindIndex(s.items, id)
    case Some(i) =>
      var line := s.items[i];
      CartState(s.items[..i] + s.items[i + 1..], s.totalAmount - line.product.price * line.quantity as real)
    case None => s
  }

  lemma {:induction false} LinesTotalAppend(a: seq<CartLine>, b: seq<CartLine>)
    ensures LinesTotal(a + b) == LinesTotal(a) + LinesTotal(b)
    decreases |a|
  {
    if |a| == 0 {
      assert a + b == b;
    } else {
      assert (a + b)[1..] == a[1..] + b;
      LinesTotalAppend(a[1..], b);
    }
  }

  /** The total splits around any one line. */
  lemma LinesTotalSplit(items: seq<CartLine>, i: nat)
    requires i < |items|
    ensures LinesTotal(items) == LinesTotal(items[..i]) + Subtotal(items[i]) + LinesTotal(items[i + 1..])
  {
    assert items == items[..i] + ([items[i]] + items[i + 1..]);
    LinesTotalAppend(items[..i], [items[i]] + items[i + 1..]);
    assert ([items[i]] + items[i + 1..])[1..] == items[i + 1..];
  }

  /** The two reducers keep ids unique and quantities positive, whatever the prices. */
  lemma AddItemWellFormed(s: CartState, p: Product)
    requires WellFormed(s.items)
    ensures WellFormed(AddItem(s, p).items)
  {
    if HasId(s.items, p.id) {
      var i := FindIndex(s.items, p.id).value;
      assert FirstWithId(s.items, p.id, i);
    }
  }

  /** Splicing out line `i` keeps the rest well-formed and leaves no line for its id. */
  lemma SpliceWellFormed(items: seq<CartLine>, i: nat)
    requires WellFormed(items) && i < |items|
    ensures WellFormed(items[..i] + items[i + 1..])
    ensures !HasId(items[..i] + items[i + 1..], items[i].product.id)
  {
    var r := items[..i] + items[i + 1..];
    assert forall j :: 0 <= j < |r| ==> r[j] == items[if j < i then j else j + 1];
  }

  lemma RemoveItemWellFormed(s: CartState, id: int)
    requires WellFormed(s.items)
    ensures WellFormed(RemoveItem(s, id).items)
    ensures !HasId(RemoveItem(s, id).items, id)
  {
    if HasId(s.items, id) {
      var i := FindIndex(s.items, id).value;
      assert FirstWithId(s.items, id, i);
      SpliceWellFormed(s.items, i);
    }
  }

  /** Bumping line `i`'s quantity adds that line's price to the sum. */
  lemma LinesTotalBump(items: seq<CartLine>, i: nat)
    requires i < |items|
    ensures LinesTotal(items[i := items[i].(quantity := items[i].quantity + 1)])
            == LinesTotal(items) + items[i].product.price
  {
    var line := items[i];
    var bumped := line.(quantity := line.quantity + 1);
    var r := items[i := bumped];
    LinesTotalSplit(items, i);
    LinesTotalSplit(r, i);
    assert r[..i] == items[..i];
    assert r[i + 1..] == items[i + 1..];
    assert Subtotal(bumped) == Subtotal(line) + line.product.price;
  }

  /** `addItem` keeps the total equal to the sum of the lines, provided the prices agree. */
  lemma AddItemConsistent(s: CartState, p: Product)
    requires Consistent(s)
    requires PriceAgrees(s.items, p)
    ensures Consistent(AddItem(s, p))
  {
    AddItemWellFormed(s, p);
    match FindIndex(s.items, p.id)
    case Some(i) =>
      assert AddItem(s, p).items == s.items[i := s.items[i].(quantity := s.items[i].quantity + 1)];
      LinesTotalBump(s.items, i);
    case None =>
      LinesTotalAppend(s.items, [CartLine(p, 1)]);
  }

  /** `removeItem` keeps the total equal to the sum of the lines. */
  lemma RemoveItemConsistent(s: CartState, id: int)
    requires Consistent(s)
    ensures Consistent(RemoveItem(s, id))
  {
    RemoveItemWellFormed(s, id);
    if HasId(s.items, id) {
      var i := FindIndex(s.items, id).value;
      assert FirstWithId(s.items, id, i);
      LinesTotalSplit(s.items, i);
      LinesTotalAppend(s.items[..i], s.items[i + 1..]);
    }
  }

  /** Adding the same new product twice gives one line of quantity 2, not two lines. */
  lemma AddItemTwice(s: CartState, p: Product)
    requires !HasId(s.items, p.id)
    ensures AddItem(AddItem(s, p), p).items == s.items + [CartLine(p, 2)]
    ensures AddItem(AddItem(s, p), p).totalAmount == s.totalAmount + 2.0 * p.price
  {
    var s1 := AddItem(s, p);
    assert FirstWithId(s1.items, p.id, |s.items|);
  }

  /** Removing a product just added to a cart that lacked it restores the cart exactly. */
  lemma RemoveUndoesAdd(s: CartState, p: Product)
    requires !HasId(s.items, p.id)
    ensures RemoveItem(AddItem(s, p), p.id) == s
  {
    var s1 := AddItem(s, p);
    assert FirstWithId(s1.items, p.id, |s.items|);
    assert s1.items[..|s.items|] == s.items;
  }

  /** A dispatched cart action. */
  datatype Action = Add(product: Product) | Remove(id: int)

  function Step(s: CartState, a: Action): CartState
  {
    match a
    case Add(p) => AddItem(s, p)
    case Remove(id) => RemoveItem(s, id)
  }

  /** The state after dispatching `actions` in order, starting from `s`. */
  function Run(s: CartState, actions: seq<Action>): CartState
    decreases |actions|
  {
    if |actions| == 0 then s else Run(Step(s, actions[0]), actions[1..])
  }

  /** Any two added products with the same id have the same price. */
  ghost predicate PricesAgree(actions: seq<Action>)
  {
    forall i, j :: 0 <= i < |actions| && 0 <= j < |actions| && actions[i].Add? && actions[j].Add?
      && actions[i].product.id == actions[j].product.id
      ==> actions[i].product.price == actions[j].product.price
  }

  /** Every line's price agrees with every product later added under its id. */
  ghost predicate LinesAgreeWith(items: seq<CartLine>, actions: seq<Action>)
  {
    forall k :: 0 <= k < |actions| && actions[k].Add? ==> PriceAgrees(items, actions[k].product)
  }

  /** A line's price agreement with a later product survives `addItem`. */
  lemma AddItemKeepsAgreement(s: CartState, p: Product, q: Product)
    requires PriceAgrees(s.items, q)
    requires p.id == q.id ==> p.price == q.price
    ensures PriceAgrees(AddItem(s, p).items, q)
  {
    var r := AddItem(s, p);
    if HasId(s.items, p.id) {
      var i := FindIndex(s.items, p.id).value;
      assert FirstWithId(s.items, p.id, i);
      assert forall j :: 0 <= j < |r.items| ==> r.items[j].product == s.items[j].product;
    }
  }

  /** A line's price agreement with a later product survives `removeItem`. */
  lemma RemoveItemKeepsAgreement(s: CartState, id: int, q: Product)
    requires PriceAgrees(s.items, q)
    ensures PriceAgrees(RemoveItem(s, id).items, q)
  {
    var r := RemoveItem(s, id);
    if HasId(s.items, id) {
      var i := FindIndex(s.items, id).value;
      assert FirstWithId(s.items, id, i);
      assert forall j :: 0 <= j < |r.items| ==> r.items[j] == (if j < i then s.items[j] else s.items[j + 1]);
    }
  }

  lemma {:induction false} RunConsistent(s: CartState, actions: seq<Action>)
    requires Consistent(s)
    requires PricesAgree(actions)
    requires LinesAgreeWith(s.items, actions)
    ensures Consistent(Run(s, actions))
    decreases |actions|
  {
    if |actions| > 0 {
      var a := actions[0];
      var rest := actions[1..];
      var s1 := Step(s, a);
      assert forall k :: 0 <= k < |rest| ==> rest[k] == actions[k + 1];
      if a.Add? {
        assert PriceAgrees(s.items, a.product);
        AddItemConsistent(s, a.product);
      } else {
        RemoveItemConsistent(s, a.id);
      }
      forall k | 0 <= k < |rest| && rest[k].Add?
        ensures PriceAgrees(s1.items, rest[k].product)
      {
        var q := rest[k].product;
        assert PriceAgrees(s.items, q);
        if a.Add? {
          AddItemKeepsAgreement(s, a.product, q);
        } else {
          RemoveItemKeepsAgreement(s, a.id, q);
        }
      }
      assert PricesAgree(rest);
      RunConsistent(s1, rest);
      assert Run(s, actions) == Run(s1, rest);
    }
  }

  /**
   From the empty cart, any sequence of `addItem`/`removeItem` leaves unique
   ids, positive quantities and `totalAmount` equal to Σ price × quantity,
   as long as products sharing an id share a price.
   */
  lemma TotalMatchesLines(actions: seq<Action>)
    requires PricesAgree(actions)
    ensures Consistent(Run(InitialState(), actions))
  {
    RunConsistent(InitialState(), actions);
  }

  /**
   Without price agreement the total drifts: adding two products with id 1 at
   prices 10 and 20 totals 30, while the single stored line is worth 2 × 10.
   */
  lemma TotalDriftsWhenPricesDisagree()
    ensures var p1 := Product(1, "A", "", 10.0, 0.0, "");
            var p2 := Product(1, "A", "", 20.0, 0.0, "");
            var s := Run(InitialState(), [Add(p1), Add(p2)]);
            s.totalAmount == 30.0 && LinesTotal(s.items) == 20.0
  {
    var p1 := Product(1, "A", "", 10.0, 0.0, "");
    var p2 := Product(1, "A", "", 20.0, 0.0, "");
    var s1 := AddItem(InitialState(), p1);
    assert s1.items == [CartLine(p1, 1)];
    assert FirstWithId(s1.items, 1, 0);
    var s2 := AddItem(s1, p2);
    assert s2.items == [CartLine(p1, 2)];
    assert s2.totalAmount == 30.0;
    assert LinesTotal(s2.items) == 20.0;
    assert [Add(p1), Add(p2)][1..] == [Add(p2)];
    assert Run(InitialState(), [Add(p1), Add(p2)]) == Run(s1, [Add(p2)]);
    assert Run(s1, [Add(p2)]) == Run(s2, []);
  }

  /** The scenario of adding product 1 (price 10) to the empty cart. */
  lemma AddToEmptyCart()
    ensures var p := Product(1, "Test Product 1", "Description 1", 10.0, 4.5, "https://via.placeholder.com/150");
            AddItem(InitialState(), p) == CartState([CartLine(p, 1)], 10.0)
  {
  }

}
