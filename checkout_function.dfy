/**
 * The `checkout` edge function: it folds the submitted `cartItems` into a
 * total, appends an order to the `orders` table, then deletes the session's
 * rows from the `cart` table. A failed order insert aborts with 500; a failed
 * cart clear is only logged, and the receipt is still returned.
 */
module CheckoutFunction {
  import opened Records
  import opened Money
  import CartSpec
  import CartFunction

  /** The JSON body: `{ cartItems, customerName, customerEmail, sessionId }`. */
  datatype CheckoutBody = CheckoutBody(
    cartItems: seq<CartItem>,
    customerName: string,
    customerEmail: string,
    sessionId: SessionId)

  datatype CheckoutRequest = CheckoutRequest(verb: HttpMethod, body: CheckoutBody)

  datatype CheckoutResponse =
    | Preflighted
    | NotAllowed
    | OrderPlaced(receipt: Receipt)
    | Failed

  function StatusOf(r: CheckoutResponse): int {
    match r
    case NotAllowed => 405
    case Failed => 500
    case _ => 200
  }

  /** The `orders` table: orders in insertion order, and the next id the database hands out. */
  datatype OrdersState = OrdersState(orders: seq<Order>, nextId: nat)

  /** Order ids are below the counter and increase along the table, so they are distinct. */
  ghost predicate OrdersWellFormed(o: OrdersState) {
    && (forall k | 0 <= k < |o.orders| :: o.orders[k].id < o.nextId)
    && (forall k, l | 0 <= k < l < |o.orders| :: o.orders[k].id < o.orders[l].id)
  }

  datatype Outcome = Outcome(cart: CartSpec.CartState, orders: OrdersState, response: CheckoutResponse)

  /**
   * One checkout request against the two tables. `insertOk` and `clearOk` are the
   * outcomes of the order insert and of the cart delete; `createdAt` is the
   * `created_at` the database gives the new order.
   */
  function CheckoutStep(
    cart: CartSpec.CartState, o: OrdersState, req: CheckoutRequest,
    insertOk: bool, clearOk: bool, createdAt: Timestamp): (r: Outcome)
    ensures r.response.OrderPlaced? <==> req.verb.Post? && insertOk
    ensures |r.orders.orders| == |o.orders| + (if r.response.OrderPlaced? then 1 else 0)
    ensures o.orders <= r.orders.orders
    ensures !r.response.OrderPlaced? ==> r.cart == cart && r.orders == o
    ensures r.response == Failed <==> req.verb.Post? && !insertOk
  {
    if req.verb.Options? then Outcome(cart, o, Preflighted)
    else if !req.verb.Post? then Outcome(cart, o, NotAllowed)
    else
      var b := req.body;
      var total := Total(b.cartItems);
      if !insertOk then Outcome(cart, o, Failed)
      else
        var order := Order(o.nextId, b.customerName, b.customerEmail, total, b.cartItems, createdAt);
        var cart' := if clearOk then CartSpec.ClearSession(cart, b.sessionId) else cart;
        var receipt := Receipt(order.id, b.customerName, b.customerEmail, b.cartItems, FormatCents(total), order.createdAt);
        Outcome(cart', OrdersState(o.orders + [order], o.nextId + 1), OrderPlaced(receipt))
  }

  // ---------------------------------------------------------------- properties

  /** Anything but POST writes nothing: OPTIONS is the preflight, every other verb 405. */
  lemma NonPostWritesNothing(
    cart: CartSpec.CartState, o: OrdersState, req: CheckoutRequest,
    insertOk: bool, clearOk: bool, createdAt: Timestamp)
    requires !req.verb.Post?
    ensures var r := CheckoutStep(cart, o, req, insertOk, clearOk, createdAt);
      && r.cart == cart && r.orders == o
      && (if req.verb.Options? then r.response == Preflighted else StatusOf(r.response) == 405)
  {
  }

  /** A failed order insert aborts: no order, the cart untouched, 500. */
  lemma InsertFailureAborts(
    cart: CartSpec.CartState, o: OrdersState, body: CheckoutBody, clearOk: bool, createdAt: Timestamp)
    ensures var r := CheckoutStep(cart, o, CheckoutRequest(Post, body), false, clearOk, createdAt);
      r.cart == cart && r.orders == o && StatusOf(r.response) == 500
  {
  }

  /**
   * A successful insert appends exactly one order carrying the customer's name and
   * email, the fold of the submitted items and those items verbatim; the receipt
   * repeats the stored order's id, items and created_at, and its total text reads back
   * as the stored total. The response is 200 whether or not the clear succeeded.
   */
  lemma PlacedOrderMatchesReceipt(
    cart: CartSpec.CartState, o: OrdersState, body: CheckoutBody, clearOk: bool, createdAt: Timestamp)
    ensures var r := CheckoutStep(cart, o, CheckoutRequest(Post, body), true, clearOk, createdAt);
      && |r.orders.orders| == |o.orders| + 1
      && r.orders.orders[..|o.orders|] == o.orders
      && r.orders.nextId == o.nextId + 1
      && var order := r.orders.orders[|o.orders|];
      && order.id == o.nextId
      && order.customerName == body.customerName
      && order.customerEmail == body.customerEmail
      && order.total == Total(body.cartItems)
      && order.items == body.cartItems
      && order.createdAt == createdAt
      && r.response.OrderPlaced?
      && StatusOf(r.response) == 200
      && r.response.receipt.orderId == order.id
      && r.response.receipt.customerName == body.customerName
      && r.response.receipt.customerEmail == body.customerEmail
      && r.response.receipt.items == order.items
      && r.response.receipt.timestamp == order.createdAt
      && ParseCents(r.response.receipt.total) == Some(order.total)
  {
    CentsRoundTrip(Total(body.cartItems));
  }

  /** After a successful insert and clear, the session has no cart rows and other sessions keep theirs. */
  lemma SuccessfulClearEmptiesSession(
    cart: CartSpec.CartState, o: OrdersState, body: CheckoutBody, createdAt: Timestamp)
    ensures var r := CheckoutStep(cart, o, CheckoutRequest(Post, body), true, true, createdAt);
      && (forall id | id in r.cart.rows :: r.cart.rows[id].sessionId != body.sessionId)
      && (forall id | id in cart.rows && cart.rows[id].sessionId != body.sessionId ::
            id in r.cart.rows && r.cart.rows[id] == cart.rows[id])
  {
  }

  /** A failed clear is swallowed: the order stays, the cart is as it was, and a receipt is returned. */
  lemma FailedClearIsSwallowed(
    cart: CartSpec.CartState, o: OrdersState, body: CheckoutBody, createdAt: Timestamp)
    ensures var r := CheckoutStep(cart, o, CheckoutRequest(Post, body), true, false, createdAt);
      && r.cart == cart
      && |r.orders.orders| == |o.orders| + 1
      && r.response.OrderPlaced? && StatusOf(r.response) == 200
  {
  }

  /** The total comes from the request body: the cart table's contents play no part in the order. */
  lemma TotalIgnoresCartTable(
    cart1: CartSpec.CartState, cart2: CartSpec.CartState, o: OrdersState, req: CheckoutRequest,
    insertOk: bool, clearOk: bool, createdAt: Timestamp)
    ensures CheckoutStep(cart1, o, req, insertOk, clearOk, createdAt).orders
         == CheckoutStep(cart2, o, req, insertOk, clearOk, createdAt).orders
    ensures CheckoutStep(cart1, o, req, insertOk, clearOk, createdAt).response
         == CheckoutStep(cart2, o, req, insertOk, clearOk, createdAt).response
  {
  }

  /** There is no emptiness check: an empty `cartItems` still creates an order, of total 0. */
  lemma EmptyCartStillOrders(
    cart: CartSpec.CartState, o: OrdersState, name: string, email: string, s: SessionId, createdAt: Timestamp)
    ensures var r := CheckoutStep(cart, o, CheckoutRequest(Post, CheckoutBody([], name, email, s)), true, true, createdAt);
      && |r.orders.orders| == |o.orders| + 1
      && r.orders.orders[|o.orders|].total == 0
      && r.response.OrderPlaced? && r.response.receipt.total == "0.00"
  {
    assert FormatCents(0) == "0.00";
  }

  /** Checkout keeps both tables well formed and keeps the cart's merge invariant. */
  lemma CheckoutKeepsInvariants(
    cart: CartSpec.CartState, o: OrdersState, req: CheckoutRequest,
    insertOk: bool, clearOk: bool, createdAt: Timestamp)
    requires CartSpec.WellFormed(cart) && CartSpec.UniqueKeys(cart.rows) && OrdersWellFormed(o)
    ensures var r := CheckoutStep(cart, o, req, insertOk, clearOk, createdAt);
      CartSpec.WellFormed(r.cart) && CartSpec.UniqueKeys(r.cart.rows) && OrdersWellFormed(r.orders)
  {
    if req.verb.Post? && clearOk {
      CartSpec.ClearKeepsInvariants(cart, req.body.sessionId);
    }
  }

  // ---------------------------------------------------------------- the tables

  class OrdersTable {
    var orders: seq<Order>
    var nextId: nat

    function State(): OrdersState
      reads this
    {
      OrdersState(orders, nextId)
    }

    ghost predicate Valid()
      reads this
    {
      OrdersWellFormed(State())
    }

    /** A handle on the existing `orders` table. */
    constructor (orders: seq<Order>, nextId: nat)
      requires OrdersWellFormed(OrdersState(orders, nextId))
      ensures Valid() && State() == OrdersState(orders, nextId)
    {
      this.orders := orders;
      this.nextId := nextId;
    }

    /** `.from('orders').insert([...]).select().single()`: append a fresh order, or fail. */
    method Insert(name: string, email: string, total: int, items: seq<CartItem>, createdAt: Timestamp, ok: bool)
      returns (order: Option<Order>)
      requires Valid()
      modifies this
      ensures Valid()
      ensures ok ==> order == Some(Order(old(nextId), name, email, total, items, createdAt))
      ensures ok ==> State() == OrdersState(old(orders) + [order.value], old(nextId) + 1)
      ensures !ok ==> order == None && State() == old(State())
    {
      if !ok {
        return None;
      }
      var o := Order(nextId, name, email, total, items, createdAt);
      orders := orders + [o];
      nextId := nextId + 1;
      order := Some(o);
    }
  }

  /** The handler, over the `cart` and `orders` tables. */
  method Serve(
    cart: CartFunction.CartStore, orders: OrdersTable, req: CheckoutRequest,
    insertOk: bool, clearOk: bool, createdAt: Timestamp)
    returns (resp: CheckoutResponse)
    requires cart.Valid() && orders.Valid()
    modifies cart, orders
    ensures cart.Valid() && orders.Valid()
    ensures Outcome(cart.State(), orders.State(), resp)
         == CheckoutStep(old(cart.State()), old(orders.State()), req, insertOk, clearOk, createdAt)
  {
    if req.verb.Options? {
      return Preflighted;
    }
    if !req.verb.Post? {
      return NotAllowed;
    }
    var b := req.body;
    var total := Total(b.cartItems);
    var order := orders.Insert(b.customerName, b.customerEmail, total, b.cartItems, createdAt, insertOk);
    if order.None? {
      return Failed;
    }
    var cleared := cart.DeleteSession(b.sessionId, clearOk);
    // a failed clear is not rethrown: the order already exists
    var o := order.value;
    resp := OrderPlaced(Receipt(o.id, b.customerName, b.customerEmail, b.cartItems, FormatCents(total), o.createdAt));
  }
}
