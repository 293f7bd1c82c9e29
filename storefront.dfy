/**
 * The storefront page (`Index`): the session id it keeps in the browser's
 * `localStorage`, and the requests its queries and mutations send to the
 * `cart` and `checkout` functions. The cart query sends no `session_id`, so
 * the page always reads the "default" session, while its mutations write
 * under its own id.
 */
module Storefront {
  import opened Records
  import opened CartSpec
  import CartFunction
  import CheckoutFunction
  import CheckoutForm

  // ---------------------------------------------------------------- getSessionId

  const SessionKey := "cart_session_id"

  /** The browser's `localStorage`: string values by key. */
  class LocalStorage {
    var items: map<string, string>

    constructor (items: map<string, string>)
      ensures this.items == items
    {
      this.items := items;
    }
  }

  /** `!sessionId` is false: the key is present with a non-empty value. */
  predicate HasSessionId(items: map<string, string>) {
    SessionKey in items && items[SessionKey] != ""
  }

  /**
   * `getSessionId` given the UUID `crypto.randomUUID()` would return: the id, and the
   * store afterwards. A stored id is reused; an absent or empty one is replaced.
   */
  function SessionIdAfter(items: map<string, string>, uuid: string): (r: (SessionId, map<string, string>))
    ensures HasSessionId(items) ==> r.0 == items[SessionKey] && r.1 == items
    ensures !HasSessionId(items) ==> r.0 == uuid
    ensures SessionKey in r.1 && r.1[SessionKey] == r.0
    ensures r.1.Keys == items.Keys + {SessionKey}
    ensures forall k | k in items && k != SessionKey :: r.1[k] == items[k]
  {
    if HasSessionId(items) then (items[SessionKey], items) else (uuid, items[SessionKey := uuid])
  }

  /** The id survives a reload: a second `getSessionId` returns the same id and writes nothing. */
  lemma SessionIdIsStable(items: map<string, string>, uuid1: string, uuid2: string)
    requires uuid1 != ""
    ensures var (id, after) := SessionIdAfter(items, uuid1);
      SessionIdAfter(after, uuid2) == (id, after)
  {
  }

  method GetSessionId(store: LocalStorage, uuid: string) returns (id: SessionId)
    modifies store
    ensures (id, store.items) == SessionIdAfter(old(store.items), uuid)
  {
    var stored: Option<string> := if SessionKey in store.items then Some(store.items[SessionKey]) else None;
    if stored.None? || stored.value == "" {
      id := uuid;
      store.items := store.items[SessionKey := id];
    } else {
      id := stored.value;
    }
  }

  // ---------------------------------------------------------------- the page

  /** The `data` of the cart query: `{ cartItems, total }`. */
  datatype CartData = CartData(cartItems: seq<CartItem>, total: string)

  /** A response to an `invoke` counts as an error unless its status is 2xx. */
  predicate Succeeded(r: CartResponse) {
    200 <= Status(r) < 300
  }

  /** `cartItems.find(i => i.id === id)`: the first item with that row id. */
  function Find(items: seq<CartItem>, id: RowId): (r: Option<CartItem>)
    ensures r.None? <==> forall k | 0 <= k < |items| :: items[k].row.id != id
    ensures r.Some? ==> exists k | 0 <= k < |items| ::
      items[k] == r.value && items[k].row.id == id && forall j | 0 <= j < k :: items[j].row.id != id
  {
    if items == [] then None
    else if items[0].row.id == id then Some(items[0])
    else
      var r := Find(items[1..], id);
      assert r.Some? ==> exists k | 0 <= k < |items[1..]| ::
        items[1..][k] == r.value && items[1..][k].row.id == id && forall j | 0 <= j < k :: items[1..][j].row.id != id;
      assert forall k | 0 <= k < |items[1..]| :: items[1..][k] == items[k + 1];
      r
  }

  /** `cartData?.cartItems?.find(...)`: nothing when no cart was fetched yet. */
  function FindItem(data: Option<CartData>, id: RowId): (r: Option<CartItem>)
    ensures r.Some? ==> data.Some? && r.value in data.value.cartItems && r.value.row.id == id
    ensures r.None? <==> data.None? || forall item | item in data.value.cartItems :: item.row.id != id
  {
    if data.None? then None else Find(data.value.cartItems, id)
  }

  /** `updateQuantity` once it found the item: DELETE the row, ignore the outcome, then POST the new quantity. */
  ghost function UpdateQuantityStep(
    t: CartState, itemId: RowId, b: AddBody, deleteOk: bool, lookupOk: bool, writeOk: bool): (r: Step)
    ensures t.rows.Keys - {itemId} <= r.state.rows.Keys <= t.rows.Keys + {t.nextId}
    ensures r.response == ServerError <==> !lookupOk || !writeOk
  {
    PostStep(DeleteStep(t, itemId, deleteOk).state, b, lookupOk, writeOk)
  }

  /**
   * When the DELETE goes through, the update replaces the row: the old row is gone, the
   * key holds exactly one row, of the new quantity, under a fresh id; 201.
   */
  lemma UpdateReplacesRow(t: CartState, itemId: RowId, b: AddBody)
    requires WellFormed(t)
    requires KeyIds(t.rows, b.productId, b.sessionId) <= {itemId}
    ensures var r := UpdateQuantityStep(t, itemId, b, true, true, true);
      && (itemId in t.rows ==> itemId !in r.state.rows)
      && t.nextId !in t.rows
      && KeyIds(r.state.rows, b.productId, b.sessionId) == {t.nextId}
      && r.state.rows[t.nextId].quantity == b.quantity
      && (forall id | id in t.rows && id != itemId :: id in r.state.rows && r.state.rows[id] == t.rows[id])
      && Status(r.response) == 201
  {
    var d := t.(rows := t.rows - {itemId});
    assert DeleteStep(t, itemId, true).state == d;
    assert KeyIds(d.rows, b.productId, b.sessionId) == {};
    var row := CartRow(t.nextId, b.sessionId, b.productId, b.quantity);
    var r := CartState(d.rows[t.nextId := row], t.nextId + 1);
    assert PostStep(d, b, true, true) == Step(r, ItemAdded(row));
    assert t.nextId !in t.rows;
    assert KeyIds(r.rows, b.productId, b.sessionId) == {t.nextId};
  }

  /**
   * When the DELETE fails, its error is never looked at. If the row is the only one of the
   * POST's (product, session), as it is with the corrected query, the POST then merges into
   * it, so the quantity becomes the old one plus the new one.
   */
  lemma UpdateAddsWhenDeleteFails(t: CartState, itemId: RowId, b: AddBody)
    requires KeyIds(t.rows, b.productId, b.sessionId) == {itemId}
    ensures var r := UpdateQuantityStep(t, itemId, b, false, true, true);
      && r.state.rows.Keys == t.rows.Keys
      && r.state.rows[itemId].quantity == t.rows[itemId].quantity + b.quantity
      && Status(r.response) == 200
  {
    PostMergesExistingRow(t, b, itemId);
  }

  /**
   * With the session-less cart query the row being updated is a "default" row, never the
   * page's own. When its DELETE fails, that row stays exactly as it was, and the POST does
   * what a POST of the page's session does on the table: it merges into the page's own row
   * for the product, or inserts a fresh one.
   */
  lemma UpdateLeavesDefaultRowWhenDeleteFails(t: CartState, itemId: RowId, b: AddBody)
    requires WellFormed(t)
    requires itemId in t.rows && t.rows[itemId].sessionId == DefaultSession && b.sessionId != DefaultSession
    ensures itemId !in KeyIds(t.rows, b.productId, b.sessionId)
    ensures var r := UpdateQuantityStep(t, itemId, b, false, true, true);
      && r == PostStep(t, b, true, true)
      && itemId in r.state.rows && r.state.rows[itemId] == t.rows[itemId]
  {
    assert DeleteStep(t, itemId, false).state == t;
    assert itemId < t.nextId;
  }

  /**
   * The session-less cart query lists "default" rows, so the row being updated is not the
   * page's own. When the page's session already holds a row for the product, the update
   * deletes the "default" row and adds the new quantity to the page's row instead of
   * setting it; no fresh row is made.
   */
  lemma UpdateMergesIntoOwnRow(t: CartState, itemId: RowId, ownId: RowId, b: AddBody)
    requires WellFormed(t)
    requires itemId in t.rows && t.rows[itemId].sessionId == DefaultSession && b.sessionId != DefaultSession
    requires KeyIds(t.rows, b.productId, b.sessionId) == {ownId}
    ensures var r := UpdateQuantityStep(t, itemId, b, true, true, true);
      && itemId !in r.state.rows
      && r.state.nextId == t.nextId
      && KeyIds(r.state.rows, b.productId, b.sessionId) == {ownId}
      && r.state.rows[ownId].quantity == t.rows[ownId].quantity + b.quantity
      && Status(r.response) == 200
  {
    assert ownId in KeyIds(t.rows, b.productId, b.sessionId);
    assert ownId != itemId;
    var d := t.(rows := t.rows - {itemId});
    assert DeleteStep(t, itemId, true).state == d;
    assert KeyIds(d.rows, b.productId, b.sessionId) == {ownId};
    PostMergesExistingRow(d, b, ownId);
    var r := PostStep(d, b, true, true).state;
    assert KeyIds(r.rows, b.productId, b.sessionId) == {ownId};
  }

  /**
   * The cart query reads the "default" session: whatever a session other than
   * "default" adds, the page's cart view stays exactly as it was.
   */
  lemma OwnAdditionsNeverShow(
    t: CartState, catalog: map<ProductId, Product>, b: AddBody, lookupOk: bool, writeOk: bool, readOk: bool)
    requires WellFormed(t) && b.sessionId != DefaultSession
    ensures WellFormed(PostStep(t, b, lookupOk, writeOk).state)
    ensures GetView(PostStep(t, b, lookupOk, writeOk).state, catalog, None, readOk) == GetView(t, catalog, None, readOk)
  {
    PostLeavesOtherSessionsView(t, catalog, b, None, lookupOk, writeOk, readOk);
  }

  /** Every item of a fetched cart belongs to the "default" session. */
  lemma FetchedItemsAreDefaultSession(t: CartState, catalog: map<ProductId, Product>, readOk: bool)
    requires WellFormed(t)
    ensures var r := GetView(t, catalog, None, readOk);
      r.CartView? ==> forall item | item in r.cartItems :: item.row.sessionId == DefaultSession
  {
    GetListsOnlySessionRows(t, catalog, None, readOk);
  }

  /**
   * With the session id sent, a successful POST shows up: the session's cart view lists a
   * row of the added product, provided every product in that session's rows is in the catalog.
   */
  lemma OwnAdditionShows(t: CartState, catalog: map<ProductId, Product>, b: AddBody)
    requires WellFormed(t) && UniqueKeys(t.rows) && b.sessionId != ""
    requires b.productId in catalog
    requires forall id | id in t.rows && t.rows[id].sessionId == b.sessionId :: t.rows[id].productId in catalog
    ensures WellFormed(PostStep(t, b, true, true).state)
    ensures var r := GetView(PostStep(t, b, true, true).state, catalog, Some(b.sessionId), true);
      && r.CartView?
      && exists item | item in r.cartItems :: item.row.productId == b.productId && item.row.sessionId == b.sessionId
  {
    var p, s := b.productId, b.sessionId;
    PostKeepsInvariants(t, b, true, true);
    PostAccumulates(t, b);
    var r := PostStep(t, b, true, true).state;
    forall id | id in r.rows && r.rows[id].sessionId == s
      ensures r.rows[id].productId in catalog
    {
      if !(id in t.rows && r.rows[id] == t.rows[id]) {
        assert id in KeyIds(r.rows, p, s);
      }
    }
    GetFailsOnlyWhen(r, catalog, Some(s), true);
    GetListsEverySessionRow(r, catalog, Some(s), true);
    var id :| id in KeyIds(r.rows, p, s);
  }

  class Page {
    /** `useState(getSessionId)`: fixed for the life of the page. */
    const sessionId: SessionId
    /** The cart query's last data, if it ever succeeded. */
    var cartData: Option<CartData>
    /** The receipt of the last order placed. */
    var receipt: Option<Receipt>

    constructor (store: LocalStorage, uuid: string)
      modifies store
      ensures (sessionId, store.items) == SessionIdAfter(old(store.items), uuid)
      ensures cartData == None && receipt == None
    {
      var id := GetSessionId(store, uuid);
      sessionId := id;
      cartData := None;
      receipt := None;
    }

    /** The cart query: GET with no `session_id`. A failed fetch keeps the previous data. */
    method FetchCart(server: CartFunction.CartStore, readOk: bool) returns (ok: bool)
      requires server.Valid()
      modifies this`cartData, server
      ensures server.Valid() && server.State() == old(server.State())
      ensures var view := GetView(server.State(), server.catalog, None, readOk);
        && ok == view.CartView?
        && cartData == if ok then Some(CartData(view.cartItems, view.total)) else old(cartData)
      ensures ok ==> forall item | item in cartData.value.cartItems :: item.product.id == item.row.productId
    {
      ListedProductsMatchRows(server.State(), server.catalog, None, readOk);
      var resp := server.Serve(CartFunction.CartRequest(Get, None, None, None), readOk, writeOk := false);
      ok := Succeeded(resp);
      if ok {
        cartData := Some(CartData(resp.cartItems, resp.total));
      }
    }

    /** The cart query as its key `["cart", sessionId]` intends it: GET with the page's session id. */
    method FetchOwnCart(server: CartFunction.CartStore, readOk: bool) returns (ok: bool)
      requires server.Valid()
      modifies this`cartData, server
      ensures server.Valid() && server.State() == old(server.State())
      ensures var view := GetView(server.State(), server.catalog, Some(sessionId), readOk);
        && ok == view.CartView?
        && cartData == if ok then Some(CartData(view.cartItems, view.total)) else old(cartData)
      ensures ok ==> forall item | item in cartData.value.cartItems :: item.product.id == item.row.productId
    {
      ListedProductsMatchRows(server.State(), server.catalog, Some(sessionId), readOk);
      var resp := server.Serve(CartFunction.CartRequest(Get, Some(sessionId), None, None), readOk, writeOk := false);
      ok := Succeeded(resp);
      if ok {
        cartData := Some(CartData(resp.cartItems, resp.total));
      }
    }

    /** `addToCart`: POST `{ productId, quantity: 1, sessionId }`. */
    method AddToCart(server: CartFunction.CartStore, productId: ProductId, lookupOk: bool, writeOk: bool)
      returns (ok: bool)
      requires server.Valid()
      modifies server
      ensures server.Valid()
      ensures var r := PostStep(old(server.State()), AddBody(productId, 1, sessionId), lookupOk, writeOk);
        server.State() == r.state && ok == Succeeded(r.response)
    {
      var resp := server.Serve(
        CartFunction.CartRequest(Post, None, None, Some(AddBody(productId, 1, sessionId))), lookupOk, writeOk);
      ok := Succeeded(resp);
    }

    /** `removeFromCart`: DELETE `cart/<id>`. */
    method RemoveFromCart(server: CartFunction.CartStore, itemId: RowId, writeOk: bool) returns (ok: bool)
      requires server.Valid()
      modifies server
      ensures server.Valid()
      ensures var r := DeleteStep(old(server.State()), itemId, writeOk);
        server.State() == r.state && ok == Succeeded(r.response)
    {
      var resp := server.Serve(CartFunction.CartRequest(Delete, None, Some(itemId), None), false, writeOk);
      ok := Succeeded(resp);
    }

    /**
     * `updateQuantity`: look the row up in the fetched cart; if it is there, DELETE it,
     * ignoring the outcome, and POST its product with the new quantity under the
     * page's session. An item not found ends the mutation quietly.
     */
    method UpdateQuantity(
      server: CartFunction.CartStore, itemId: RowId, newQuantity: int,
      deleteOk: bool, lookupOk: bool, writeOk: bool)
      returns (ok: bool)
      requires server.Valid()
      modifies server
      ensures server.Valid()
      ensures FindItem(cartData, itemId).None? ==> server.State() == old(server.State()) && ok
      ensures FindItem(cartData, itemId).Some? ==>
        var r := UpdateQuantityStep(old(server.State()), itemId,
          AddBody(FindItem(cartData, itemId).value.product.id, newQuantity, sessionId), deleteOk, lookupOk, writeOk);
        server.State() == r.state && ok == Succeeded(r.response)
    {
      var item := FindItem(cartData, itemId);
      if item.None? {
        return true;
      }
      var _ := server.Serve(CartFunction.CartRequest(Delete, None, Some(itemId), None), false, deleteOk);
      var b := AddBody(item.value.product.id, newQuantity, sessionId);
      var resp := server.Serve(CartFunction.CartRequest(Post, None, None, Some(b)), lookupOk, writeOk);
      ok := Succeeded(resp);
    }

    /**
     * The `checkout` mutation: POST the fetched `cartItems` as they are, with the
     * customer's name and email and the page's session id, and keep the receipt.
     * Without fetched data, reading `cartData.cartItems` throws and nothing is sent.
     */
    method Checkout(
      cart: CartFunction.CartStore, orders: CheckoutFunction.OrdersTable, name: string, email: string,
      insertOk: bool, clearOk: bool, createdAt: Timestamp)
      returns (ok: bool)
      requires cart.Valid() && orders.Valid()
      modifies this`receipt, cart, orders
      ensures cart.Valid() && orders.Valid()
      ensures cartData.None? ==>
        !ok && cart.State() == old(cart.State()) && orders.State() == old(orders.State()) && receipt == old(receipt)
      ensures cartData.Some? ==>
        var out := CheckoutFunction.CheckoutStep(old(cart.State()), old(orders.State()),
          CheckoutFunction.CheckoutRequest(Post,
            CheckoutFunction.CheckoutBody(cartData.value.cartItems, name, email, sessionId)),
          insertOk, clearOk, createdAt);
        && cart.State() == out.cart && orders.State() == out.orders
        && ok == out.response.OrderPlaced?
        && receipt == if ok then Some(out.response.receipt) else old(receipt)
    {
      if cartData.None? {
        return false;
      }
      var body := CheckoutFunction.CheckoutBody(cartData.value.cartItems, name, email, sessionId);
      var resp := CheckoutFunction.Serve(
        cart, orders, CheckoutFunction.CheckoutRequest(Post, body), insertOk, clearOk, createdAt);
      ok := resp.OrderPlaced?;
      if ok {
        receipt := Some(resp.receipt);
      }
    }

    /** The checkout form is rendered only while the fetched cart holds items. */
    predicate FormShown()
      reads this
    {
      cartData.Some? && |cartData.value.cartItems| > 0
    }

    /**
     * Submitting the checkout form: nothing happens while it is not shown; otherwise
     * `handleSubmit` records the errors and, when there are none, runs the checkout
     * with the name and email as typed.
     */
    method SubmitForm(
      cart: CartFunction.CartStore, orders: CheckoutFunction.OrdersTable, name: string, email: string,
      insertOk: bool, clearOk: bool, createdAt: Timestamp)
      returns (errors: CheckoutForm.FormErrors, ok: bool)
      requires cart.Valid() && orders.Valid()
      modifies this`receipt, cart, orders
      ensures cart.Valid() && orders.Valid()
      ensures ok ==> FormShown() && !CheckoutForm.IsBlank(name) && CheckoutForm.EmailShape(email)
      ensures FormShown() ==> errors == CheckoutForm.HandleSubmit(name, email).errors
      ensures !FormShown() || CheckoutForm.HandleSubmit(name, email).submitted.None? ==>
        !ok && cart.State() == old(cart.State()) && orders.State() == old(orders.State()) && receipt == old(receipt)
      ensures FormShown() && CheckoutForm.HandleSubmit(name, email).submitted.Some? ==>
        var out := CheckoutFunction.CheckoutStep(old(cart.State()), old(orders.State()),
          CheckoutFunction.CheckoutRequest(Post,
            CheckoutFunction.CheckoutBody(cartData.value.cartItems, name, email, sessionId)),
          insertOk, clearOk, createdAt);
        && cart.State() == out.cart && orders.State() == out.orders
        && ok == out.response.OrderPlaced?
        && receipt == if ok then Some(out.response.receipt) else old(receipt)
    {
      if !FormShown() {
        return CheckoutForm.FormErrors(None, None), false;
      }
      var submission := CheckoutForm.HandleSubmit(name, email);
      errors := submission.errors;
      if submission.submitted.None? {
        return errors, false;
      }
      var customer := submission.submitted.value;
      ok := Checkout(cart, orders, customer.name, customer.email, insertOk, clearOk, createdAt);
    }
  }
}
