/**
 * The `cart` table and what each verb of the `cart` edge function does to
 * it, as functions from the table before a request to the table after it
 * and the response. Every database call is given an explicit outcome
 * (`readOk`, `writeOk`): a failed call raises, and the handler answers 500.
 */
module CartSpec {
  import opened Records
  import opened Money

  /** The `cart` table: rows by id, and the next id the database will hand out. */
  datatype CartState = CartState(rows: map<RowId, CartRow>, nextId: nat)

  /** The JSON body of a POST: `{ productId, quantity, sessionId }`. */
  datatype AddBody = AddBody(productId: ProductId, quantity: int, sessionId: SessionId)

  /** The responses of the `cart` edge function, one constructor per return site. */
  datatype CartResponse =
    | Preflight
    | CartView(cartItems: seq<CartItem>, total: string)
    | ItemUpdated(cartItem: CartRow)
    | ItemAdded(cartItem: CartRow)
    | ItemRemoved
    | MethodNotAllowed
    | ServerError

  datatype Step = Step(state: CartState, response: CartResponse)

  function Status(r: CartResponse): (code: int)
    ensures code == 500 <==> r.ServerError?
    ensures code == 405 <==> r.MethodNotAllowed?
    ensures code == 201 <==> r.ItemAdded?
    ensures code == 200 || code == 201 || code == 405 || code == 500
  {
    match r
    case ItemAdded(_) => 201
    case MethodNotAllowed => 405
    case ServerError => 500
    case _ => 200
  }

  const DefaultSession: SessionId := "default"

  /** `url.searchParams.get('session_id') || 'default'`: an absent or empty parameter reads "default". */
  function SessionOrDefault(param: Option<string>): SessionId {
    if param.Some? && param.value != "" then param.value else DefaultSession
  }

  /** Every row is stored under its own id, and every id is below the fresh-id counter. */
  ghost predicate WellFormed(t: CartState) {
    forall id | id in t.rows :: id < t.nextId && t.rows[id].id == id
  }

  /** The merge invariant: at most one row per (session, product). */
  ghost predicate UniqueKeys(rows: map<RowId, CartRow>) {
    forall a, b | a in rows && b in rows ::
      rows[a].sessionId == rows[b].sessionId && rows[a].productId == rows[b].productId ==> a == b
  }

  /** Products are stored under their own id, as the `products(*)` join guarantees. */
  ghost predicate Keyed(catalog: map<ProductId, Product>) {
    forall p | p in catalog :: catalog[p].id == p
  }

  /** The ids of the rows a `.eq('product_id', p).eq('session_id', s)` query selects. */
  ghost function KeyIds(rows: map<RowId, CartRow>, p: ProductId, s: SessionId): set<RowId> {
    set id | id in rows && rows[id].productId == p && rows[id].sessionId == s
  }

  /** The quantity held for (session, product): that of its row, or 0 when there is none. */
  ghost function KeyQuantity(rows: map<RowId, CartRow>, p: ProductId, s: SessionId): int {
    var ids := KeyIds(rows, p, s);
    if ids == {} then 0 else var id :| id in ids; rows[id].quantity
  }

  // ---------------------------------------------------------------- GET

  /**
   * The rows of session `s` among the ids below `n`: what `.eq('session_id', s)` selects.
   * The query gives no order, so the database decides it; this model fixes one, ascending id.
   */
  function SessionRows(rows: map<RowId, CartRow>, n: nat, s: SessionId): (r: seq<CartRow>)
    requires forall id | id in rows :: rows[id].id == id
    ensures forall k | 0 <= k < |r| ::
      r[k].id < n && r[k].id in rows && rows[r[k].id] == r[k] && r[k].sessionId == s
    ensures forall id | id in rows && id < n && rows[id].sessionId == s :: rows[id] in r
    ensures forall k, l | 0 <= k < l < |r| :: r[k].id < r[l].id
  {
    if n == 0 then []
    else
      SessionRows(rows, n - 1, s)
      + (if n - 1 in rows && rows[n - 1].sessionId == s then [rows[n - 1]] else [])
  }

  /** The `products(*)` join. A row whose product is missing gets `products: null`, and reading its price throws. */
  function Join(rows: seq<CartRow>, catalog: map<ProductId, Product>): (r: Option<seq<CartItem>>)
    ensures r.Some? <==> forall k | 0 <= k < |rows| :: rows[k].productId in catalog
    ensures r.Some? ==> |r.value| == |rows|
    ensures r.Some? ==> forall k | 0 <= k < |rows| ::
      r.value[k] == CartItem(rows[k], catalog[rows[k].productId])
  {
    if rows == [] then Some([])
    else
      var last := rows[|rows| - 1];
      match Join(rows[..|rows| - 1], catalog)
      case None => None
      case Some(items) =>
        if last.productId in catalog then Some(items + [CartItem(last, catalog[last.productId])]) else None
  }

  /** GET: the session's rows joined with their products, and their total as `toFixed(2)` text. */
  function GetView(t: CartState, catalog: map<ProductId, Product>, param: Option<string>, readOk: bool): (r: CartResponse)
    requires WellFormed(t)
    ensures r.CartView? || r == ServerError
    ensures !readOk ==> r == ServerError
    ensures r.CartView? ==> |r.cartItems| == |SessionRows(t.rows, t.nextId, SessionOrDefault(param))|
  {
    if !readOk then ServerError
    else
      match Join(SessionRows(t.rows, t.nextId, SessionOrDefault(param)), catalog)
      case None => ServerError
      case Some(items) => CartView(items, FormatCents(Total(items)))
  }

  // ---------------------------------------------------------------- POST

  /**
   * POST: look up the (product, session) row with `maybeSingle()`. With exactly one
   * match, add the requested quantity to it (200). With none, insert a fresh row (201).
   * With several, the library reports PGRST116, which the handler does not rethrow,
   * so `existing` is null and a further row is inserted.
   */
  ghost function PostStep(t: CartState, b: AddBody, lookupOk: bool, writeOk: bool): (r: Step)
    ensures r.response.ItemUpdated? || r.response.ItemAdded? || r.response == ServerError
    ensures r.response == ServerError ==> r.state == t
    ensures t.rows.Keys <= r.state.rows.Keys <= t.rows.Keys + {t.nextId}
    ensures r.state.nextId == if r.response.ItemAdded? then t.nextId + 1 else t.nextId
    ensures forall id | id in t.rows && id != t.nextId
        && (t.rows[id].productId != b.productId || t.rows[id].sessionId != b.sessionId) ::
      r.state.rows[id] == t.rows[id]
  {
    var ids := KeyIds(t.rows, b.productId, b.sessionId);
    if !lookupOk then Step(t, ServerError)
    else if |ids| == 1 then
      var id :| id in ids;
      var row := t.rows[id].(quantity := t.rows[id].quantity + b.quantity);
      if writeOk then Step(t.(rows := t.rows[id := row]), ItemUpdated(row)) else Step(t, ServerError)
    else
      var row := CartRow(t.nextId, b.sessionId, b.productId, b.quantity);
      if writeOk then Step(CartState(t.rows[t.nextId := row], t.nextId + 1), ItemAdded(row))
      else Step(t, ServerError)
  }

  // ---------------------------------------------------------------- DELETE

  /** DELETE /cart/:id: `.delete().eq('id', id)`, with no session check; 200 whether or not a row matched. */
  function DeleteStep(t: CartState, id: RowId, writeOk: bool): (r: Step)
    ensures writeOk ==> r.response == ItemRemoved && r.state.nextId == t.nextId
    ensures writeOk ==> r.state.rows.Keys == t.rows.Keys - {id}
    ensures forall other | other in t.rows && other != id :: other in r.state.rows && r.state.rows[other] == t.rows[other]
    ensures !writeOk ==> r == Step(t, ServerError)
  {
    if writeOk then Step(t.(rows := t.rows - {id}), ItemRemoved) else Step(t, ServerError)
  }

  /** Checkout's `.delete().eq('session_id', s)`: every row of session `s` goes, every other row stays. */
  function ClearSession(t: CartState, s: SessionId): (r: CartState)
    ensures r.nextId == t.nextId
    ensures forall id :: id in r.rows <==> id in t.rows && t.rows[id].sessionId != s
    ensures forall id | id in r.rows :: r.rows[id] == t.rows[id]
  {
    t.(rows := map id | id in t.rows && t.rows[id].sessionId != s :: t.rows[id])
  }

  // ---------------------------------------------------------------- properties

  /** Under the merge invariant a lookup finds no row or exactly one. */
  lemma AtMostOneMatch(rows: map<RowId, CartRow>, p: ProductId, s: SessionId)
    requires UniqueKeys(rows)
    ensures |KeyIds(rows, p, s)| <= 1
  {
    var ids := KeyIds(rows, p, s);
    if ids != {} {
      var a :| a in ids;
      assert ids == {a};
    }
  }

  lemma {:induction false} NoSessionRows(rows: map<RowId, CartRow>, n: nat, s: SessionId)
    requires forall id | id in rows :: rows[id].id == id
    requires forall id | id in rows :: rows[id].sessionId != s
    ensures SessionRows(rows, n, s) == []
  {
    if n > 0 {
      NoSessionRows(rows, n - 1, s);
    }
  }

  /** GET answers 500 exactly when the read fails or a row of the session has no product. */
  lemma GetFailsOnlyWhen(t: CartState, catalog: map<ProductId, Product>, param: Option<string>, readOk: bool)
    requires WellFormed(t)
    ensures var r := GetView(t, catalog, param, readOk);
      && (r.CartView? <==> readOk && forall id | id in t.rows && t.rows[id].sessionId == SessionOrDefault(param) ::
            t.rows[id].productId in catalog)
      && (!r.CartView? ==> r == ServerError)
  {
    JoinSucceedsIff(t, catalog, SessionOrDefault(param));
  }

  /** The join of a session's rows succeeds exactly when every row of the session has its product. */
  lemma JoinSucceedsIff(t: CartState, catalog: map<ProductId, Product>, s: SessionId)
    requires WellFormed(t)
    ensures Join(SessionRows(t.rows, t.nextId, s), catalog).Some? <==>
      forall id | id in t.rows && t.rows[id].sessionId == s :: t.rows[id].productId in catalog
  {
    var selected := SessionRows(t.rows, t.nextId, s);
    assert forall id | id in t.rows && t.rows[id].sessionId == s :: t.rows[id] in selected by {
      forall id | id in t.rows && t.rows[id].sessionId == s ensures t.rows[id] in selected {
        assert id < t.nextId;
      }
    }
    EveryRowHasProductIff(t.rows, selected, catalog, s);
  }

  /** When `sel` lists exactly the rows of session `s`, "every listed row has its product" means the same over the table. */
  lemma EveryRowHasProductIff(rows: map<RowId, CartRow>, sel: seq<CartRow>, catalog: map<ProductId, Product>, s: SessionId)
    requires forall k | 0 <= k < |sel| :: sel[k].id in rows && rows[sel[k].id] == sel[k] && sel[k].sessionId == s
    requires forall id | id in rows && rows[id].sessionId == s :: rows[id] in sel
    ensures (forall k | 0 <= k < |sel| :: sel[k].productId in catalog) <==>
      (forall id | id in rows && rows[id].sessionId == s :: rows[id].productId in catalog)
  {
    if forall k | 0 <= k < |sel| :: sel[k].productId in catalog {
      forall id | id in rows && rows[id].sessionId == s ensures rows[id].productId in catalog {
        var k :| 0 <= k < |sel| && sel[k] == rows[id];
      }
    } else {
      var k :| 0 <= k < |sel| && sel[k].productId !in catalog;
      assert rows[sel[k].id].productId !in catalog;
    }
  }

  /** Every item GET lists is a stored row of the requested session, with its own product. */
  lemma GetListsOnlySessionRows(t: CartState, catalog: map<ProductId, Product>, param: Option<string>, readOk: bool)
    requires WellFormed(t)
    ensures var r := GetView(t, catalog, param, readOk);
      r.CartView? ==> forall item | item in r.cartItems ::
        && item.row.id in t.rows && t.rows[item.row.id] == item.row
        && item.row.sessionId == SessionOrDefault(param)
        && item.product == catalog[item.row.productId]
  {
    var selected := SessionRows(t.rows, t.nextId, SessionOrDefault(param));
    var joined := Join(selected, catalog);
    if readOk && joined.Some? {
      forall item | item in joined.value
        ensures item.row in selected && item.product == catalog[item.row.productId]
      {
        var k :| 0 <= k < |joined.value| && joined.value[k] == item;
        assert item.row == selected[k];
      }
    }
  }

  /** Every stored row of the requested session appears among the items GET lists. */
  lemma GetListsEverySessionRow(t: CartState, catalog: map<ProductId, Product>, param: Option<string>, readOk: bool)
    requires WellFormed(t)
    ensures var r := GetView(t, catalog, param, readOk);
      r.CartView? ==> forall id | id in t.rows && t.rows[id].sessionId == SessionOrDefault(param) ::
        exists item | item in r.cartItems :: item.row == t.rows[id]
  {
    var selected := SessionRows(t.rows, t.nextId, SessionOrDefault(param));
    var joined := Join(selected, catalog);
    if readOk && joined.Some? {
      forall id | id in t.rows && t.rows[id].sessionId == SessionOrDefault(param)
        ensures exists item | item in joined.value :: item.row == t.rows[id]
      {
        var k :| 0 <= k < |selected| && selected[k] == t.rows[id];
        assert joined.value[k].row == t.rows[id];
      }
    }
  }

  /** GET's total text reads back as the sum of price times quantity over the listed items. */
  lemma GetTotalReadsBack(t: CartState, catalog: map<ProductId, Product>, param: Option<string>, readOk: bool)
    requires WellFormed(t)
    ensures var r := GetView(t, catalog, param, readOk);
      r.CartView? ==> ParseCents(r.total) == Some(Total(r.cartItems))
  {
    var joined := Join(SessionRows(t.rows, t.nextId, SessionOrDefault(param)), catalog);
    if joined.Some? {
      CentsRoundTrip(Total(joined.value));
    }
  }

  /** With a catalog keyed by product id, every listed item's product is the one its row names. */
  lemma ListedProductsMatchRows(t: CartState, catalog: map<ProductId, Product>, param: Option<string>, readOk: bool)
    requires WellFormed(t) && Keyed(catalog)
    ensures var r := GetView(t, catalog, param, readOk);
      r.CartView? ==> forall item | item in r.cartItems :: item.product.id == item.row.productId
  {
    GetListsOnlySessionRows(t, catalog, param, readOk);
  }

  /** GET of a session that holds no rows is an empty cart with total "0.00". */
  lemma GetUnknownSessionIsEmpty(t: CartState, catalog: map<ProductId, Product>, param: Option<string>)
    requires WellFormed(t)
    requires forall id | id in t.rows :: t.rows[id].sessionId != SessionOrDefault(param)
    ensures GetView(t, catalog, param, true) == CartView([], "0.00")
  {
    NoSessionRows(t.rows, t.nextId, SessionOrDefault(param));
    assert FormatCents(0) == "0.00";
  }

  /** POST on an existing (product, session) row: its quantity grows, its id stays, nothing is inserted, 200. */
  lemma PostMergesExistingRow(t: CartState, b: AddBody, id: RowId)
    requires KeyIds(t.rows, b.productId, b.sessionId) == {id}
    ensures var r := PostStep(t, b, true, true);
      && r.state.nextId == t.nextId
      && r.state.rows.Keys == t.rows.Keys
      && r.state.rows[id].id == t.rows[id].id
      && r.state.rows[id] == t.rows[id].(quantity := t.rows[id].quantity + b.quantity)
      && (forall other | other in t.rows && other != id :: r.state.rows[other] == t.rows[other])
      && r.response == ItemUpdated(r.state.rows[id])
      && Status(r.response) == 200
  {
    var ids := KeyIds(t.rows, b.productId, b.sessionId);
    assert |ids| == 1;
  }

  /** POST without a single matching row inserts exactly one fresh row `{product_id, quantity, session_id}`, 201. */
  lemma PostInsertsFreshRow(t: CartState, b: AddBody)
    requires WellFormed(t)
    requires |KeyIds(t.rows, b.productId, b.sessionId)| != 1
    ensures var r := PostStep(t, b, true, true);
      var row := CartRow(t.nextId, b.sessionId, b.productId, b.quantity);
      && t.nextId !in t.rows
      && r.state.rows == t.rows[t.nextId := row]
      && |r.state.rows| == |t.rows| + 1
      && r.response == ItemAdded(row)
      && Status(r.response) == 201
  {
    assert t.nextId !in t.rows;
  }

  /** A failed lookup or a failed write leaves the table as it was and answers 500. */
  lemma PostFailureWritesNothing(t: CartState, b: AddBody, lookupOk: bool, writeOk: bool)
    requires !lookupOk || !writeOk
    ensures PostStep(t, b, lookupOk, writeOk) == Step(t, ServerError)
    ensures Status(ServerError) == 500
  {
  }

  /** POST, whatever its outcome, keeps the table well formed and keeps the merge invariant. */
  lemma PostKeepsInvariants(t: CartState, b: AddBody, lookupOk: bool, writeOk: bool)
    requires WellFormed(t) && UniqueKeys(t.rows)
    ensures WellFormed(PostStep(t, b, lookupOk, writeOk).state)
    ensures UniqueKeys(PostStep(t, b, lookupOk, writeOk).state.rows)
  {
    var p, s := b.productId, b.sessionId;
    var ids := KeyIds(t.rows, p, s);
    var r := PostStep(t, b, lookupOk, writeOk).state;
    if lookupOk && writeOk {
      AtMostOneMatch(t.rows, p, s);
      if |ids| == 1 {
        var id :| id in ids;
        assert ids == {id};
        assert r.rows == t.rows[id := t.rows[id].(quantity := t.rows[id].quantity + b.quantity)];
      } else {
        assert ids == {};
        var n := t.nextId;
        assert r.rows == t.rows[n := CartRow(n, s, p, b.quantity)];
        forall a, c | a in r.rows && c in r.rows
          && r.rows[a].sessionId == r.rows[c].sessionId && r.rows[a].productId == r.rows[c].productId
          ensures a == c
        {
          assert a != n ==> a in t.rows && (a in ids || r.rows[a].sessionId != s || r.rows[a].productId != p);
          assert c != n ==> c in t.rows && (c in ids || r.rows[c].sessionId != s || r.rows[c].productId != p);
        }
      }
    }
  }

  /** One successful POST: the key then has exactly one row, holding the old quantity plus the new one. */
  lemma PostAccumulates(t: CartState, b: AddBody)
    requires WellFormed(t) && UniqueKeys(t.rows)
    ensures var r := PostStep(t, b, true, true).state;
      && |KeyIds(r.rows, b.productId, b.sessionId)| == 1
      && KeyQuantity(r.rows, b.productId, b.sessionId) == KeyQuantity(t.rows, b.productId, b.sessionId) + b.quantity
      && (forall id | id in t.rows && (t.rows[id].productId != b.productId || t.rows[id].sessionId != b.sessionId) ::
            id in r.rows && r.rows[id] == t.rows[id])
  {
    var ids := KeyIds(t.rows, b.productId, b.sessionId);
    AtMostOneMatch(t.rows, b.productId, b.sessionId);
    if |ids| == 1 {
      var id :| id in ids;
      assert ids == {id};
      MergeAccumulates(t, b, id);
    } else {
      assert ids == {};
      InsertAccumulates(t, b);
    }
  }

  /** The merge case of `PostAccumulates`. */
  lemma MergeAccumulates(t: CartState, b: AddBody, id: RowId)
    requires KeyIds(t.rows, b.productId, b.sessionId) == {id}
    ensures var r := PostStep(t, b, true, true).state;
      && KeyIds(r.rows, b.productId, b.sessionId) == {id}
      && KeyQuantity(r.rows, b.productId, b.sessionId) == KeyQuantity(t.rows, b.productId, b.sessionId) + b.quantity
  {
    var r := PostStep(t, b, true, true).state;
    PostMergesExistingRow(t, b, id);
    assert KeyIds(r.rows, b.productId, b.sessionId) == {id};
  }

  /** The insert case of `PostAccumulates`. */
  lemma InsertAccumulates(t: CartState, b: AddBody)
    requires WellFormed(t)
    requires KeyIds(t.rows, b.productId, b.sessionId) == {}
    ensures var r := PostStep(t, b, true, true).state;
      && KeyIds(r.rows, b.productId, b.sessionId) == {t.nextId}
      && KeyQuantity(t.rows, b.productId, b.sessionId) == 0
      && KeyQuantity(r.rows, b.productId, b.sessionId) == b.quantity
  {
    var r := PostStep(t, b, true, true).state;
    PostInsertsFreshRow(t, b);
    assert KeyIds(r.rows, b.productId, b.sessionId) == {t.nextId};
  }

  function Sum(qs: seq<int>): int {
    if qs == [] then 0 else qs[0] + Sum(qs[1..])
  }

  /** Successful POSTs of quantities `qs`, in order, for one (product, session). */
  ghost function PostAll(t: CartState, p: ProductId, s: SessionId, qs: seq<int>): CartState
    decreases |qs|
  {
    if qs == [] then t else PostAll(PostStep(t, AddBody(p, qs[0], s), true, true).state, p, s, qs[1..])
  }

  /**
   * Sequential POSTs of q1..qn for one session and product leave exactly one row for
   * them, holding the quantity it had (0 when absent) plus q1 + ... + qn; every row of
   * another (product, session) is untouched.
   */
  lemma {:induction false} SequentialPostsAccumulate(t: CartState, p: ProductId, s: SessionId, qs: seq<int>)
    requires WellFormed(t) && UniqueKeys(t.rows)
    requires qs != []
    ensures var r := PostAll(t, p, s, qs);
      && WellFormed(r) && UniqueKeys(r.rows)
      && |KeyIds(r.rows, p, s)| == 1
      && KeyQuantity(r.rows, p, s) == KeyQuantity(t.rows, p, s) + Sum(qs)
      && (forall id | id in t.rows && (t.rows[id].productId != p || t.rows[id].sessionId != s) ::
            id in r.rows && r.rows[id] == t.rows[id])
    decreases |qs|
  {
    var b := AddBody(p, qs[0], s);
    var t1 := PostStep(t, b, true, true).state;
    PostKeepsInvariants(t, b, true, true);
    PostAccumulates(t, b);
    if qs[1..] != [] {
      SequentialPostsAccumulate(t1, p, s, qs[1..]);
    }
  }

  /** Starting with no row for the pair: exactly one row, of quantity q1 + ... + qn. */
  lemma SequentialPostsFromEmpty(t: CartState, p: ProductId, s: SessionId, qs: seq<int>)
    requires WellFormed(t) && UniqueKeys(t.rows)
    requires KeyIds(t.rows, p, s) == {} && qs != []
    ensures var r := PostAll(t, p, s, qs);
      exists id :: KeyIds(r.rows, p, s) == {id} && r.rows[id].quantity == Sum(qs)
  {
    SequentialPostsAccumulate(t, p, s, qs);
    var r := PostAll(t, p, s, qs);
    var id :| id in KeyIds(r.rows, p, s);
    assert KeyIds(r.rows, p, s) == {id};
  }

  /** `SessionRows` depends only on the rows of session `s` below `n`. */
  lemma {:induction false} SessionRowsAgree(rows1: map<RowId, CartRow>, rows2: map<RowId, CartRow>, n: nat, s: SessionId)
    requires forall id | id in rows1 :: rows1[id].id == id
    requires forall id | id in rows2 :: rows2[id].id == id
    requires forall id | id < n ::
      (id in rows1 && rows1[id].sessionId == s) <==> (id in rows2 && rows2[id].sessionId == s)
    requires forall id | id < n && id in rows1 && rows1[id].sessionId == s :: id in rows2 && rows2[id] == rows1[id]
    ensures SessionRows(rows1, n, s) == SessionRows(rows2, n, s)
  {
    if n > 0 {
      SessionRowsAgree(rows1, rows2, n - 1, s);
    }
  }

  /** Writing a row of another session, at any id, leaves the rows of session `s` as they were. */
  lemma SessionRowsOverwrite(rows: map<RowId, CartRow>, n: nat, s: SessionId, row: CartRow)
    requires forall id | id in rows :: rows[id].id == id
    requires row.sessionId != s && (row.id in rows ==> rows[row.id].sessionId != s)
    ensures SessionRows(rows[row.id := row], n, s) == SessionRows(rows, n, s)
    ensures SessionRows(rows[row.id := row], row.id + 1, s) == SessionRows(rows[row.id := row], row.id, s)
  {
    SessionRowsAgree(rows, rows[row.id := row], n, s);
  }

  /** A POST for another session leaves the rows of session `s` as they were. */
  lemma PostLeavesOtherSessionRows(t: CartState, b: AddBody, s: SessionId, lookupOk: bool, writeOk: bool)
    requires WellFormed(t) && b.sessionId != s
    ensures WellFormed(PostStep(t, b, lookupOk, writeOk).state)
    ensures var r := PostStep(t, b, lookupOk, writeOk).state;
      SessionRows(r.rows, r.nextId, s) == SessionRows(t.rows, t.nextId, s)
  {
    if lookupOk && writeOk {
      var ids := KeyIds(t.rows, b.productId, b.sessionId);
      if |ids| == 1 {
        var id :| id in ids;
        assert |ids - {id}| == 0;
        assert ids == {id};
        MergeLeavesOtherSessionRows(t, b, s, id);
      } else {
        InsertLeavesOtherSessionRows(t, b, s);
      }
    }
  }

  /** The merge case of `PostLeavesOtherSessionRows`. */
  lemma MergeLeavesOtherSessionRows(t: CartState, b: AddBody, s: SessionId, id: RowId)
    requires WellFormed(t) && b.sessionId != s
    requires KeyIds(t.rows, b.productId, b.sessionId) == {id}
    ensures var r := PostStep(t, b, true, true).state;
      WellFormed(r) && SessionRows(r.rows, r.nextId, s) == SessionRows(t.rows, t.nextId, s)
  {
    var row := t.rows[id].(quantity := t.rows[id].quantity + b.quantity);
    PostMergesExistingRow(t, b, id);
    assert PostStep(t, b, true, true).state == t.(rows := t.rows[id := row]);
    SessionRowsOverwrite(t.rows, t.nextId, s, row);
  }

  /** The insert case of `PostLeavesOtherSessionRows`. */
  lemma InsertLeavesOtherSessionRows(t: CartState, b: AddBody, s: SessionId)
    requires WellFormed(t) && b.sessionId != s
    requires |KeyIds(t.rows, b.productId, b.sessionId)| != 1
    ensures var r := PostStep(t, b, true, true).state;
      WellFormed(r) && SessionRows(r.rows, r.nextId, s) == SessionRows(t.rows, t.nextId, s)
  {
    var row := CartRow(t.nextId, b.sessionId, b.productId, b.quantity);
    PostInsertsFreshRow(t, b);
    assert PostStep(t, b, true, true).state == CartState(t.rows[t.nextId := row], t.nextId + 1);
    SessionRowsOverwrite(t.rows, t.nextId, s, row);
  }

  /** A POST for one session leaves what GET shows for every other session exactly as it was. */
  lemma PostLeavesOtherSessionsView(
    t: CartState, catalog: map<ProductId, Product>, b: AddBody, param: Option<string>,
    lookupOk: bool, writeOk: bool, readOk: bool)
    requires WellFormed(t)
    requires b.sessionId != SessionOrDefault(param)
    ensures WellFormed(PostStep(t, b, lookupOk, writeOk).state)
    ensures GetView(PostStep(t, b, lookupOk, writeOk).state, catalog, param, readOk) == GetView(t, catalog, param, readOk)
  {
    PostLeavesOtherSessionRows(t, b, SessionOrDefault(param), lookupOk, writeOk);
  }

  /** Repeating a DELETE changes nothing more and answers the same. */
  lemma DeleteIdempotent(t: CartState, id: RowId)
    ensures DeleteStep(DeleteStep(t, id, true).state, id, true) == DeleteStep(t, id, true)
  {
    assert (t.rows - {id}) - {id} == t.rows - {id};
  }

  lemma DeleteKeepsInvariants(t: CartState, id: RowId, writeOk: bool)
    requires WellFormed(t) && UniqueKeys(t.rows)
    ensures WellFormed(DeleteStep(t, id, writeOk).state) && UniqueKeys(DeleteStep(t, id, writeOk).state.rows)
  {
  }

  lemma ClearKeepsInvariants(t: CartState, s: SessionId)
    requires WellFormed(t) && UniqueKeys(t.rows)
    ensures WellFormed(ClearSession(t, s)) && UniqueKeys(ClearSession(t, s).rows)
  {
  }

  /** After the checkout's clear, GET of that session shows an empty cart. */
  lemma ClearedSessionReadsEmpty(t: CartState, s: SessionId, catalog: map<ProductId, Product>)
    requires WellFormed(t) && s != ""
    ensures GetView(ClearSession(t, s), catalog, Some(s), true) == CartView([], "0.00")
  {
    GetUnknownSessionIsEmpty(ClearSession(t, s), catalog, Some(s));
  }
}
