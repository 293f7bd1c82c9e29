/**
 * The `cart` edge function over a mutable `cart` table: one method per verb,
 * each proved to move the table exactly as the step functions of `CartSpec`
 * say, and `Serve`, which dispatches a request as the handler does.
 */
module CartFunction {
  import opened Records
  import opened Money
  import opened CartSpec

  /**
   * A request reaching the `cart` function: its verb, its `session_id` query parameter,
   * the last segment of its path (`url.pathname.split('/').pop()`) read as a row id, and
   * its JSON body, if it has one. `target == None` stands for an empty last segment, as
   * in a path ending in `/`; a bare `/cart` ends in the non-empty segment "cart", which
   * is not a row id and is not modelled.
   */
  datatype CartRequest = CartRequest(
    verb: HttpMethod,
    sessionParam: Option<string>,
    target: Option<RowId>,
    body: Option<AddBody>)

  class CartStore {
    var rows: map<RowId, CartRow>
    var nextId: nat
    /** The `products` table, which this function only reads. */
    const catalog: map<ProductId, Product>

    function State(): CartState
      reads this
    {
      CartState(rows, nextId)
    }

    ghost predicate Valid()
      reads this
    {
      WellFormed(State()) && Keyed(catalog)
    }

    /** `createClient`: a handle on the existing `cart` table and product catalog. */
    constructor (rows: map<RowId, CartRow>, nextId: nat, catalog: map<ProductId, Product>)
      requires WellFormed(CartState(rows, nextId)) && Keyed(catalog)
      ensures Valid() && State() == CartState(rows, nextId) && this.catalog == catalog
    {
      this.rows := rows;
      this.nextId := nextId;
      this.catalog := catalog;
    }

    /** GET: the requested session's rows joined with their products, and their total. */
    method Get(sessionParam: Option<string>, readOk: bool) returns (resp: CartResponse)
      requires Valid()
      ensures resp == GetView(State(), catalog, sessionParam, readOk)
    {
      if !readOk {
        return ServerError;
      }
      var selected := SessionRows(rows, nextId, SessionOrDefault(sessionParam));
      var joined := Join(selected, catalog);
      if joined.None? {
        return ServerError;
      }
      var items := joined.value;
      resp := CartView(items, FormatCents(Total(items)));
    }

    /** POST: merge into the existing (product, session) row, or insert a fresh one. */
    method Post(b: AddBody, lookupOk: bool, writeOk: bool) returns (resp: CartResponse)
      requires Valid()
      modifies this
      ensures Valid()
      ensures Step(State(), resp) == PostStep(old(State()), b, lookupOk, writeOk)
    {
      if !lookupOk {
        return ServerError;
      }
      var existing := set id | id in rows && rows[id].productId == b.productId && rows[id].sessionId == b.sessionId;
      assert existing == KeyIds(rows, b.productId, b.sessionId);
      if |existing| == 1 {
        var id :| id in existing;
        assert |existing - {id}| == 0;
        assert existing == {id};
        if !writeOk {
          return ServerError;
        }
        var row := rows[id].(quantity := rows[id].quantity + b.quantity);
        rows := rows[id := row];
        resp := ItemUpdated(row);
      } else {
        if !writeOk {
          return ServerError;
        }
        var row := CartRow(nextId, b.sessionId, b.productId, b.quantity);
        rows := rows[nextId := row];
        nextId := nextId + 1;
        resp := ItemAdded(row);
      }
    }

    /** DELETE /cart/:id: remove that row, whatever its session. */
    method Delete(id: RowId, writeOk: bool) returns (resp: CartResponse)
      requires Valid()
      modifies this
      ensures Valid()
      ensures Step(State(), resp) == DeleteStep(old(State()), id, writeOk)
    {
      if !writeOk {
        return ServerError;
      }
      rows := rows - {id};
      resp := ItemRemoved;
    }

    /** The checkout's clear: delete every row of session `s`; `ok` reports the statement's outcome. */
    method DeleteSession(s: SessionId, writeOk: bool) returns (ok: bool)
      requires Valid()
      modifies this
      ensures Valid()
      ensures ok == writeOk
      ensures State() == if writeOk then ClearSession(old(State()), s) else old(State())
    {
      ok := writeOk;
      if writeOk {
        rows := map id | id in rows && rows[id].sessionId != s :: rows[id];
      }
    }

    /**
     * The handler: OPTIONS is a preflight, then GET, POST and DELETE with an id are served;
     * anything else, DELETE with an empty last path segment included, is 405 and changes
     * nothing. `readOk` is the outcome of the GET query or of POST's lookup, `writeOk` that
     * of the update, insert or delete. A POST without a JSON body fails when the body is
     * parsed.
     */
    method Serve(req: CartRequest, readOk: bool, writeOk: bool) returns (resp: CartResponse)
      requires Valid()
      modifies this
      ensures Valid()
      ensures req.verb.Options? ==> resp == Preflight && State() == old(State())
      ensures req.verb.Get? ==>
        resp == GetView(old(State()), catalog, req.sessionParam, readOk) && State() == old(State())
      ensures req.verb.Post? && req.body.Some? ==>
        Step(State(), resp) == PostStep(old(State()), req.body.value, readOk, writeOk)
      ensures req.verb.Post? && req.body.None? ==> resp == ServerError && State() == old(State())
      ensures req.verb.Delete? && req.target.Some? ==>
        Step(State(), resp) == DeleteStep(old(State()), req.target.value, writeOk)
      ensures req.verb.Other? || (req.verb.Delete? && req.target.None?) ==>
        resp == MethodNotAllowed && Status(resp) == 405 && State() == old(State())
    {
      match req.verb
      case Options =>
        resp := Preflight;
      case Get =>
        resp := Get(req.sessionParam, readOk);
      case Post =>
        if req.body.Some? {
          resp := Post(req.body.value, readOk, writeOk);
        } else {
          // `await req.json()` throws on a missing body
          resp := ServerError;
        }
      case Delete =>
        if req.target.Some? {
          resp := Delete(req.target.value, writeOk);
        } else {
          // an empty last path segment is falsy: fall through to 405
          resp := MethodNotAllowed;
        }
      case Other(_) =>
        resp := MethodNotAllowed;
    }
  }
}
