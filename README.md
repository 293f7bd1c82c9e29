# Storefront cart and checkout, modelled in Dafny

This project models the cart and checkout core of a small storefront:

- **`cart` edge function**: one handler for four verbs.
  - GET lists a session's cart rows, joined with their products, and their total as `toFixed(2)` text.
  - POST adds a quantity of a product to a session. It merges into the existing (product, session) row or inserts a fresh one.
  - DELETE `cart/<id>` removes one row.
  - Any other verb is answered 405.
- **`checkout` edge function**:
  - folds the submitted `cartItems` into a total;
  - inserts an order;
  - clears the session's cart rows;
  - returns a receipt.
- **Checkout form** (`validateForm`, `handleSubmit`): a trimmed-non-empty name is required, and the email must match `^[^\s@]+@[^\s@]+\.[^\s@]+$`.
- **Storefront page**:
  - `getSessionId`, over `localStorage`;
  - the cart query;
  - the `addToCart`, `removeFromCart`, `updateQuantity` and `checkout` mutations, with the payloads they send.

## Files and modelling choices

- `records.dfy` (`Records`): the row and record types, and `Option`.
  - Prices and totals are integer **cents**.
  - Row and order ids are naturals the database hands out from a counter, standing in for its uuids.
  - `created_at` is an input.
- `money.dfy` (`Money`): the `reduce` fold `Total`, and `toFixed(2)` as `FormatCents`. `ParseCents` is its inverse, used to state that the total text is exact.
- `cart_spec.dfy` (`CartSpec`): the `cart` table as a value (`CartState`), and each verb as a function from the table before to the table and response after: `GetView`, `PostStep`, `DeleteStep`, plus checkout's `ClearSession`.
  - Each database call has an explicit outcome (`readOk`/`lookupOk`, `writeOk`). A failed call raises, and the handler's `catch` answers 500.
- `cart_function.dfy` (`CartFunction`): the table as a mutable `CartStore` class. Each of its verb methods, and the dispatching `Serve`, is proved to move the table exactly as `CartSpec` says.
- `checkout_function.dfy` (`CheckoutFunction`): `CheckoutStep` over both tables, the mutable `OrdersTable`, and the handler `Serve`, which is proved against `CheckoutStep`.
- `checkout_form.dfy` (`CheckoutForm`): the form logic.
  - `String.prototype.trim` and the class `\s` are modelled over the JavaScript white-space set.
  - `EmailPatternIff` proves that the anchored regular expression accepts exactly the strings described by `EmailShape`: one `@`, no white space, a non-empty local part, and a `.` with a character on each side in the domain.
- `storefront.dfy` (`Storefront`): `LocalStorage` and `getSessionId`, and a `Page` class holding the fixed `sessionId`, the last fetched `cartData` and the last `receipt`. Each page method calls the server models above.

Where the code does something the surrounding design does not suggest, the model follows the code:

- **POST with several matching rows.** The lookup ends in `maybeSingle()`. When it finds more than one row, that call reports error `PGRST116`. The handler explicitly does not rethrow that code (supabase/functions/cart/index.ts:65), so `existing` is null and a further row is inserted; the response is 201, not 500. `PostStep` inserts in every case except exactly one match. `PostKeepsInvariants` shows that a table with at most one row per key never reaches that case.
- **GET `session_id`.** An absent or empty `session_id` reads as `"default"`, because of `||`.
- **GET products.** A session row whose product is missing makes the join give `products: null`, and reading its price throws, so the answer is 500.
- **Checkout checks.** The checkout function checks neither that the cart is non-empty nor that the email is valid. The total is computed from the submitted items, not from the `cart` table. A failed cart clear is only logged, and the receipt is still returned with 200.
- **`updateQuantity`.** It is a DELETE whose outcome is ignored, followed by a POST of the new quantity. If the DELETE fails and the row is the page's own (the corrected query, `FetchOwnCart`), the POST merges into it, so the quantity is the old one plus the new one. With the query as written the row is a "default" row: a failed DELETE leaves it unchanged, and the POST, under the page's session, merges into the page's own row for that product or inserts a fresh one.
- **The page's cart query** sends no `session_id`, so the page reads the `"default"` session. Its mutations write under the page's own id (see Findings).

## Model

| member | source | states |
|---|---|---|
| Money.Total | supabase/functions/cart/index.ts:37-39 | The `reduce` fold of price times quantity: non-negative when every quantity is, 0 when every quantity is 0; additivity and order independence are `TotalAppend` and `TotalPermutation`. |
| Money.TotalAppend | supabase/functions/cart/index.ts:37-39 | The total of a concatenation of item lists is the sum of their totals. |
| Money.TotalPermutation | supabase/functions/cart/index.ts:37-39 | The total does not depend on the order in which the rows arrive. |
| Money.CentsRoundTrip | supabase/functions/cart/index.ts:44 | `toFixed(2)` of a cent amount reads back as exactly that amount, negative amounts included. |
| Money.DigitsRoundTrip | supabase/functions/cart/index.ts:44 | The whole-unit digits of the formatted amount read back as the number they came from. |
| Money.NatToDigits | supabase/functions/cart/index.ts:44 | The numeral is all digits, has one digit exactly for values below 10, and starts with `0` only for 0 (no leading zeros). |
| Money.UnsignedCents | supabase/functions/cart/index.ts:44 | The text is all digits for the whole units, a `.` three places from the end, then exactly two cent digits; it starts with `0` only when the whole part is 0 ("0.xx"). |
| Money.FormatCents | supabase/functions/cart/index.ts:44 | `toFixed(2)` of a cent amount: a `.` three places from the end, and a leading `-` exactly for negative amounts; `ParseCents` reads it back (`CentsRoundTrip`). |
| Money.FormatExamples | supabase/functions/cart/index.ts:44 | 500, 5, -5 and 123456 cents format as "5.00", "0.05", "-0.05" and "1234.56". |
| CartSpec.SessionOrDefault | supabase/functions/cart/index.ts:24 | An absent or empty `session_id` selects the "default" session; any other value selects itself. |
| CartSpec.SessionRows | supabase/functions/cart/index.ts:27-30 | The selected rows are exactly the stored rows of the session: each stored, each of that session, none missing. The query leaves their order to the database; the model lists them by ascending id. |
| CartSpec.Status | supabase/functions/cart/index.ts:85-162 | The status codes: 500 exactly for a server error, 405 exactly for a refused method, 201 exactly for an inserted row, 200 otherwise. |
| CartSpec.GetView | supabase/functions/cart/index.ts:23-50 | GET answers a cart view or 500, always 500 when the read fails, and a view lists one item per selected row; what it lists is stated by the GET lemmas below. |
| CartSpec.Join | supabase/functions/cart/index.ts:29 | The join succeeds iff every row's product exists; each item pairs its row with that row's product. |
| CartSpec.GetFailsOnlyWhen | supabase/functions/cart/index.ts:27-39 | GET answers a cart view iff the read succeeds and every row of the session has its product; otherwise it answers 500. |
| CartSpec.GetListsOnlySessionRows | supabase/functions/cart/index.ts:27-30 | Every listed item is a stored row of the requested session, with its own product. |
| CartSpec.GetListsEverySessionRow | supabase/functions/cart/index.ts:27-30 | Every stored row of the requested session is listed. |
| CartSpec.GetTotalReadsBack | supabase/functions/cart/index.ts:37-44 | The total text reads back as the sum of price times quantity over the listed items. |
| CartSpec.GetUnknownSessionIsEmpty | supabase/functions/cart/index.ts:24-49 | A session with no rows reads as no items with total "0.00". |
| CartSpec.ListedProductsMatchRows | supabase/functions/cart/index.ts:29 | With products keyed by id, each listed item's `products.id` is its row's `product_id`. |
| CartSpec.PostStep | supabase/functions/cart/index.ts:53-120 | POST answers an updated row, an inserted row or 500; on 500 the table is unchanged; no row is ever removed and at most the fresh id is added; the counter moves exactly on insert; rows of other keys keep their contents. The cases are stated by the POST lemmas below. |
| CartSpec.AtMostOneMatch | supabase/functions/cart/index.ts:58-63 | Under the one-row-per-key invariant, the lookup finds at most one row. |
| CartSpec.PostMergesExistingRow | supabase/functions/cart/index.ts:70-91 | With one matching row, its quantity grows by the requested amount, its id stays, no other row changes, and the answer is 200 with the updated row. |
| CartSpec.PostInsertsFreshRow | supabase/functions/cart/index.ts:92-118 | With no match, or several (PGRST116 is not rethrown), exactly one fresh row `{product_id, quantity, session_id}` is added under a new id, answered 201. |
| CartSpec.PostFailureWritesNothing | supabase/functions/cart/index.ts:65-68 | A failed lookup (other than PGRST116) or a failed update or insert leaves the table unchanged and answers 500. |
| CartSpec.PostKeepsInvariants | supabase/functions/cart/index.ts:53-120 | POST keeps ids consistent and below the counter, and keeps at most one row per (product, session). |
| CartSpec.PostAccumulates | supabase/functions/cart/index.ts:53-120 | After a successful POST the key has exactly one row, holding the old quantity plus the new one; rows of other keys are untouched. |
| CartSpec.SequentialPostsAccumulate | supabase/functions/cart/index.ts:53-120 | Sequential POSTs of q1..qn for one key leave one row with the old quantity plus q1+...+qn, and keep both invariants. |
| CartSpec.SequentialPostsFromEmpty | supabase/functions/cart/index.ts:53-120 | Starting with no row for a key, sequential POSTs leave a single row of quantity q1+...+qn. |
| CartSpec.SessionRowsAgree | supabase/functions/cart/index.ts:27-30 | The GET selection of a session depends only on that session's rows. |
| CartSpec.PostLeavesOtherSessionsView | supabase/functions/cart/index.ts:24-120 | A POST for one session changes nothing in what GET returns for any other session. |
| CartSpec.DeleteStep | supabase/functions/cart/index.ts:123-143 | DELETE removes exactly the row with that id, whatever its session, keeps every other row, and answers 200 even if no row matched; a failed delete changes nothing and answers 500. |
| CartSpec.DeleteIdempotent | supabase/functions/cart/index.ts:123-143 | Repeating a successful DELETE changes nothing further and answers the same. |
| CartSpec.DeleteKeepsInvariants | supabase/functions/cart/index.ts:123-143 | DELETE keeps both table invariants. |
| CartSpec.ClearSession | supabase/functions/checkout/index.ts:57-60 | The clear removes exactly the session's rows, keeps every other row unchanged, and leaves the id counter alone. |
| CartSpec.ClearKeepsInvariants | supabase/functions/checkout/index.ts:57-60 | The clear keeps both table invariants. |
| CartSpec.ClearedSessionReadsEmpty | supabase/functions/checkout/index.ts:57-60 | After the clear, GET of that session reads an empty cart with total "0.00". |
| CheckoutFunction.OrdersTable.constructor | supabase/functions/checkout/index.ts:25-27 | `createClient` opens the existing `orders` table: the table holds exactly the given well-formed orders and counter. |
| CartFunction.CartStore.constructor | supabase/functions/cart/index.ts:15-17 | `createClient` opens the existing `cart` table and product catalog: the store holds exactly the given well-formed rows, counter and catalog. |
| CartFunction.CartStore.Get | supabase/functions/cart/index.ts:23-50 | GET returns exactly `GetView` of the current table and changes nothing. |
| CartFunction.CartStore.Post | supabase/functions/cart/index.ts:53-120 | The table and the response after POST are exactly `PostStep` of the table before; the store stays well formed. |
| CartFunction.CartStore.Delete | supabase/functions/cart/index.ts:123-143 | The table and response after DELETE are exactly `DeleteStep` of the table before. |
| CartFunction.CartStore.DeleteSession | supabase/functions/checkout/index.ts:57-65 | A successful clear leaves `ClearSession` of the old table; a failed one leaves it unchanged; the outcome is reported. |
| CartFunction.CartStore.Serve | supabase/functions/cart/index.ts:8-163 | OPTIONS is a preflight; GET, POST (with a body) and DELETE with a row id as last path segment follow their step functions; a POST without a body is 500; other verbs, and DELETE whose last path segment is empty (a path ending in `/`), are 405 with no change. |
| CheckoutFunction.CheckoutStep | supabase/functions/checkout/index.ts:8-98 | An order is placed iff the verb is POST and the insert succeeds; then exactly one order is appended to the existing ones; otherwise neither table changes; 500 iff a POST's insert fails. |
| CheckoutFunction.NonPostWritesNothing | supabase/functions/checkout/index.ts:10-22 | OPTIONS is a preflight, every other non-POST verb is 405, and neither touches the tables. |
| CheckoutFunction.InsertFailureAborts | supabase/functions/checkout/index.ts:51-54 | A failed order insert creates no order, does not clear the cart, and answers 500. |
| CheckoutFunction.PlacedOrderMatchesReceipt | supabase/functions/checkout/index.ts:33-86 | A successful insert appends exactly one order: fresh id, the customer's name and email, the fold of the submitted items, those items verbatim and created_at. The receipt repeats its id, the customer's name and email, its items and timestamp; its total text reads back as the stored total, and the answer is 200. |
| CheckoutFunction.SuccessfulClearEmptiesSession | supabase/functions/checkout/index.ts:57-60 | After a successful clear no row of the session remains and every row of another session is kept. |
| CheckoutFunction.FailedClearIsSwallowed | supabase/functions/checkout/index.ts:62-65 | A failed clear keeps the order, leaves the cart as it was, and still answers 200 with a receipt. |
| CheckoutFunction.TotalIgnoresCartTable | supabase/functions/checkout/index.ts:29-35 | The order and the response do not depend on the cart table's contents: the total comes from the request body. |
| CheckoutFunction.EmptyCartStillOrders | supabase/functions/checkout/index.ts:29-54 | An empty `cartItems` still creates an order, of total 0, with receipt total "0.00". |
| CheckoutFunction.CheckoutKeepsInvariants | supabase/functions/checkout/index.ts:24-86 | Checkout keeps the cart invariants and keeps order ids distinct, increasing and below the counter. |
| CheckoutFunction.OrdersTable.Insert | supabase/functions/checkout/index.ts:38-49 | A successful insert appends one order under the next id and returns it; a failed one returns nothing and changes nothing. |
| CheckoutFunction.Serve | supabase/functions/checkout/index.ts:8-98 | The tables and response after the handler are exactly `CheckoutStep` of the tables before. |
| CheckoutForm.TrimStart | src/components/CheckoutForm.tsx:22 | Drops exactly the leading white space: a suffix, all white space before it, starting with a non-space character. |
| CheckoutForm.TrimEnd | src/components/CheckoutForm.tsx:22 | Drops exactly the trailing white space: a prefix, all white space after it, ending with a non-space character. |
| CheckoutForm.Trim | src/components/CheckoutForm.tsx:22 | `trim()` gives a contiguous slice of the input, everything cut off before and after it is white space, and the slice neither starts nor ends with white space. |
| CheckoutForm.TrimEmptyIffBlank | src/components/CheckoutForm.tsx:22-27 | `s.trim()` is empty iff `s` consists of white space only. |
| CheckoutForm.IndexOf | src/components/CheckoutForm.tsx:28 | Returns the first index of the character, or the length when it is absent. |
| CheckoutForm.MatchesEmailPattern | src/components/CheckoutForm.tsx:28 | The anchored pattern: a run of non-space, non-`@` characters, `@`, a run, `.`, a run. A match has at least 5 characters and no white space at either end; `EmailPatternIff` characterizes it. |
| CheckoutForm.EmailShape | src/components/CheckoutForm.tsx:28 | The pattern in words: exactly one `@`, no white space, a non-empty part before the `@`, an inner `.` in the domain; such a string has at least 5 characters and does not start with `@`. |
| CheckoutForm.EmailPatternIff | src/components/CheckoutForm.tsx:28 | The anchored email pattern accepts a string iff it has exactly one `@`, no white space, a non-empty part before the `@`, and a domain with a `.` that has a character on each side. |
| CheckoutForm.PatternImpliesShape | src/components/CheckoutForm.tsx:28 | Every string the pattern accepts has that shape. |
| CheckoutForm.ShapeImpliesPattern | src/components/CheckoutForm.tsx:28 | Every string of that shape is accepted by the pattern. |
| CheckoutForm.NoAtRejected | src/components/CheckoutForm.tsx:28 | "not-an-email" is rejected. |
| CheckoutForm.NoDotRejected | src/components/CheckoutForm.tsx:28 | "a@b" is rejected. |
| CheckoutForm.PlainAddressAccepted | src/components/CheckoutForm.tsx:28 | "a@b.com" is accepted. |
| CheckoutForm.ValidateForm | src/components/CheckoutForm.tsx:19-34 | "Name is required" iff the name is blank. The email error is "Email is required" when the email is blank, else "Invalid email address" when it lacks the shape, else none. Valid iff no error is recorded, i.e. a non-blank name and a well-shaped email. |
| CheckoutForm.HandleSubmit | src/components/CheckoutForm.tsx:36-41 | Records exactly `validateForm`'s errors; submits iff the name is non-blank and the email well shaped, and then exactly the name and email as typed; otherwise an error is recorded. |
| CheckoutForm.UntrimmedEmailIsInvalid | src/components/CheckoutForm.tsx:26-30 | The pattern sees the untrimmed email: a valid address with a leading or trailing white-space character is "Invalid email address". |
| Storefront.SessionIdAfter | src/pages/Index.tsx:13-20 | The returned id is the stored one when present and non-empty, else the new UUID. Afterwards it is stored under `cart_session_id`, and every other key is kept. |
| Storefront.SessionIdIsStable | src/pages/Index.tsx:13-20 | A second `getSessionId` returns the same id and writes nothing, so the id survives reloads. |
| Storefront.GetSessionId | src/pages/Index.tsx:13-20 | The id returned and the store afterwards are exactly `SessionIdAfter` of the store before. |
| Storefront.Find | src/pages/Index.tsx:91 | Returns the first item with that row id, and nothing iff no item has it. |
| Storefront.FindItem | src/pages/Index.tsx:91 | Nothing when no cart was fetched or no fetched item has the id; otherwise a fetched item with that id. |
| Storefront.UpdateQuantityStep | src/pages/Index.tsx:94-102 | DELETE then POST, the DELETE's outcome ignored: every other row id survives, only the fresh id can be added, and the answer is 500 exactly when the POST's lookup or write fails. |
| Storefront.UpdateReplacesRow | src/pages/Index.tsx:88-105 | When the DELETE succeeds and the page's session has no other row for the product, the row is replaced: the old row is gone, the key holds one row of the new quantity under a fresh id, other rows are kept, and the answer is 201. |
| Storefront.UpdateMergesIntoOwnRow | src/pages/Index.tsx:88-105 | With the session-less query the updated row is a "default" row; when the page's session already holds a row for the product, that "default" row is deleted and the new quantity is added to the page's own row, with no fresh row, 200. |
| Storefront.UpdateAddsWhenDeleteFails | src/pages/Index.tsx:94-102 | When the updated row is the only row of the POST's (product, session), as with the corrected query, and the ignored DELETE fails, the POST merges into that surviving row: its quantity becomes the old one plus the new one. |
| Storefront.UpdateLeavesDefaultRowWhenDeleteFails | src/pages/Index.tsx:94-102 | With the query as written the updated row is a "default" row and never of the page's session; when the DELETE fails, that row stays exactly as it was and the table moves as a plain POST of the page's session. |
| Storefront.FetchedItemsAreDefaultSession | src/pages/Index.tsx:42-45 | Every item the cart query lists belongs to the "default" session. |
| Storefront.OwnAdditionsNeverShow | src/pages/Index.tsx:42-45 | Whatever a session other than "default" adds, the page's cart view is exactly as before. |
| Storefront.OwnAdditionShows | src/pages/Index.tsx:39-45 | With the session id sent, a successful POST shows up: the session's view succeeds and lists a row of the added product. |
| Storefront.Page.constructor | src/pages/Index.tsx:23 | The page's session id and the store afterwards are `SessionIdAfter` of the store before; no cart or receipt yet. |
| Storefront.Page.FetchCart | src/pages/Index.tsx:39-50 | The query issues GET with no `session_id` and changes no table. On success the data is the "default" session's view, and each item's product is the one its row names; on failure the previous data is kept. |
| Storefront.Page.FetchOwnCart | src/pages/Index.tsx:39-50 | As `FetchCart`, but the GET carries the page's session id (the corrected query). |
| Storefront.Page.AddToCart | src/pages/Index.tsx:53-68 | POSTs `{ productId, quantity: 1, sessionId }`: the table moves as `PostStep` says; success iff the response is 2xx. |
| Storefront.Page.RemoveFromCart | src/pages/Index.tsx:71-85 | DELETEs `cart/<id>`: the table moves as `DeleteStep` says; success iff the response is 2xx. |
| Storefront.Page.UpdateQuantity | src/pages/Index.tsx:88-112 | An item missing from the fetched cart ends quietly with no request. Otherwise the table moves as the DELETE then the POST of `{ item's product, newQuantity, page session }`, the DELETE's outcome is ignored, and success follows the POST. |
| Storefront.Page.Checkout | src/pages/Index.tsx:115-137 | Without fetched data nothing is sent. Otherwise the tables move as `CheckoutStep` on the fetched items verbatim, the customer's name and email and the page's session id; the receipt is kept when an order was placed. |
| Storefront.Page.SubmitForm | src/pages/Index.tsx:220-224 | A checkout only happens while the form is shown (a non-empty fetched cart) and the name and email pass validation. Then it runs with the fields as typed, and the receipt is the placed order's receipt (or the previous one when no order was placed); otherwise nothing changes. |

## Left out

- HTTP plumbing: CORS headers, JSON encoding of responses, error messages, and logging.
- Request bodies: the checkout body's JSON parsing and items without `products` are not modelled. Malformed bodies there end in the same 500 catch.
- The DELETE path: parsing of the last path segment and the database's cast of it to an id are not modelled. The target is given as an optional id, and `None` stands for an empty last segment (a path ending in `/`), which is the only DELETE answered with 405. A bare `DELETE /cart` has last segment "cart", which is truthy, so the handler runs `.delete().eq('id', 'cart')` against the database (500 when the cast to an id fails); this request is not modelled.
- Row order: the GET query and checkout's items carry no `.order`, so the database decides the order of the rows. Row ids there are uuids; the model uses counter naturals and lists a session's rows by ascending id, one order among those the database may choose. The total does not depend on the choice (`Money.TotalPermutation`).
- Numbers: prices are non-negative integer cents, also in the items the client sends to checkout, which the function folds whatever numbers they hold. Floating-point rounding and the exponent forms of `toFixed` for huge amounts are not modelled.
- The database:
  - constraints such as foreign keys and column types are not modelled;
  - the order's `total` column is held as the integer the text `toFixed(2)` denotes.
- Concurrency: concurrent requests are not modelled. Each request is one atomic step over the tables, and the 2-second refetch interval is not modelled.
- Randomness and time: `crypto.randomUUID()` and `created_at` are parameters. The UUID is assumed non-empty where stability is stated.
- Client-side plumbing:
  - React Query's cache is not modelled;
  - toasts, loading flags, the receipt modal and all rendering are not modelled;
  - the products query is not part of this model;
  - cache invalidation and refetching are left to explicit `FetchCart` calls.
- Storefront.Page.AddToCart, RemoveFromCart, UpdateQuantity: an `invoke` error is modelled as a non-2xx status only. Network failures are not modelled.

## Findings

| source | as written | input that shows it | evidently intended | confidence | as-written member | corrected member |
|---|---|---|---|---|---|---|
| src/pages/Index.tsx:42-45 | The cart query invokes GET without a `session_id`, so the function reads the "default" session, while every mutation writes under the page's own UUID. | A page with session id "u1" adds product "p": the POST stores a row for ("p", "u1"), and the next cart fetch returns the "default" session's rows, without it. | The query is keyed `["cart", sessionId]` and should send `session_id=<sessionId>`, so the page shows what it added. | high; follows from the code, not executed | Storefront.OwnAdditionsNeverShow | Storefront.OwnAdditionShows |
