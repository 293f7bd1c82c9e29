/**
 * The records the storefront exchanges between the browser, the two edge
 * functions (`cart` and `checkout`) and the database tables.
 *
 * Money is kept in integer cents. Row, order and timestamp values that the
 * database generates are opaque naturals supplied to the model.
 */
module Records {

  datatype Option<T> = None | Some(value: T)

  /** Identifier of a row of the `cart` table (a database-generated uuid). */
  type RowId = nat
  /** Identifier of a row of the `orders` table. */
  type OrderId = nat
  /** The `created_at` value the database assigns to an order. */
  type Timestamp = nat

  type SessionId = string
  type ProductId = string

  /** A row of the `products` table, as embedded by `select('*, products(*)')`. */
  datatype Product = Product(id: ProductId, name: string, price: nat)

  /** A row of the `cart` table. The code never checks the quantity's sign. */
  datatype CartRow = CartRow(id: RowId, sessionId: SessionId, productId: ProductId, quantity: int)

  /** A cart row joined with its product: one element of `cartItems`. */
  datatype CartItem = CartItem(row: CartRow, product: Product)

  /** A row of the `orders` table; `total` is in cents, `items` is stored verbatim. */
  datatype Order = Order(
    id: OrderId,
    customerName: string,
    customerEmail: string,
    total: int,
    items: seq<CartItem>,
    createdAt: Timestamp)

  /** The receipt the checkout function returns; `total` is the `toFixed(2)` text. */
  datatype Receipt = Receipt(
    orderId: OrderId,
    customerName: string,
    customerEmail: string,
    items: seq<CartItem>,
    total: string,
    timestamp: Timestamp)

  /** The HTTP verb of a request reaching an edge function. */
  datatype HttpMethod = Options | Get | Post | Delete | Other(name: string)
}
