/** The record types of the storefront: users, items, carts, cart lines and orders. */
module Models {

  /** Status of a cart that can still receive lines; also the default item status. */
  const Active: string := "active"
  /** Status of a cart that has been turned into an order. */
  const Ordered: string := "ordered"

  /** A registered user. `password` holds an opaque credential hash and `cartID`
      names the user's current (active) cart. */
  datatype User = User(id: nat, username: string, password: string, cartID: nat)

  datatype Item = Item(id: nat, name: string, status: string, image: string)

  /** A cart as stored; its lines live in the store's line collection. */
  datatype Cart = Cart(id: nat, userID: nat, name: string, status: string)

  /** A cart line, identified by the pair (cartID, itemID). It also carries copies of
      the cart and the item taken when the line was added. */
  datatype CartLine = CartLine(cartID: nat, itemID: nat, cart: Cart, item: Item)

  /** An order, with a copy of the cart taken when the order was placed. */
  datatype Order = Order(id: nat, cartID: nat, userID: nat, cart: Cart)

  /** A cart joined with its lines, as the read operations return it. */
  datatype CartView = CartView(cart: Cart, lines: seq<CartLine>)

  /** An order joined with its cart and that cart's lines. */
  datatype OrderView = OrderView(order: Order, cart: CartView)
}
