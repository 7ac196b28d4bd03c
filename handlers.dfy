/** The HTTP handlers of the storefront, as operations on the store object. Each takes
    the already-bound request fields as parameters and returns the response body (or the
    error status and message); each runs under the store's lock, so each is one step. */
module Handlers {

  import opened Outcomes
  import opened Models
  import opened Decimal
  import opened Database
  import opened Lifecycle

  // ---------------------------------------------------------------------------
  // Scans shared by several handlers

  /** The scan for a cart owned by `userID` whose status is "active". */
  method FindActiveCart(db: InMemoryDB, userID: nat) returns (cart: Option<Cart>)
    requires db.Valid()
    ensures cart == ActiveCartOf(db.State(), userID)
  {
    var carts := db.carts;
    var todo := carts.Keys;
    while todo != {}
      invariant todo <= carts.Keys
      invariant forall k :: k in carts && k !in todo ==> !(carts[k].userID == userID && carts[k].status == Active)
      decreases |todo|
    {
      var k :| k in todo;
      if carts[k].userID == userID && carts[k].status == Active {
        ActiveCartIsUnique(db.State(), userID);
        return Some(carts[k]);
      }
      todo := todo - {k};
    }
    ActiveCartIsUnique(db.State(), userID);
    return None;
  }

  /** Whether any line belongs to the cart `cartID`. */
  method HasLines(db: InMemoryDB, cartID: nat) returns (found: bool)
    ensures found == CartHasLines(db.cartItems, cartID)
  {
    var todo := db.cartItems.Keys;
    while todo != {}
      invariant todo <= db.cartItems.Keys
      invariant forall k :: k in db.cartItems && k !in todo ==> db.cartItems[k].cartID != cartID
      decreases |todo|
    {
      var k :| k in todo;
      if db.cartItems[k].cartID == cartID {
        return true;
      }
      todo := todo - {k};
    }
    return false;
  }

  /** Every line is stored under the key built from its cart and item. */
  predicate LinesKeyed(cartItems: map<string, CartLine>) {
    forall k :: k in cartItems ==> k == LineKey(cartItems[k].cartID, cartItems[k].itemID)
  }

  /** The state of the line scan once the keys outside `todo` are visited: `lines` holds
      each visited line of the cart once, and `keys` says where each was found. */
  ghost predicate JoinedSoFar(cartItems: map<string, CartLine>, cartID: nat, todo: set<string>,
                              lines: seq<CartLine>, keys: seq<string>) {
    && todo <= cartItems.Keys
    && NoDup(lines)
    && |keys| == |lines|
    && (forall i :: 0 <= i < |lines| ==>
          keys[i] in cartItems && keys[i] !in todo && cartItems[keys[i]] == lines[i] && lines[i].cartID == cartID)
    && (forall k :: k in cartItems && k !in todo && cartItems[k].cartID == cartID ==> cartItems[k] in lines)
  }

  /** Visiting one more key keeps the scan's state. */
  lemma JoinStep(cartItems: map<string, CartLine>, cartID: nat, todo: set<string>,
                 lines: seq<CartLine>, keys: seq<string>, k: string)
    requires LinesKeyed(cartItems) && JoinedSoFar(cartItems, cartID, todo, lines, keys) && k in todo
    ensures cartItems[k].cartID == cartID ==>
      JoinedSoFar(cartItems, cartID, todo - {k}, lines + [cartItems[k]], keys + [k])
    ensures cartItems[k].cartID != cartID ==> JoinedSoFar(cartItems, cartID, todo - {k}, lines, keys)
  {
    if cartItems[k].cartID == cartID {
      forall i | 0 <= i < |lines| ensures lines[i] != cartItems[k] {
        assert keys[i] != k;
      }
    }
  }

  /** Once every key is visited, `lines` holds exactly the cart's lines. */
  lemma JoinDone(cartItems: map<string, CartLine>, cartID: nat, lines: seq<CartLine>, keys: seq<string>)
    requires JoinedSoFar(cartItems, cartID, {}, lines, keys)
    ensures forall l :: l in lines <==> l in LinesOf(cartItems, cartID)
  {
    forall l | l in lines ensures l in LinesOf(cartItems, cartID) {
      var i :| 0 <= i < |lines| && lines[i] == l;
      assert keys[i] in cartItems;
    }
  }

  /** `cart` joined with its lines: the inner loop of the cart and order listings. */
  method JoinLines(db: InMemoryDB, cart: Cart) returns (v: CartView)
    requires LinesWellFormed(db.State())
    ensures IsCartView(db.State(), cart, v)
  {
    var cartItems := db.cartItems;
    assert LinesKeyed(cartItems);
    var lines: seq<CartLine> := [];
    ghost var keys: seq<string> := [];
    var todo := cartItems.Keys;
    while todo != {}
      invariant JoinedSoFar(cartItems, cart.id, todo, lines, keys)
      decreases |todo|
    {
      var k :| k in todo;
      var line := cartItems[k];
      JoinStep(cartItems, cart.id, todo, lines, keys, k);
      if line.cartID == cart.id {
        lines := lines + [line];
        keys := keys + [k];
      }
      todo := todo - {k};
    }
    JoinDone(cartItems, cart.id, lines, keys);
    v := CartView(cart, lines);
  }

  // ---------------------------------------------------------------------------
  // Users

  /** `CreateUser` (handlers.go), with `hash` the outcome of hashing the password. */
  method CreateUser(db: InMemoryDB, username: string, hash: Option<string>) returns (r: Result<User>)
    requires db.Valid()
    modifies db
    ensures db.Valid()
    ensures (r, db.State()) == Register(old(db.State()), username, hash)
  {
    ghost var s := db.State();
    var existing := db.FindUserByName(username);
    if existing.Some? {
      return Err(Conflict("User already exists"));
    }
    if hash.None? {
      return Err(Internal("Failed to hash password"));
    }
    var userID := db.GetNextID();
    var cartID := db.GetNextID();
    db.carts := db.carts[cartID := Cart(cartID, userID, "Default Cart", Active)];
    var user := User(userID, username, hash.value, cartID);
    db.users := db.users[userID := user];
    r := Ok(user.(password := ""));
    assert db.State() == WithNewUser(s, username, hash.value, "Default Cart");
    assert (r, db.State()) == Register(s, username, hash);
    RegisterConsistent(s, username, hash);
    Install(db, Register(s, username, hash).1);
  }

  /** `LoginUser`'s lookup and credential check; `verify` stands for comparing the
      supplied password with a stored hash. */
  method LoginUser(db: InMemoryDB, username: string, verify: string -> bool) returns (r: Result<User>)
    requires db.Valid()
    ensures r == Login(db.State(), username, verify)
  {
    var found := db.FindUserByName(username);
    if found.None? || !verify(found.value.password) {
      return Err(Unauthorized("Invalid username or password"));
    }
    return Ok(found.value.(password := ""));
  }

  // ---------------------------------------------------------------------------
  // Items

  /** `GetItems`: every item whose status is "active", each once. */
  method GetItems(db: InMemoryDB) returns (items: seq<Item>)
    requires db.Valid()
    ensures NoDup(items)
    ensures forall i :: i in items <==> i in ActiveItems(db.State())
  {
    items := [];
    var todo := db.items.Keys;
    while todo != {}
      invariant todo <= db.items.Keys
      invariant forall i :: 0 <= i < |items| ==> items[i].id in db.items && items[i].id !in todo && db.items[items[i].id] == items[i] && items[i].status == Active
      invariant forall i, j :: 0 <= i < j < |items| ==> items[i].id != items[j].id
      invariant forall k :: k in db.items && k !in todo && db.items[k].status == Active ==> db.items[k] in items
      decreases |todo|
    {
      var k :| k in todo;
      if db.items[k].status == Active {
        items := items + [db.items[k]];
      }
      todo := todo - {k};
    }
    forall i | i in ActiveItems(db.State()) ensures i in items {
      var k :| k in db.items && db.items[k].status == Active && db.items[k] == i;
    }
  }

  /** `CreateItem` (handlers.go): an empty status becomes "active". */
  method CreateItem(db: InMemoryDB, name: string, status: string) returns (item: Item)
    requires db.Valid()
    modifies db
    ensures db.Valid()
    ensures (item, db.State()) == NewItem(old(db.State()), name, status)
  {
    ghost var s := db.State();
    var itemID := db.GetNextID();
    item := Item(itemID, name, if status == "" then Active else status, "");
    db.items := db.items[itemID := item];
    assert (item, db.State()) == NewItem(s, name, status);
    NewItemConsistent(s, name, status);
    Install(db, NewItem(s, name, status).1);
  }

  // ---------------------------------------------------------------------------
  // Carts

  /** `AddToCart` (handlers.go). The handler answers with a fixed message on success;
      here the stored line is returned instead. */
  method AddToCart(db: InMemoryDB, userID: nat, itemID: nat) returns (r: Result<CartLine>)
    requires db.Valid()
    modifies db
    ensures db.Valid()
    ensures (r, db.State()) == AddLine(old(db.State()), userID, itemID)
  {
    ghost var s := db.State();
    var cart := FindActiveCart(db, userID);
    if cart.None? {
      return Err(NotFound("Cart not found"));
    }
    if itemID !in db.items {
      return Err(NotFound("Item not found"));
    }
    var key := LineKey(cart.value.id, itemID);
    if key in db.cartItems {
      return Err(Conflict("Item already in cart"));
    }
    var line := CartLine(cart.value.id, itemID, cart.value, db.items[itemID]);
    db.cartItems := db.cartItems[key := line];
    r := Ok(line);
    assert (r, db.State()) == AddLine(s, userID, itemID);
    AddLineConsistent(s, userID, itemID);
    Install(db, AddLine(s, userID, itemID).1);
  }

  /** The IDs of the carts shown by `views`. */
  function CartIds(views: seq<CartView>): set<nat> {
    set v | v in views :: v.cart.id
  }

  /** Every ID shown by `views` appears at some position. */
  lemma CartIdsListed(views: seq<CartView>, k: nat)
    requires k in CartIds(views)
    ensures exists i :: 0 <= i < |views| && views[i].cart.id == k
  {
    var v :| v in views && v.cart.id == k;
    var i :| 0 <= i < |views| && views[i] == v;
  }

  /** `v` shows the stored cart it names, joined with its lines. */
  ghost predicate ShowsCart(s: Store, v: CartView) {
    v.cart.id in s.carts && s.carts[v.cart.id] == v.cart && IsCartView(s, v.cart, v)
  }

  /** Appending a view of a cart not yet shown keeps every view valid and every ID shown
      once. */
  lemma CartListGrows(s: Store, views: seq<CartView>, v: CartView)
    requires forall i :: 0 <= i < |views| ==> ShowsCart(s, views[i])
    requires forall i, j :: 0 <= i < j < |views| ==> views[i].cart.id != views[j].cart.id
    requires ShowsCart(s, v) && v.cart.id !in CartIds(views)
    ensures var w := views + [v];
      && (forall i :: 0 <= i < |w| ==> ShowsCart(s, w[i]))
      && (forall i, j :: 0 <= i < j < |w| ==> w[i].cart.id != w[j].cart.id)
      && CartIds(w) == CartIds(views) + {v.cart.id}
  {
    assert forall i :: 0 <= i < |views| ==> views[i] in views;
  }

  /** `GetCarts`: every cart, each once, joined with its lines. */
  method GetCarts(db: InMemoryDB) returns (views: seq<CartView>)
    requires KeyedById(db.State()) && LinesWellFormed(db.State())
    ensures forall i :: 0 <= i < |views| ==>
      views[i].cart.id in db.carts && db.carts[views[i].cart.id] == views[i].cart && IsCartView(db.State(), views[i].cart, views[i])
    ensures forall i, j :: 0 <= i < j < |views| ==> views[i].cart.id != views[j].cart.id
    ensures forall k :: k in db.carts ==> exists i :: 0 <= i < |views| && views[i].cart.id == k
  {
    ghost var s := db.State();
    var carts := db.carts;
    views := [];
    var todo := carts.Keys;
    while todo != {}
      invariant todo <= carts.Keys
      invariant forall i :: 0 <= i < |views| ==> ShowsCart(s, views[i])
      invariant forall i, j :: 0 <= i < j < |views| ==> views[i].cart.id != views[j].cart.id
      invariant CartIds(views) !! todo
      invariant carts.Keys - todo <= CartIds(views)
      decreases |todo|
    {
      var k :| k in todo;
      var v := JoinLines(db, carts[k]);
      assert ShowsCart(s, v);
      CartListGrows(s, views, v);
      views := views + [v];
      todo := todo - {k};
    }
    forall k | k in carts ensures exists i :: 0 <= i < |views| && views[i].cart.id == k {
      CartIdsListed(views, k);
    }
  }

  /** `GetUserCart`: the user's active cart joined with its lines. */
  method GetUserCart(db: InMemoryDB, userID: nat) returns (r: Result<CartView>)
    requires db.Valid()
    ensures r.Err? <==> ActiveCartOf(db.State(), userID).None?
    ensures r.Err? ==> r.error == NotFound("Cart not found")
    ensures r.Ok? ==> IsCartView(db.State(), ActiveCartOf(db.State(), userID).value, r.value)
  {
    var cart := FindActiveCart(db, userID);
    if cart.None? {
      return Err(NotFound("Cart not found"));
    }
    var v := JoinLines(db, cart.value);
    return Ok(v);
  }

  /** `GetCartByID`: the route parameter is read with `%d`; the cart with that ID joined
      with its lines. */
  method GetCartByID(db: InMemoryDB, param: string) returns (r: Result<CartView>)
    requires db.Valid()
    ensures ScanDecimal(param).None? ==> r == Err(BadRequest("Invalid cart ID"))
    ensures ScanDecimal(param).Some? ==>
      var id := ScanDecimal(param).value;
      && (id !in db.carts ==> r == Err(NotFound("Cart not found")))
      && (id in db.carts ==> r.Ok? && IsCartView(db.State(), db.carts[id], r.value))
  {
    var id := ScanDecimal(param);
    if id.None? {
      return Err(BadRequest("Invalid cart ID"));
    }
    if id.value !in db.carts {
      return Err(NotFound("Cart not found"));
    }
    var v := JoinLines(db, db.carts[id.value]);
    return Ok(v);
  }

  // ---------------------------------------------------------------------------
  // Orders

  /** `CreateOrder` (handlers.go). */
  method CreateOrder(db: InMemoryDB, userID: nat) returns (r: Result<Order>)
    requires db.Valid()
    modifies db
    ensures db.Valid()
    ensures (r, db.State()) == PlaceOrder(old(db.State()), userID)
  {
    ghost var s := db.State();
    var cart := FindActiveCart(db, userID);
    if cart.None? {
      return Err(NotFound("No active cart found"));
    }
    var hasLines := HasLines(db, cart.value.id);
    if !hasLines {
      return Err(BadRequest("Cart is empty"));
    }
    var order := RecordOrder(db, cart.value);
    r := Ok(order);
    assert (r, db.State()) == PlaceOrder(s, userID);
    PlaceOrderConsistent(s, userID);
    Install(db, PlaceOrder(s, userID).1);
  }

  /** The part of `CreateOrder` after its checks: records the order for cart `c`, marks
      the cart "ordered", opens a new active cart for its owner and repoints the owner. */
  method RecordOrder(db: InMemoryDB, c: Cart) returns (order: Order)
    modifies db
    ensures order == Order(old(db.nextID), c.id, c.userID, c)
    ensures db.State() == OrderCart(old(db.State()), c)
  {
    ghost var s := db.State();
    ghost var after := OrderCart(s, c);
    OrderCartShape(s, c);
    var orderID := db.GetNextID();
    order := Order(orderID, c.id, c.userID, c);
    db.orders := db.orders[orderID := order];
    db.carts := db.carts[c.id := c.(status := Ordered)];
    var newCartID := db.GetNextID();
    db.carts := db.carts[newCartID := Cart(newCartID, c.userID, "Default Cart", Active)];
    if c.userID in db.users {
      db.users := db.users[c.userID := db.users[c.userID].(cartID := newCartID)];
    }
  }

  /** An order joined with its cart and lines, as both order listings build it. */
  method ViewOrder(db: InMemoryDB, o: Order) returns (v: OrderView)
    requires LinesWellFormed(db.State())
    ensures IsOrderView(db.State(), o, v)
  {
    if o.cartID in db.carts {
      var cv := JoinLines(db, db.carts[o.cartID]);
      v := OrderView(o, cv);
    } else {
      v := OrderView(o, CartView(o.cart, []));
    }
  }

  /** Whether `o` is one of the orders asked for: any order when `userID` is `None`,
      else an order of that user. */
  predicate Wanted(o: Order, userID: Option<nat>) {
    userID.None? || o.userID == userID.value
  }

  /** `v` shows the stored order it names, an order asked for, joined with its cart. */
  ghost predicate ShowsOrder(s: Store, userID: Option<nat>, v: OrderView) {
    && v.order.id in s.orders && s.orders[v.order.id] == v.order
    && Wanted(v.order, userID)
    && IsOrderView(s, v.order, v)
  }

  /** The IDs of the orders shown by `views`. */
  function OrderIds(views: seq<OrderView>): set<nat> {
    set v | v in views :: v.order.id
  }

  /** Every ID shown by `views` appears at some position. */
  lemma OrderIdsListed(views: seq<OrderView>, k: nat)
    requires k in OrderIds(views)
    ensures exists i :: 0 <= i < |views| && views[i].order.id == k
  {
    var v :| v in views && v.order.id == k;
    var i :| 0 <= i < |views| && views[i] == v;
  }

  /** Appending a view of an order not yet shown keeps every view valid and every ID
      shown once. */
  lemma OrderListGrows(s: Store, userID: Option<nat>, views: seq<OrderView>, v: OrderView)
    requires forall i :: 0 <= i < |views| ==> ShowsOrder(s, userID, views[i])
    requires forall i, j :: 0 <= i < j < |views| ==> views[i].order.id != views[j].order.id
    requires ShowsOrder(s, userID, v) && v.order.id !in OrderIds(views)
    ensures var w := views + [v];
      && (forall i :: 0 <= i < |w| ==> ShowsOrder(s, userID, w[i]))
      && (forall i, j :: 0 <= i < j < |w| ==> w[i].order.id != w[j].order.id)
      && OrderIds(w) == OrderIds(views) + {v.order.id}
  {
    assert forall i :: 0 <= i < |views| ==> views[i] in views;
  }

  /** The orders of `userID`, or every order when `userID` is `None`, each once and
      joined with its cart. */
  method ListOrders(db: InMemoryDB, userID: Option<nat>) returns (views: seq<OrderView>)
    requires KeyedById(db.State()) && LinesWellFormed(db.State())
    ensures forall i :: 0 <= i < |views| ==> ShowsOrder(db.State(), userID, views[i])
    ensures forall i, j :: 0 <= i < j < |views| ==> views[i].order.id != views[j].order.id
    ensures forall k :: k in db.orders && Wanted(db.orders[k], userID) ==> k in OrderIds(views)
  {
    ghost var s := db.State();
    var orders := db.orders;
    views := [];
    var todo := orders.Keys;
    while todo != {}
      invariant todo <= orders.Keys
      invariant forall i :: 0 <= i < |views| ==> ShowsOrder(s, userID, views[i])
      invariant forall i, j :: 0 <= i < j < |views| ==> views[i].order.id != views[j].order.id
      invariant OrderIds(views) !! todo
      invariant forall k :: k in orders && k !in todo && Wanted(orders[k], userID) ==> k in OrderIds(views)
      decreases |todo|
    {
      var k :| k in todo;
      var o := orders[k];
      if Wanted(o, userID) {
        var v := ViewOrder(db, o);
        assert ShowsOrder(s, userID, v);
        OrderListGrows(s, userID, views, v);
        views := views + [v];
      }
      todo := todo - {k};
    }
  }

  /** `GetOrders`: every order, each once, joined with its cart. */
  method GetOrders(db: InMemoryDB) returns (views: seq<OrderView>)
    requires db.Valid()
    ensures forall i :: 0 <= i < |views| ==>
      views[i].order.id in db.orders && db.orders[views[i].order.id] == views[i].order && IsOrderView(db.State(), views[i].order, views[i])
    ensures forall i, j :: 0 <= i < j < |views| ==> views[i].order.id != views[j].order.id
    ensures forall k :: k in db.orders ==> exists i :: 0 <= i < |views| && views[i].order.id == k
  {
    views := ListOrders(db, None);
    forall k | k in db.orders ensures exists i :: 0 <= i < |views| && views[i].order.id == k {
      OrderIdsListed(views, k);
    }
  }

  /** `GetUserOrders`: the orders whose `userID` is the caller's, each once, joined with
      its cart. */
  method GetUserOrders(db: InMemoryDB, userID: nat) returns (views: seq<OrderView>)
    requires db.Valid()
    ensures forall i :: 0 <= i < |views| ==>
      && views[i].order.id in db.orders && db.orders[views[i].order.id] == views[i].order
      && views[i].order.userID == userID
      && IsOrderView(db.State(), views[i].order, views[i])
    ensures forall i, j :: 0 <= i < j < |views| ==> views[i].order.id != views[j].order.id
    ensures forall k :: k in db.orders && db.orders[k].userID == userID ==>
      exists i :: 0 <= i < |views| && views[i].order.id == k
  {
    views := ListOrders(db, Some(userID));
    forall k | k in db.orders && db.orders[k].userID == userID
      ensures exists i :: 0 <= i < |views| && views[i].order.id == k
    {
      OrderIdsListed(views, k);
    }
  }
}
