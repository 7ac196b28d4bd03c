/** The cart/order lifecycle as transitions of the store value: registration, item
    creation, adding a line to the active cart, and turning the active cart into an
    order. Each handler runs as one atomic step, so each is one function from the store
    before to the outcome and the store after. */
module Lifecycle {

  import opened Outcomes
  import opened Models
  import opened Database

  // ---------------------------------------------------------------------------
  // Views of the store used by several operations

  /** The user's active cart: the cart its `cartID` names. */
  function ActiveCartOf(s: Store, userID: nat): Option<Cart> {
    if userID in s.users && s.users[userID].cartID in s.carts then Some(s.carts[s.users[userID].cartID])
    else None
  }

  /** In a consistent store the user's active cart is the one and only cart owned by the
      user whose status is "active"; it exists exactly when the user exists. */
  lemma ActiveCartIsUnique(s: Store, userID: nat)
    requires Consistent(s)
    ensures ActiveCartOf(s, userID).Some? <==> userID in s.users
    ensures ActiveCartOf(s, userID).Some? ==>
      var c := ActiveCartOf(s, userID).value;
      c.id in s.carts && s.carts[c.id] == c && c.userID == userID && c.status == Active
    ensures forall k :: k in s.carts && s.carts[k].userID == userID && s.carts[k].status == Active ==>
      ActiveCartOf(s, userID) == Some(s.carts[k])
  {
  }

  /** The lines stored for the cart `cartID`. */
  function LinesOf(cartItems: map<string, CartLine>, cartID: nat): set<CartLine> {
    set k | k in cartItems && cartItems[k].cartID == cartID :: cartItems[k]
  }

  predicate CartHasLines(cartItems: map<string, CartLine>, cartID: nat) {
    exists k :: k in cartItems && cartItems[k].cartID == cartID
  }

  lemma HasLinesIffNonEmpty(cartItems: map<string, CartLine>, cartID: nat)
    ensures CartHasLines(cartItems, cartID) <==> LinesOf(cartItems, cartID) != {}
  {
    if CartHasLines(cartItems, cartID) {
      var k :| k in cartItems && cartItems[k].cartID == cartID;
      assert cartItems[k] in LinesOf(cartItems, cartID);
    }
  }

  /** A cart that does not exist has no lines. */
  lemma NoLinesForUnknownCart(s: Store, cartID: nat)
    requires LinesWellFormed(s) && cartID !in s.carts
    ensures LinesOf(s.cartItems, cartID) == {}
  {
    forall k | k in s.cartItems ensures s.cartItems[k].cartID != cartID {
    }
  }

  /** Storing a line under a new key adds it to its own cart's lines and to no other's. */
  lemma LinesOfInsert(m: map<string, CartLine>, key: string, line: CartLine, cartID: nat)
    requires key !in m
    ensures LinesOf(m[key := line], cartID) ==
      if line.cartID == cartID then LinesOf(m, cartID) + {line} else LinesOf(m, cartID)
  {
    var m' := m[key := line];
    forall l | l in LinesOf(m', cartID)
      ensures l in LinesOf(m, cartID) || (l == line && line.cartID == cartID)
    {
      var k :| k in m' && m'[k].cartID == cartID && m'[k] == l;
      if k != key {
        assert m[k] == l;
      }
    }
    forall l | l in LinesOf(m, cartID) ensures l in LinesOf(m', cartID) {
      var k :| k in m && m[k].cartID == cartID && m[k] == l;
      assert m'[k] == l;
    }
    if line.cartID == cartID {
      assert m'[key] == line;
    }
  }

  /** The items the plain listing returns: those whose status is "active". */
  function ActiveItems(s: Store): set<Item> {
    set k | k in s.items && s.items[k].status == Active :: s.items[k]
  }

  /** No element occurs twice. */
  predicate NoDup<T(==)>(xs: seq<T>) {
    forall i, j :: 0 <= i < j < |xs| ==> xs[i] != xs[j]
  }

  /** `v` is `cart` joined with exactly its lines, each once, in some order. */
  ghost predicate IsCartView(s: Store, cart: Cart, v: CartView) {
    && v.cart == cart
    && NoDup(v.lines)
    && (forall l :: l in v.lines <==> l in LinesOf(s.cartItems, cart.id))
  }

  /** `v` is order `o` joined with its cart as currently stored and that cart's lines; when
      the cart is gone, with the copy kept in the order and no lines. */
  ghost predicate IsOrderView(s: Store, o: Order, v: OrderView) {
    && v.order == o
    && if o.cartID in s.carts then IsCartView(s, s.carts[o.cartID], v.cart) else v.cart == CartView(o.cart, [])
  }

  /** In a consistent store the lines of different keys are different values, so the
      join of a cart with its lines needs no deduplication. */
  lemma LinesDetermineKeys(s: Store, k1: string, k2: string)
    requires LinesWellFormed(s) && k1 in s.cartItems && k2 in s.cartItems
    requires s.cartItems[k1] == s.cartItems[k2]
    ensures k1 == k2
  {
  }

  // ---------------------------------------------------------------------------
  // Registration and login

  /** `CreateUser`: fails with a conflict, changing nothing, when the name is taken
      (compared exactly, case included); fails, changing nothing, when hashing the password
      failed; otherwise adds the user and an empty active cart under the next two IDs and
      returns the user without its password. */
  function Register(s: Store, username: string, hash: Option<string>): (out: (Result<User>, Store))
    ensures out.0.Err? ==> out.1 == s
    ensures out.0 == Err(Conflict("User already exists")) <==> HasUserNamed(s, username)
    ensures out.0.Ok? <==> !HasUserNamed(s, username) && hash.Some?
    ensures out.0.Ok? ==> out.0.value == User(s.nextID, username, "", s.nextID + 1)
    ensures out.0.Ok? ==>
      out.1 == s.(users := s.users[s.nextID := User(s.nextID, username, hash.value, s.nextID + 1)],
                  carts := s.carts[s.nextID + 1 := Cart(s.nextID + 1, s.nextID, "Default Cart", Active)],
                  nextID := s.nextID + 2)
  {
    if HasUserNamed(s, username) then (Err(Conflict("User already exists")), s)
    else if hash.None? then (Err(Internal("Failed to hash password")), s)
    else (Ok(User(s.nextID, username, "", s.nextID + 1)), WithNewUser(s, username, hash.value, "Default Cart"))
  }

  lemma RegisterConsistent(s: Store, username: string, hash: Option<string>)
    requires Consistent(s)
    ensures Consistent(Register(s, username, hash).1)
  {
    if !HasUserNamed(s, username) && hash.Some? {
      WithNewUserConsistent(s, username, hash.value, "Default Cart");
    }
  }

  /** A registered user owns exactly one active cart, which is new and empty, and its
      name now resolves to it. */
  lemma RegisterProvisionsCart(s: Store, username: string, hash: Option<string>)
    requires Consistent(s)
    requires Register(s, username, hash).0.Ok?
    ensures var (r, s') := Register(s, username, hash);
      var u := r.value;
      && u.id !in s.users && u.cartID !in s.carts
      && s'.users[u.id] == u.(password := hash.value)
      && ActiveCartOf(s', u.id) == Some(Cart(u.cartID, u.id, "Default Cart", Active))
      && LinesOf(s'.cartItems, u.cartID) == {}
      && HasUserNamed(s', username)
  {
    var (r, s') := Register(s, username, hash);
    var u := r.value;
    assert s'.users[u.id].username == username;
    RegisterConsistent(s, username, hash);
    NoLinesForUnknownCart(s, u.cartID);
  }

  /** `LoginUser`'s lookup: the user with exactly this name, when the supplied check of
      the stored credential accepts; the password is blanked in the result. */
  ghost function Login(s: Store, username: string, verify: string -> bool): (r: Result<User>)
    ensures r.Ok? ==> HasUserNamed(s, username)
    ensures r.Ok? ==> exists k :: k in s.users && s.users[k].(password := "") == r.value
    ensures r.Ok? ==> r.value.username == username && r.value.password == ""
    ensures r.Err? ==> r.error == Unauthorized("Invalid username or password")
  {
    if HasUserNamed(s, username) then
      var k :| k in s.users && s.users[k].username == username;
      if verify(s.users[k].password) then Ok(s.users[k].(password := "")) else Err(Unauthorized("Invalid username or password"))
    else Err(Unauthorized("Invalid username or password"))
  }

  /** Login succeeds exactly when some user has the name and the check accepts that
      user's stored credential (there is at most one such user). */
  lemma LoginIffAccepted(s: Store, username: string, verify: string -> bool)
    requires Consistent(s)
    ensures Login(s, username, verify).Ok? <==>
      exists k :: k in s.users && s.users[k].username == username && verify(s.users[k].password)
  {
  }

  /** After a registration, login with the same name finds the new user whenever the
      credential check accepts the new hash. */
  lemma RegisterThenLogin(s: Store, username: string, hash: string, verify: string -> bool)
    requires Consistent(s) && !HasUserNamed(s, username) && verify(hash)
    ensures var (r, s') := Register(s, username, Some(hash));
      Login(s', username, verify) == Ok(r.value)
  {
    var (r, s') := Register(s, username, Some(hash));
    assert UniqueUsernames(s') by {
      RegisterConsistent(s, username, Some(hash));
    }
    LoginPicks(s', username, verify, s.nextID);
  }

  /** With unique names, login checks the credential of the one user with that name. */
  lemma LoginPicks(s: Store, username: string, verify: string -> bool, k: nat)
    requires UniqueUsernames(s) && k in s.users && s.users[k].username == username
    ensures Login(s, username, verify) ==
      if verify(s.users[k].password) then Ok(s.users[k].(password := ""))
      else Err(Unauthorized("Invalid username or password"))
  {
  }

  // ---------------------------------------------------------------------------
  // Items

  /** `CreateItem`: an empty status becomes "active"; the item is stored under the next ID. */
  function NewItem(s: Store, name: string, status: string): (out: (Item, Store))
    ensures out.0.id == s.nextID && out.0.name == name
    ensures out.0.status == if status == "" then Active else status
    ensures out.1 == s.(items := s.items[s.nextID := out.0], nextID := s.nextID + 1)
  {
    var item := Item(s.nextID, name, if status == "" then Active else status, "");
    (item, s.(items := s.items[s.nextID := item], nextID := s.nextID + 1))
  }

  lemma NewItemConsistent(s: Store, name: string, status: string)
    requires Consistent(s)
    ensures Consistent(NewItem(s, name, status).1)
  {
    var (item, r) := NewItem(s, name, status);
    NewItemIds(s, item);
    NewItemLines(s, item);
    assert UniqueUsernames(r) && UserCartsActive(r) && CartsOwned(r) && OrdersWellFormed(r) by {
      assert r.users == s.users && r.carts == s.carts && r.orders == s.orders;
    }
  }

  /** Storing an item under the next ID keeps the ID bookkeeping. */
  lemma NewItemIds(s: Store, item: Item)
    requires IdsIssued(s) && KeyedById(s) && IdsDisjoint(s) && item.id == s.nextID
    ensures var r := s.(items := s.items[s.nextID := item], nextID := s.nextID + 1);
      IdsIssued(r) && KeyedById(r) && IdsDisjoint(r)
  {
    assert s.nextID !in s.users && s.nextID !in s.carts && s.nextID !in s.orders;
  }

  /** Storing a new item leaves every cart line pointing at its item. */
  lemma NewItemLines(s: Store, item: Item)
    requires IdsIssued(s) && LinesWellFormed(s)
    ensures LinesWellFormed(s.(items := s.items[s.nextID := item], nextID := s.nextID + 1))
  {
    var r := s.(items := s.items[s.nextID := item], nextID := s.nextID + 1);
    forall k | k in r.cartItems
      ensures r.cartItems[k].itemID in r.items && r.cartItems[k].item == r.items[r.cartItems[k].itemID]
    {
      assert s.cartItems[k].itemID in s.items;
    }
  }

  /** A created item is listed by the plain listing exactly when its status was left
      empty or given as "active"; the previously listed items stay listed. */
  lemma NewItemListed(s: Store, name: string, status: string)
    requires Consistent(s)
    ensures var (item, s') := NewItem(s, name, status);
      && (item in ActiveItems(s') <==> status == "" || status == Active)
      && ActiveItems(s) <= ActiveItems(s')
  {
    var (item, s') := NewItem(s, name, status);
    assert s'.items[item.id] == item;
    if item in ActiveItems(s') {
      var k :| k in s'.items && s'.items[k].status == Active && s'.items[k] == item;
      assert k == item.id;
    }
    forall i | i in ActiveItems(s) ensures i in ActiveItems(s') {
      var k :| k in s.items && s.items[k].status == Active && s.items[k] == i;
      assert s'.items[k] == i;
    }
  }

  // ---------------------------------------------------------------------------
  // Adding to the cart

  /** `AddToCart`: checks, in this order, that the user has an active cart, that the item
      exists and that the cart has no line for it yet; any failure changes nothing. On
      success exactly one line is added, under the key of its (cart, item) pair. */
  function AddLine(s: Store, userID: nat, itemID: nat): (out: (Result<CartLine>, Store))
    ensures out.0.Err? ==> out.1 == s
    ensures ActiveCartOf(s, userID).None? ==> out.0 == Err(NotFound("Cart not found"))
    ensures ActiveCartOf(s, userID).Some? && itemID !in s.items ==> out.0 == Err(NotFound("Item not found"))
    ensures out.0.Ok? ==>
      var cart := ActiveCartOf(s, userID).value;
      var key := LineKey(cart.id, itemID);
      && itemID in s.items && key !in s.cartItems
      && out.0.value == CartLine(cart.id, itemID, cart, s.items[itemID])
      && out.1 == s.(cartItems := s.cartItems[key := out.0.value])
  {
    match ActiveCartOf(s, userID)
    case None => (Err(NotFound("Cart not found")), s)
    case Some(cart) =>
      if itemID !in s.items then (Err(NotFound("Item not found")), s)
      else
        var key := LineKey(cart.id, itemID);
        if key in s.cartItems then (Err(Conflict("Item already in cart")), s)
        else
          var line := CartLine(cart.id, itemID, cart, s.items[itemID]);
          (Ok(line), s.(cartItems := s.cartItems[key := line]))
  }

  /** When the cart and the item are found, `AddToCart` reports a conflict exactly when a
      line for that (cart, item) pair already exists, and succeeds otherwise. */
  lemma AddLineConflictIffDuplicate(s: Store, userID: nat, itemID: nat)
    requires Consistent(s)
    requires ActiveCartOf(s, userID).Some? && itemID in s.items
    ensures var cartID := ActiveCartOf(s, userID).value.id;
      var r := AddLine(s, userID, itemID).0;
      && (r == Err(Conflict("Item already in cart")) <==>
           exists k :: k in s.cartItems && s.cartItems[k].cartID == cartID && s.cartItems[k].itemID == itemID)
      && (r.Ok? || r == Err(Conflict("Item already in cart")))
  {
    LineKeyPresence(s, ActiveCartOf(s, userID).value.id, itemID);
  }

  lemma AddLineConsistent(s: Store, userID: nat, itemID: nat)
    requires Consistent(s)
    ensures Consistent(AddLine(s, userID, itemID).1)
  {
    var (r, s') := AddLine(s, userID, itemID);
    if r.Ok? {
      ActiveCartIsUnique(s, userID);
      assert LinesWellFormed(s');
    }
  }

  /** A successful `AddToCart` adds one line to the active cart's lines, grows the line
      collection by one, and leaves every other cart's lines as they were. */
  lemma AddLineAddsOne(s: Store, userID: nat, itemID: nat, other: nat)
    requires Consistent(s)
    requires AddLine(s, userID, itemID).0.Ok?
    ensures var (r, s') := AddLine(s, userID, itemID);
      var cartID := r.value.cartID;
      && |s'.cartItems| == |s.cartItems| + 1
      && LinesOf(s'.cartItems, cartID) == LinesOf(s.cartItems, cartID) + {r.value}
      && (other != cartID ==> LinesOf(s'.cartItems, other) == LinesOf(s.cartItems, other))
  {
    var (r, s') := AddLine(s, userID, itemID);
    var key := LineKey(r.value.cartID, itemID);
    assert s'.cartItems == s.cartItems[key := r.value];
    LinesOfInsert(s.cartItems, key, r.value, r.value.cartID);
    LinesOfInsert(s.cartItems, key, r.value, other);
  }

  /** Adding the same item twice in a row: the second call reports the duplicate and
      changes nothing, so one line remains. */
  lemma AddLineTwice(s: Store, userID: nat, itemID: nat)
    requires Consistent(s)
    requires AddLine(s, userID, itemID).0.Ok?
    ensures var s' := AddLine(s, userID, itemID).1;
      AddLine(s', userID, itemID) == (Err(Conflict("Item already in cart")), s')
  {
    var s' := AddLine(s, userID, itemID).1;
    assert ActiveCartOf(s', userID) == ActiveCartOf(s, userID);
  }

  // ---------------------------------------------------------------------------
  // Placing an order

  /** `cart` is stored as it is and is active. */
  predicate IsActiveCart(s: Store, cart: Cart) {
    cart.id in s.carts && s.carts[cart.id] == cart && cart.status == Active
  }

  /** The store after ordering `cart`: an order with a copy of the cart under the next ID,
      the cart marked "ordered", a new empty active cart for the same owner under the ID
      after that, and the owner's `cartID` pointed at the new cart when the owner exists. */
  function OrderCart(s: Store, cart: Cart): Store {
    var orderID, newCartID := s.nextID, s.nextID + 1;
    var users := if cart.userID in s.users then s.users[cart.userID := s.users[cart.userID].(cartID := newCartID)] else s.users;
    s.(users := users,
       carts := s.carts[cart.id := cart.(status := Ordered)][newCartID := Cart(newCartID, cart.userID, "Default Cart", Active)],
       orders := s.orders[orderID := Order(orderID, cart.id, cart.userID, cart)],
       nextID := s.nextID + 2)
  }

  /** The collections of `OrderCart(s, cart)` one by one. */
  lemma OrderCartShape(s: Store, cart: Cart)
    ensures var r := OrderCart(s, cart);
      && r.carts == s.carts[cart.id := cart.(status := Ordered)][s.nextID + 1 := Cart(s.nextID + 1, cart.userID, "Default Cart", Active)]
      && r.orders == s.orders[s.nextID := Order(s.nextID, cart.id, cart.userID, cart)]
      && (cart.userID in s.users ==> r.users == s.users[cart.userID := s.users[cart.userID].(cartID := s.nextID + 1)])
      && (cart.userID !in s.users ==> r.users == s.users)
      && r.items == s.items && r.cartItems == s.cartItems && r.nextID == s.nextID + 2
  {
  }

  /** `CreateOrder`: fails, changing nothing, when the user has no active cart or the cart
      has no line. Otherwise records an order for the cart (with a copy of the cart as it
      was), marks the cart "ordered", adds a new empty active cart for the same user and
      points the user's `cartID` at it; the lines stay where they were. */
  function PlaceOrder(s: Store, userID: nat): (out: (Result<Order>, Store))
    ensures out.0.Err? ==> out.1 == s
    ensures ActiveCartOf(s, userID).None? ==> out.0 == Err(NotFound("No active cart found"))
    ensures ActiveCartOf(s, userID).Some? ==>
      (out.0 == Err(BadRequest("Cart is empty")) <==> !CartHasLines(s.cartItems, ActiveCartOf(s, userID).value.id))
    ensures out.0.Ok? <==>
      ActiveCartOf(s, userID).Some? && CartHasLines(s.cartItems, ActiveCartOf(s, userID).value.id)
    ensures out.0.Ok? ==>
      var cart := ActiveCartOf(s, userID).value;
      && out.0.value == Order(s.nextID, cart.id, cart.userID, cart)
      && out.1 == OrderCart(s, cart)
  {
    match ActiveCartOf(s, userID)
    case None => (Err(NotFound("No active cart found")), s)
    case Some(cart) =>
      if !CartHasLines(s.cartItems, cart.id) then (Err(BadRequest("Cart is empty")), s)
      else (Ok(Order(s.nextID, cart.id, cart.userID, cart)), OrderCart(s, cart))
  }

  /** The owner of an active cart exists and points at it. */
  lemma ActiveCartOwner(s: Store, cart: Cart)
    requires Consistent(s) && IsActiveCart(s, cart)
    ensures cart.userID in s.users && s.users[cart.userID].cartID == cart.id
    ensures ActiveCartOf(s, cart.userID) == Some(cart)
  {
    assert s.carts[cart.id].userID == cart.userID;
  }

  lemma OrderCartConsistent(s: Store, cart: Cart)
    requires Consistent(s) && IsActiveCart(s, cart)
    ensures Consistent(OrderCart(s, cart))
  {
    OrderCartIds(s, cart);
    OrderCartUsers(s, cart);
    OrderCartCarts(s, cart);
    assert s.nextID + 1 !in s.carts;
    OrderCartLines(s, cart);
    OrderCartOrders(s, cart);
  }

  lemma OrderCartIds(s: Store, cart: Cart)
    requires Consistent(s) && IsActiveCart(s, cart)
    ensures var r := OrderCart(s, cart);
      IdsIssued(r) && KeyedById(r) && IdsDisjoint(r) && UniqueUsernames(r)
  {
    ActiveCartOwner(s, cart);
    OrderCartKeys(s, cart);
    OrderCartNames(s, cart);
  }

  lemma OrderCartKeys(s: Store, cart: Cart)
    requires Consistent(s) && IsActiveCart(s, cart) && cart.userID in s.users
    ensures var r := OrderCart(s, cart);
      IdsIssued(r) && KeyedById(r) && IdsDisjoint(r)
  {
    OrderCartIssued(s, cart);
    OrderCartKeyedById(s, cart);
    OrderCartDisjoint(s, cart);
  }

  lemma OrderCartIssued(s: Store, cart: Cart)
    requires IdsIssued(s) && cart.id in s.carts && cart.userID in s.users
    ensures IdsIssued(OrderCart(s, cart))
  {
    var r := OrderCart(s, cart);
    assert r.users.Keys == s.users.Keys;
    assert r.carts.Keys == s.carts.Keys + {s.nextID + 1};
    assert r.orders.Keys == s.orders.Keys + {s.nextID};
  }

  lemma OrderCartKeyedById(s: Store, cart: Cart)
    requires KeyedById(s) && IsActiveCart(s, cart) && cart.userID in s.users
    ensures KeyedById(OrderCart(s, cart))
  {
    var r := OrderCart(s, cart);
    forall k | k in r.users ensures r.users[k].id == k {
      assert r.users[k].id == s.users[k].id;
    }
  }

  lemma OrderCartDisjoint(s: Store, cart: Cart)
    requires IdsIssued(s) && IdsDisjoint(s) && cart.id in s.carts && cart.userID in s.users
    ensures IdsDisjoint(OrderCart(s, cart))
  {
    var r := OrderCart(s, cart);
    assert r.users.Keys == s.users.Keys;
    assert r.carts.Keys == s.carts.Keys + {s.nextID + 1};
    assert r.orders.Keys == s.orders.Keys + {s.nextID};
  }

  lemma OrderCartNames(s: Store, cart: Cart)
    requires Consistent(s) && IsActiveCart(s, cart) && cart.userID in s.users
    ensures UniqueUsernames(OrderCart(s, cart))
  {
    var r := OrderCart(s, cart);
    forall u | u in r.users ensures r.users[u].username == s.users[u].username {
    }
  }

  lemma OrderCartUsers(s: Store, cart: Cart)
    requires Consistent(s) && IsActiveCart(s, cart)
    ensures UserCartsActive(OrderCart(s, cart))
  {
    ActiveCartOwner(s, cart);
    var r := OrderCart(s, cart);
    forall u | u in r.users
      ensures r.users[u].cartID in r.carts
      ensures r.carts[r.users[u].cartID].userID == u && r.carts[r.users[u].cartID].status == Active
    {
      if u != cart.userID {
        assert r.users[u] == s.users[u];
        assert s.users[u].cartID != cart.id;
      }
    }
  }

  lemma OrderCartCarts(s: Store, cart: Cart)
    requires Consistent(s) && IsActiveCart(s, cart)
    ensures CartsOwned(OrderCart(s, cart))
  {
    ActiveCartOwner(s, cart);
    var r := OrderCart(s, cart);
    forall k | k in r.carts
      ensures r.carts[k].userID in r.users
      ensures r.carts[k].status == Active || r.carts[k].status == Ordered
      ensures k <= r.users[r.carts[k].userID].cartID
      ensures r.carts[k].status == Active ==> k == r.users[r.carts[k].userID].cartID
    {
      if k != s.nextID + 1 {
        assert k in s.carts && k < s.nextID;
      }
    }
  }

  lemma OrderCartLines(s: Store, cart: Cart)
    requires LinesWellFormed(s) && IsActiveCart(s, cart) && s.nextID + 1 !in s.carts
    ensures LinesWellFormed(OrderCart(s, cart))
  {
    var r := OrderCart(s, cart);
    OrderCartShape(s, cart);
    forall k | k in r.cartItems
      ensures r.cartItems[k].cartID in r.carts
      ensures r.cartItems[k].cart == r.carts[r.cartItems[k].cartID].(status := Active)
    {
      var c := s.cartItems[k].cartID;
      assert c in s.carts;
      if c != cart.id {
        assert r.carts[c] == s.carts[c];
      }
    }
  }

  lemma OrderCartOrders(s: Store, cart: Cart)
    requires Consistent(s) && IsActiveCart(s, cart)
    ensures OrdersWellFormed(OrderCart(s, cart))
  {
    var r := OrderCart(s, cart);
    forall k | k in s.orders ensures s.orders[k].cartID != cart.id {
      assert s.carts[s.orders[k].cartID].status == Ordered;
    }
    forall k | k in r.orders
      ensures r.orders[k].cartID in r.carts && r.carts[r.orders[k].cartID].status == Ordered
      ensures r.orders[k].userID == r.carts[r.orders[k].cartID].userID
      ensures r.orders[k].cart == r.carts[r.orders[k].cartID].(status := Active)
    {
      if k != s.nextID {
        assert r.orders[k] == s.orders[k];
      }
    }
  }

  lemma PlaceOrderConsistent(s: Store, userID: nat)
    requires Consistent(s)
    ensures Consistent(PlaceOrder(s, userID).1)
  {
    var (r, s') := PlaceOrder(s, userID);
    if r.Ok? {
      ActiveCartIsUnique(s, userID);
      OrderCartConsistent(s, ActiveCartOf(s, userID).value);
    }
  }

  /** After a successful `CreateOrder` the user's active cart is a different, new, empty
      cart; the ordered cart keeps exactly the lines it had, which were not none. */
  lemma PlaceOrderRenewsCart(s: Store, userID: nat)
    requires Consistent(s)
    requires PlaceOrder(s, userID).0.Ok?
    ensures var (r, s') := PlaceOrder(s, userID);
      var o := r.value;
      && o.cartID in s'.carts && s'.carts[o.cartID].status == Ordered && s'.carts[o.cartID].userID == userID
      && ActiveCartOf(s', userID) == Some(Cart(s.nextID + 1, userID, "Default Cart", Active))
      && s.nextID + 1 != o.cartID
      && LinesOf(s'.cartItems, s.nextID + 1) == {}
      && LinesOf(s'.cartItems, o.cartID) == LinesOf(s.cartItems, o.cartID) != {}
  {
    var cart := ActiveCartOf(s, userID).value;
    assert IsActiveCart(s, cart) && cart.userID == userID by {
      ActiveCartIsUnique(s, userID);
    }
    assert cart.userID in s.users by {
      ActiveCartOwner(s, cart);
    }
    OrderCartRenews(s, cart);
    HasLinesIffNonEmpty(s.cartItems, cart.id);
  }

  /** Converting the active cart: the cart is kept as "ordered", its owner now points at a
      new active cart that has no lines, and no line moves. */
  lemma OrderCartRenews(s: Store, cart: Cart)
    requires IdsIssued(s) && LinesWellFormed(s) && IsActiveCart(s, cart) && cart.userID in s.users
    ensures var r := OrderCart(s, cart);
      && cart.id in r.carts && r.carts[cart.id] == cart.(status := Ordered)
      && ActiveCartOf(r, cart.userID) == Some(Cart(s.nextID + 1, cart.userID, "Default Cart", Active))
      && s.nextID + 1 != cart.id
      && r.cartItems == s.cartItems
      && LinesOf(r.cartItems, s.nextID + 1) == {}
  {
    OrderCartShape(s, cart);
    assert s.nextID + 1 !in s.carts;
    NoLinesForUnknownCart(s, s.nextID + 1);
  }

  /** Ordering again straight after an order fails with "Cart is empty" and changes
      nothing. */
  lemma ReorderFails(s: Store, userID: nat)
    requires Consistent(s)
    requires PlaceOrder(s, userID).0.Ok?
    ensures var s' := PlaceOrder(s, userID).1;
      PlaceOrder(s', userID) == (Err(BadRequest("Cart is empty")), s')
  {
    PlaceOrderRenewsCart(s, userID);
    var s' := PlaceOrder(s, userID).1;
    HasLinesIffNonEmpty(s'.cartItems, s.nextID + 1);
  }

  /** A successful `AddToCart` makes the following `CreateOrder` succeed. */
  lemma AddThenOrder(s: Store, userID: nat, itemID: nat)
    requires Consistent(s)
    requires AddLine(s, userID, itemID).0.Ok?
    ensures PlaceOrder(AddLine(s, userID, itemID).1, userID).0.Ok?
  {
    var (r, s') := AddLine(s, userID, itemID);
    assert ActiveCartOf(s', userID) == ActiveCartOf(s, userID);
    var key := LineKey(r.value.cartID, itemID);
    assert s'.cartItems[key].cartID == r.value.cartID;
  }

  /** The lines of an ordered cart never change through `AddToCart`: only the active cart
      receives lines. */
  lemma OrderedCartFrozen(s: Store, userID: nat, itemID: nat, cartID: nat)
    requires Consistent(s)
    requires cartID in s.carts && s.carts[cartID].status == Ordered
    ensures LinesOf(AddLine(s, userID, itemID).1.cartItems, cartID) == LinesOf(s.cartItems, cartID)
  {
    var (r, s') := AddLine(s, userID, itemID);
    if r.Ok? {
      ActiveCartIsUnique(s, userID);
      AddLineAddsOne(s, userID, itemID, cartID);
    }
  }
}
