/** The in-memory store: five keyed collections and one shared ID counter, the
    consistency invariant they keep, and the seeding done when the store is created. */
module Database {

  import opened Outcomes
  import opened Models
  import Decimal

  // ---------------------------------------------------------------------------
  // Cart-line keys

  /** The key a cart line is stored under: "cartID-itemID", both in decimal. */
  function LineKey(cartID: nat, itemID: nat): string {
    Decimal.Format(cartID) + "-" + Decimal.Format(itemID)
  }

  /** Index of the first '-' in `s`, or |s| when there is none. */
  function FirstDash(s: string): (i: nat)
    ensures i <= |s|
    ensures i < |s| ==> s[i] == '-'
    ensures forall j :: 0 <= j < i ==> s[j] != '-'
  {
    if s == [] then 0 else if s[0] == '-' then 0 else 1 + FirstDash(s[1..])
  }

  /** Splits a line key back into its cart and item IDs; `None` for a malformed key. */
  function ParseLineKey(key: string): Option<(nat, nat)> {
    var i := FirstDash(key);
    if 0 < i && i + 1 < |key| && Decimal.AllDigits(key[..i]) && Decimal.AllDigits(key[i + 1..]) then
      Some((Decimal.Value(key[..i]), Decimal.Value(key[i + 1..])))
    else None
  }

  lemma {:induction false} FirstDashAfterDigits(x: string, rest: string)
    requires Decimal.AllDigits(x)
    ensures FirstDash(x + "-" + rest) == |x|
  {
    if x != [] {
      assert (x + "-" + rest)[1..] == x[1..] + "-" + rest;
      FirstDashAfterDigits(x[1..], rest);
    }
  }

  /** Parsing a key recovers the pair it was made from. */
  lemma ParseLineKeyRoundTrip(cartID: nat, itemID: nat)
    ensures ParseLineKey(LineKey(cartID, itemID)) == Some((cartID, itemID))
  {
    var x, y := Decimal.Format(cartID), Decimal.Format(itemID);
    var key := LineKey(cartID, itemID);
    FirstDashAfterDigits(x, y);
    assert key[..|x|] == x;
    assert key[|x| + 1..] == y;
    Decimal.ValueOfFormat(cartID);
    Decimal.ValueOfFormat(itemID);
  }

  /** Distinct (cart, item) pairs are stored under distinct keys. */
  lemma LineKeyInjective(c1: nat, i1: nat, c2: nat, i2: nat)
    requires LineKey(c1, i1) == LineKey(c2, i2)
    ensures c1 == c2 && i1 == i2
  {
    ParseLineKeyRoundTrip(c1, i1);
    ParseLineKeyRoundTrip(c2, i2);
  }

  // ---------------------------------------------------------------------------
  // The store as a value, and its invariant

  datatype Store = Store(
    users: map<nat, User>,
    items: map<nat, Item>,
    carts: map<nat, Cart>,
    cartItems: map<string, CartLine>,
    orders: map<nat, Order>,
    nextID: nat)

  /** The store `Connect` starts from: all collections empty, counter at 1. */
  const EmptyStore: Store := Store(map[], map[], map[], map[], map[], 1)

  /** Every stored ID was issued by the counter: it lies in 1 .. nextID-1. */
  predicate IdsIssued(s: Store) {
    && 1 <= s.nextID
    && (forall k :: k in s.users ==> 1 <= k < s.nextID)
    && (forall k :: k in s.items ==> 1 <= k < s.nextID)
    && (forall k :: k in s.carts ==> 1 <= k < s.nextID)
    && (forall k :: k in s.orders ==> 1 <= k < s.nextID)
  }

  /** Every user, item, cart and order is stored under its own ID. */
  predicate KeyedById(s: Store) {
    && (forall k :: k in s.users ==> s.users[k].id == k)
    && (forall k :: k in s.items ==> s.items[k].id == k)
    && (forall k :: k in s.carts ==> s.carts[k].id == k)
    && (forall k :: k in s.orders ==> s.orders[k].id == k)
  }

  /** One counter serves every kind of entity, so no ID is used by two kinds. */
  predicate IdsDisjoint(s: Store) {
    && s.users.Keys !! s.items.Keys && s.users.Keys !! s.carts.Keys && s.users.Keys !! s.orders.Keys
    && s.items.Keys !! s.carts.Keys && s.items.Keys !! s.orders.Keys && s.carts.Keys !! s.orders.Keys
  }

  predicate UniqueUsernames(s: Store) {
    forall a, b :: a in s.users && b in s.users && s.users[a].username == s.users[b].username ==> a == b
  }

  /** Each user's `cartID` names an active cart that the user owns. */
  predicate UserCartsActive(s: Store) {
    forall u :: u in s.users ==>
      var c := s.users[u].cartID;
      c in s.carts && s.carts[c].userID == u && s.carts[c].status == Active
  }

  /** Every cart belongs to an existing user, is either active or ordered, is no newer
      than its owner's current cart, and, when active, is that current cart. */
  predicate CartsOwned(s: Store) {
    forall k :: k in s.carts ==>
      var c := s.carts[k];
      && c.userID in s.users
      && (c.status == Active || c.status == Ordered)
      && k <= s.users[c.userID].cartID
      && (c.status == Active ==> k == s.users[c.userID].cartID)
  }

  /** Every line is stored under the key of its (cart, item) pair, refers to an existing
      cart and item, and carries copies of them taken while the cart was active. */
  predicate LinesWellFormed(s: Store) {
    forall k :: k in s.cartItems ==>
      var l := s.cartItems[k];
      && k == LineKey(l.cartID, l.itemID)
      && l.cartID in s.carts && l.itemID in s.items
      && l.item == s.items[l.itemID]
      && l.cart == s.carts[l.cartID].(status := Active)
  }

  /** Every order refers to an ordered cart of the same user, carries that cart as it was
      while active, and no two orders come from the same cart. */
  predicate OrdersWellFormed(s: Store) {
    && (forall k :: k in s.orders ==>
          var o := s.orders[k];
          && o.cartID in s.carts
          && s.carts[o.cartID].status == Ordered
          && o.userID == s.carts[o.cartID].userID
          && o.cart == s.carts[o.cartID].(status := Active))
    && (forall a, b :: a in s.orders && b in s.orders && s.orders[a].cartID == s.orders[b].cartID ==> a == b)
  }

  predicate Consistent(s: Store) {
    && IdsIssued(s)
    && KeyedById(s)
    && IdsDisjoint(s)
    && UniqueUsernames(s)
    && UserCartsActive(s)
    && CartsOwned(s)
    && LinesWellFormed(s)
    && OrdersWellFormed(s)
  }

  /** The invariants on IDs and names read only the users, items, carts, orders and
      counter, so they survive any change to the cart lines. */
  lemma LinesChangeKeepsIds(s: Store, r: Store)
    requires r == s.(cartItems := r.cartItems)
    requires IdsIssued(s) && KeyedById(s) && IdsDisjoint(s) && UniqueUsernames(s)
    ensures IdsIssued(r) && KeyedById(r) && IdsDisjoint(r) && UniqueUsernames(r)
  {
  }

  /** So do the invariants on cart ownership and on orders. */
  lemma LinesChangeKeepsOwners(s: Store, r: Store)
    requires r == s.(cartItems := r.cartItems)
    requires UserCartsActive(s) && CartsOwned(s) && OrdersWellFormed(s)
    ensures UserCartsActive(r) && CartsOwned(r) && OrdersWellFormed(r)
  {
  }

  /** The next ID the counter issues is used by no entity yet. */
  lemma NextIdIsFresh(s: Store)
    requires Consistent(s)
    ensures s.nextID !in s.users && s.nextID !in s.items && s.nextID !in s.carts && s.nextID !in s.orders
  {
  }

  /** Each user has at most one active cart, and it is the one its `cartID` names. */
  lemma OneActiveCart(s: Store, a: nat, b: nat)
    requires Consistent(s)
    requires a in s.carts && b in s.carts
    requires s.carts[a].status == Active && s.carts[b].status == Active
    requires s.carts[a].userID == s.carts[b].userID
    ensures a == b && a == s.users[s.carts[a].userID].cartID
  {
  }

  /** At most one line per (cart, item) pair. */
  lemma NoDuplicateLines(s: Store, k1: string, k2: string)
    requires Consistent(s)
    requires k1 in s.cartItems && k2 in s.cartItems
    requires s.cartItems[k1].cartID == s.cartItems[k2].cartID && s.cartItems[k1].itemID == s.cartItems[k2].itemID
    ensures k1 == k2
  {
  }

  /** A line for (cart, item) exists exactly when the key of that pair is present. */
  lemma LineKeyPresence(s: Store, cartID: nat, itemID: nat)
    requires Consistent(s)
    ensures LineKey(cartID, itemID) in s.cartItems <==>
            exists k :: k in s.cartItems && s.cartItems[k].cartID == cartID && s.cartItems[k].itemID == itemID
  {
    var key := LineKey(cartID, itemID);
    if key in s.cartItems {
      var l := s.cartItems[key];
      LineKeyInjective(l.cartID, l.itemID, cartID, itemID);
    }
  }

  /** Advancing the counter keeps the store consistent. */
  lemma AdvanceCounter(s: Store)
    requires Consistent(s)
    ensures Consistent(s.(nextID := s.nextID + 1))
  {
    var r := s.(nextID := s.nextID + 1);
    assert IdsIssued(r);
    assert KeyedById(r) && IdsDisjoint(r) && UniqueUsernames(r) by {
      assert r.users == s.users && r.items == s.items && r.carts == s.carts && r.orders == s.orders;
    }
    assert UserCartsActive(r) && CartsOwned(r) && LinesWellFormed(r) && OrdersWellFormed(r) by {
      assert r.users == s.users && r.items == s.items && r.carts == s.carts;
      assert r.cartItems == s.cartItems && r.orders == s.orders;
    }
  }

  // ---------------------------------------------------------------------------
  // Seeding

  /** The eight catalogue items installed into an empty store: name and image path. */
  const Catalogue: seq<(string, string)> := [
    ("Laptop", "/assets/products/laptop.jpg"),
    ("Smartphone", "/assets/products/smartphone.jpg"),
    ("Headphones", "/assets/products/headphones.jpg"),
    ("Keyboard", "/assets/products/keyboard.jpg"),
    ("Mouse", "/assets/products/mouse.jpg"),
    ("Monitor", "/assets/products/monitor.jpg"),
    ("Tablet", "/assets/products/tablet.jpg"),
    ("Webcam", "/assets/products/webcam.jpg")
  ]

  const AdminName: string := "admin"

  /** The catalogue item with position `i`, given the ID `id`. */
  function CatalogueItem(i: nat, id: nat): Item
    requires i < |Catalogue|
  {
    Item(id, Catalogue[i].0, Active, Catalogue[i].1)
  }

  /** The first `n` catalogue items keyed by the IDs first .. first+n-1. */
  function CatalogueFrom(first: nat, n: nat): (m: map<nat, Item>)
    requires n <= |Catalogue|
    ensures forall k :: k in m <==> first <= k < first + n
    ensures forall k :: k in m ==> m[k] == CatalogueItem(k - first, k)
  {
    if n == 0 then map[] else CatalogueFrom(first, n - 1)[first + n - 1 := CatalogueItem(n - 1, first + n - 1)]
  }

  /** The store after `seedItems`: when there are no items, the catalogue is installed
      under the next eight IDs; otherwise nothing changes. */
  function SeedItemsSpec(s: Store): (r: Store)
    ensures |s.items| != 0 ==> r == s
    ensures |s.items| == 0 ==>
      && r == s.(items := r.items, nextID := s.nextID + |Catalogue|)
      && (forall k :: k in r.items <==> s.nextID <= k < s.nextID + |Catalogue|)
      && (forall k :: k in r.items ==> r.items[k].status == Active && r.items[k].name == Catalogue[k - s.nextID].0)
  {
    if |s.items| != 0 then s
    else s.(items := CatalogueFrom(s.nextID, |Catalogue|), nextID := s.nextID + |Catalogue|)
  }

  /** Seeding the catalogue keeps the store consistent. */
  lemma SeedItemsConsistent(s: Store)
    requires Consistent(s)
    ensures Consistent(SeedItemsSpec(s))
  {
    if |s.items| == 0 {
      var r := SeedItemsSpec(s);
      assert s.items == map[];
      assert IdsIssued(r) && KeyedById(r) && IdsDisjoint(r);
      assert LinesWellFormed(r);
    }
  }

  predicate HasUserNamed(s: Store, name: string) {
    exists k :: k in s.users && s.users[k].username == name
  }

  /** `s` with a new user and a new active cart for it, under the next two IDs. */
  function WithNewUser(s: Store, name: string, hash: string, cartName: string): Store {
    var userID, cartID := s.nextID, s.nextID + 1;
    s.(users := s.users[userID := User(userID, name, hash, cartID)],
       carts := s.carts[cartID := Cart(cartID, userID, cartName, Active)],
       nextID := s.nextID + 2)
  }

  /** Adding a user whose name is not taken, with its cart, keeps the store consistent. */
  lemma WithNewUserConsistent(s: Store, name: string, hash: string, cartName: string)
    requires Consistent(s) && !HasUserNamed(s, name)
    ensures Consistent(WithNewUser(s, name, hash, cartName))
  {
    var r := WithNewUser(s, name, hash, cartName);
    WithNewUserIds(s, name, hash, cartName);
    WithNewUserCurrentCarts(s, name, hash, cartName);
    WithNewUserCartOwners(s, name, hash, cartName);
    WithNewUserRefs(s, name, hash, cartName);
  }

  /** IDs stay fresh, keyed and disjoint, and the new name is not taken. */
  lemma WithNewUserIds(s: Store, name: string, hash: string, cartName: string)
    requires IdsIssued(s) && KeyedById(s) && IdsDisjoint(s) && UniqueUsernames(s) && !HasUserNamed(s, name)
    ensures var r := WithNewUser(s, name, hash, cartName);
      IdsIssued(r) && KeyedById(r) && IdsDisjoint(r) && UniqueUsernames(r)
  {
  }

  /** The new user's cart is its current cart, and every other user keeps theirs. */
  lemma WithNewUserCurrentCarts(s: Store, name: string, hash: string, cartName: string)
    requires IdsIssued(s) && UserCartsActive(s)
    ensures UserCartsActive(WithNewUser(s, name, hash, cartName))
  {
  }

  /** The new cart belongs to the new user, and every other cart keeps its owner. */
  lemma WithNewUserCartOwners(s: Store, name: string, hash: string, cartName: string)
    requires IdsIssued(s) && CartsOwned(s)
    ensures CartsOwned(WithNewUser(s, name, hash, cartName))
  {
  }

  /** Lines and orders refer to nothing the new user or cart changes. */
  lemma WithNewUserRefs(s: Store, name: string, hash: string, cartName: string)
    requires IdsIssued(s) && LinesWellFormed(s) && OrdersWellFormed(s)
    ensures var r := WithNewUser(s, name, hash, cartName);
      LinesWellFormed(r) && OrdersWellFormed(r)
  {
  }

  /** The store after `seedAdminUser` given the outcome of hashing the admin password:
      unchanged when a user named "admin" exists or hashing failed; otherwise an admin
      user and its active cart are added under the next two IDs. */
  function SeedAdminSpec(s: Store, hash: Option<string>): (r: Store)
    ensures HasUserNamed(s, AdminName) || hash.None? ==> r == s
    ensures !HasUserNamed(s, AdminName) && hash.Some? ==>
      var adminID, cartID := s.nextID, s.nextID + 1;
      && r.users == s.users[adminID := User(adminID, AdminName, hash.value, cartID)]
      && r.carts == s.carts[cartID := Cart(cartID, adminID, "Admin Cart", Active)]
      && r == s.(users := r.users, carts := r.carts, nextID := s.nextID + 2)
  {
    if HasUserNamed(s, AdminName) || hash.None? then s
    else WithNewUser(s, AdminName, hash.value, "Admin Cart")
  }

  /** Seeding the admin account keeps the store consistent. */
  lemma SeedAdminConsistent(s: Store, hash: Option<string>)
    requires Consistent(s)
    ensures Consistent(SeedAdminSpec(s, hash))
  {
    if !HasUserNamed(s, AdminName) && hash.Some? {
      WithNewUserConsistent(s, AdminName, hash.value, "Admin Cart");
    }
  }

  /** On a fresh store, `Connect` gives the items IDs 1..8, the admin ID 9 and the admin's
      cart ID 10, and leaves the counter at 11. */
  lemma ConnectFresh(hash: string)
    ensures var s := SeedAdminSpec(SeedItemsSpec(EmptyStore), Some(hash));
      && (forall k :: k in s.items <==> 1 <= k <= 8)
      && (forall k :: k in s.items ==> s.items[k].status == Active)
      && s.users == map[9 := User(9, AdminName, hash, 10)]
      && s.carts == map[10 := Cart(10, 9, "Admin Cart", Active)]
      && s.cartItems == map[] && s.orders == map[]
      && s.nextID == 11
  {
    var s1 := SeedItemsSpec(EmptyStore);
    assert !HasUserNamed(s1, AdminName);
  }

  // ---------------------------------------------------------------------------
  // The store object

  /** A store object whose collections equal a consistent store is valid. */
  lemma Install(db: InMemoryDB, r: Store)
    requires Consistent(r) && db.State() == r
    ensures db.Valid()
  {
  }

  class InMemoryDB {
    var users: map<nat, User>
    var items: map<nat, Item>
    var carts: map<nat, Cart>
    var cartItems: map<string, CartLine>
    var orders: map<nat, Order>
    var nextID: nat

    function State(): Store
      reads this
    {
      Store(users, items, carts, cartItems, orders, nextID)
    }

    predicate Valid()
      reads this
    {
      Consistent(State())
    }

    /** Creates the store with empty collections and the counter at 1, then seeds the
        catalogue and the admin account; `adminHash` is the outcome of hashing the admin
        password (`None` when hashing fails). */
    constructor Connect(adminHash: Option<string>)
      ensures Valid()
      ensures State() == SeedAdminSpec(SeedItemsSpec(EmptyStore), adminHash)
    {
      users, items, carts, cartItems, orders := map[], map[], map[], map[], map[];
      nextID := 1;
      new;
      SeedItems();
      SeedAdminUser(adminHash);
    }

    /** Issues the counter's value and advances the counter by one; nothing else changes.
        On a consistent store the issued ID is used by no entity (`NextIdIsFresh`) and the
        store stays consistent (`AdvanceCounter`). */
    method GetNextID() returns (id: nat)
      modifies this
      ensures id == old(nextID)
      ensures State() == old(State()).(nextID := id + 1)
    {
      id := nextID;
      nextID := nextID + 1;
    }

    /** Builds the catalogue's items, issuing one ID per item in catalogue order. */
    method IssueCatalogue() returns (seeded: seq<Item>)
      modifies this
      ensures |seeded| == |Catalogue|
      ensures forall i :: 0 <= i < |seeded| ==> seeded[i] == CatalogueItem(i, old(nextID) + i)
      ensures State() == old(State()).(nextID := old(nextID) + |Catalogue|)
    {
      seeded := [];
      var i := 0;
      while i < |Catalogue|
        invariant 0 <= i <= |Catalogue|
        invariant |seeded| == i
        invariant forall j :: 0 <= j < i ==> seeded[j] == CatalogueItem(j, old(nextID) + j)
        invariant State() == old(State()).(nextID := old(nextID) + i)
      {
        var id := GetNextID();
        seeded := seeded + [CatalogueItem(i, id)];
        i := i + 1;
      }
    }

    /** Inserts the issued catalogue items into the (empty) item collection, each under
        its own ID. */
    method StoreCatalogue(seeded: seq<Item>, ghost first: nat)
      requires items == map[]
      requires |seeded| == |Catalogue|
      requires forall i :: 0 <= i < |seeded| ==> seeded[i] == CatalogueItem(i, first + i)
      modifies this
      ensures State() == old(State()).(items := CatalogueFrom(first, |Catalogue|))
    {
      var j := 0;
      while j < |seeded|
        invariant 0 <= j <= |seeded|
        invariant items == CatalogueFrom(first, j)
        invariant users == old(users) && carts == old(carts) && cartItems == old(cartItems)
        invariant orders == old(orders) && nextID == old(nextID)
      {
        assert seeded[j] == CatalogueItem(j, first + j);
        items := items[seeded[j].id := seeded[j]];
        j := j + 1;
      }
    }

    method SeedItems()
      requires Valid()
      modifies this
      ensures Valid()
      ensures State() == SeedItemsSpec(old(State()))
    {
      if |items| == 0 {
        var seeded := IssueCatalogue();
        StoreCatalogue(seeded, old(nextID));
      }
      SeedItemsConsistent(old(State()));
      Install(this, SeedItemsSpec(old(State())));
    }

    /** The user with the given name, if any (names are unique in a valid store). */
    method FindUserByName(name: string) returns (found: Option<User>)
      requires Valid()
      ensures found.Some? <==> HasUserNamed(State(), name)
      ensures found.Some? ==> found.value.id in users && users[found.value.id] == found.value && found.value.username == name
    {
      var todo := users.Keys;
      while todo != {}
        invariant todo <= users.Keys
        invariant forall k :: k in users && k !in todo ==> users[k].username != name
        decreases |todo|
      {
        var k :| k in todo;
        if users[k].username == name {
          return Some(users[k]);
        }
        todo := todo - {k};
      }
      return None;
    }

    method SeedAdminUser(hash: Option<string>)
      requires Valid()
      modifies this
      ensures Valid()
      ensures State() == SeedAdminSpec(old(State()), hash)
    {
      ghost var s := State();
      var admin := FindUserByName(AdminName);
      if admin.Some? || hash.None? {
        assert State() == SeedAdminSpec(s, hash);
      } else {
        assert !HasUserNamed(s, AdminName);
        var adminID := GetNextID();
        var cartID := GetNextID();
        assert State() == s.(nextID := s.nextID + 2) && adminID == s.nextID && cartID == s.nextID + 1;
        carts := carts[cartID := Cart(cartID, adminID, "Admin Cart", Active)];
        users := users[adminID := User(adminID, AdminName, hash.value, cartID)];
        assert State() == SeedAdminSpec(s, hash);
      }
      SeedAdminConsistent(s, hash);
      Install(this, SeedAdminSpec(s, hash));
    }
  }
}
