/** The sliding-window rate limiter of the middleware, and the cart-clearing endpoint
    over the store. Time is an integer tick count and the caller supplies `now`. */
module Middleware {

  import opened Outcomes
  import opened Models
  import opened Database
  import opened Lifecycle

  // ---------------------------------------------------------------------------
  // Sliding-window rate limiter

  /** The timestamps of `reqs` still inside the window at `now` (`now - t < window`),
      in their original order. */
  function Prune(reqs: seq<int>, now: int, window: int): (r: seq<int>)
    ensures |r| <= |reqs|
    decreases |reqs|
  {
    if reqs == [] then []
    else
      var last := reqs[|reqs| - 1];
      Prune(reqs[..|reqs| - 1], now, window) + (if now - last < window then [last] else [])
  }

  /** Pruning keeps exactly the timestamps inside the window. */
  lemma {:induction false} PruneKeepsWindow(reqs: seq<int>, now: int, window: int)
    ensures forall t :: t in Prune(reqs, now, window) <==> t in reqs && now - t < window
    decreases |reqs|
  {
    if reqs != [] {
      var last := reqs[|reqs| - 1];
      assert reqs == reqs[..|reqs| - 1] + [last];
      PruneKeepsWindow(reqs[..|reqs| - 1], now, window);
    }
  }

  /** Pruning a concatenation prunes each part. */
  lemma {:induction false} PruneConcat(a: seq<int>, b: seq<int>, now: int, window: int)
    ensures Prune(a + b, now, window) == Prune(a, now, window) + Prune(b, now, window)
    decreases |b|
  {
    if b != [] {
      var init, last := b[..|b| - 1], b[|b| - 1];
      var tail := if now - last < window then [last] else [];
      assert (a + b)[..|a + b| - 1] == a + init;
      assert (a + b)[|a + b| - 1] == last;
      assert Prune(a + b, now, window) == Prune(a + init, now, window) + tail;
      PruneConcat(a, init, now, window);
      assert Prune(b, now, window) == Prune(init, now, window) + tail;
    } else {
      assert a + b == a;
    }
  }

  /** Pruning at a time and again at a later time is pruning at the later time. */
  lemma {:induction false} PruneTwice(reqs: seq<int>, earlier: int, later: int, window: int)
    requires earlier <= later
    ensures Prune(Prune(reqs, earlier, window), later, window) == Prune(reqs, later, window)
    decreases |reqs|
  {
    if reqs != [] {
      var init, last := reqs[..|reqs| - 1], reqs[|reqs| - 1];
      PruneTwice(init, earlier, later, window);
      PruneConcat(Prune(init, earlier, window), if earlier - last < window then [last] else [], later, window);
    }
  }

  /** How many of `times` lie in `lo .. hi-1`. */
  function CountIn(times: seq<int>, lo: int, hi: int): nat
    decreases |times|
  {
    if times == [] then 0
    else CountIn(times[..|times| - 1], lo, hi) + (if lo <= times[|times| - 1] < hi then 1 else 0)
  }

  lemma {:induction false} CountInAppend(times: seq<int>, t: int, lo: int, hi: int)
    ensures CountIn(times + [t], lo, hi) == CountIn(times, lo, hi) + (if lo <= t < hi then 1 else 0)
  {
    assert (times + [t])[..|times|] == times;
  }

  /** Every timestamp in a window-length interval that ends after `now` is still inside
      the window at `now`. */
  lemma {:induction false} CountInWithinPrune(times: seq<int>, lo: int, window: int, now: int)
    requires now < lo + window
    ensures CountIn(times, lo, lo + window) <= |Prune(times, now, window)|
    decreases |times|
  {
    if times != [] {
      CountInWithinPrune(times[..|times| - 1], lo, window, now);
    }
  }

  /** The requests recorded for `ip` (none when it has no entry). */
  function Lookup(requests: map<string, seq<int>>, ip: string): seq<int> {
    if ip in requests then requests[ip] else []
  }

  /** `Allow(ip)` at time `now`: an existing entry for `ip` is pruned to the window; the
      request is refused, recording nothing more, when the pruned entry already holds
      `limit` requests; otherwise `now` is appended. No other entry changes. */
  function Admit(requests: map<string, seq<int>>, ip: string, now: int, limit: int, window: int): (out: (bool, map<string, seq<int>>))
    ensures out.0 <==> |Prune(Lookup(requests, ip), now, window)| < limit
    ensures out.0 ==> ip in out.1 && out.1[ip] == Prune(Lookup(requests, ip), now, window) + [now]
    ensures !out.0 ==> Lookup(out.1, ip) == Prune(Lookup(requests, ip), now, window)
  {
    var pruned := if ip in requests then requests[ip := Prune(requests[ip], now, window)] else requests;
    var current := Lookup(pruned, ip);
    if |current| >= limit then (false, pruned) else (true, pruned[ip := current + [now]])
  }

  /** A request from one IP leaves every other IP's entry as it was. */
  lemma AdmitOtherIPs(requests: map<string, seq<int>>, ip: string, now: int, limit: int, window: int, other: string)
    requires other != ip
    ensures var next := Admit(requests, ip, now, limit, window).1;
      && (other in next <==> other in requests)
      && Lookup(next, other) == Lookup(requests, other)
  {
  }

  function Cap(limit: int): nat {
    if limit < 0 then 0 else limit
  }

  /** No entry holds more than `limit` requests (none when `limit` is not positive). */
  predicate Bounded(requests: map<string, seq<int>>, limit: int) {
    forall ip :: ip in requests ==> |requests[ip]| <= Cap(limit)
  }

  lemma AdmitKeepsBound(requests: map<string, seq<int>>, ip: string, now: int, limit: int, window: int)
    requires Bounded(requests, limit)
    ensures Bounded(Admit(requests, ip, now, limit, window).1, limit)
  {
    var next := Admit(requests, ip, now, limit, window).1;
    forall other | other in next
      ensures |next[other]| <= Cap(limit)
    {
      if other != ip {
        AdmitOtherIPs(requests, ip, now, limit, window, other);
      }
    }
  }

  class RateLimiter {
    var requests: map<string, seq<int>>
    const limit: int
    const window: int

    predicate Valid()
      reads this
    {
      Bounded(requests, limit)
    }

    /** `NewRateLimiter`: no requests recorded for any IP. */
    constructor NewRateLimiter(limit: int, window: int)
      ensures this.limit == limit && this.window == window
      ensures requests == map[]
      ensures Valid()
    {
      this.limit := limit;
      this.window := window;
      requests := map[];
    }

    /** Rebuilds the entry for `ip` from the requests inside the window, then admits or
        refuses the request; `Admit` states the outcome, `AdmitKeepsBound` the bound. */
    method Allow(ip: string, now: int) returns (allowed: bool)
      modifies this
      ensures (allowed, requests) == Admit(old(requests), ip, now, limit, window)
      ensures old(Valid()) ==> Valid()
    {
      if Valid() {
        AdmitKeepsBound(requests, ip, now, limit, window);
      }
      if ip in requests {
        var reqs := requests[ip];
        var valid: seq<int> := [];
        var i := 0;
        while i < |reqs|
          invariant 0 <= i <= |reqs|
          invariant valid == Prune(reqs[..i], now, window)
        {
          assert reqs[..i + 1][..i] == reqs[..i];
          if now - reqs[i] < window {
            valid := valid + [reqs[i]];
          }
          i := i + 1;
        }
        assert reqs[..|reqs|] == reqs;
        requests := requests[ip := valid];
      }
      var current := if ip in requests then requests[ip] else [];
      if |current| >= limit {
        return false;
      }
      requests := requests[ip := current + [now]];
      return true;
    }
  }

  /** One call of `Allow`. */
  datatype Call = Call(ip: string, now: int)

  predicate NonDecreasing(calls: seq<Call>) {
    forall i, j :: 0 <= i < j < |calls| ==> calls[i].now <= calls[j].now
  }

  /** The times of the calls from `ip` that the limiter accepts when `calls` are made in
      order starting from `requests`. */
  function AcceptedTimes(requests: map<string, seq<int>>, calls: seq<Call>, ip: string, limit: int, window: int): seq<int>
    decreases |calls|
  {
    if calls == [] then []
    else
      var out := Admit(requests, calls[0].ip, calls[0].now, limit, window);
      (if out.0 && calls[0].ip == ip then [calls[0].now] else []) + AcceptedTimes(out.1, calls[1..], ip, limit, window)
  }

  /** A refused request leaves the pruned entry, which from then on prunes as the
      accepted history does. */
  lemma RefusedKeepsHistory(recorded: seq<int>, hist: seq<int>, from: int, t: int, window: int)
    requires from <= t
    requires forall now :: now >= from ==> Prune(recorded, now, window) == Prune(hist, now, window)
    ensures forall now :: now >= t ==> Prune(Prune(recorded, t, window), now, window) == Prune(hist, now, window)
  {
    forall now | now >= t
      ensures Prune(Prune(recorded, t, window), now, window) == Prune(hist, now, window)
    {
      PruneTwice(recorded, t, now, window);
    }
  }

  /** An accepted request appends `t` both to the pruned entry and to the history. */
  lemma AcceptedExtendsHistory(recorded: seq<int>, hist: seq<int>, from: int, t: int, window: int)
    requires from <= t
    requires forall now :: now >= from ==> Prune(recorded, now, window) == Prune(hist, now, window)
    ensures forall now :: now >= t ==> Prune(Prune(recorded, t, window) + [t], now, window) == Prune(hist + [t], now, window)
  {
    forall now | now >= t
      ensures Prune(Prune(recorded, t, window) + [t], now, window) == Prune(hist + [t], now, window)
    {
      PruneTwice(recorded, t, now, window);
      PruneConcat(Prune(recorded, t, window), [t], now, window);
      PruneConcat(hist, [t], now, window);
    }
  }

  /** Accepting at `t` while fewer than `limit` requests are in the window keeps any
      window-length interval within the limit. */
  lemma AcceptedWithinLimit(hist: seq<int>, t: int, lo: int, window: int, limit: int)
    requires |Prune(hist, t, window)| < limit
    requires CountIn(hist, lo, lo + window) <= Cap(limit)
    ensures CountIn(hist + [t], lo, lo + window) <= Cap(limit)
  {
    CountInAppend(hist, t, lo, lo + window);
    if lo <= t < lo + window {
      CountInWithinPrune(hist, lo, window, t);
    }
  }

  lemma NonDecreasingTail(calls: seq<Call>)
    requires NonDecreasing(calls) && calls != []
    ensures NonDecreasing(calls[1..])
    ensures |calls| > 1 ==> calls[1..][0].now >= calls[0].now
  {
  }

  /** The window bound over a replay: `hist` is what was accepted for `ip` so far, and
      from time `from` on the recorded entry prunes to what `hist` prunes to. */
  lemma {:induction false} ReplayBound(requests: map<string, seq<int>>, calls: seq<Call>, ip: string, limit: int, window: int,
                                       hist: seq<int>, from: int, lo: int)
    requires forall now :: now >= from ==> Prune(Lookup(requests, ip), now, window) == Prune(hist, now, window)
    requires NonDecreasing(calls) && (calls != [] ==> calls[0].now >= from)
    requires CountIn(hist, lo, lo + window) <= Cap(limit)
    ensures CountIn(hist + AcceptedTimes(requests, calls, ip, limit, window), lo, lo + window) <= Cap(limit)
    decreases |calls|, 1
  {
    if calls == [] {
      assert hist + [] == hist;
    } else if calls[0].ip == ip && Admit(requests, ip, calls[0].now, limit, window).0 {
      ReplayAccepted(requests, calls, ip, limit, window, hist, from, lo);
    } else if calls[0].ip == ip {
      ReplayRefused(requests, calls, ip, limit, window, hist, from, lo);
    } else {
      var out := Admit(requests, calls[0].ip, calls[0].now, limit, window);
      AcceptedTimesStep(requests, calls, ip, limit, window, hist);
      assert hist + [] == hist;
      AdmitOtherIPs(requests, calls[0].ip, calls[0].now, limit, window, ip);
      NonDecreasingTail(calls);
      ReplayBound(out.1, calls[1..], ip, limit, window, hist, from, lo);
    }
  }

  /** The step of `ReplayBound` for a refused call from `ip` itself. */
  lemma {:induction false} ReplayRefused(requests: map<string, seq<int>>, calls: seq<Call>, ip: string, limit: int, window: int,
                                         hist: seq<int>, from: int, lo: int)
    requires forall now :: now >= from ==> Prune(Lookup(requests, ip), now, window) == Prune(hist, now, window)
    requires NonDecreasing(calls) && calls != [] && calls[0].now >= from && calls[0].ip == ip
    requires !Admit(requests, ip, calls[0].now, limit, window).0
    requires CountIn(hist, lo, lo + window) <= Cap(limit)
    ensures CountIn(hist + AcceptedTimes(requests, calls, ip, limit, window), lo, lo + window) <= Cap(limit)
    decreases |calls|, 0
  {
    var t := calls[0].now;
    var next := Admit(requests, ip, t, limit, window).1;
    assert forall now :: now >= t ==> Prune(Lookup(next, ip), now, window) == Prune(hist, now, window) by {
      assert Lookup(next, ip) == Prune(Lookup(requests, ip), t, window);
      RefusedKeepsHistory(Lookup(requests, ip), hist, from, t, window);
    }
    NonDecreasingTail(calls);
    ReplayBound(next, calls[1..], ip, limit, window, hist, t, lo);
    AcceptedTimesStep(requests, calls, ip, limit, window, hist);
    assert hist + [] == hist;
  }

  /** The step of `ReplayBound` for an accepted call from `ip` itself. */
  lemma {:induction false} ReplayAccepted(requests: map<string, seq<int>>, calls: seq<Call>, ip: string, limit: int, window: int,
                                          hist: seq<int>, from: int, lo: int)
    requires forall now :: now >= from ==> Prune(Lookup(requests, ip), now, window) == Prune(hist, now, window)
    requires NonDecreasing(calls) && calls != [] && calls[0].now >= from && calls[0].ip == ip
    requires Admit(requests, ip, calls[0].now, limit, window).0
    requires CountIn(hist, lo, lo + window) <= Cap(limit)
    ensures CountIn(hist + AcceptedTimes(requests, calls, ip, limit, window), lo, lo + window) <= Cap(limit)
    decreases |calls|, 0
  {
    var t := calls[0].now;
    var next := Admit(requests, ip, t, limit, window).1;
    assert forall now :: now >= t ==> Prune(Lookup(next, ip), now, window) == Prune(hist + [t], now, window) by {
      assert Lookup(next, ip) == Prune(Lookup(requests, ip), t, window) + [t];
      AcceptedExtendsHistory(Lookup(requests, ip), hist, from, t, window);
    }
    assert CountIn(hist + [t], lo, lo + window) <= Cap(limit) by {
      assert Prune(hist, t, window) == Prune(Lookup(requests, ip), t, window);
      AcceptedWithinLimit(hist, t, lo, window, limit);
    }
    NonDecreasingTail(calls);
    ReplayBound(next, calls[1..], ip, limit, window, hist + [t], t, lo);
    AcceptedTimesStep(requests, calls, ip, limit, window, hist);
  }

  /** One call of the replay: the accepted times are those of the first call followed by
      those of the rest. */
  lemma AcceptedTimesStep(requests: map<string, seq<int>>, calls: seq<Call>, ip: string, limit: int, window: int, hist: seq<int>)
    requires calls != []
    ensures var out := Admit(requests, calls[0].ip, calls[0].now, limit, window);
      var first := if out.0 && calls[0].ip == ip then [calls[0].now] else [];
      hist + AcceptedTimes(requests, calls, ip, limit, window) == (hist + first) + AcceptedTimes(out.1, calls[1..], ip, limit, window)
  {
  }

  /** Starting from a fresh limiter and with a clock that never goes back, at most
      `limit` calls from one IP are accepted in any window-length interval. */
  lemma WindowBound(calls: seq<Call>, ip: string, limit: int, window: int, lo: int)
    requires NonDecreasing(calls)
    ensures CountIn(AcceptedTimes(map[], calls, ip, limit, window), lo, lo + window) <= Cap(limit)
  {
    var from := if calls == [] then 0 else calls[0].now;
    ReplayBound(map[], calls, ip, limit, window, [], from, lo);
    assert [] + AcceptedTimes(map[], calls, ip, limit, window) == AcceptedTimes(map[], calls, ip, limit, window);
  }

  // ---------------------------------------------------------------------------
  // Clearing a cart

  /** The lines of every cart except `cartID`. */
  function WithoutLines(cartItems: map<string, CartLine>, cartID: nat): (m: map<string, CartLine>)
    ensures forall k :: k in m <==> k in cartItems && cartItems[k].cartID != cartID
    ensures forall k :: k in m ==> m[k] == cartItems[k]
  {
    map k | k in cartItems && cartItems[k].cartID != cartID :: cartItems[k]
  }

  /** The least of a non-empty set of IDs. */
  ghost function MinID(ids: set<nat>): (m: nat)
    requires ids != {}
    ensures m in ids && forall k :: k in ids ==> m <= k
    decreases |ids|
  {
    var x :| x in ids;
    if ids == {x} then x
    else
      var m := MinID(ids - {x});
      assert forall k :: k in ids ==> k == x || k in ids - {x};
      if x < m then x else m
  }

  /** What a `First` query filtered by owner returns: the user's cart with the lowest ID,
      whatever its status. */
  ghost function FirstCartOf(s: Store, userID: nat): (c: Option<nat>)
    ensures c.None? <==> forall k :: k in s.carts ==> s.carts[k].userID != userID
    ensures c.Some? ==> c.value in s.carts && s.carts[c.value].userID == userID
    ensures c.Some? ==> forall k :: k in s.carts && s.carts[k].userID == userID ==> c.value <= k
  {
    var owned := set k | k in s.carts && s.carts[k].userID == userID;
    assert forall k :: k in s.carts && s.carts[k].userID == userID ==> k in owned;
    if owned == {} then None else Some(MinID(owned))
  }

  /** `ClearCart` as written: looks the cart up by owner alone, so it empties the user's
      oldest cart. */
  ghost function ClearCartAsWritten(s: Store, userID: nat): (out: (Result<nat>, Store))
    ensures out.0.Err? ==> out == (Err(NotFound("Cart not found")), s)
    ensures out.0.Ok? ==>
      && FirstCartOf(s, userID) == Some(out.0.value)
      && out.1 == s.(cartItems := WithoutLines(s.cartItems, out.0.value))
  {
    match FirstCartOf(s, userID)
    case None => (Err(NotFound("Cart not found")), s)
    case Some(id) => (Ok(id), s.(cartItems := WithoutLines(s.cartItems, id)))
  }

  /** In a consistent store, once a user owns an ordered cart, the lowest-ID cart of
      theirs is an ordered one and not their active cart. */
  lemma FirstCartIsOrdered(s: Store, userID: nat, ordered: nat)
    requires CartsOwned(s) && UserCartsActive(s)
    requires ordered in s.carts && s.carts[ordered].userID == userID && s.carts[ordered].status == Ordered
    ensures FirstCartOf(s, userID).Some?
    ensures var first := FirstCartOf(s, userID).value;
      first != s.users[userID].cartID && s.carts[first].status == Ordered
  {
    var first := FirstCartOf(s, userID).value;
    assert first <= ordered <= s.users[userID].cartID;
  }

  /** Once a user has placed an order, the cart the written lookup picks is not the
      user's active cart but an ordered one, whose lines it deletes, while the
      active cart keeps its lines. */
  lemma ClearCartAsWrittenMissesActiveCart(s: Store, userID: nat)
    requires Consistent(s)
    requires PlaceOrder(s, userID).0.Ok?
    ensures var s' := PlaceOrder(s, userID).1;
      var (r, s'') := ClearCartAsWritten(s', userID);
      && ActiveCartOf(s', userID).Some? && r.Ok?
      && r.value != ActiveCartOf(s', userID).value.id
      && r.value in s'.carts && s'.carts[r.value].status == Ordered
      && LinesOf(s''.cartItems, r.value) == {}
      && var active := ActiveCartOf(s', userID).value.id;
         LinesOf(s''.cartItems, active) == LinesOf(s'.cartItems, active)
  {
    var (r, s') := PlaceOrder(s, userID);
    var ordered := r.value.cartID;
    var active := s.nextID + 1;
    assert && ordered in s'.carts && s'.carts[ordered].userID == userID && s'.carts[ordered].status == Ordered
           && ActiveCartOf(s', userID) == Some(Cart(active, userID, "Default Cart", Active)) by {
      PlaceOrderRenewsCart(s, userID);
    }
    assert KeyedById(s') && CartsOwned(s') && UserCartsActive(s') by {
      PlaceOrderConsistent(s, userID);
    }
    assert s'.users[userID].cartID == active;
    FirstCartIsOrdered(s', userID, ordered);
    var first := FirstCartOf(s', userID).value;
    ClearedLines(s', first, active);
  }

  /** Emptying cart `cartID` leaves it without lines and every other cart as it was. */
  lemma ClearedLines(s: Store, cartID: nat, other: nat)
    ensures LinesOf(WithoutLines(s.cartItems, cartID), cartID) == {}
    ensures other != cartID ==> LinesOf(WithoutLines(s.cartItems, cartID), other) == LinesOf(s.cartItems, other)
  {
    var m := WithoutLines(s.cartItems, cartID);
    if other != cartID {
      forall l | l in LinesOf(s.cartItems, other) ensures l in LinesOf(m, other) {
        var k :| k in s.cartItems && s.cartItems[k].cartID == other && s.cartItems[k] == l;
        assert m[k] == l;
      }
    }
  }

  /** `ClearCart` as intended: empties the user's active cart. */
  function ClearCart(s: Store, userID: nat): (out: (Result<nat>, Store))
    ensures out.0.Err? ==> out == (Err(NotFound("Cart not found")), s)
    ensures out.0.Err? <==> ActiveCartOf(s, userID).None?
    ensures out.0.Ok? ==>
      && out.0.value == ActiveCartOf(s, userID).value.id
      && out.1 == s.(cartItems := WithoutLines(s.cartItems, out.0.value))
  {
    match ActiveCartOf(s, userID)
    case None => (Err(NotFound("Cart not found")), s)
    case Some(cart) => (Ok(cart.id), s.(cartItems := WithoutLines(s.cartItems, cart.id)))
  }

  /** Clearing fails exactly for an unknown user; otherwise it empties the user's active
      cart, leaves every other cart's lines (those of ordered carts included) as they
      were, and keeps the store consistent. */
  lemma ClearCartEffect(s: Store, userID: nat, other: nat)
    requires Consistent(s)
    ensures var (r, s') := ClearCart(s, userID);
      && (r.Err? <==> userID !in s.users)
      && Consistent(s')
      && (r.Ok? ==>
            && LinesOf(s'.cartItems, r.value) == {}
            && (other != r.value ==> LinesOf(s'.cartItems, other) == LinesOf(s.cartItems, other)))
  {
    var (r, s') := ClearCart(s, userID);
    assert r.Err? <==> userID !in s.users by {
      ActiveCartIsUnique(s, userID);
    }
    if r.Ok? {
      assert s' == s.(cartItems := WithoutLines(s.cartItems, r.value));
      ClearedLines(s, r.value, other);
      WithoutLinesConsistent(s, r.value);
    }
  }

  /** Deleting every line of one cart keeps the store consistent. */
  lemma WithoutLinesConsistent(s: Store, cartID: nat)
    requires Consistent(s)
    ensures Consistent(s.(cartItems := WithoutLines(s.cartItems, cartID)))
  {
    var r := s.(cartItems := WithoutLines(s.cartItems, cartID));
    assert LinesWellFormed(r) by {
      WithoutLinesWellFormed(s, cartID);
    }
    LinesChangeKeepsIds(s, r);
    LinesChangeKeepsOwners(s, r);
  }

  /** Deleting lines leaves every remaining line well formed. */
  lemma WithoutLinesWellFormed(s: Store, cartID: nat)
    requires LinesWellFormed(s)
    ensures LinesWellFormed(s.(cartItems := WithoutLines(s.cartItems, cartID)))
  {
  }

  /** Clearing an already cleared cart succeeds again, with the same answer, and
      changes nothing more. */
  lemma ClearCartIdempotent(s: Store, userID: nat)
    ensures var (r, s') := ClearCart(s, userID);
      ClearCart(s', userID) == (r, s')
  {
    var (r, s') := ClearCart(s, userID);
    if r.Ok? {
      assert ActiveCartOf(s', userID) == ActiveCartOf(s, userID);
      assert WithoutLines(s'.cartItems, r.value) == s'.cartItems;
    }
  }
}
