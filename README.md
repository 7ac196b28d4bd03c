# Storefront backend — a verified Dafny model

This project models the core of a small storefront backend. Users register and each
gets an active cart. Items form a catalogue. A user adds items to the active cart,
one line per item. Placing an order freezes the cart as "ordered" and gives the user
a fresh active cart. An in-memory database holds everything and hands out IDs from
one counter. A sliding-window rate limiter guards the API.

Modules:

- `Outcomes` (`outcomes.dfy`): `Option`, `Result` and the HTTP-style error kinds the
  handlers answer with (bad request, unauthorized, not found, conflict, internal).
- `Models` (`models.dfy`): users, items, carts, cart lines and orders as datatypes,
  plus the joined views the listing endpoints return.
- `Decimal` (`decimal.dfy`): decimal formatting and the two parsers the handlers use.
  `Atoi` is `strconv.Atoi` with a 64-bit `int`: it parses a whole string with an
  optional sign and clamps out-of-range values, answering Go's value and error.
  `ScanDecimal` reads a leading run of digits into a 64-bit unsigned integer, as `%d`
  scanning does.
- `Database` (`database.dfy`):
  - The store as a value (`Store`), with its consistency invariant `Consistent`.
  - The line-key encoding `"<cart>-<item>"`.
  - Seeding, specified by `SeedItemsSpec` and `SeedAdminSpec`.
  - The class `InMemoryDB`: the same maps as mutable fields, with `Connect`,
    `GetNextID`, `SeedItems` and `SeedAdminUser` proved against those specifications.
- `Lifecycle` (`lifecycle.dfy`): the handler operations as functions from store to
  (response, store). These are `Register`, `Login`, `NewItem`, `AddLine` and
  `PlaceOrder`, each with lemmas that it keeps the store consistent and that the
  cart lifecycle behaves as designed.
- `Handlers` (`handlers.dfy`): the handlers themselves as methods on `InMemoryDB`.
  Each scans the maps with loops, as the source does, and is proved to produce
  exactly the response and new state of its `Lifecycle` function. The listing
  endpoints are proved to return each stored record once, joined with its lines.
- `Enhanced` (`enhanced.dfy`): the rules of the enhanced handlers.
  - Page/limit normalisation, offset and page count.
  - Item validation.
  - The check order of the enhanced add-to-cart.
  - Username normalisation (lower-case, then trim white space).
- `Middleware` (`middleware.dfy`): the rate limiter as a class. `Allow` is proved
  against `Admit`. `WindowBound` proves that from a fresh limiter, with a clock that
  never goes back, no interval as long as the window holds more than `limit`
  accepted calls from one IP. This module also holds cart clearing, both as written
  and as intended (see Findings). Clearing runs here on the store of the in-memory
  handlers, where ordering a cart gives its user a new one, so a user can own several
  carts. In the build that routes to clearing, each user keeps a single cart; there
  the owner-only lookup finds that cart, and the difference below does not arise.

Go's `uint` IDs are `nat`; the source's counter never wraps in practice, so no
wrap-around is modelled. Go's integer `/` truncates toward zero and Dafny's is
Euclidean. They agree here because every division in the model has a non-negative
dividend and a positive divisor.

Where the design text and the code differ, the model follows the code:

- An order keeps a copy of the cart row as it was when ordered (status "active"),
  not a list of the cart's lines. The lines stay in the line map under the ordered
  cart's ID.
- The seeded catalogue and the items the plain `CreateItem` makes have status
  "active". The enhanced add-to-cart accepts only "available" items, so it refuses
  every seeded item (`Enhanced.SeededItemsRefused`).

## Model

| member | source | states |
|---|---|---|
| Decimal.Format | backend/handlers/handlers.go:229 | the decimal rendering of an ID is a non-empty digit string with no leading zero |
| Decimal.ValueOfFormat | backend/handlers/handlers.go:229 | reading back the rendered digits gives the ID |
| Decimal.Atoi | backend/handlers/enhanced_handlers.go:119-120 | the result always lies in the 64-bit range; no error exactly on an optionally signed, non-empty digit string whose value fits, and then that value; a range error answers the bound on the string's side; a syntax error (never on a well-formed string) answers 0 |
| Decimal.AtoiFormat | backend/handlers/enhanced_handlers.go:119-120 | parsing a rendered number that fits in 64 bits, with or without a minus sign, gives it back without error |
| Decimal.AtoiClamps | backend/handlers/enhanced_handlers.go:119-120 | a rendered number beyond the 64-bit range parses as the largest `int` (the smallest when negated) with a range error |
| Decimal.AtoiOverflowBeforeJunk | backend/handlers/enhanced_handlers.go:119-120 | a digit run above 2^64-1 followed by a non-digit is a range error clamped to the largest `int`; a smaller run followed by it is a syntax error answering 0 |
| Decimal.ScanDecimal | backend/handlers/handlers.go:308-314 | scanning succeeds exactly when the text starts with a digit and its leading digit run is at most 2^64-1, and then yields the value of that whole maximal run |
| Decimal.ScanDecimalFormat | backend/handlers/handlers.go:308-314 | scanning a rendered ID, followed by nothing or by a non-digit, yields the ID when it fits in 64 bits and fails when it does not |
| Database.ParseLineKeyRoundTrip | backend/handlers/handlers.go:229 | a line key `"<cart>-<item>"` parses back to its cart and item IDs |
| Database.LineKeyInjective | backend/handlers/handlers.go:229-230 | distinct (cart, item) pairs never share a line key |
| Database.NextIdIsFresh | backend/database/database.go:42-48 | in a consistent store the next ID is used by no user, item, cart or order |
| Database.OneActiveCart | backend/models/models.go:26-33 | in a consistent store a user has at most one active cart, and it is the one the user points at |
| Database.NoDuplicateLines | backend/handlers/handlers.go:228-233 | in a consistent store no two lines have the same cart and item |
| Database.LineKeyPresence | backend/handlers/handlers.go:229-230 | a line key is present exactly when a line for that cart and item exists |
| Database.AdvanceCounter | backend/database/database.go:42-48 | moving the counter forward keeps the store consistent |
| Database.CatalogueFrom | backend/database/database.go:51-61 | the seeded catalogue occupies exactly the IDs first .. first+7, each with its fixed name and image |
| Database.SeedItemsSpec | backend/database/database.go:50-67 | seeding does nothing when items exist; otherwise it adds the 8 catalogue items, all "active", under the next 8 IDs |
| Database.SeedItemsConsistent | backend/database/database.go:50-67 | seeding items keeps the store consistent |
| Database.WithNewUserConsistent | backend/database/database.go:86-109 | adding a user with a fresh name and an active cart keeps the store consistent |
| Database.SeedAdminSpec | backend/database/database.go:70-112 | the admin is created, with an active "Admin Cart", only when no user is named "admin" and hashing succeeded; otherwise nothing changes |
| Database.SeedAdminConsistent | backend/database/database.go:70-112 | seeding the admin keeps the store consistent |
| Database.ConnectFresh | backend/database/database.go:25-40 | after start-up: the 8 items have IDs 1-8, the admin has ID 9 and cart 10, and the next ID is 11 |
| Database.InMemoryDB.Connect | backend/database/database.go:25-40 | a new database is consistent and holds exactly the seeded items and admin |
| Database.InMemoryDB.GetNextID | backend/database/database.go:42-48 | returns the counter and advances it by one, changing nothing else |
| Database.InMemoryDB.IssueCatalogue | backend/database/database.go:51-61 | draws 8 IDs in order and builds the catalogue items with them |
| Database.InMemoryDB.StoreCatalogue | backend/database/database.go:63-66 | stores each built item under its own ID |
| Database.InMemoryDB.SeedItems | backend/database/database.go:50-67 | the new state is `SeedItemsSpec` of the old one, and stays consistent |
| Database.InMemoryDB.FindUserByName | backend/database/database.go:72-77 | finds a stored user with that name exactly when one exists |
| Database.InMemoryDB.SeedAdminUser | backend/database/database.go:70-112 | the new state is `SeedAdminSpec` of the old one, and stays consistent |
| Lifecycle.ActiveCartIsUnique | backend/handlers/handlers.go:207-214 | in a consistent store a user's active cart exists exactly when the user does; it is stored, owned by the user and "active", and no other such cart exists |
| Lifecycle.HasLinesIffNonEmpty | backend/handlers/handlers.go:361-369 | the line scan finds a line exactly when the cart's set of lines is non-empty |
| Lifecycle.NoLinesForUnknownCart | backend/handlers/handlers.go:325-333 | a cart that does not exist has no lines |
| Lifecycle.LinesOfInsert | backend/handlers/handlers.go:243 | storing a new line adds it to its own cart's lines and to no other cart's |
| Lifecycle.Register | backend/handlers/handlers.go:24-77 | "User already exists" exactly when the name is taken, then "Failed to hash password"; on success a user with the next ID and a new "Default Cart" with the one after, answered without the password hash, and the new store is the old one with exactly that user (holding the hash), that active cart and the counter advanced by two; a failure changes nothing |
| Lifecycle.RegisterConsistent | backend/handlers/handlers.go:24-77 | registration keeps the store consistent |
| Lifecycle.RegisterProvisionsCart | backend/handlers/handlers.go:57-70 | a new user's active cart exists at once and has no lines |
| Lifecycle.Login | backend/handlers/handlers.go:79-106 | login succeeds only for a stored user of that name, answers that user without the hash, and otherwise fails with "Invalid username or password" |
| Lifecycle.LoginIffAccepted | backend/handlers/handlers.go:88-106 | login succeeds exactly when a user of that name exists and the password check accepts the stored hash |
| Lifecycle.LoginPicks | backend/handlers/handlers.go:88-106 | with unique names, login answers the one user of that name, without its hash, when the check accepts its stored hash, and fails otherwise |
| Lifecycle.RegisterThenLogin | backend/handlers/handlers.go:24-106 | right after registering, login with an accepted password succeeds and returns the new user |
| Lifecycle.NewItem | backend/handlers/handlers.go:161-185 | the item gets the next ID, the given name, and status "active" when none is given; it is stored under its ID |
| Lifecycle.NewItemConsistent | backend/handlers/handlers.go:161-185 | creating an item keeps the store consistent |
| Lifecycle.NewItemListed | backend/handlers/handlers.go:142-185 | the active listing after creating an item is the old listing, plus the new item exactly when its status is "active" |
| Lifecycle.AddLine | backend/handlers/handlers.go:191-246 | errors in order "Cart not found", "Item not found", "Item already in cart"; on success a line for the user's active cart and the item, stored under its key; a failure changes nothing |
| Lifecycle.AddLineConflictIffDuplicate | backend/handlers/handlers.go:228-233 | with cart and item present, the add conflicts exactly when that item already has a line in the active cart |
| Lifecycle.AddLineConsistent | backend/handlers/handlers.go:191-246 | adding to a cart keeps the store consistent |
| Lifecycle.AddLineAddsOne | backend/handlers/handlers.go:236-243 | a successful add gives the active cart exactly one more line and leaves every other cart's lines alone |
| Lifecycle.AddLineTwice | backend/handlers/handlers.go:228-233 | adding the same item again conflicts and changes nothing |
| Lifecycle.OrderCartShape | backend/handlers/handlers.go:376-405 | converting a cart stores the order under the next ID, marks the cart "ordered", stores a new active "Default Cart" under the ID after, repoints its owner, and changes nothing else |
| Lifecycle.PlaceOrder | backend/handlers/handlers.go:337-408 | "No active cart found", then "Cart is empty" exactly when the active cart has no lines; success exactly when there is an active cart with lines, and then an order with the next ID that copies the cart; a failure changes nothing |
| Lifecycle.ActiveCartOwner | backend/handlers/handlers.go:347-355 | the active cart a scan finds is the one its owner points at |
| Lifecycle.OrderCartConsistent | backend/handlers/handlers.go:376-405 | converting the active cart keeps the store consistent |
| Lifecycle.PlaceOrderConsistent | backend/handlers/handlers.go:337-408 | placing an order keeps the store consistent |
| Lifecycle.PlaceOrderRenewsCart | backend/handlers/handlers.go:376-405 | after an order the ordered cart keeps its lines and is "ordered", and the user's active cart is a new, empty "Default Cart" |
| Lifecycle.ReorderFails | backend/handlers/handlers.go:361-373 | ordering again at once fails with "Cart is empty" and changes nothing |
| Lifecycle.AddThenOrder | backend/handlers/handlers.go:191-408 | after a successful add, ordering succeeds |
| Lifecycle.OrderedCartFrozen | backend/handlers/handlers.go:207-214 | adding to a cart never changes the lines of an ordered cart |
| Handlers.FindActiveCart | backend/handlers/handlers.go:207-214 | the scan for the user's "active" cart finds the user's active cart, or none exactly when the user is unknown |
| Handlers.HasLines | backend/handlers/handlers.go:361-369 | the scan reports whether any line belongs to the cart |
| Handlers.JoinLines | backend/handlers/handlers.go:296-303 | the collected lines are exactly the cart's lines, each once |
| Handlers.CreateUser | backend/handlers/handlers.go:24-77 | the response and new state are those of `Register`, and the store stays consistent |
| Handlers.LoginUser | backend/handlers/handlers.go:79-126 | the response is that of `Login` |
| Handlers.GetItems | backend/handlers/handlers.go:142-154 | lists each "active" item exactly once and nothing else |
| Handlers.CreateItem | backend/handlers/handlers.go:161-185 | the item and new state are those of `NewItem`, and the store stays consistent |
| Handlers.AddToCart | backend/handlers/handlers.go:191-246 | the response and new state are those of `AddLine`, and the store stays consistent |
| Handlers.GetCarts | backend/handlers/handlers.go:248-268 | every stored cart appears exactly once, each joined with exactly its lines |
| Handlers.GetUserCart | backend/handlers/handlers.go:270-305 | "Cart not found" exactly when the user has no active cart; otherwise the active cart with exactly its lines |
| Handlers.GetCartByID | backend/handlers/handlers.go:307-335 | "Invalid cart ID" exactly when the parameter does not start with a digit or its leading digit run exceeds 2^64-1; "Cart not found" when no cart has the scanned ID; otherwise that cart with exactly its lines |
| Handlers.CreateOrder | backend/handlers/handlers.go:337-408 | the response and new state are those of `PlaceOrder`, and the store stays consistent |
| Handlers.RecordOrder | backend/handlers/handlers.go:376-405 | the order gets the current counter and copies the cart; the new state is the cart conversion of the old one |
| Handlers.ViewOrder | backend/handlers/handlers.go:415-431 | an order is joined with its cart and exactly that cart's lines, or with its own cart copy and no lines when the cart is gone |
| Handlers.ListOrders | backend/handlers/handlers.go:410-472 | every order, or every order of one user, appears exactly once with its view, and no other order does |
| Handlers.GetOrders | backend/handlers/handlers.go:410-436 | every stored order appears exactly once with its view |
| Handlers.GetUserOrders | backend/handlers/handlers.go:438-472 | exactly the user's orders appear, each once, with its view |
| Enhanced.DefaultQuery | backend/handlers/enhanced_handlers.go:113-114 | a missing query parameter takes the default, a present one its own text |
| Enhanced.AtoiIgnoringError | backend/handlers/enhanced_handlers.go:119-120 | with the error discarded, a number that fits gives itself, one beyond the 64-bit range the bound on its side, and malformed text 0 unless its leading digit run already overflows |
| Enhanced.NormalPage | backend/handlers/enhanced_handlers.go:122-124 | the page is at least 1, kept when valid and 1 otherwise |
| Enhanced.NormalLimit | backend/handlers/enhanced_handlers.go:125-127 | the limit lies in 1..100, kept when in range and 20 otherwise |
| Enhanced.Paginate | backend/handlers/enhanced_handlers.go:111-180 | the page and limit are normal; the offset is (page-1)*limit and the page count is the rounded-up quotient of total by limit |
| Enhanced.PaginateDefaults | backend/handlers/enhanced_handlers.go:113-129 | with no parameters: page 1, limit 20, offset 0 |
| Enhanced.PaginateKeepsValid | backend/handlers/enhanced_handlers.go:119-129 | a valid page (up to the largest `int`) and limit given as text are used unchanged |
| Enhanced.PaginateClampsHugePage | backend/handlers/enhanced_handlers.go:119-124 | a page number beyond the 64-bit range is not reset to 1: it becomes the largest `int` |
| Enhanced.OffsetIsPageStart | backend/handlers/enhanced_handlers.go:129 | the offset is a non-negative multiple of the limit, and page-1 pages precede it |
| Enhanced.TotalPagesIsCeiling | backend/handlers/enhanced_handlers.go:164 | the page count is the least number of full-limit pages that holds all rows, and 0 for no rows |
| Enhanced.PageHasRows | backend/handlers/enhanced_handlers.go:129-164 | a page starts before the end of the rows exactly when its number is at most the page count |
| Enhanced.TrimSpace | backend/handlers/enhanced_handlers.go:52 | trimming yields the middle part of the text with no white space at either end, and is empty exactly when the text is all white space |
| Enhanced.TrimSpaceIdempotent | backend/handlers/enhanced_handlers.go:52 | trimming twice is trimming once |
| Enhanced.ToLower | backend/handlers/enhanced_handlers.go:52 | lower-casing keeps the length and maps each character on its own |
| Enhanced.ToLowerIdempotent | backend/handlers/enhanced_handlers.go:52 | lower-casing twice is lower-casing once |
| Enhanced.LowerTrimSpace | backend/handlers/enhanced_handlers.go:52 | lower-casing and trimming commute |
| Enhanced.NormalizeUsernameIsNormal | backend/handlers/enhanced_handlers.go:52 | a normalised username has no upper-case letters and no white space at either end, and normalising it again changes nothing |
| Enhanced.UnnormalizedNameUnreachable | backend/handlers/enhanced_handlers.go:52 | a stored name that is not normalised can never be matched by a normalised login name |
| Enhanced.PrepareItem | backend/handlers/enhanced_handlers.go:197-210 | "Item name is required" exactly when the name is empty after trimming; otherwise the name is kept, a given status is kept and an empty status becomes "available" |
| Enhanced.PrepareItemAccepts | backend/handlers/enhanced_handlers.go:197-210 | an item is accepted exactly when its name has a non-space character |
| Enhanced.AddCheck | backend/handlers/enhanced_handlers.go:257-294 | checks run in the order "Item not found", "Item is not available", "Item already in cart"; the add passes exactly when the item exists, is "available" and is not yet in the cart |
| Enhanced.AddCheckConflict | backend/handlers/enhanced_handlers.go:286-294 | the conflict is reported exactly when an available item already has a line in the cart |
| Enhanced.SeededItemsRefused | backend/handlers/enhanced_handlers.go:269-276 | on a freshly seeded store every catalogue item is refused as "Item is not available" |
| Middleware.Prune | backend/middleware/enhanced_middleware.go:37-45 | pruning never lengthens the request list |
| Middleware.PruneKeepsWindow | backend/middleware/enhanced_middleware.go:39-43 | pruning keeps exactly the timestamps younger than the window |
| Middleware.PruneTwice | backend/middleware/enhanced_middleware.go:37-45 | pruning again later is the same as pruning once at the later time |
| Middleware.Admit | backend/middleware/enhanced_middleware.go:30-55 | a request is allowed exactly when fewer than `limit` requests remain in the window; then it is recorded, otherwise only the pruning is |
| Middleware.AdmitOtherIPs | backend/middleware/enhanced_middleware.go:30-55 | a request from one IP leaves the recorded requests of every other IP as they were |
| Middleware.AdmitKeepsBound | backend/middleware/enhanced_middleware.go:47-53 | no IP ever has more than `limit` recorded requests |
| Middleware.RateLimiter.NewRateLimiter | backend/middleware/enhanced_middleware.go:22-28 | a new limiter records nothing and keeps its limit and window |
| Middleware.RateLimiter.Allow | backend/middleware/enhanced_middleware.go:30-55 | the answer and new request map are those of `Admit`, and the bound is kept |
| Middleware.WindowBound | backend/middleware/enhanced_middleware.go:30-55 | from a fresh limiter and a clock that never goes back, at most `limit` calls from one IP are accepted in any interval as long as the window |
| Middleware.ClearCartAsWritten | backend/middleware/enhanced_middleware.go:176-191 | as written: fails with "Cart not found" when the user owns no cart; otherwise empties the user's lowest-ID cart, whatever its status |
| Middleware.ClearCartAsWrittenMissesActiveCart | backend/middleware/enhanced_middleware.go:176-191 | on a store where a user owns an ordered cart below an active one (as after an order in the in-memory lifecycle), the written lookup empties the ordered cart and leaves the active cart's lines in place |
| Middleware.ClearCart | backend/middleware/enhanced_middleware.go:161-216 | fails with "Cart not found" exactly when the user has no active cart, changing nothing; otherwise deletes exactly the active cart's lines |
| Middleware.ClearCartEffect | backend/middleware/enhanced_middleware.go:176-191 | clearing fails exactly for an unknown user; otherwise the active cart ends up empty, every other cart's lines are unchanged, and the store stays consistent |
| Middleware.ClearCartIdempotent | backend/middleware/enhanced_middleware.go:161-216 | clearing again succeeds with the same answer and changes nothing |

## Left out

- HTTP plumbing: the routes, JSON binding and its validation errors, and status codes.
  Response bodies are modelled only as the values and error kinds they carry.
  Authentication middleware is modelled by passing the user ID in; "User not
  authenticated" is not modelled.
- Password hashing and tokens: bcrypt is a parameter. Hashing is an `Option` that is
  `None` when hashing fails, and checking a password is a predicate `verify`. JWT
  creation and the "Failed to generate token" error are not modelled.
- Locking: the database and limiter mutexes are not modelled, and neither is
  concurrency. Three handlers in backend/handlers/handlers.go lock the database
  mutex and then call `GetNextID`, which locks the same non-reentrant mutex:
  `CreateUser` (lines 31 and 49), `CreateItem` (lines 172 and 175) and `CreateOrder`
  (lines 344 and 376). The model treats these calls as completing.
- Go map iteration order is not modelled. Scans pick keys in an arbitrary order, and
  listings are specified as sets without duplicates, not as sequences in a fixed
  order.
- Timestamps (`CreatedAt`, response metadata) are not modelled. The limiter's clock
  is an integer tick supplied by the caller, and `now.Sub(t) < window` is `now - t <
  window` on integers.
- The global limiter of the `RateLimit` middleware, and the other middleware
  (security headers, request IDs, the user profile).
- `GetUsers` in both handler files: it is not in the modelled core.
- The enhanced handlers' ORM queries: category and search filters, counting, ordering
  by creation time, and `Offset`/`Limit` on the query. Only their arithmetic and
  validation rules are modelled.
- Enhanced.AddCheck: the enhanced add-to-cart's "find or create the user's cart" ORM
  query is not modelled; the cart ID is a parameter.
- Enhanced.Paginate: `strconv.Atoi`'s clamping to the 64-bit range is modelled, but
  the later arithmetic is on unbounded integers: the wrap-around of `(page-1)*limit`
  for pages near the largest `int` is not modelled.
- Enhanced.ToLower: lower-cases ASCII letters only; Go's full Unicode case mapping is
  not modelled.
- Decimal.ScanDecimal: `%d` scanning skips leading white space before the digits.
  The model does not, so a cart-ID path parameter with leading spaces is treated as
  invalid where Go would scan the digits after them. A sign is refused by both.
- Handlers.AddToCart: the source answers a fixed success message. The model returns
  the stored line, which carries the same information.
- Middleware.ClearCart: the ORM "Failed to clear cart" internal error is not modelled.
- Pointer aliasing: `seedItems` stores `&item`, the address of its loop variable
  (backend/database/database.go:63-64). Whether the eight entries share one item
  depends on the Go version, which is not part of this model. The model stores eight
  distinct values. Elsewhere the model stores values where the source stores
  pointers.
- The frontend, the logging, and the alternative `enhanced_main.go` wiring.

## Findings

| source | as written | input that shows it | evidently intended | confidence | as-written member | corrected member |
|---|---|---|---|---|---|---|
| backend/middleware/enhanced_middleware.go:176-191 | the cart to clear is looked up by owner only (`First` by owner), which yields the user's lowest-ID cart whatever its status | modelling context, not a request the shipped build can receive: on the in-memory store, where an order leaves the user an ordered cart and a newer active one, the lowest-ID cart is the ordered one, so its lines are deleted and the active cart's are kept; the build that routes to clearing keeps one cart per user, so there the lookup is right | clear the user's active cart, the only cart clearing may address | not executed; shows only on a store with several carts per user | Middleware.ClearCartAsWrittenMissesActiveCart | Middleware.ClearCart |
