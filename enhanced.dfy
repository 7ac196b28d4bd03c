/** The listing and validation rules of the "enhanced" handler variants: page and limit
    normalisation with the offset and page count they yield, the item-name check and
    status default of item creation, the order of the add-to-cart checks, and the
    username normalisation applied before login. */
module Enhanced {

  import opened Outcomes
  import opened Models
  import opened Decimal
  import opened Database

  // ---------------------------------------------------------------------------
  // Pagination

  /** A query parameter, or the default when the parameter is absent (a present but
      empty parameter stays empty). */
  function DefaultQuery(param: Option<string>, default: string): (v: string)
    ensures param.None? ==> v == default
    ensures param.Some? ==> v == param.value
  {
    match param
    case None => default
    case Some(s) => s
  }

  /** The number `strconv.Atoi` returns when its error is discarded: 0 after a syntax
      error, the nearest 64-bit bound after a range error, the parsed value otherwise. */
  function AtoiIgnoringError(s: string): (n: int)
    ensures MinInt64 <= n <= MaxInt64
    ensures IntSyntax(s) && MinInt64 <= SignedValue(s) <= MaxInt64 ==> n == SignedValue(s)
    ensures IntSyntax(s) && SignedValue(s) > MaxInt64 ==> n == MaxInt64
    ensures IntSyntax(s) && SignedValue(s) < MinInt64 ==> n == MinInt64
    ensures !IntSyntax(s) && Value(DigitPrefix(Unsigned(s))) <= MaxUint64 ==> n == 0
    ensures !IntSyntax(s) && Value(DigitPrefix(Unsigned(s))) > MaxUint64 ==>
      n == (if Negative(s) then MinInt64 else MaxInt64)
  {
    Atoi(s).0
  }

  const MaxLimit: int := 100
  const DefaultLimit: int := 20

  /** A page below 1 becomes 1. */
  function NormalPage(page: int): (p: int)
    ensures p >= 1
    ensures page >= 1 ==> p == page
    ensures page < 1 ==> p == 1
  {
    if page < 1 then 1 else page
  }

  /** A limit below 1 or above 100 becomes 20; it is not clamped to 100. */
  function NormalLimit(limit: int): (l: int)
    ensures 1 <= l <= MaxLimit
    ensures 1 <= limit <= MaxLimit ==> l == limit
    ensures limit < 1 || limit > MaxLimit ==> l == DefaultLimit
  {
    if limit < 1 || limit > MaxLimit then DefaultLimit else limit
  }

  /** The number of rows skipped before the requested page. */
  function Offset(page: int, limit: int): int {
    (page - 1) * limit
  }

  /** Ceiling division of the row count by the page size. Both operands are non-negative,
      so Go's truncating `/` and Dafny's `/` agree here. */
  function TotalPages(total: nat, limit: int): int
    requires limit >= 1
  {
    (total + limit - 1) / limit
  }

  datatype Pagination = Pagination(page: int, limit: int, offset: int, totalPages: int)

  /** The pagination of the item listing, from the raw `page` and `limit` parameters and
      the number of matching rows. */
  function Paginate(pageParam: Option<string>, limitParam: Option<string>, total: nat): (p: Pagination)
    ensures p.page >= 1 && 1 <= p.limit <= MaxLimit
    ensures p.offset == Offset(p.page, p.limit) && p.totalPages == TotalPages(total, p.limit)
  {
    var page := NormalPage(AtoiIgnoringError(DefaultQuery(pageParam, "1")));
    var limit := NormalLimit(AtoiIgnoringError(DefaultQuery(limitParam, "20")));
    Pagination(page, limit, Offset(page, limit), TotalPages(total, limit))
  }

  /** Without parameters the listing shows the first page of 20. */
  lemma PaginateDefaults(total: nat)
    ensures var p := Paginate(None, None, total);
      p.page == 1 && p.limit == DefaultLimit && p.offset == 0
  {
    AtoiFormat(1);
    AtoiFormat(20);
  }

  /** A valid page number and page size given in decimal are taken as they are. */
  lemma PaginateKeepsValid(page: nat, limit: nat, total: nat)
    requires 1 <= page <= MaxInt64 && 1 <= limit <= MaxLimit
    ensures var p := Paginate(Some(Format(page)), Some(Format(limit)), total);
      p.page == page && p.limit == limit
  {
    AtoiFormat(page);
    AtoiFormat(limit);
  }

  /** A page number beyond 64 bits is not rejected: `strconv.Atoi` clamps it, and the
      listing asks for the last page a 64-bit `int` can name. */
  lemma PaginateClampsHugePage(page: nat, total: nat)
    requires page > MaxInt64
    ensures Paginate(Some(Format(page)), None, total).page == MaxInt64
  {
    AtoiClamps(page);
  }

  /** The offset is a non-negative multiple of the page size: it skips exactly the
      rows of the earlier pages. */
  lemma OffsetIsPageStart(page: int, limit: int)
    requires page >= 1 && limit >= 1
    ensures Offset(page, limit) >= 0
    ensures Offset(page, limit) % limit == 0 && Offset(page, limit) / limit == page - 1
  {
    MultipleDivides(page - 1, limit);
  }

  /** Dividing a multiple of `m` by `m` leaves no remainder. */
  lemma MultipleDivides(k: int, m: int)
    requires k >= 0 && m >= 1
    ensures k * m >= 0 && (k * m) / m == k && (k * m) % m == 0
  {
    var q, r := (k * m) / m, (k * m) % m;
    assert k * m == q * m + r && 0 <= r < m;
    assert (k - q) * m == r;
    // r lies in 0 .. m-1, so k - q can be neither positive nor negative
    if k - q >= 1 {
      MulMonotone(1, k - q, m);
    } else if k - q <= -1 {
      MulMonotone(k - q, -1, m);
    }
  }

  lemma SmallQuotient(n: int, m: int)
    requires 0 <= n < m
    ensures n / m == 0
  {
  }

  /** The page count is the ceiling of total/limit: enough pages to hold every row, and
      no page that would hold none. */
  lemma {:induction false} TotalPagesIsCeiling(total: nat, limit: int)
    requires limit >= 1
    ensures total == 0 ==> TotalPages(total, limit) == 0
    ensures total > 0 ==> (TotalPages(total, limit) - 1) * limit < total <= TotalPages(total, limit) * limit
  {
    var n := total + limit - 1;
    var q, r := n / limit, n % limit;
    assert n == q * limit + r && 0 <= r < limit;
    assert (q - 1) * limit == q * limit - limit;
    if total == 0 {
      SmallQuotient(n, limit);
    }
  }

  /** Multiplying by a non-negative factor keeps the order. */
  lemma MulMonotone(a: int, b: int, m: int)
    requires a <= b && m >= 0
    ensures a * m <= b * m
  {
    assert b * m == a * m + (b - a) * m;
  }

  /** The requested page holds at least one row exactly when its number does not exceed
      the page count. */
  lemma {:induction false} PageHasRows(page: int, limit: int, total: nat)
    requires page >= 1 && limit >= 1
    ensures Offset(page, limit) < total <==> page <= TotalPages(total, limit)
  {
    TotalPagesIsCeiling(total, limit);
    var tp := TotalPages(total, limit);
    if page <= tp {
      MulMonotone(page - 1, tp - 1, limit);
    } else {
      MulMonotone(tp, page - 1, limit);
    }
  }

  // ---------------------------------------------------------------------------
  // Text normalisation

  /** Go's `unicode.IsSpace`: the ASCII white space characters, NEL, NO-BREAK SPACE and
      the characters of Unicode's space-separator, line-separator and
      paragraph-separator classes. */
  predicate IsSpace(c: char) {
    || c == ' ' || c == '\t' || c == '\n' || c == '\r' || c == '\U{000B}' || c == '\U{000C}'
    || c == '\U{0085}' || c == '\U{00A0}' || c == '\U{1680}'
    || ('\U{2000}' <= c <= '\U{200A}')
    || c == '\U{2028}' || c == '\U{2029}' || c == '\U{202F}' || c == '\U{205F}' || c == '\U{3000}'
  }

  /** The number of white space characters `s` starts with. */
  function LeadingSpaces(s: string): (n: nat)
    ensures n <= |s|
    ensures forall i :: 0 <= i < n ==> IsSpace(s[i])
    ensures n < |s| ==> !IsSpace(s[n])
  {
    if s != [] && IsSpace(s[0]) then
      var n := 1 + LeadingSpaces(s[1..]);
      assert forall i :: 1 <= i < n ==> s[i] == s[1..][i - 1];
      n
    else 0
  }

  /** The number of white space characters `s` ends with. */
  function TrailingSpaces(s: string): (n: nat)
    ensures n <= |s|
    ensures forall i :: |s| - n <= i < |s| ==> IsSpace(s[i])
    ensures n < |s| ==> !IsSpace(s[|s| - n - 1])
  {
    if s != [] && IsSpace(s[|s| - 1]) then
      var n := 1 + TrailingSpaces(s[..|s| - 1]);
      assert forall i :: |s| - n <= i < |s| - 1 ==> s[i] == s[..|s| - 1][i];
      n
    else 0
  }

  /** `strings.TrimSpace`: `s` without its leading and trailing white space. */
  function TrimSpace(s: string): (r: string)
    ensures r == [] <==> forall i :: 0 <= i < |s| ==> IsSpace(s[i])
    ensures r != [] ==> !IsSpace(r[0]) && !IsSpace(r[|r| - 1])
    ensures LeadingSpaces(s) + |r| <= |s| && r == s[LeadingSpaces(s)..LeadingSpaces(s) + |r|]
  {
    var a := LeadingSpaces(s);
    var l := s[a..];
    var b := TrailingSpaces(l);
    var r := l[..|l| - b];
    assert r != [] ==> r[0] == s[a] && r[|r| - 1] == l[|l| - b - 1];
    if r == [] then AllSpaceWhenNothingLeft(s); r else r
  }

  /** When trimming leaves nothing, the leading white space already covers the whole
      string. */
  lemma AllSpaceWhenNothingLeft(s: string)
    requires var l := s[LeadingSpaces(s)..]; TrailingSpaces(l) == |l|
    ensures LeadingSpaces(s) == |s|
  {
  }

  /** Trimming twice trims no more than trimming once. */
  lemma TrimSpaceIdempotent(s: string)
    ensures TrimSpace(TrimSpace(s)) == TrimSpace(s)
  {
    var t := TrimSpace(s);
    if t != [] {
      assert LeadingSpaces(t) == 0;
      assert TrailingSpaces(t) == 0;
    }
  }

  /** ASCII upper-case letters lowered; every other character kept. */
  function LowerChar(c: char): (d: char)
    ensures IsSpace(d) <==> IsSpace(c)
    ensures !('A' <= d <= 'Z')
  {
    if 'A' <= c <= 'Z' then (c as int + 32) as char else c
  }

  /** `strings.ToLower` restricted to ASCII letters. */
  function ToLower(s: string): (r: string)
    ensures |r| == |s|
    ensures forall i :: 0 <= i < |s| ==> r[i] == LowerChar(s[i])
  {
    seq(|s|, i requires 0 <= i < |s| => LowerChar(s[i]))
  }

  lemma ToLowerIdempotent(s: string)
    ensures ToLower(ToLower(s)) == ToLower(s)
  {
  }

  /** Lowering maps white space to white space and nothing else to it, so it commutes
      with trimming. */
  lemma LowerTrimSpace(s: string)
    ensures TrimSpace(ToLower(s)) == ToLower(TrimSpace(s))
  {
    var a := LeadingSpaces(s);
    var rest := s[a..];
    var b := TrailingSpaces(rest);
    LeadingSpacesLower(s);
    ToLowerSlices(s, a);
    TrailingSpacesLower(rest);
    ToLowerSlices(rest, |rest| - b);
    TrimSpaceCuts(s);
    TrimSpaceCuts(ToLower(s));
  }

  /** Trimming cuts the leading white space, then the trailing white space of what is
      left. */
  lemma TrimSpaceCuts(s: string)
    ensures var rest := s[LeadingSpaces(s)..];
      TrimSpace(s) == rest[..|rest| - TrailingSpaces(rest)]
  {
  }

  /** Lowering commutes with cutting a string at `k`. */
  lemma ToLowerSlices(s: string, k: nat)
    requires k <= |s|
    ensures ToLower(s)[..k] == ToLower(s[..k]) && ToLower(s)[k..] == ToLower(s[k..])
  {
  }

  lemma {:induction false} LeadingSpacesLower(s: string)
    ensures LeadingSpaces(ToLower(s)) == LeadingSpaces(s)
  {
    if s != [] {
      assert ToLower(s)[1..] == ToLower(s[1..]);
      LeadingSpacesLower(s[1..]);
    }
  }

  lemma {:induction false} TrailingSpacesLower(s: string)
    ensures TrailingSpaces(ToLower(s)) == TrailingSpaces(s)
  {
    if s != [] {
      assert ToLower(s)[..|s| - 1] == ToLower(s[..|s| - 1]);
      TrailingSpacesLower(s[..|s| - 1]);
    }
  }

  /** The enhanced login's username: lower-cased, then trimmed. */
  function NormalizeUsername(username: string): string {
    TrimSpace(ToLower(username))
  }

  /** No ASCII upper-case letter occurs in `s`. */
  predicate NoUpper(s: string) {
    forall i :: 0 <= i < |s| ==> !('A' <= s[i] <= 'Z')
  }

  /** A normalised username has no ASCII upper-case letter and no white space at either
      end, and normalising it again changes nothing. */
  lemma NormalizeUsernameIsNormal(username: string)
    ensures var n := NormalizeUsername(username);
      && NormalizeUsername(n) == n
      && NoUpper(n)
      && (n != [] ==> !IsSpace(n[0]) && !IsSpace(n[|n| - 1]))
  {
    NormalizedHasNoUpper(username);
    NormalizeUsernameTwice(username);
  }

  /** Lowering removes every upper-case letter and trimming only cuts. */
  lemma NormalizedHasNoUpper(username: string)
    ensures NoUpper(NormalizeUsername(username))
  {
    var l := ToLower(username);
    var n := TrimSpace(l);
    var a := LeadingSpaces(l);
    forall i | 0 <= i < |n| ensures !('A' <= n[i] <= 'Z') {
      assert n[i] == l[a + i];
    }
  }

  /** Normalising a normalised username changes nothing. */
  lemma NormalizeUsernameTwice(username: string)
    requires NoUpper(NormalizeUsername(username))
    ensures NormalizeUsername(NormalizeUsername(username)) == NormalizeUsername(username)
  {
    var n := NormalizeUsername(username);
    LowerKeepsNoUpper(n);
    TrimSpaceIdempotent(ToLower(username));
  }

  /** Lowering a string without upper-case letters changes nothing. */
  lemma LowerKeepsNoUpper(s: string)
    requires NoUpper(s)
    ensures ToLower(s) == s
  {
  }

  /** A stored username that is not in normal form can never be reached by the enhanced
      login, whatever is typed. */
  lemma UnnormalizedNameUnreachable(stored: string, typed: string)
    requires NormalizeUsername(stored) != stored
    ensures NormalizeUsername(typed) != stored
  {
    NormalizeUsernameIsNormal(typed);
  }

  // ---------------------------------------------------------------------------
  // Item creation

  /** Default status of an item created through the enhanced handler. */
  const Available: string := "available"

  /** The enhanced item creation's checks: a name that is empty once trimmed is refused;
      an empty status becomes "available". The stored name is not trimmed. */
  function PrepareItem(name: string, status: string): (r: Result<(string, string)>)
    ensures r.Err? <==> TrimSpace(name) == []
    ensures r.Err? ==> r.error == BadRequest("Item name is required")
    ensures r.Ok? ==> r.value.0 == name && r.value.1 != ""
    ensures r.Ok? && status != "" ==> r.value.1 == status
    ensures r.Ok? && status == "" ==> r.value.1 == Available
  {
    if TrimSpace(name) == [] then Err(BadRequest("Item name is required"))
    else Ok((name, if status == "" then Available else status))
  }

  /** A name is accepted exactly when it has a character that is not white space, and
      accepted fields pass the checks again unchanged. */
  lemma PrepareItemAccepts(name: string, status: string)
    ensures PrepareItem(name, status).Ok? <==> exists i :: 0 <= i < |name| && !IsSpace(name[i])
    ensures PrepareItem(name, status).Ok? ==>
      var (n, st) := PrepareItem(name, status).value;
      PrepareItem(n, st) == Ok((n, st))
  {
  }

  // ---------------------------------------------------------------------------
  // Adding to the cart

  /** The enhanced add-to-cart checks, in their order: the item exists, its status is
      exactly "available", and the cart `cartID` (the one the lookup found or created)
      has no line for it yet. */
  function AddCheck(s: Store, cartID: nat, itemID: nat): (r: Result<()>)
    ensures itemID !in s.items ==> r == Err(NotFound("Item not found"))
    ensures itemID in s.items && s.items[itemID].status != Available ==> r == Err(BadRequest("Item is not available"))
    ensures r.Ok? <==> (itemID in s.items && s.items[itemID].status == Available &&
      !exists k :: k in s.cartItems && s.cartItems[k].cartID == cartID && s.cartItems[k].itemID == itemID)
  {
    if itemID !in s.items then Err(NotFound("Item not found"))
    else if s.items[itemID].status != Available then Err(BadRequest("Item is not available"))
    else if exists k :: k in s.cartItems && s.cartItems[k].cartID == cartID && s.cartItems[k].itemID == itemID then
      Err(Conflict("Item already in cart"))
    else Ok(())
  }

  /** A duplicate is only reported for an existing, available item; a missing or
      unavailable item is reported as such even when a line for it exists. */
  lemma AddCheckConflict(s: Store, cartID: nat, itemID: nat)
    ensures AddCheck(s, cartID, itemID) == Err(Conflict("Item already in cart")) <==>
      && itemID in s.items && s.items[itemID].status == Available
      && exists k :: k in s.cartItems && s.cartItems[k].cartID == cartID && s.cartItems[k].itemID == itemID
  {
  }

  /** The seeded catalogue and items created by the plain handler with no status are
      "active", never "available", so the enhanced check refuses every one of them. */
  lemma SeededItemsRefused(cartID: nat, itemID: nat)
    requires 1 <= itemID <= 8
    ensures AddCheck(SeedItemsSpec(EmptyStore), cartID, itemID) == Err(BadRequest("Item is not available"))
  {
    var s := SeedItemsSpec(EmptyStore);
    assert s.items[itemID].status == Active;
  }
}
