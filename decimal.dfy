/** Decimal rendering and parsing of integers, as Go's `%d` verb and `strconv.Atoi` do it. */
module Decimal {

  import opened Outcomes

  predicate IsDigit(c: char) {
    '0' <= c <= '9'
  }

  predicate AllDigits(s: string) {
    forall i :: 0 <= i < |s| ==> IsDigit(s[i])
  }

  function DigitChar(d: nat): (c: char)
    requires d < 10
    ensures IsDigit(c) && c as int - '0' as int == d
  {
    ('0' as int + d) as char
  }

  /** The value of a string of decimal digits (the empty string has value 0). */
  function Value(s: string): nat
    requires AllDigits(s)
    decreases |s|
  {
    if s == [] then 0 else Value(s[..|s| - 1]) * 10 + (s[|s| - 1] as int - '0' as int)
  }

  /** `n` in decimal, without leading zeros. */
  function Format(n: nat): (s: string)
    ensures |s| >= 1 && AllDigits(s)
    ensures s[0] == '0' ==> n == 0
    decreases n
  {
    if n < 10 then [DigitChar(n)] else Format(n / 10) + [DigitChar(n % 10)]
  }

  lemma {:induction false} ValueOfFormat(n: nat)
    ensures Value(Format(n)) == n
  {
    if n >= 10 {
      var s := Format(n);
      assert s[..|s| - 1] == Format(n / 10);
      ValueOfFormat(n / 10);
    }
  }

  /** The longest prefix of `s` made of decimal digits. */
  function DigitPrefix(s: string): (p: string)
    ensures p <= s && AllDigits(p)
    ensures |p| < |s| ==> !IsDigit(s[|p|])
    ensures AllDigits(s) ==> p == s
  {
    if s != [] && IsDigit(s[0]) then [s[0]] + DigitPrefix(s[1..]) else []
  }

  /** `fmt.Sscanf` with the `%d` verb into a 64-bit unsigned integer: the value of the
      leading run of digits, which must be neither empty nor above `MaxUint64`; no sign
      is accepted, and whatever follows the run is ignored. */
  function ScanDecimal(s: string): (r: Option<nat>)
    ensures r.Some? <==> |s| > 0 && IsDigit(s[0]) && Value(DigitPrefix(s)) <= MaxUint64
    ensures r.Some? ==>
      exists p :: p <= s && |p| > 0 && AllDigits(p) && (|p| == |s| || !IsDigit(s[|p|]))
        && r.value == Value(p) && r.value <= MaxUint64
  {
    var p := DigitPrefix(s);
    if p == [] || Value(p) > MaxUint64 then None else Some(Value(p))
  }

  lemma {:induction false} DigitPrefixOfDigits(d: string, rest: string)
    requires AllDigits(d) && (rest == [] || !IsDigit(rest[0]))
    ensures DigitPrefix(d + rest) == d
  {
    if d != [] {
      assert (d + rest)[1..] == d[1..] + rest;
      DigitPrefixOfDigits(d[1..], rest);
    }
  }

  /** Scanning what `%d` renders, followed by anything that does not start with a digit,
      gives back the number when it fits in 64 bits, and fails when it does not. */
  lemma ScanDecimalFormat(n: nat, rest: string)
    requires rest == [] || !IsDigit(rest[0])
    ensures n <= MaxUint64 ==> ScanDecimal(Format(n) + rest) == Some(n)
    ensures n > MaxUint64 ==> ScanDecimal(Format(n) + rest) == None
  {
    DigitPrefixOfDigits(Format(n), rest);
    ValueOfFormat(n);
  }

  // ---------------------------------------------------------------------------
  // strconv.Atoi on a 64-bit platform

  const MaxInt64: int := 0x7FFF_FFFF_FFFF_FFFF
  const MinInt64: int := -0x8000_0000_0000_0000
  const MaxUint64: int := 0xFFFF_FFFF_FFFF_FFFF

  /** The two errors `strconv.Atoi` reports. */
  datatype NumError = ErrSyntax | ErrRange

  predicate Negative(s: string) {
    |s| > 0 && s[0] == '-'
  }

  /** The argument without its optional leading sign. */
  function Unsigned(s: string): (u: string)
    ensures |u| == |s| || |u| == |s| - 1
  {
    if |s| > 0 && (s[0] == '-' || s[0] == '+') then s[1..] else s
  }

  /** The decimal syntax: an optional sign followed by at least one digit. */
  predicate IntSyntax(s: string) {
    Unsigned(s) != [] && AllDigits(Unsigned(s))
  }

  /** The exact integer a string in the decimal syntax denotes. */
  function SignedValue(s: string): int
    requires IntSyntax(s)
  {
    if Negative(s) then -(Value(Unsigned(s)) as int) else Value(Unsigned(s)) as int
  }

  /** `strconv.Atoi` with a 64-bit `int`: the value and the error it returns. A string in
      the decimal syntax whose value fits answers that value; one whose value does not
      fit answers the nearest bound with a range error; anything else answers 0 with a
      syntax error. A leading digit run already above `MaxUint64` is reported as a range
      error even when a non-digit follows it, because the overflow is noticed first. */
  function Atoi(s: string): (r: (int, Option<NumError>))
    ensures MinInt64 <= r.0 <= MaxInt64
    ensures r.1.None? <==> IntSyntax(s) && MinInt64 <= SignedValue(s) <= MaxInt64
    ensures r.1.None? ==> r.0 == SignedValue(s)
    ensures IntSyntax(s) ==> r.1 != Some(ErrSyntax)
    ensures r.1 == Some(ErrSyntax) ==> r.0 == 0
    ensures r.1 == Some(ErrRange) ==> r.0 == (if Negative(s) then MinInt64 else MaxInt64)
  {
    var u := Unsigned(s);
    var p := DigitPrefix(u);
    if u == [] then (0, Some(ErrSyntax))
    else if Value(p) > MaxUint64 then (if Negative(s) then MinInt64 else MaxInt64, Some(ErrRange))
    else if p != u then (0, Some(ErrSyntax))
    else if !Negative(s) && Value(u) > MaxInt64 then (MaxInt64, Some(ErrRange))
    else if Negative(s) && Value(u) > -MinInt64 then (MinInt64, Some(ErrRange))
    else (SignedValue(s), None)
  }

  /** What `%d` renders for `n`, and its negation, are in the decimal syntax and denote
      `n` and `-n`. */
  lemma FormatSyntax(n: nat)
    ensures IntSyntax(Format(n)) && !Negative(Format(n)) && SignedValue(Format(n)) == n
    ensures IntSyntax("-" + Format(n)) && Negative("-" + Format(n))
    ensures SignedValue("-" + Format(n)) == -(n as int)
  {
    ValueOfFormat(n);
    assert Unsigned("-" + Format(n)) == Format(n);
  }

  /** Parsing what `%d` renders gives back the number, for either sign, as long as it
      fits in 64 bits. */
  lemma AtoiFormat(n: nat)
    ensures n <= MaxInt64 ==> Atoi(Format(n)) == (n as int, None)
    ensures n <= -MinInt64 ==> Atoi("-" + Format(n)) == (-(n as int), None)
  {
    FormatSyntax(n);
  }

  /** A number that does not fit in 64 bits parses as the nearest bound, with a range
      error. */
  lemma AtoiClamps(n: nat)
    ensures n > MaxInt64 ==> Atoi(Format(n)) == (MaxInt64, Some(ErrRange))
    ensures n > -MinInt64 ==> Atoi("-" + Format(n)) == (MinInt64, Some(ErrRange))
  {
    FormatSyntax(n);
  }

  /** A digit run above `MaxUint64` is a range error even when junk follows it, while
      the same junk after a small number is a syntax error. */
  lemma AtoiOverflowBeforeJunk(n: nat, rest: string)
    requires rest != [] && !IsDigit(rest[0])
    ensures n > MaxUint64 ==> Atoi(Format(n) + rest) == (MaxInt64, Some(ErrRange))
    ensures n <= MaxUint64 ==> Atoi(Format(n) + rest) == (0, Some(ErrSyntax))
  {
    var s := Format(n) + rest;
    assert Unsigned(s) == s && !Negative(s) by {
      assert s[0] == Format(n)[0];
    }
    DigitPrefixOfDigits(Format(n), rest);
    ValueOfFormat(n);
    assert !AllDigits(s) by {
      assert s[|Format(n)|] == rest[0];
    }
  }
}
