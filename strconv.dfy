/**
 * Go's `strconv.Atoi` on a 64-bit platform, as `strconv.ParseInt(s, 10, 0)`
 * computes it: an optional `+` or `-`, then decimal digits scanned left to
 * right into an unsigned 64-bit accumulator. The first non-digit is a syntax
 * error (value 0); an accumulator overflow met before it is a range error,
 * and the value saturates to the `int` bound of the sign. (For strings of
 * fewer than 19 bytes Go takes a shortcut that yields the same results.)
 */
module GoStrconv {
  import opened Int64

  datatype NumError = NoError | ErrSyntax | ErrRange

  /** The pair `(value, err)` that `strconv.Atoi` returns. */
  datatype AtoiResult = AtoiResult(value: int, err: NumError)

  /** Outcome of the unsigned scan inside `strconv.ParseUint`. */
  datatype UintScan = Scanned(n: nat) | SyntaxError | RangeError

  predicate IsDigit(c: char) {
    '0' <= c <= '9'
  }

  predicate AllDigits(s: string) {
    forall k :: 0 <= k < |s| ==> IsDigit(s[k])
  }

  function DigitValue(c: char): (d: nat)
    requires IsDigit(c)
    ensures d <= 9
  {
    (c as int) - ('0' as int)
  }

  function Pow10(n: nat): (p: nat)
    ensures p >= 1
  {
    if n == 0 then 1 else 10 * Pow10(n - 1)
  }

  /** Reference meaning of a digit string: the sum of its digits times their place values. */
  function DecimalValue(ds: string): nat
    requires AllDigits(ds)
  {
    if ds == [] then 0 else DigitValue(ds[0]) * Pow10(|ds| - 1) + DecimalValue(ds[1..])
  }

  /** Whether the string carries a leading sign character. */
  predicate HasSign(s: string) {
    |s| > 0 && (s[0] == '+' || s[0] == '-')
  }

  /** The string without its sign character, if any. */
  function Magnitude(s: string): string {
    if HasSign(s) then s[1..] else s
  }

  /** An optional sign followed by at least one decimal digit. */
  predicate WellFormed(s: string) {
    |Magnitude(s)| >= 1 && AllDigits(Magnitude(s))
  }

  /** The mathematical value of a well-formed decimal string. */
  function SignedValue(s: string): int
    requires WellFormed(s)
  {
    var v: int := DecimalValue(Magnitude(s));
    if s[0] == '-' then -v else v
  }

  /** The `int` bound an out-of-range number saturates to: the smallest for a leading `-`, else the largest. */
  function SignBound(s: string): int
    requires s != []
  {
    if s[0] == '-' then MinInt64 else MaxInt64
  }

  /** Index of the first non-digit of a string that has one. */
  function FirstNonDigit(ds: string): (k: nat)
    requires !AllDigits(ds)
    ensures k < |ds| && !IsDigit(ds[k]) && AllDigits(ds[..k])
    decreases |ds|
  {
    if !IsDigit(ds[0]) then 0
    else
      assert !AllDigits(ds[1..]) by {
        var j :| 0 <= j < |ds| && !IsDigit(ds[j]);
        assert !IsDigit(ds[1..][j - 1]);
      }
      var k := 1 + FirstNonDigit(ds[1..]);
      assert forall j :: 1 <= j < k ==> ds[..k][j] == ds[1..][..k - 1][j - 1];
      k
  }

  /**
   * A malformed string whose magnitude has a digit prefix, before its first
   * non-digit, worth more than 2^64-1: the scan overflows before it reaches
   * the non-digit.
   */
  predicate PrefixOverflows(s: string) {
    !WellFormed(s) && Magnitude(s) != [] &&
    DecimalValue(Magnitude(s)[..FirstNonDigit(Magnitude(s))]) > MaxUint64
  }

  /** The digit loop of `ParseUint`, with the accumulator `acc` carried from the digits already read. */
  function ScanDigits(s: string, acc: nat): UintScan
    requires acc <= MaxUint64
    decreases |s|
  {
    if s == [] then Scanned(acc)
    else if !IsDigit(s[0]) then SyntaxError
    else if acc * 10 + DigitValue(s[0]) > MaxUint64 then RangeError
    else ScanDigits(s[1..], acc * 10 + DigitValue(s[0]))
  }

  /** `strconv.ParseUint(s, 10, 64)`: the empty string is a syntax error. */
  function ParseUint(s: string): UintScan {
    if s == [] then SyntaxError else ScanDigits(s, 0)
  }

  /** `strconv.Atoi(s)`. */
  function Atoi(s: string): (r: AtoiResult)
    ensures InInt64(r.value)
    ensures r.err == ErrSyntax ==> r.value == 0
    ensures r.err == ErrRange ==> s != [] && r.value == SignBound(s)
  {
    if s == [] then AtoiResult(0, ErrSyntax)
    else
      var neg := s[0] == '-';
      match ParseUint(Magnitude(s))
      case SyntaxError => AtoiResult(0, ErrSyntax)
      case RangeError => AtoiResult(if neg then MinInt64 else MaxInt64, ErrRange)
      case Scanned(u) =>
        if !neg && u > MaxInt64 then AtoiResult(MaxInt64, ErrRange)
        else if neg && u > MaxInt64 + 1 then AtoiResult(MinInt64, ErrRange)
        else AtoiResult(if neg then -(u as int) else u, NoError)
  }

  /**
   * Scanning a digit prefix then the rest: the rest is scanned from the
   * prefix's value, unless that value already exceeds 64 bits.
   */
  lemma {:induction false} ScanPrefix(ds: string, rest: string, acc: nat)
    requires AllDigits(ds) && acc <= MaxUint64
    ensures ScanDigits(ds + rest, acc) ==
      var v := acc * Pow10(|ds|) + DecimalValue(ds);
      if v <= MaxUint64 then ScanDigits(rest, v) else RangeError
    decreases |ds|
  {
    if ds == [] {
      assert ds + rest == rest;
    } else {
      var d := DigitValue(ds[0]);
      var p := Pow10(|ds| - 1);
      var n1 := acc * 10 + d;
      assert (ds + rest)[0] == ds[0] && (ds + rest)[1..] == ds[1..] + rest;
      assert acc * Pow10(|ds|) + DecimalValue(ds) == n1 * p + DecimalValue(ds[1..]) by {
        assert Pow10(|ds|) == 10 * p;
        assert DecimalValue(ds) == d * p + DecimalValue(ds[1..]);
        MulDistributes(acc, d, p);
      }
      assert n1 * p >= n1 by {
        MulMonotone(1, p, n1);
      }
      if n1 <= MaxUint64 {
        ScanPrefix(ds[1..], rest, n1);
      }
    }
  }

  /** The scan of an all-digit string yields the digits' value, or a range error when it exceeds 64 bits. */
  lemma ScanAllDigits(ds: string, acc: nat)
    requires AllDigits(ds) && acc <= MaxUint64
    ensures ScanDigits(ds, acc) ==
      var v := acc * Pow10(|ds|) + DecimalValue(ds);
      if v <= MaxUint64 then Scanned(v) else RangeError
  {
    ScanPrefix(ds, [], acc);
    assert ds + [] == ds;
  }

  /**
   * A string whose first non-digit is at `k` is a syntax error, unless the
   * digits before it already overflow 64 bits, which is a range error.
   */
  lemma ScanNonDigit(ds: string, acc: nat, k: nat)
    requires acc <= MaxUint64
    requires k < |ds| && !IsDigit(ds[k]) && AllDigits(ds[..k])
    ensures ScanDigits(ds, acc) ==
      if acc * Pow10(k) + DecimalValue(ds[..k]) <= MaxUint64 then SyntaxError else RangeError
  {
    assert ds == ds[..k] + ds[k..];
    assert ds[k..][0] == ds[k];
    ScanPrefix(ds[..k], ds[k..], acc);
  }

  /** A digit string is worth less than 10 to the power of its length. */
  lemma {:induction false} DecimalValueBound(ds: string)
    requires AllDigits(ds)
    ensures DecimalValue(ds) < Pow10(|ds|)
    decreases |ds|
  {
    if ds != [] {
      var p := Pow10(|ds| - 1);
      assert Pow10(|ds|) == 10 * p;
      assert DecimalValue(ds) == DigitValue(ds[0]) * p + DecimalValue(ds[1..]);
      DecimalValueBound(ds[1..]);
      DigitPlaceBound(DigitValue(ds[0]), p, DecimalValue(ds[1..]));
    }
  }

  /** A digit in a place, plus less than that place, is less than ten of that place. */
  lemma DigitPlaceBound(d: nat, p: nat, r: nat)
    requires d <= 9 && r < p
    ensures d * p + r < 10 * p
  {
    assert (d + 1) * p == d * p + p;
    MulMonotone(d + 1, 10, p);
  }

  lemma MulDistributes(a: nat, d: nat, p: nat)
    ensures a * (10 * p) + d * p == (a * 10 + d) * p
  {
  }

  lemma MulMonotone(a: nat, b: nat, c: nat)
    requires a <= b
    ensures a * c <= b * c
  {
  }

  lemma {:induction false} Pow10Monotone(a: nat, b: nat)
    requires a <= b
    ensures Pow10(a) <= Pow10(b)
    decreases b
  {
    if a < b {
      Pow10Monotone(a, b - 1);
    }
  }

  /** Links `ParseUint` of the magnitude to the reference value, for use in `Atoi`. */
  lemma AtoiWellFormedScan(s: string)
    ensures WellFormed(s) ==>
      ParseUint(Magnitude(s)) ==
        if DecimalValue(Magnitude(s)) <= MaxUint64 then Scanned(DecimalValue(Magnitude(s))) else RangeError
  {
    if WellFormed(s) {
      ScanAllDigits(Magnitude(s), 0);
    }
  }

  /** A well-formed string converts to its decimal value, saturated to the `int` range. */
  lemma AtoiWellFormed(s: string)
    requires WellFormed(s)
    ensures Atoi(s).value == Clamp(SignedValue(s))
    ensures Atoi(s).err == if InInt64(SignedValue(s)) then NoError else ErrRange
  {
    AtoiWellFormedScan(s);
  }

  /**
   * A malformed string converts to 0 with a syntax error, unless the digits
   * before its first non-digit overflow 64 bits: then it is a range error
   * saturated to the bound of its sign.
   */
  lemma AtoiMalformed(s: string)
    requires !WellFormed(s)
    ensures Atoi(s) ==
      if PrefixOverflows(s) then AtoiResult(SignBound(s), ErrRange) else AtoiResult(0, ErrSyntax)
  {
    var m := Magnitude(s);
    if m != [] {
      ScanNonDigit(m, 0, FirstNonDigit(m));
    }
  }

  /** A string of at most 20 characters never overflows before a non-digit (every `int` fits in 20). */
  lemma ShortNeverOverflows(s: string)
    requires |s| <= 20
    ensures !PrefixOverflows(s)
  {
    var m := Magnitude(s);
    if !WellFormed(s) && m != [] {
      var k := FirstNonDigit(m);
      DecimalValueBound(m[..k]);
      Pow10Monotone(k, 19);
      assert Pow10(19) == 10_000_000_000_000_000_000 by {
        assert Pow10(5) == 100_000;
        assert Pow10(10) == 10_000_000_000;
        assert Pow10(15) == 1_000_000_000_000_000;
      }
    }
  }
}
