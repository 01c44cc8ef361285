/** The parts of ethers' BigNumber that the helpers call: construction from a JavaScript
    number or a hex literal, pow, div, toNumber and toHexString. A BigNumber is an
    unbounded integer. */
module BigNumbers {
  import opened Results
  import opened Hex

  /** Number.MAX_SAFE_INTEGER, 2^53 - 1. */
  const MaxSafeInteger: int := 0x1f_ffff_ffff_ffff

  /** 2^53: toNumber refuses a value whose magnitude reaches it. */
  const TwoPow53: int := 0x20_0000_0000_0000

  /** What BigNumber.from is given by the helpers: a JavaScript number (its integral
      value) or a BigNumber that is passed on unchanged. */
  datatype BigNumberish = JsNumber(n: int) | BigNumber(value: int)

  /** BigNumber.from(number) accepts a number strictly inside (-MaxSafeInteger, MaxSafeInteger). */
  predicate IsSafe(n: int) {
    -MaxSafeInteger < n < MaxSafeInteger
  }

  predicate Convertible(x: BigNumberish) {
    x.JsNumber? ==> IsSafe(x.n)
  }

  function ValueOf(x: BigNumberish): int {
    match x
    case JsNumber(n) => n
    case BigNumber(v) => v
  }

  /** BigNumber.from(x). */
  function From(x: BigNumberish): (r: Result<int>)
    ensures r.Ok? <==> Convertible(x)
    ensures r.Ok? ==> r.value == ValueOf(x)
    ensures r.Err? ==> r.error == NumericOverflow
  {
    match x
    case JsNumber(n) => if IsSafe(n) then Ok(n) else Err(NumericOverflow)
    case BigNumber(v) => Ok(v)
  }

  /** BigNumber.from(s) for a string that starts with "0x": the regular expression
      /^-?0x[0-9a-f]+$/i must match, so at least one digit has to follow the prefix. */
  function FromHexLiteral(s: string): (r: Result<int>)
    ensures r.Ok? <==> |s| > 2 && s[0] == '0' && s[1] == 'x' && AllHexDigits(s[2..])
    ensures r.Ok? ==> r.value == HexValue(s[2..]) && 0 <= r.value < Pow(16, |s| - 2)
  {
    if |s| > 2 && s[0] == '0' && s[1] == 'x' && AllHexDigits(s[2..]) then
      HexValueBound(s[2..]);
      Ok(HexValue(s[2..]))
    else Err(InvalidBigNumberString)
  }

  /** BigNumber.from(base).pow(exponent): the exponent goes through BigNumber.from
      and must not be negative. */
  function PowOf(base: int, exponent: BigNumberish): (r: Result<int>)
    ensures r.Ok? <==> Convertible(exponent) && ValueOf(exponent) >= 0
    ensures r.Ok? ==> r.value == Pow(base, ValueOf(exponent))
    ensures Convertible(exponent) && ValueOf(exponent) < 0 ==> r == Err(NegativePower)
  {
    var e :- From(exponent);
    if e < 0 then Err(NegativePower) else Ok(Pow(base, e))
  }

  function Abs(x: int): int {
    if x < 0 then -x else x
  }

  /** q is the quotient of a by b rounded toward zero: the remainder a - q * b is
      smaller than b in magnitude and has the sign of a. */
  ghost predicate IsTruncatedQuotient(q: int, a: int, b: int) {
    var rem := a - q * b;
    Abs(rem) < Abs(b) && (a >= 0 ==> rem >= 0) && (a <= 0 ==> rem <= 0)
  }

  /** |d * b| is |d| * |b|, so it is at least |b| once d is not zero. */
  lemma MulMagnitude(d: int, b: int)
    ensures Abs(d * b) == Abs(d) * Abs(b)
    ensures d != 0 ==> Abs(d * b) >= Abs(b)
  {
    var dd: int, bb: int := Abs(d), Abs(b);
    var p := dd * bb;
    assert p >= 0;
    assert (-dd) * bb == -p && dd * (-bb) == -p && (-dd) * (-bb) == p;
    if d < 0 && b < 0 {
      assert d * b == (-dd) * (-bb);
    } else if d < 0 {
      assert d * b == (-dd) * bb;
    } else if b < 0 {
      assert d * b == dd * (-bb);
    } else {
      assert d * b == p;
    }
    if d != 0 {
      assert p == (dd - 1) * bb + bb;
      assert (dd - 1) * bb >= 0;
    }
  }

  /** BN.js div: division rounding toward zero (Dafny's own / rounds toward
      negative infinity for a negative dividend). */
  function TruncDiv(a: int, b: int): (q: int)
    requires b != 0
    ensures IsTruncatedQuotient(q, a, b)
  {
    var q0 := Abs(a) / Abs(b);
    var q := if (a < 0) == (b < 0) then q0 else -q0;
    TruncDivRemainder(a, b, q0, q);
    q
  }

  lemma TruncDivRemainder(a: int, b: int, q0: int, q: int)
    requires b != 0 && q0 == Abs(a) / Abs(b)
    requires q == if (a < 0) == (b < 0) then q0 else -q0
    ensures IsTruncatedQuotient(q, a, b)
  {
    EuclideanDivision(Abs(a), Abs(b));
    SignedProduct(a, b, q0, q);
  }

  /** The defining facts of / and % on naturals, stated apart so that the proof of
      TruncDivRemainder instantiates them on its own arguments only. */
  lemma EuclideanDivision(x: int, y: int)
    requires x >= 0 && y > 0
    ensures x == x / y * y + x % y && 0 <= x % y < y
  {
  }

  /** The product q * b of the rounded quotient has the sign of a and magnitude q0 * |b|. */
  lemma SignedProduct(a: int, b: int, q0: int, q: int)
    requires q == if (a < 0) == (b < 0) then q0 else -q0
    ensures q * b == if a < 0 then -(q0 * Abs(b)) else q0 * Abs(b)
  {
  }

  /** At most one quotient rounds toward zero. */
  lemma TruncatedQuotientUnique(q1: int, q2: int, a: int, b: int)
    requires b != 0
    requires IsTruncatedQuotient(q1, a, b) && IsTruncatedQuotient(q2, a, b)
    ensures q1 == q2
  {
    var d := q2 - q1;
    var r1, r2 := a - q1 * b, a - q2 * b;
    assert Abs(r1 - r2) < Abs(b);
    assert r1 - r2 == d * b by {
      assert q2 * b == (q1 + d) * b == q1 * b + d * b;
    }
    MulMagnitude(d, b);
  }

  /** Dividing an exact multiple gives the multiplier back. */
  lemma TruncDivOfMultiple(a: int, b: int)
    requires b != 0
    ensures TruncDiv(a * b, b) == a
  {
    assert IsTruncatedQuotient(a, a * b, b);
    TruncatedQuotientUnique(TruncDiv(a * b, b), a, a * b, b);
  }

  /** BigNumber.div: ethers refuses a zero divisor. */
  function Div(a: int, b: int): (r: Result<int>)
    ensures r.Ok? <==> b != 0
    ensures r.Ok? ==> IsTruncatedQuotient(r.value, a, b)
  {
    if b == 0 then Err(DivisionByZero) else Ok(TruncDiv(a, b))
  }

  /** BigNumber.toNumber: BN.js refuses values of 54 bits or more. */
  function ToNumber(x: int): (r: Result<int>)
    ensures r.Ok? <==> -TwoPow53 < x < TwoPow53
    ensures r.Ok? ==> r.value == x
  {
    if -TwoPow53 < x < TwoPow53 then Ok(x) else Err(NumericOverflow)
  }

  /** The digits of a non-negative value padded to an even count, "00" for zero. */
  function EvenHexDigits(n: nat): (s: string)
    ensures |s| % 2 == 0 && AllLowerHexDigits(s) && AllHexDigits(s) && HexValue(s) == n
    ensures |s| == |NatToHex(n)| || |s| == |NatToHex(n)| + 1
    ensures |NatToHex(n)| % 2 == 0 ==> s == NatToHex(n)
  {
    var digits := NatToHex(n);
    if |digits| % 2 == 1 then
      HexValueLeadingZero(digits);
      "0" + digits
    else digits
  }

  /** BigNumber.toHexString: "0x" and an even number of lowercase digits for a
      non-negative value, "-0x" and the digits of the magnitude for a negative one.
      The library's final loop that strips a leading "00" pair never fires here, as
      the digits of a positive value have no leading zero. */
  function ToHexString(x: int): (s: string)
    ensures x >= 0 ==> IsHexString(s) && s[2..] == EvenHexDigits(x)
    ensures x < 0 ==> |s| > 0 && s[0] == '-'
  {
    if x < 0 then "-0x" + EvenHexDigits(-x)
    else
      var s := "0x" + EvenHexDigits(x);
      assert s[2..] == EvenHexDigits(x);
      s
  }
}
