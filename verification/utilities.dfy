/** The stateless helpers of scripts/shared/utilities.ts: fixed-point scaling and its
    inverse, 32-byte hex padding, the hex form of a string's UTF-8 bytes, and the
    splitting of a 65-byte signature into r, s and v. */
module Utilities {
  import opened Results
  import opened Hex
  import opened BigNumbers
  import Utf8

  /** The scale used when the caller gives no decimals: amounts are in units of 10^-18. */
  const DefaultDecimals: int := 18

  /** getBigNumber(amount, decimals): the amount scaled up to fixed point,
      amount * 10^decimals. */
  function GetBigNumber(amount: BigNumberish, decimals: int := DefaultDecimals): (r: Result<int>)
    ensures r.Ok? <==> Convertible(amount) && IsSafe(decimals) && decimals >= 0
    ensures !Convertible(amount) || !IsSafe(decimals) ==> r == Err(NumericOverflow)
    ensures Convertible(amount) && IsSafe(decimals) && decimals < 0 ==> r == Err(NegativePower)
    ensures r.Ok? ==> r.value == ValueOf(amount) * Pow(10, decimals)
  {
    var a :- From(amount);
    var scale :- PowOf(10, JsNumber(decimals));
    Ok(a * scale)
  }

  /** getNumber(amount, decimals): the amount scaled down from fixed point, rounding
      toward zero, as a JavaScript number. */
  function GetNumber(amount: BigNumberish, decimals: int := DefaultDecimals): (r: Result<int>)
    ensures r.Ok? <==>
      Convertible(amount) && IsSafe(decimals) && decimals >= 0
      && -TwoPow53 < TruncDiv(ValueOf(amount), Pow(10, decimals)) < TwoPow53
    ensures r.Ok? ==> IsTruncatedQuotient(r.value, ValueOf(amount), Pow(10, decimals))
    ensures r.Ok? ==> -TwoPow53 < r.value < TwoPow53
    ensures !Convertible(amount) || !IsSafe(decimals) ==> r == Err(NumericOverflow)
    ensures Convertible(amount) && IsSafe(decimals) && decimals < 0 ==> r == Err(NegativePower)
    ensures Convertible(amount) && IsSafe(decimals) && decimals >= 0 && r.Err? ==> r.error == NumericOverflow
  {
    var a :- From(amount);
    var scale :- PowOf(10, JsNumber(decimals));
    // ethers throws on a zero divisor; 10^decimals never is one
    match Div(a, scale)
    case Err(e) => Err(e)
    case Ok(q) => ToNumber(q)
  }

  /** With the decimals left out, getBigNumber scales by 10^18. */
  lemma GetBigNumberDefault(amount: int)
    requires IsSafe(amount)
    ensures GetBigNumber(JsNumber(amount)) == Ok(amount * 1_000_000_000_000_000_000)
  {
    PowAdd(10, 9, 9);
    assert Pow(10, 9) == 1_000_000_000;
  }

  /** Scaling a safe amount up and back down gives the amount again. */
  lemma ScaleRoundTrip(amount: BigNumberish, decimals: int)
    requires Convertible(amount) && -TwoPow53 < ValueOf(amount) < TwoPow53
    requires IsSafe(decimals) && decimals >= 0
    ensures GetBigNumber(amount, decimals).Ok?
    ensures GetNumber(BigNumber(GetBigNumber(amount, decimals).value), decimals) == Ok(ValueOf(amount))
  {
    TruncDivOfMultiple(ValueOf(amount), Pow(10, decimals));
  }

  /** getPaddedHexStrFromBN(bn): hexlify then hexZeroPad to 32 bytes, "0x" and 64 lowercase
      digits that denote bn. A negative value is refused, as its hex form "-0x..." is no
      hex string; a value of more than 32 bytes is out of range. */
  function GetPaddedHexStrFromBN(bn: int): (r: Result<string>)
    ensures r.Ok? <==> 0 <= bn < Pow(256, 32)
    ensures bn < 0 ==> r == Err(InvalidHexString)
    ensures bn >= Pow(256, 32) ==> r == Err(ValueOutOfRange)
    ensures r.Ok? ==> |r.value| == 66 && r.value[..2] == "0x"
    ensures r.Ok? ==> AllLowerHexDigits(r.value[2..]) && AllHexDigits(r.value[2..]) && HexValue(r.value[2..]) == bn
  {
    var hexStr := ToHexString(bn);
    PaddedWidth(bn, 32);
    HexZeroPad(hexStr, 32)
  }

  /** 256^k and 16^(2k) are the same number. */
  lemma {:induction false} PowSquare(k: nat)
    ensures Pow(256, k) == Pow(16, 2 * k)
  {
    if k > 0 {
      PowSquare(k - 1);
      assert Pow(16, 2 * k) == 16 * (16 * Pow(16, 2 * (k - 1)));
    }
  }

  /** An even number no greater than 2w + 1 is no greater than 2w. */
  lemma EvenBelowOdd(n: int, w: int)
    ensures n % 2 == 0 && n <= 2 * w + 1 ==> n <= 2 * w
  {
  }

  /** The hex form of a non-negative value fits `width` bytes exactly when the value does. */
  lemma PaddedWidth(bn: int, width: nat)
    requires width >= 1
    ensures bn >= 0 ==> (|ToHexString(bn)| <= 2 * width + 2 <==> bn < Pow(256, width))
  {
    if bn >= 0 {
      var digits, even := NatToHex(bn), EvenHexDigits(bn);
      assert |ToHexString(bn)| == 2 + |even|;
      EvenBelowOdd(|even|, width);
      NatToHexLength(bn, 2 * width);
      PowSquare(width);
    }
  }

  /** getHexStrFromStr(str): "0x" and two lowercase digits per UTF-8 byte of str. */
  function GetHexStrFromStr(str: seq<Utf8.CodeUnit>): (r: Result<string>)
    ensures r.Ok? <==> Utf8.SurrogatesPaired(str)
    ensures r.Err? ==> r.error == InvalidUtf8String
    ensures r.Ok? ==> IsHexString(r.value) && AllLowerHexDigits(r.value[2..])
    ensures r.Ok? ==> Utf8.ToUtf8Bytes(str).Ok?
    ensures r.Ok? ==> |r.value| == 2 + 2 * |Utf8.ToUtf8Bytes(str).value|
    ensures r.Ok? ==> BytesOfHexDigits(r.value[2..]) == Some(Utf8.ToUtf8Bytes(str).value)
  {
    Utf8.ToUtf8BytesSucceeds(str);
    var strBytes :- Utf8.ToUtf8Bytes(str);
    BytesOfHexDigitsOfBytes(strBytes);
    Ok(Hexlify(strBytes))
  }

  /** The digits of getHexStrFromStr read back as bytes and then as UTF-8 give the code
      points of the string. */
  lemma HexStrFromStrRoundTrip(str: seq<Utf8.CodeUnit>)
    requires Utf8.SurrogatesPaired(str)
    ensures GetHexStrFromStr(str).Ok?
    ensures
      var bytes := BytesOfHexDigits(GetHexStrFromStr(str).value[2..]);
      bytes.Some? && Utf8.Decode(bytes.value) == Some(Utf8.CodePoints(str))
  {
    Utf8.ToUtf8BytesSucceeds(str);
    Utf8.DecodeToUtf8Bytes(str);
  }

  /** The three fields of a signature: r and s as "0x" strings, v as a number. */
  datatype SignatureParameters = SignatureParameters(r: string, s: string, v: int)

  function Min(x: int, y: int): int {
    if x < y then x else y
  }

  /** String.prototype.slice(start, end) for 0 <= start <= end: both ends are clamped
      to the length of the string. */
  function Slice(str: string, start: nat, end: nat): (t: string)
    requires start <= end
    ensures |t| == Min(end, |str|) - Min(start, |str|)
    ensures forall i :: 0 <= i < |t| ==> t[i] == str[start + i]
  {
    if |str| <= start then "" else if |str| <= end then str[start..] else str[start..end]
  }

  /** Brings the recovery byte into the {27, 28} convention of the Ethereum Yellow Paper
      (appendix F): 27 and 28 are kept, anything else is taken as an offset from 27. */
  function NormalizeV(v: int): (w: int)
    ensures v != 27 && v != 28 ==> w == v + 27
    ensures w == 27 || w == 28 <==> v == 0 || v == 1 || v == 27 || v == 28
    ensures v == 27 || v == 28 ==> w == v
  {
    if v == 27 || v == 28 then v else v + 27
  }

  function NotHexMessage(signature: string): string {
    "Given value \"" + signature + "\" is not a valid hex string."
  }

  /** getSignatureParameters(signature). */
  function GetSignatureParameters(signature: string): (res: Result<SignatureParameters>)
    ensures !IsHexString(signature) <==> res == Err(NotAHexString(NotHexMessage(signature)))
    ensures IsHexString(signature) ==> (res.Ok? <==> |signature| > 130)
    ensures IsHexString(signature) && |signature| <= 130 ==> res == Err(InvalidBigNumberString)
    ensures res.Ok? ==> |res.value.r| == 66 && |res.value.s| == 66 && res.value.s[..2] == "0x"
    ensures res.Ok? ==> res.value.r + res.value.s[2..] == signature[..130]
    ensures res.Ok? ==> 27 <= res.value.v < 27 + 256
    ensures |signature| == 132 && res.Ok? ==>
      && res.value.r == signature[..66]
      && res.value.s == "0x" + signature[66..130]
      && res.value.v == NormalizeV(HexValue(signature[130..132]))
  {
    if !IsHexString(signature) then
      Err(NotAHexString(NotHexMessage(signature)))
    else
      var r := Slice(signature, 0, 66);
      var s := "0x" + Slice(signature, 66, 130);
      var vDigits := Slice(signature, 130, 132);
      assert |signature| == 132 ==> vDigits == signature[130..132];
      assert ("0x" + vDigits)[2..] == vDigits;
      var rawV :- FromHexLiteral("0x" + vDigits);
      // toNumber cannot overflow on a value of at most two hex digits
      match ToNumber(rawV)
      case Err(e) => Err(e)
      case Ok(v) => Ok(SignatureParameters(r, s, NormalizeV(v)))
  }
}
