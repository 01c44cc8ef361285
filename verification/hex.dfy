/** Hexadecimal text as ethers.js reads and writes it: digit values, "0x" strings,
    the byte rendering behind hexlify and the zero padding of hexZeroPad. */
module Hex {
  import opened Results

  newtype byte = b: int | 0 <= b < 256

  predicate IsHexDigit(c: char) {
    ('0' <= c <= '9') || ('a' <= c <= 'f') || ('A' <= c <= 'F')
  }

  predicate IsLowerHexDigit(c: char) {
    ('0' <= c <= '9') || ('a' <= c <= 'f')
  }

  predicate AllHexDigits(s: string) {
    forall i :: 0 <= i < |s| ==> IsHexDigit(s[i])
  }

  predicate AllLowerHexDigits(s: string) {
    forall i :: 0 <= i < |s| ==> IsLowerHexDigit(s[i])
  }

  /** ethers' isHexString(value): "0x" followed by any number (odd, even or none)
      of hex digits of either case. */
  predicate IsHexString(s: string)
    ensures IsHexString(s) <==> exists digits :: s == "0x" + digits && AllHexDigits(digits)
  {
    var ok := |s| >= 2 && s[0] == '0' && s[1] == 'x' && AllHexDigits(s[2..]);
    assert ok ==> s == "0x" + s[2..];
    assert forall digits :: s == "0x" + digits ==> s[2..] == digits;
    ok
  }

  function DigitValue(c: char): (d: nat)
    requires IsHexDigit(c)
    ensures d < 16
  {
    if '0' <= c <= '9' then c as int - '0' as int
    else if 'a' <= c <= 'f' then c as int - 'a' as int + 10
    else c as int - 'A' as int + 10
  }

  /** The lowercase digit for a value below 16. */
  function Digit(d: nat): (c: char)
    requires d < 16
    ensures IsLowerHexDigit(c) && IsHexDigit(c) && DigitValue(c) == d
  {
    if d < 10 then ('0' as int + d) as char else ('a' as int + d - 10) as char
  }

  function Pow(base: int, e: nat): (r: int)
    ensures base >= 1 ==> r >= 1
  {
    if e == 0 then 1 else base * Pow(base, e - 1)
  }

  /** b^(m+n) is b^m * b^n. */
  lemma {:induction false} PowAdd(base: int, m: nat, n: nat)
    ensures Pow(base, m + n) == Pow(base, m) * Pow(base, n)
  {
    if m > 0 {
      PowAdd(base, m - 1, n);
      assert Pow(base, m + n) == base * Pow(base, m - 1 + n);
    }
  }

  /** The number a run of hex digits denotes, most significant digit first. */
  function HexValue(s: string): nat
    requires AllHexDigits(s)
  {
    if s == [] then 0 else HexValue(s[..|s| - 1]) * 16 + DigitValue(s[|s| - 1])
  }

  /** A run of k digits denotes less than 16^k. */
  lemma {:induction false} HexValueBound(s: string)
    requires AllHexDigits(s)
    ensures HexValue(s) < Pow(16, |s|)
  {
    if s != [] {
      HexValueBound(s[..|s| - 1]);
    }
  }

  /** Leading zero digits do not change the value. */
  lemma {:induction false} HexValueLeadingZero(s: string)
    requires AllHexDigits(s)
    ensures AllHexDigits("0" + s) && HexValue("0" + s) == HexValue(s)
  {
    if s != [] {
      HexValueLeadingZero(s[..|s| - 1]);
      assert ("0" + s)[..|s|] == "0" + s[..|s| - 1];
    }
  }

  function Zeros(k: nat): (z: string)
    ensures |z| == k && AllLowerHexDigits(z)
  {
    seq(k, _ => '0')
  }

  lemma {:induction false} HexValueZeros(k: nat, s: string)
    requires AllHexDigits(s)
    ensures AllHexDigits(Zeros(k) + s) && HexValue(Zeros(k) + s) == HexValue(s)
  {
    if k > 0 {
      HexValueZeros(k - 1, s);
      assert Zeros(k) + s == "0" + (Zeros(k - 1) + s);
      HexValueLeadingZero(Zeros(k - 1) + s);
    } else {
      assert Zeros(k) + s == s;
    }
  }

  /** The minimal lowercase digits of n, "0" for zero, as BN.js toString(16) writes them. */
  function NatToHex(n: nat): (s: string)
    ensures 1 <= |s| && AllLowerHexDigits(s) && AllHexDigits(s)
    ensures HexValue(s) == n
    ensures |s| > 1 ==> s[0] != '0'
  {
    if n < 16 then [Digit(n)]
    else
      var init := NatToHex(n / 16);
      var s := init + [Digit(n % 16)];
      assert s[..|s| - 1] == init;
      s
  }

  /** n has at most k digits exactly when it is below 16^k. */
  lemma {:induction false} NatToHexLength(n: nat, k: nat)
    requires k >= 1
    ensures |NatToHex(n)| <= k <==> n < Pow(16, k)
  {
    if n >= 16 {
      if k == 1 {
        assert Pow(16, 1) == 16;
      } else {
        NatToHexLength(n / 16, k - 1);
      }
    } else {
      assert Pow(16, k) >= 16 by { assert Pow(16, k - 1) >= 1; }
    }
  }

  /** hexZeroPad(value, length): the hex string left-padded with zero digits to
      `length` bytes; refused when it is not a hex string or is already longer. */
  function HexZeroPad(value: string, length: int): (r: Result<string>)
    ensures r.Ok? <==> IsHexString(value) && |value| <= 2 * length + 2
    ensures !IsHexString(value) ==> r == Err(InvalidHexString)
    ensures IsHexString(value) && |value| > 2 * length + 2 ==> r == Err(ValueOutOfRange)
    ensures r.Ok? ==> |r.value| == 2 * length + 2 && IsHexString(r.value)
    ensures r.Ok? ==> HexValue(r.value[2..]) == HexValue(value[2..])
    ensures r.Ok? && AllLowerHexDigits(value[2..]) ==> AllLowerHexDigits(r.value[2..])
  {
    if !IsHexString(value) then Err(InvalidHexString)
    else if |value| > 2 * length + 2 then Err(ValueOutOfRange)
    else
      var padded := "0x" + Zeros(2 * length + 2 - |value|) + value[2..];
      HexValueZeros(2 * length + 2 - |value|, value[2..]);
      assert padded[2..] == Zeros(2 * length + 2 - |value|) + value[2..];
      Ok(padded)
  }

  /** Two lowercase digits per byte, high nibble first. */
  function HexDigitsOfBytes(bytes: seq<byte>): (s: string)
    ensures |s| == 2 * |bytes| && AllLowerHexDigits(s)
  {
    if bytes == [] then []
    else [Digit(bytes[0] as int / 16), Digit(bytes[0] as int % 16)] + HexDigitsOfBytes(bytes[1..])
  }

  /** hexlify(bytes): "0x" and two lowercase digits per byte. */
  function Hexlify(bytes: seq<byte>): (s: string)
    ensures |s| == 2 + 2 * |bytes| && IsHexString(s) && s[2..] == HexDigitsOfBytes(bytes)
  {
    "0x" + HexDigitsOfBytes(bytes)
  }

  /** Reads hex digits back as bytes, two digits per byte; none when the digits are
      not hex or their number is odd. */
  function BytesOfHexDigits(s: string): Option<seq<byte>>
  {
    if s == [] then Some([])
    else if |s| < 2 || !IsHexDigit(s[0]) || !IsHexDigit(s[1]) then None
    else
      match BytesOfHexDigits(s[2..])
      case None => None
      case Some(rest) => Some([(DigitValue(s[0]) * 16 + DigitValue(s[1])) as byte] + rest)
  }

  /** Reading the digits of hexlify back gives the bytes again. */
  lemma {:induction false} BytesOfHexDigitsOfBytes(bytes: seq<byte>)
    ensures BytesOfHexDigits(HexDigitsOfBytes(bytes)) == Some(bytes)
  {
    if bytes != [] {
      var s := HexDigitsOfBytes(bytes);
      assert s[2..] == HexDigitsOfBytes(bytes[1..]);
      BytesOfHexDigitsOfBytes(bytes[1..]);
      assert [bytes[0]] + bytes[1..] == bytes;
    }
  }
}
