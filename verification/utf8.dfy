/** ethers' toUtf8Bytes: a JavaScript string, a sequence of UTF-16 code units, written
    as UTF-8 (RFC 3629), and a UTF-8 reader that undoes it. */
module Utf8 {
  import opened Results
  import opened Hex

  /** One UTF-16 code unit, the element of a JavaScript string. */
  newtype CodeUnit = u: int | 0 <= u < 0x1_0000

  predicate IsHighSurrogate(u: int) {
    0xD800 <= u < 0xDC00
  }

  predicate IsLowSurrogate(u: int) {
    0xDC00 <= u < 0xE000
  }

  /** Every high surrogate is immediately followed by a low one. */
  predicate SurrogatesPaired(units: seq<CodeUnit>) {
    forall i :: 0 <= i < |units| && IsHighSurrogate(units[i] as int) ==>
      i + 1 < |units| && IsLowSurrogate(units[i + 1] as int)
  }

  /** The code point a surrogate pair stands for. */
  function PairValue(high: int, low: int): (c: int)
    requires IsHighSurrogate(high) && IsLowSurrogate(low)
    ensures 0x1_0000 <= c < 0x11_0000
  {
    0x1_0000 + (high - 0xD800) * 0x400 + (low - 0xDC00)
  }

  /** The UTF-8 bytes of one code point, by the ranges of section 3 of RFC 3629. The
      library writes the bytes with shifts and masks ((c >> 6) | 0xc0, (c & 0x3f) | 0x80,
      ...); with the ranges as given these are the divisions and additions below. */
  function EncodeCodePoint(c: int): (bytes: seq<byte>)
    requires 0 <= c < 0x11_0000
    ensures |bytes| == (if c < 0x80 then 1 else if c < 0x800 then 2 else if c < 0x1_0000 then 3 else 4)
  {
    if c < 0x80 then [c as byte]
    else if c < 0x800 then [(0xC0 + c / 0x40) as byte, (0x80 + c % 0x40) as byte]
    else if c < 0x1_0000 then
      [(0xE0 + c / 0x1000) as byte, (0x80 + c / 0x40 % 0x40) as byte, (0x80 + c % 0x40) as byte]
    else
      [(0xF0 + c / 0x4_0000) as byte, (0x80 + c / 0x1000 % 0x40) as byte,
       (0x80 + c / 0x40 % 0x40) as byte, (0x80 + c % 0x40) as byte]
  }

  /** toUtf8Bytes(str): a high surrogate followed by a low one is written as the code
      point of the pair; a high surrogate without its low one is refused; every other
      unit, a lone low surrogate included, is written as a code point of its own. */
  function ToUtf8Bytes(units: seq<CodeUnit>): (r: Result<seq<byte>>)
    ensures r.Err? ==> r.error == InvalidUtf8String
    decreases |units|
  {
    if units == [] then Ok([])
    else if IsHighSurrogate(units[0] as int) then
      if |units| < 2 || !IsLowSurrogate(units[1] as int) then Err(InvalidUtf8String)
      else
        var rest :- ToUtf8Bytes(units[2..]);
        Ok(EncodeCodePoint(PairValue(units[0] as int, units[1] as int)) + rest)
    else
      var rest :- ToUtf8Bytes(units[1..]);
      Ok(EncodeCodePoint(units[0] as int) + rest)
  }

  /** The code points a string stands for, read as UTF-16: pairs combined, every other
      unit taken as it is. */
  function CodePoints(units: seq<CodeUnit>): seq<int>
    decreases |units|
  {
    if units == [] then []
    else if |units| >= 2 && IsHighSurrogate(units[0] as int) && IsLowSurrogate(units[1] as int) then
      [PairValue(units[0] as int, units[1] as int)] + CodePoints(units[2..])
    else [units[0] as int] + CodePoints(units[1..])
  }

  predicate IsContinuation(b: byte) {
    0x80 <= b < 0xC0
  }

  /** The code point at the front of a UTF-8 byte sequence and the number of bytes it
      takes, or none when the front is not a lead byte with its continuation bytes. */
  function DecodeFirst(bytes: seq<byte>): (r: Option<(int, nat)>)
    ensures r.Some? ==> 1 <= r.value.1 <= |bytes|
  {
    if |bytes| == 0 then None
    else
      var b0 := bytes[0] as int;
      if b0 < 0x80 then Some((b0, 1))
      else if 0xC0 <= b0 < 0xE0 && |bytes| >= 2 && IsContinuation(bytes[1]) then
        Some(((b0 - 0xC0) * 0x40 + (bytes[1] as int - 0x80), 2))
      else if 0xE0 <= b0 < 0xF0 && |bytes| >= 3 && IsContinuation(bytes[1]) && IsContinuation(bytes[2]) then
        Some((((b0 - 0xE0) * 0x40 + (bytes[1] as int - 0x80)) * 0x40 + (bytes[2] as int - 0x80), 3))
      else if 0xF0 <= b0 < 0xF8 && |bytes| >= 4 && IsContinuation(bytes[1]) && IsContinuation(bytes[2])
              && IsContinuation(bytes[3]) then
        Some(((((b0 - 0xF0) * 0x40 + (bytes[1] as int - 0x80)) * 0x40 + (bytes[2] as int - 0x80)) * 0x40
                + (bytes[3] as int - 0x80), 4))
      else None
  }

  /** Reads a whole UTF-8 byte sequence as code points. */
  function Decode(bytes: seq<byte>): Option<seq<int>>
    decreases |bytes|
  {
    if bytes == [] then Some([])
    else
      match DecodeFirst(bytes)
      case None => None
      case Some((c, n)) =>
        match Decode(bytes[n..])
        case None => None
        case Some(cs) => Some([c] + cs)
  }

  /** Reading the front of an encoded code point gives that code point and its length. */
  lemma DecodeFirstOfEncoded(c: int, rest: seq<byte>)
    requires 0 <= c < 0x11_0000
    ensures DecodeFirst(EncodeCodePoint(c) + rest) == Some((c, |EncodeCodePoint(c)|))
  {
    var e := EncodeCodePoint(c);
    var bytes := e + rest;
    if c < 0x80 {
    } else if c < 0x800 {
      assert bytes[0] as int == 0xC0 + c / 0x40 && bytes[1] as int == 0x80 + c % 0x40;
    } else if c < 0x1_0000 {
      assert bytes[0] as int == 0xE0 + c / 0x1000;
      assert bytes[1] as int == 0x80 + c / 0x40 % 0x40;
      assert bytes[2] as int == 0x80 + c % 0x40;
      assert c / 0x1000 * 0x40 + c / 0x40 % 0x40 == c / 0x40;
    } else {
      assert bytes[0] as int == 0xF0 + c / 0x4_0000;
      assert bytes[1] as int == 0x80 + c / 0x1000 % 0x40;
      assert bytes[2] as int == 0x80 + c / 0x40 % 0x40;
      assert bytes[3] as int == 0x80 + c % 0x40;
      assert c / 0x4_0000 * 0x40 + c / 0x1000 % 0x40 == c / 0x1000;
      assert c / 0x1000 * 0x40 + c / 0x40 % 0x40 == c / 0x40;
    }
  }

  /** Decoding what an encoded code point is followed by. */
  lemma DecodeEncodedPrefix(c: int, rest: seq<byte>)
    requires 0 <= c < 0x11_0000
    ensures Decode(EncodeCodePoint(c) + rest) ==
      match Decode(rest)
      case None => None
      case Some(cs) => Some([c] + cs)
  {
    var bytes := EncodeCodePoint(c) + rest;
    DecodeFirstOfEncoded(c, rest);
    assert bytes[|EncodeCodePoint(c)|..] == rest;
  }

  /** toUtf8Bytes succeeds exactly when every high surrogate has its low one. */
  lemma {:induction false} ToUtf8BytesSucceeds(units: seq<CodeUnit>)
    ensures ToUtf8Bytes(units).Ok? <==> SurrogatesPaired(units)
    decreases |units|
  {
    if units != [] {
      if IsHighSurrogate(units[0] as int) {
        if |units| >= 2 && IsLowSurrogate(units[1] as int) {
          ToUtf8BytesSucceeds(units[2..]);
          PairedAfter(units, 2);
        }
      } else {
        ToUtf8BytesSucceeds(units[1..]);
        PairedAfter(units, 1);
      }
    }
  }

  /** When the units before k hold no high surrogate waiting for its low one, the
      pairing of the whole is the pairing of what follows k. */
  lemma PairedAfter(units: seq<CodeUnit>, k: nat)
    requires 1 <= k <= 2 && k <= |units|
    requires !IsHighSurrogate(units[k - 1] as int)
    requires k == 2 ==> IsHighSurrogate(units[0] as int) && IsLowSurrogate(units[1] as int)
    ensures SurrogatesPaired(units) <==> SurrogatesPaired(units[k..])
  {
  }

  /** Reading the bytes of toUtf8Bytes as UTF-8 gives back the code points of the string. */
  lemma {:induction false} DecodeToUtf8Bytes(units: seq<CodeUnit>)
    requires ToUtf8Bytes(units).Ok?
    ensures Decode(ToUtf8Bytes(units).value) == Some(CodePoints(units))
    decreases |units|
  {
    if units != [] {
      if IsHighSurrogate(units[0] as int) {
        var c := PairValue(units[0] as int, units[1] as int);
        DecodeToUtf8Bytes(units[2..]);
        DecodeEncodedPrefix(c, ToUtf8Bytes(units[2..]).value);
      } else {
        DecodeToUtf8Bytes(units[1..]);
        DecodeEncodedPrefix(units[0] as int, ToUtf8Bytes(units[1..]).value);
      }
    }
  }

  /** Each code unit takes one to three bytes (a pair takes four for its two units). */
  lemma {:induction false} ToUtf8BytesLength(units: seq<CodeUnit>)
    requires ToUtf8Bytes(units).Ok?
    ensures |units| <= |ToUtf8Bytes(units).value| <= 3 * |units|
    decreases |units|
  {
    if units != [] {
      if IsHighSurrogate(units[0] as int) {
        ToUtf8BytesLength(units[2..]);
      } else {
        ToUtf8BytesLength(units[1..]);
      }
    }
  }

  /** For ASCII text the bytes are the code units themselves. */
  lemma {:induction false} ToUtf8BytesAscii(units: seq<CodeUnit>)
    requires forall i :: 0 <= i < |units| ==> units[i] < 0x80
    ensures ToUtf8Bytes(units).Ok?
    ensures |ToUtf8Bytes(units).value| == |units|
    ensures forall i :: 0 <= i < |units| ==> ToUtf8Bytes(units).value[i] as int == units[i] as int
    decreases |units|
  {
    if units != [] {
      ToUtf8BytesAscii(units[1..]);
    }
  }
}
