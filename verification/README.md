# Test-script utilities of an NFT minting project, in Dafny

The project's test scripts share a handful of stateless helpers
(`scripts/shared/utilities.ts`). These helpers are thin wrappers over the ethers.js
library. This Dafny project models them, together with the meaning of the library calls
they make, and proves what they promise:

- `getBigNumber` / `getNumber` scale an amount to fixed point (`amount * 10^decimals`,
  `decimals` 18 by default) and back (division rounding toward zero, then conversion to a
  JavaScript number).
- `getPaddedHexStrFromBN` renders a BigNumber as `0x` and 64 lowercase hex digits (32 bytes).
- `getHexStrFromStr` renders the UTF-8 bytes (RFC 3629) of a JavaScript string as `0x`
  and two hex digits per byte.
- `getSignatureParameters` splits a 65-byte signature (`0x` and 130 hex digits) into `r`,
  `s` and `v`. It first refuses any value that is not a hex string. It then brings `v`
  into the `{27, 28}` convention of appendix F of the Ethereum Yellow Paper.

Modules:

- `Results` (results.dfy): `Result`, `Option`, and the errors the helpers can throw.
- `Hex` (hex.dfy): hex digits, `isHexString`, `hexlify` on bytes, `hexZeroPad`, and the
  value a run of digits denotes.
- `BigNumbers` (bignumbers.dfy): `BigNumber.from`, `pow`, `div`, `toNumber`, `toHexString`.
- `Utf8` (utf8.dfy): `toUtf8Bytes` over UTF-16 code units, and a UTF-8 reader as its inverse.
- `Utilities` (utilities.dfy): the five helpers.

Library behaviour is that of ethers v5, as the helpers call it:

- `BigNumber.from(number)` throws an overflow error unless `-(2^53-1) < n < 2^53-1`.
- `BigNumber.from(bigNumber)` passes the value through. The helpers declare `amount: number`,
  but the amount is modelled as either a number or a BigNumber (`BigNumberish`). Scaling
  back down is applied to the BigNumber that `getBigNumber` returns, so the round trip
  needs the BigNumber case.
- `pow` throws on a negative exponent. `div` rounds toward zero.
- `toNumber` throws when the magnitude reaches 2^53.
- `toHexString` writes the stored digits of the value, padded to an even count, with `-0x` for a
  negative value. The model takes the stored digits to be the minimal lowercase ones that
  BN.js `toString(16)` produces.
- `hexZeroPad` throws on a string that is not a hex string, or one longer than the padded width.
- `toUtf8Bytes` throws on a high surrogate that is not followed by a low one. It writes a
  lone low surrogate as a three-byte sequence.

Three behaviours of the code at its edges:

- Hex padding does not always yield 32 bytes. A negative value, or one of more than
  32 bytes, makes `hexZeroPad` throw.
- The recovery byte lands in `{27, 28}` only when its raw value is 0, 1, 27 or 28.
  Any other raw value `x` becomes `x + 27`.
- The signature check accepts any hex string. Its length is not checked.

## Model

| member | source | states |
|---|---|---|
| Utilities.GetBigNumber | scripts/shared/utilities.ts:4-7 | succeeds exactly when the amount converts to a BigNumber and `decimals` is a safe non-negative number; the result is amount times 10^decimals; otherwise the library's overflow or negative-power error |
| Utilities.GetBigNumberDefault | scripts/shared/utilities.ts:4-7 | with `decimals` omitted, a safe amount is scaled by exactly 10^18 |
| Utilities.GetNumber | scripts/shared/utilities.ts:9-13 | succeeds exactly when the inputs convert, `decimals` is non-negative and the quotient fits a JavaScript number; the result is amount / 10^decimals rounded toward zero, of magnitude below 2^53; an unsafe amount or `decimals` or an oversized quotient throws the overflow error, a negative `decimals` the negative-power error |
| Utilities.ScaleRoundTrip | scripts/shared/utilities.ts:4-13 | scaling an amount of magnitude below 2^53 up with getBigNumber and down with getNumber, at the same decimals, gives the amount back |
| BigNumbers.From | scripts/shared/utilities.ts:6 | `BigNumber.from(amount)`: a number converts exactly inside (-(2^53-1), 2^53-1) and otherwise throws the overflow error; a BigNumber passes through with its value |
| BigNumbers.Div | scripts/shared/utilities.ts:10-11 | `.div`: succeeds exactly for a non-zero divisor, with a quotient that rounds toward zero; a zero divisor throws |
| BigNumbers.TruncDiv | scripts/shared/utilities.ts:11 | BigNumber `div`: the remainder is smaller than the divisor in magnitude and has the sign of the dividend (rounding toward zero) |
| BigNumbers.TruncatedQuotientUnique | scripts/shared/utilities.ts:11 | at most one quotient rounds toward zero, so the characterisation of `div` is complete |
| BigNumbers.TruncDivOfMultiple | scripts/shared/utilities.ts:11 | dividing `a * b` by `b` gives `a` for every integer `a` |
| BigNumbers.PowOf | scripts/shared/utilities.ts:6 | `BigNumber.from(10).pow(decimals)` succeeds exactly for a safe non-negative exponent; a negative one throws the negative-power error |
| BigNumbers.FromHexLiteral | scripts/shared/utilities.ts:49 | `BigNumber.from("0x…")` succeeds exactly when at least one hex digit follows the prefix; the value is that of the digits and lies below 16^digits |
| BigNumbers.ToNumber | scripts/shared/utilities.ts:12 | `toNumber` succeeds exactly when the magnitude is below 2^53 and keeps the value |
| BigNumbers.EvenHexDigits | scripts/shared/utilities.ts:16 | the digits of `hexlify(bn)`: an even count of lowercase digits that denote the value, at most one more than the minimal count |
| BigNumbers.ToHexString | scripts/shared/utilities.ts:16 | `hexlify` of a non-negative BigNumber is a hex string whose digits are its even-length digits; of a negative one it starts with `-` |
| Hex.NatToHex | scripts/shared/utilities.ts:16 | minimal lowercase digits that denote the value, with no leading zero |
| Hex.NatToHexLength | scripts/shared/utilities.ts:17 | a value has at most k digits exactly when it is below 16^k |
| Hex.HexZeroPad | scripts/shared/utilities.ts:17 | `hexZeroPad` succeeds exactly on a hex string no longer than the width, with the invalid-hex and out-of-range errors otherwise; the result has the full width, is a hex string and denotes the same value |
| Utilities.PaddedWidth | scripts/shared/utilities.ts:15-18 | the hex form of a non-negative value fits `width` bytes exactly when the value is below 256^width |
| Utilities.GetPaddedHexStrFromBN | scripts/shared/utilities.ts:15-18 | succeeds exactly for 0 <= bn < 2^256; the result is `0x` and 64 lowercase digits that decode back to bn; a negative value gives the invalid-hex error, a too-large one the out-of-range error |
| Hex.HexDigitsOfBytes | scripts/shared/utilities.ts:22 | two lowercase hex digits per byte |
| Hex.Hexlify | scripts/shared/utilities.ts:22 | `hexlify(bytes)` is a hex string of length 2 + 2 * bytes |
| Hex.BytesOfHexDigitsOfBytes | scripts/shared/utilities.ts:22 | reading the digits of `hexlify` back two at a time gives the bytes again |
| Utf8.PairValue | scripts/shared/utilities.ts:21 | a surrogate pair stands for a code point in [0x10000, 0x110000) |
| Utf8.EncodeCodePoint | scripts/shared/utilities.ts:21 | a code point takes 1, 2, 3 or 4 bytes by the ranges of section 3 of RFC 3629 |
| Utf8.ToUtf8Bytes | scripts/shared/utilities.ts:21 | `toUtf8Bytes` can fail only with the invalid-UTF-8 error |
| Utf8.ToUtf8BytesSucceeds | scripts/shared/utilities.ts:21 | `toUtf8Bytes` succeeds exactly when every high surrogate is immediately followed by a low one |
| Utf8.DecodeFirstOfEncoded | scripts/shared/utilities.ts:21 | reading the front of an encoded code point gives back the code point and its byte count |
| Utf8.DecodeEncodedPrefix | scripts/shared/utilities.ts:21 | decoding an encoded code point followed by more bytes yields that code point, then the decoding of the rest |
| Utf8.PairedAfter | scripts/shared/utilities.ts:21 | after a unit that is not a waiting high surrogate, or after a complete pair, the string is paired exactly when its remainder is |
| Utf8.DecodeToUtf8Bytes | scripts/shared/utilities.ts:21 | reading the bytes of `toUtf8Bytes` as UTF-8 gives back the code points of the string |
| Utf8.ToUtf8BytesLength | scripts/shared/utilities.ts:21 | a string of n code units takes between n and 3n bytes |
| Utf8.ToUtf8BytesAscii | scripts/shared/utilities.ts:21 | for ASCII text the bytes are the code units themselves |
| Utilities.GetHexStrFromStr | scripts/shared/utilities.ts:20-23 | succeeds exactly when the surrogates of the string are paired, failing otherwise with the invalid-UTF-8 error; the result is a hex string of length 2 + 2 * (UTF-8 byte count) whose digits read back as those bytes |
| Utilities.HexStrFromStrRoundTrip | scripts/shared/utilities.ts:20-23 | the digits of getHexStrFromStr, read as bytes and then as UTF-8, give back the code points of the string |
| Utilities.Slice | scripts/shared/utilities.ts:46-48 | `String.prototype.slice` with both ends clamped to the string: its length and the characters it takes |
| Utilities.NormalizeV | scripts/shared/utilities.ts:50 | 27 and 28 are kept and any other value gets 27 added; the result is 27 or 28 exactly when the raw value is 0, 1, 27 or 28 |
| Hex.IsHexString | scripts/shared/utilities.ts:41 | `isHexString`: holds exactly for `0x` followed by zero or more hex digits of either case, the shape of the regular expression `/^0x[0-9A-Fa-f]*$/` |
| Utilities.GetSignatureParameters | scripts/shared/utilities.ts:40-56 | throws its own "not a valid hex string" error, with the signature in the message, exactly when the input is not a hex string; a hex string succeeds exactly when it has more than 130 characters; then `r` and `s` are 66 characters each, `s` starts with `0x`, `r` followed by the digits of `s` is the first 130 characters, and `v` lies in [27, 283); for a 132-character signature `r` is characters 0-65, `s` is `0x` and characters 66-129, and `v` is the normalised value of the last two digits |

## Left out

- `advanceBlock` and `advanceBlockTo` (scripts/shared/utilities.ts:25-33): RPC calls to a running node (`evm_mine`, `getBlockNumber`); this is I/O.
- `getChainId` (scripts/shared/utilities.ts:35-38): reads the runtime configuration and writes to the console.
- `constructMetaTransactionMessage` (scripts/shared/utilities.ts:58-68): a Keccak-256 hash computed by a foreign library. The identifiers it uses are not imported in the file.
- hardhat.config.ts: a declarative configuration object plus an `accounts` task that prints signers. It holds no logic of its own.
- Non-integral JavaScript numbers: an amount is modelled by its integer value. The library's refusal of a fractional amount is not modelled, and neither is floating-point rounding.
- Utilities.GetSignatureParameters: no ECDSA verification or recovery. The helper only slices text.
- Utilities.GetSignatureParameters: the signature is a sequence of characters. A string that passes the hex check is ASCII, so UTF-16 code units and characters coincide there.
- Utilities.GetHexStrFromStr: the string is modelled as UTF-16 code units. No Unicode normalisation is applied, matching the library's default.
- Utilities.GetPaddedHexStrFromBN: a BigNumber is modelled by its value alone, and its stored hex text is taken to be the canonical lowercase one. A BigNumber built from upper-case hex text (`BigNumber.from("0xAB")`) keeps that case in the library, so the padded string would end in `AB`, where the model gives `ab`.
- BigNumbers.FromHexLiteral: models `BigNumber.from` only for strings that start with `0x`, the only strings the helpers pass it. Decimal and negative literals are not modelled.
