# Canonical byte encoding and `smthash`

A Dafny model of `utils.js`, the hashing utilities of unicitynetwork/utils.
`smthash(...inputs)` derives one SHA-256 digest from a list of mixed values.
Each argument is turned into bytes by its runtime kind:

- a BigInt becomes its minimal big-endian bytes;
- a string becomes its UTF-8 bytes;
- `null` is treated as `0n`;
- a CryptoJS WordArray passes through unchanged;
- anything else throws.

The bytes are appended left to right into one buffer, and the buffer is hashed once.
Beside it are the hex helpers `isHexString`, `hexToWordArray`,
`wordArrayToHex` and `stringToHex`.

Modules, one per file:

- `Types` (types.dfy): `byte` (0..255), the two thrown errors, `Option`, `Result`.
  A CryptoJS WordArray is a `seq<byte>`.
- `Hex` (hex.dfy): Base16 text (section 8 of RFC 4648).
  Covers validation, pair decoding and lowercase rendering, with both round trips and case insensitivity.
- `BigInt` (bigint.dfy): `bigIntToWordArray` as a method that pads the hex digits in place, as the source does.
  It is proved equal to an independent reference, `MinimalBigEndian` (the base-256 digits of the number).
  The reference is proved to denote the number, to start with no zero byte and to be the unique such encoding.
- `Utf8` (utf8.dfy): UTF-8 encoding (section 3 of RFC 3629) of Unicode scalar values.
  A validating decoder is written as its partner, for the round trip and injectivity.
- `SmtHash` (smthash.dfy): the argument kinds as a datatype `Arg` and the buffer as a left fold (`Concatenation`).
  `Smthash` is a method whose loop appends each argument's bytes, as `reduce` with `acc.concat` does.
  SHA-256 is a parameter of `Smthash`.

Two behaviours one might expect are not what the code does; the model follows the code:

- One might expect hex text of odd length to be rejected. `hexToWordArray` only checks the alphabet and hands the text to CryptoJS (utils.js:57-59).
- One might expect hex text to be a kind of `smthash` argument of its own. The code treats every string as UTF-8 text (utils.js:18-20), so hex must be decoded with `hexToWordArray` first and passed as bytes.

## Model

| member | source | states |
|---|---|---|
| `Hex.IsHexString` | utils.js:52-54 | true iff the text is non-empty and every character is in `[0-9a-fA-F]` |
| `Hex.HexStringExamples` | utils.js:52-54 | "deadBEEF" is hex; "xyz" and "" are not |
| `Hex.HexPairsToBytes` | utils.js:44 | `CryptoJS.enc.Hex.parse` on even-length hex digits: one byte per digit pair |
| `Hex.HexToWordArray` | utils.js:56-59 | fails with `NotHexString(s)` exactly when `s` is not a hex string; otherwise gives one byte per digit pair, high nibble first, and at least one byte |
| `Hex.WordArrayToHex` | utils.js:64-66 | the rendering has two characters per byte, all lowercase hex digits |
| `Hex.WordArrayToHexRoundTrip` | utils.js:56-66 | decoding the hex of a non-empty byte string gives the byte string back |
| `Hex.EmptyWordArrayDoesNotRoundTrip` | utils.js:52-66 | the empty byte string renders as "", which `hexToWordArray` rejects |
| `Hex.HexToWordArrayRoundTrip` | utils.js:56-66 | rendering the bytes of an even-length hex string gives that string in lower case |
| `Hex.HexToWordArrayIgnoresCase` | utils.js:52-59 | folding 'A'–'F' to 'a'–'f' changes neither whether a text is hex nor the bytes it decodes to |
| `BigInt.HexOfNat` | utils.js:38 | `toString(16)`: non-empty lowercase hex digits whose value is the number, with a leading '0' only for zero, and one digit exactly below 16 |
| `BigInt.MinimalBigEndian` | utils.js:36-45 | the reference encoding is non-empty, has a non-zero first byte for a positive number, and is one byte exactly below 256 |
| `BigInt.MinimalBigEndianValue` | utils.js:36-45 | the big-endian value of the reference encoding of n is n |
| `BigInt.MinimalBigEndianZero` | utils.js:36-45 | zero encodes as the single byte 0x00, not as the empty string |
| `BigInt.MinimalBigEndianUnique` | utils.js:36-45 | every byte string with no leading zero byte (or the single byte 0) is the reference encoding of its own value, so the encoding is minimal and unique |
| `BigInt.EvenHexOfNat` | utils.js:38-42 | the `toString(16)` digits padded to an even count are hex digits of even length with the same value n |
| `BigInt.LeadingZeroKeepsValue` | utils.js:40-42 | prepending '0' to hex digits keeps their value |
| `BigInt.EvenHexOfNatIsMinimalBigEndian` | utils.js:38-44 | the hex digits of n, padded with one '0' to an even count and decoded pair by pair, are the reference encoding of n |
| `BigInt.BigIntToWordArray` | utils.js:36-45 | the result is the reference encoding of n; its big-endian value is n; it is [0x00] for 0 and has no leading zero byte otherwise |
| `Utf8.StringToWordArray` | utils.js:48-50 | a string of k characters becomes between k and 4k bytes |
| `Utf8.Utf8RoundTrip` | utils.js:48-50 | decoding the UTF-8 bytes of any string gives the string back |
| `Utf8.StringToWordArrayInjective` | utils.js:48-50 | two strings with the same UTF-8 bytes are equal |
| `Utf8.StringToWordArrayAppend` | utils.js:48-50 | the bytes of s + t are the bytes of s followed by the bytes of t |
| `Utf8.AsciiEncoding` | utils.js:48-50 | an ASCII string becomes one byte per character, equal to its code |
| `Utf8.StringToHex` | utils.js:72-74 | the result has twice as many characters as the string has UTF-8 bytes, all lowercase hex digits |
| `Utf8.StringToHexRoundTrip` | utils.js:72-74 | for a non-empty string, `hexToWordArray` of its hex gives its UTF-8 bytes, which decode to the string; the empty string gives "", which is not hex |
| `SmtHash.Encoding` | utils.js:15-26 | the per-kind dispatch rejects an argument exactly when it is of an unsupported kind |
| `SmtHash.EncodingMeaning` | utils.js:15-26 | a BigInt contributes bytes whose big-endian value is the number, with no leading zero byte; `null` contributes 0x00; a string contributes bytes that decode as UTF-8 to the string; a WordArray contributes itself |
| `SmtHash.Concatenation` | utils.js:14-29 | the `reduce` buffer: a failure is always `InvalidInput`, and a buffer exists only if every argument is of a supported kind |
| `SmtHash.ConcatenationFails` | utils.js:14-26 | the buffer fails iff some argument is of an unsupported kind, and then with `InvalidInput` |
| `SmtHash.ConcatenationAppend` | utils.js:14-29 | the buffer of xs + ys is the buffer of xs followed by that of ys, and fails with `InvalidInput` iff either of them fails |
| `SmtHash.SameEncodingsSameBuffer` | utils.js:14-29 | argument lists whose arguments encode alike position by position give the same buffer |
| `SmtHash.NullIsZero` | utils.js:21-23 | replacing any argument by `null` or by `0n` gives the same buffer |
| `SmtHash.MergeAdjacent` | utils.js:14-29 | two adjacent arguments can be replaced by one whose bytes are theirs concatenated, without changing the buffer |
| `SmtHash.AdjacentBytesMerge` | utils.js:24-28 | adjacent WordArray arguments b1, b2 give the same buffer as the single argument b1 + b2 |
| `SmtHash.AdjacentStringsMerge` | utils.js:18-20 | adjacent string arguments s, t give the same buffer as the single string s + t |
| `SmtHash.SingleArgument` | utils.js:14-29 | no argument gives the empty buffer; one argument gives its own bytes, or `InvalidInput` for an unsupported kind |
| `SmtHash.SmallIntegerBuffers` | utils.js:15-23 | `null` and `0n` both give the buffer [0x00]; `1n` gives [0x01] |
| `SmtHash.AbcBuffer` | utils.js:18-20 | "abc" gives the buffer [0x61, 0x62, 0x63] |
| `SmtHash.HexPiecesBuffer` | utils.js:56-59 | the decoded "ab" and "cd" as two arguments give the same buffer [0xab, 0xcd] as the decoded "abcd" as one |
| `SmtHash.Smthash` | utils.js:11-33 | when the buffer exists the result is the hash of the buffer; the call throws `InvalidInput` exactly when some argument is of an unsupported kind |

## Left out

- `normalizeObject` (utils.js:76-78) is not modelled. Its substance is `object-hash`'s passthrough serialisation, a foreign library.
- The SHA-256 compression function (`CryptoJS.SHA256`) is a foreign library. It is the parameter `sha256` of `Smthash`, and its 32-byte output length is not modelled.
- CryptoJS WordArray internals (32-bit word packing, `sigBytes`) are abstracted to a sequence of bytes.
  `isWordArray` (utils.js:68-70) becomes the `Bytes` tag of `Arg`; a BigInt is its `Int` tag.
- `Hex.HexToWordArray` requires even length for hex text. What CryptoJS's `enc.Hex.parse` makes of an odd-length string is library behaviour that this code does not check. Non-hex text of any length is handled and rejected.
- `BigInt.BigIntToWordArray` and `SmtHash.Arg.Int` take a `nat`: for a negative BigInt, `toString(16)` would emit a '-' that the code does not guard, and `smthash` would hash whatever CryptoJS makes of it, so negative BigInt arguments are not modelled.
- `Utf8.StringToWordArray` encodes Unicode scalar values. Lone UTF-16 surrogates in a JavaScript string are not representable.
- `Hex.IsHexString` takes a string. The regular expression's coercion of non-string arguments to text is not modelled.
- The `?.` pass-through of `undefined` in `wordArrayToHex` (utils.js:65) is not modelled.
- The commented-out BigInt path in `hexToWordArray` (utils.js:60-61) is not modelled.
