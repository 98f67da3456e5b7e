/** Base16 text (section 8 of RFC 4648) as the utilities use it:
    validation (`isHexString`), decoding (`hexToWordArray`) and lowercase
    rendering (`wordArrayToHex`). */
module Hex {
  import opened Types

  predicate IsHexDigit(c: char) {
    '0' <= c <= '9' || 'a' <= c <= 'f' || 'A' <= c <= 'F'
  }

  predicate IsLowerHexDigit(c: char) {
    '0' <= c <= '9' || 'a' <= c <= 'f'
  }

  predicate AllHexDigits(s: string) {
    forall i :: 0 <= i < |s| ==> IsHexDigit(s[i])
  }

  /** The value 0..15 of one hex digit; upper and lower case agree. */
  function HexDigitValue(c: char): (v: nat)
    requires IsHexDigit(c)
    ensures v < 16
  {
    if '0' <= c <= '9' then c as int - '0' as int
    else if 'a' <= c <= 'f' then c as int - 'a' as int + 10
    else c as int - 'A' as int + 10
  }

  /** The lowercase digit for a nibble, as CryptoJS's Hex encoder and
      BigInt's `toString(16)` both write it. */
  function NibbleChar(v: nat): (c: char)
    requires v < 16
    ensures IsLowerHexDigit(c) && HexDigitValue(c) == v
  {
    if v < 10 then ('0' as int + v) as char else ('a' as int + v - 10) as char
  }

  /** Folds 'A'..'F' onto 'a'..'f' and leaves every other character alone. */
  function LowerHexCase(c: char): (d: char)
    ensures IsHexDigit(c) ==> IsLowerHexDigit(d) && HexDigitValue(d) == HexDigitValue(c)
  {
    if 'A' <= c <= 'F' then (c as int + 32) as char else c
  }

  function ToLowerHex(s: string): (r: string)
    ensures |r| == |s|
  {
    seq(|s|, i requires 0 <= i < |s| => LowerHexCase(s[i]))
  }

  /** `isHexString` (utils.js:52-54): the anchored pattern `^[0-9a-fA-F]+$`,
      matched as one hex digit followed by any number of hex digits. */
  function IsHexString(s: string): (r: bool)
    ensures r <==> |s| > 0 && AllHexDigits(s)
  {
    |s| > 0 && IsHexDigit(s[0]) && (|s| == 1 || IsHexString(s[1..]))
  }

  /** Mixed case is accepted; a non-hex letter and the empty text are not. */
  lemma HexStringExamples()
    ensures IsHexString("deadBEEF")
    ensures !IsHexString("xyz") && !IsHexString("")
  {
    assert !IsHexDigit("xyz"[0]);
  }

  /** The byte written by the digit pair `hi lo`, high nibble first. */
  function PairByte(hi: char, lo: char): byte
    requires IsHexDigit(hi) && IsHexDigit(lo)
  {
    (16 * HexDigitValue(hi) + HexDigitValue(lo)) as byte
  }

  /** CryptoJS's `enc.Hex.parse` on an even-length string of hex digits:
      one byte per digit pair, left to right. */
  function HexPairsToBytes(s: string): (r: seq<byte>)
    requires |s| % 2 == 0 && AllHexDigits(s)
    ensures |r| == |s| / 2
  {
    seq(|s| / 2, i requires 0 <= i < |s| / 2 => PairByte(s[2 * i], s[2 * i + 1]))
  }

  /** `hexToWordArray` (utils.js:56-59): rejects any text that is not a hex
      string, naming it in the error, and otherwise decodes it pair by pair.
      Odd-length hex text is handed to CryptoJS unchecked; it is outside the
      model. */
  function HexToWordArray(s: string): (r: Result<seq<byte>>)
    requires IsHexString(s) ==> |s| % 2 == 0
    ensures r.Failure? <==> !IsHexString(s)
    ensures r.Failure? ==> r.error == NotHexString(s)
    ensures r.Success? ==> |r.value| == |s| / 2 && |r.value| > 0
    ensures r.Success? ==> forall i :: 0 <= i < |r.value| ==>
              r.value[i] as int == 16 * HexDigitValue(s[2 * i]) + HexDigitValue(s[2 * i + 1])
  {
    if !IsHexString(s) then Failure(NotHexString(s)) else Success(HexPairsToBytes(s))
  }

  /** `wordArrayToHex` (utils.js:64-66): two lowercase digits per byte, high
      nibble first. */
  function WordArrayToHex(b: seq<byte>): (r: string)
    ensures |r| == 2 * |b|
    ensures forall i :: 0 <= i < |r| ==> IsLowerHexDigit(r[i])
    ensures AllHexDigits(r)
  {
    if b == [] then []
    else [NibbleChar(b[0] as int / 16), NibbleChar(b[0] as int % 16)] + WordArrayToHex(b[1..])
  }

  /** Position 2i and 2i+1 of the rendering hold byte i's high and low nibble. */
  lemma {:induction false} WordArrayToHexAt(b: seq<byte>, i: nat)
    requires i < |b|
    ensures WordArrayToHex(b)[2 * i] == NibbleChar(b[i] as int / 16)
    ensures WordArrayToHex(b)[2 * i + 1] == NibbleChar(b[i] as int % 16)
  {
    if i > 0 {
      WordArrayToHexAt(b[1..], i - 1);
    }
  }

  /** Decoding the rendering of a non-empty byte string gives it back. */
  lemma WordArrayToHexRoundTrip(b: seq<byte>)
    requires |b| > 0
    ensures HexToWordArray(WordArrayToHex(b)) == Success(b)
  {
    var h := WordArrayToHex(b);
    var r := HexPairsToBytes(h);
    forall i | 0 <= i < |b| ensures r[i] == b[i] {
      RenderedPairAt(b, i);
    }
    assert r == b;
  }

  lemma RenderedPairAt(b: seq<byte>, i: nat)
    requires i < |b|
    ensures HexPairsToBytes(WordArrayToHex(b))[i] == b[i]
  {
    var h := WordArrayToHex(b);
    HalfOfDouble(|b|);
    PairAt(h, i);
    WordArrayToHexAt(b, i);
    NibblesOfByte(b[i]);
  }

  lemma HalfOfDouble(k: nat)
    ensures 2 * k / 2 == k
  {
  }

  lemma PairAt(s: string, i: nat)
    requires |s| % 2 == 0 && AllHexDigits(s) && i < |s| / 2
    ensures HexPairsToBytes(s)[i] == PairByte(s[2 * i], s[2 * i + 1])
  {
  }

  lemma NibblesOfByte(x: byte)
    ensures PairByte(NibbleChar(x as int / 16), NibbleChar(x as int % 16)) == x
  {
  }

  lemma NibblesOfPair(hi: nat, lo: nat)
    requires hi < 16 && lo < 16
    ensures (16 * hi + lo) / 16 == hi && (16 * hi + lo) % 16 == lo
  {
  }

  /** The empty byte string renders as "", which `hexToWordArray` rejects:
      the round trip holds for non-empty byte strings only. */
  lemma EmptyWordArrayDoesNotRoundTrip()
    ensures WordArrayToHex([]) == ""
    ensures HexToWordArray(WordArrayToHex([])) == Failure(NotHexString(""))
  {
  }

  /** Rendering the decoded bytes of a hex string gives the string back in
      lower case. */
  lemma HexToWordArrayRoundTrip(s: string)
    requires IsHexString(s) && |s| % 2 == 0
    ensures WordArrayToHex(HexToWordArray(s).value) == ToLowerHex(s)
  {
    var b := HexPairsToBytes(s);
    var h := WordArrayToHex(b);
    forall k | 0 <= k < |s| ensures h[k] == ToLowerHex(s)[k] {
      ReRenderedDigitAt(s, k);
    }
    assert h == ToLowerHex(s);
  }

  lemma ReRenderedDigitAt(s: string, k: nat)
    requires |s| % 2 == 0 && AllHexDigits(s) && k < |s|
    ensures WordArrayToHex(HexPairsToBytes(s))[k] == LowerHexCase(s[k])
  {
    var i := k / 2;
    HalfIndex(k, |s|);
    var b := HexPairsToBytes(s);
    var hi, lo := s[2 * i], s[2 * i + 1];
    PairAt(s, i);
    NibblesOfPair(HexDigitValue(hi), HexDigitValue(lo));
    assert b[i] as int / 16 == HexDigitValue(hi) && b[i] as int % 16 == HexDigitValue(lo);
    WordArrayToHexAt(b, i);
    NibbleOfLowerDigit(hi);
    NibbleOfLowerDigit(lo);
  }

  lemma HalfIndex(k: nat, n: nat)
    requires n % 2 == 0 && k < n
    ensures k / 2 < n / 2 && (k == 2 * (k / 2) || k == 2 * (k / 2) + 1)
  {
  }

  lemma NibbleOfLowerDigit(c: char)
    requires IsHexDigit(c)
    ensures NibbleChar(HexDigitValue(c)) == LowerHexCase(c)
  {
  }

  /** Upper and lower case hex text decode to the same bytes. */
  lemma HexToWordArrayIgnoresCase(s: string)
    requires IsHexString(s) ==> |s| % 2 == 0
    ensures IsHexString(ToLowerHex(s)) == IsHexString(s)
    ensures IsHexString(s) ==> HexToWordArray(ToLowerHex(s)) == HexToWordArray(s)
  {
    var l := ToLowerHex(s);
    if IsHexString(s) {
      assert IsHexString(l);
      var a, b := HexPairsToBytes(s), HexPairsToBytes(l);
      forall i | 0 <= i < |a| ensures a[i] == b[i] {
        LowerPairAt(s, i);
      }
      assert a == b;
    } else if |s| > 0 {
      var k :| 0 <= k < |s| && !IsHexDigit(s[k]);
      assert !IsHexDigit(l[k]);
    }
  }

  lemma LowerPairAt(s: string, i: nat)
    requires |s| % 2 == 0 && AllHexDigits(s) && i < |s| / 2
    ensures AllHexDigits(ToLowerHex(s))
    ensures HexPairsToBytes(ToLowerHex(s))[i] == HexPairsToBytes(s)[i]
  {
  }
}
