/** The integer encoding of the utilities: `bigIntToWordArray` renders a
    non-negative BigInt as hex digits, pads them to an even count and decodes
    the digit pairs, which yields the minimal big-endian bytes of the number. */
module BigInt {
  import opened Types
  import opened Hex

  /** The number written by a string of hex digits, most significant first. */
  function HexValue(s: string): nat
    requires AllHexDigits(s)
  {
    if s == [] then 0 else 16 * HexValue(s[..|s| - 1]) + HexDigitValue(s[|s| - 1])
  }

  /** The number written by a byte string, most significant byte first. */
  function BigEndianValue(b: seq<byte>): nat {
    if b == [] then 0 else 256 * BigEndianValue(b[..|b| - 1]) + b[|b| - 1] as int
  }

  /** JavaScript's `BigInt.prototype.toString(16)` on a non-negative value:
      lowercase digits, no leading zero, and "0" for zero. */
  function HexOfNat(n: nat): (r: string)
    ensures |r| > 0 && forall i :: 0 <= i < |r| ==> IsLowerHexDigit(r[i])
    ensures AllHexDigits(r) && HexValue(r) == n
    ensures r[0] == '0' <==> n == 0
    ensures n < 16 <==> |r| == 1
  {
    if n < 16 then [NibbleChar(n)]
    else
      var r := HexOfNat(n / 16) + [NibbleChar(n % 16)];
      assert r[..|r| - 1] == HexOfNat(n / 16);
      r
  }

  /** The reference encoding: the base-256 digits of `n`, most significant
      first, with zero written as one zero byte. */
  function MinimalBigEndian(n: nat): (r: seq<byte>)
    ensures |r| > 0
    ensures n > 0 ==> r[0] != 0
    ensures n < 256 <==> |r| == 1
  {
    if n < 256 then [n as byte] else MinimalBigEndian(n / 256) + [(n % 256) as byte]
  }

  /** The reference encoding denotes the number it encodes. */
  lemma {:induction false} MinimalBigEndianValue(n: nat)
    ensures BigEndianValue(MinimalBigEndian(n)) == n
  {
    if n >= 256 {
      var r := MinimalBigEndian(n);
      assert r[..|r| - 1] == MinimalBigEndian(n / 256);
      MinimalBigEndianValue(n / 256);
    }
  }

  /** Zero is one zero byte: not the empty byte string. */
  lemma MinimalBigEndianZero()
    ensures MinimalBigEndian(0) == [0]
  {
  }

  /** The reference encoding is the only byte string of value `n` without a
      leading zero byte (other than zero's single byte): it is minimal. */
  lemma {:induction false} MinimalBigEndianUnique(b: seq<byte>)
    requires |b| > 0 && (|b| == 1 || b[0] != 0)
    ensures MinimalBigEndian(BigEndianValue(b)) == b
  {
    var n := BigEndianValue(b);
    if |b| > 1 {
      var init := b[..|b| - 1];
      NonZeroLeadingByte(init);
      assert n / 256 == BigEndianValue(init) && n % 256 == b[|b| - 1] as int;
      MinimalBigEndianUnique(init);
    }
  }

  lemma {:induction false} NonZeroLeadingByte(b: seq<byte>)
    requires |b| > 0 && b[0] != 0
    ensures BigEndianValue(b) > 0
  {
    if |b| > 1 {
      NonZeroLeadingByte(b[..|b| - 1]);
    }
  }

  /** From 256 on, the hex digits of `n` are those of `n / 256` followed by
      the two digits of `n % 256`. */
  lemma HexOfNatSplit(n: nat)
    requires n >= 256
    ensures HexOfNat(n) == HexOfNat(n / 256) + [NibbleChar(n / 16 % 16), NibbleChar(n % 16)]
  {
    DivDiv(n);
  }

  lemma DivDiv(n: nat)
    ensures n / 16 / 16 == n / 256
    ensures 16 * (n / 16 % 16) + n % 16 == n % 256
  {
  }

  /** Pair decoding distributes over a split at an even position. */
  lemma HexPairsToBytesAppend(s: string, t: string)
    requires |s| % 2 == 0 && |t| % 2 == 0 && AllHexDigits(s) && AllHexDigits(t)
    ensures AllHexDigits(s + t)
    ensures HexPairsToBytes(s + t) == HexPairsToBytes(s) + HexPairsToBytes(t)
  {
    var l, r := HexPairsToBytes(s + t), HexPairsToBytes(s) + HexPairsToBytes(t);
    forall i | 0 <= i < |l| ensures l[i] == r[i] {
      if i >= |s| / 2 {
        var j := i - |s| / 2;
        assert (s + t)[2 * i] == t[2 * j] && (s + t)[2 * i + 1] == t[2 * j + 1];
      }
    }
  }

  /** The digits of `toString(16)`, left-padded with one '0' when their count
      is odd. */
  function EvenHexOfNat(n: nat): (r: string)
    ensures |r| % 2 == 0 && AllHexDigits(r)
    ensures HexValue(r) == n
  {
    var h := HexOfNat(n);
    if |h| % 2 != 0 then LeadingZeroKeepsValue(h); "0" + h else h
  }

  /** A leading '0' digit does not change the value of a hex string. */
  lemma {:induction false} LeadingZeroKeepsValue(s: string)
    requires AllHexDigits(s)
    ensures AllHexDigits("0" + s) && HexValue("0" + s) == HexValue(s)
  {
    if s != [] {
      var init := s[..|s| - 1];
      assert ("0" + s)[..|"0" + s| - 1] == "0" + init;
      LeadingZeroKeepsValue(init);
    }
  }

  /** Decoding the padded digits of `n` pair by pair yields the reference
      encoding: the hex route of `bigIntToWordArray` is the minimal
      big-endian encoding. */
  lemma {:induction false} EvenHexOfNatIsMinimalBigEndian(n: nat)
    ensures HexPairsToBytes(EvenHexOfNat(n)) == MinimalBigEndian(n)
  {
    if n < 256 {
      EvenHexOfByte(n);
    } else {
      EvenHexOfNatStep(n);
      EvenHexOfNatIsMinimalBigEndian(n / 256);
    }
  }

  lemma EvenHexOfByte(n: nat)
    requires n < 256
    ensures HexPairsToBytes(EvenHexOfNat(n)) == [n as byte]
  {
    if n < 16 {
      assert EvenHexOfNat(n) == ['0', NibbleChar(n)];
    } else {
      assert HexOfNat(n / 16) == [NibbleChar(n / 16)];
      assert EvenHexOfNat(n) == [NibbleChar(n / 16), NibbleChar(n % 16)];
    }
  }

  lemma EvenHexOfNatStep(n: nat)
    requires n >= 256
    ensures HexPairsToBytes(EvenHexOfNat(n)) == HexPairsToBytes(EvenHexOfNat(n / 256)) + [(n % 256) as byte]
  {
    var hi, lo := n / 16 % 16, n % 16;
    var pair := [NibbleChar(hi), NibbleChar(lo)];
    var em := EvenHexOfNat(n / 256);
    EvenHexOfNatSplit(n);
    HexPairsToBytesAppend(em, pair);
    PairOfNibbles(hi, lo);
    DivDiv(n);
    assert HexPairsToBytes(pair) == [(n % 256) as byte];
  }

  lemma EvenHexOfNatSplit(n: nat)
    requires n >= 256
    ensures EvenHexOfNat(n) == EvenHexOfNat(n / 256) + [NibbleChar(n / 16 % 16), NibbleChar(n % 16)]
  {
    var h, hm := HexOfNat(n), HexOfNat(n / 256);
    var pair := [NibbleChar(n / 16 % 16), NibbleChar(n % 16)];
    HexOfNatSplit(n);
    assert |h| == |hm| + 2;
    ParityPlusTwo(|hm|);
    if |hm| % 2 != 0 {
      assert EvenHexOfNat(n / 256) == "0" + hm;
      assert EvenHexOfNat(n) == "0" + h;
      assert "0" + h == ("0" + hm) + pair;
    } else {
      assert EvenHexOfNat(n / 256) == hm;
      assert EvenHexOfNat(n) == h;
    }
  }

  lemma ParityPlusTwo(k: nat)
    ensures (k + 2) % 2 == k % 2
  {
  }

  lemma PairOfNibbles(hi: nat, lo: nat)
    requires hi < 16 && lo < 16
    ensures HexPairsToBytes([NibbleChar(hi), NibbleChar(lo)]) == [(16 * hi + lo) as byte]
  {
  }

  /** `bigIntToWordArray` (utils.js:36-45): the hex digits of the number,
      padded to an even count, decoded pair by pair. The result is the
      minimal big-endian encoding of `bigInt`. */
  method BigIntToWordArray(bigInt: nat) returns (bytes: seq<byte>)
    ensures bytes == MinimalBigEndian(bigInt)
    ensures BigEndianValue(bytes) == bigInt
    ensures bigInt == 0 ==> bytes == [0]
    ensures bigInt > 0 ==> bytes[0] != 0
  {
    var hexString := HexOfNat(bigInt);
    if |hexString| % 2 != 0 {
      hexString := "0" + hexString;
    }
    EvenHexOfNatIsMinimalBigEndian(bigInt);
    MinimalBigEndianValue(bigInt);
    bytes := HexPairsToBytes(hexString);
  }
}
