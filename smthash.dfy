/** The hashing combinator `smthash`: every argument is turned into bytes by
    its runtime kind, the bytes are appended left to right into one buffer,
    and that buffer is hashed once with SHA-256. The SHA-256 function itself
    is a parameter. */
module SmtHash {
  import opened Types
  import Hex
  import BigInt
  import Utf8

  /** The runtime kinds `smthash` distinguishes: `Int` is a BigInt, `Str` a
      string, `Bytes` a WordArray; `Other` stands for every other JavaScript
      value (a Number, `undefined`, a plain object, ...) except a negative
      BigInt, which is not modelled. */
  datatype Arg = Int(n: nat) | Str(s: string) | Null | Bytes(b: seq<byte>) | Other

  /** The bytes one argument contributes, or `None` when it is rejected. */
  function Encoding(a: Arg): (r: Option<seq<byte>>)
    ensures r.None? <==> a.Other?
  {
    match a
    case Int(n) => Some(BigInt.MinimalBigEndian(n))
    case Str(s) => Some(Utf8.StringToWordArray(s))
    case Null => Some(BigInt.MinimalBigEndian(0))
    case Bytes(b) => Some(b)
    case Other => None
  }

  /** What each accepted kind contributes: a BigInt bytes whose big-endian
      value is the number, with no leading zero byte; `null` the byte 0x00;
      a string bytes that decode as UTF-8 to the string; a WordArray itself. */
  lemma EncodingMeaning(a: Arg)
    ensures a.Int? ==> BigInt.BigEndianValue(Encoding(a).value) == a.n
                       && (a.n > 0 ==> Encoding(a).value[0] != 0)
    ensures a.Null? ==> Encoding(a) == Some([0])
    ensures a.Str? ==> Utf8.Utf8Decode(Encoding(a).value) == Some(a.s)
    ensures a.Bytes? ==> Encoding(a) == Some(a.b)
  {
    match a
    case Int(n) => BigInt.MinimalBigEndianValue(n);
    case Str(s) => Utf8.Utf8RoundTrip(s);
    case _ =>
  }

  /** Every argument is of a kind `smthash` accepts. */
  predicate AllSupported(inputs: seq<Arg>) {
    forall i :: 0 <= i < |inputs| ==> !inputs[i].Other?
  }

  /** The buffer `smthash` hashes: the left fold of `inputs` that appends
      each argument's bytes to the accumulator, failing at a rejected one. */
  function Concatenation(inputs: seq<Arg>): (r: Result<seq<byte>>)
    ensures r.Failure? ==> r.error == InvalidInput
    ensures r.Success? ==> AllSupported(inputs)
    decreases |inputs|
  {
    if inputs == [] then Success([])
    else
      match Concatenation(inputs[..|inputs| - 1])
      case Failure(e) => Failure(e)
      case Success(acc) =>
        match Encoding(inputs[|inputs| - 1])
        case None => Failure(InvalidInput)
        case Some(bytes) => Success(acc + bytes)
  }

  /** The buffer fails exactly when some argument is of an unsupported kind,
      and the failure is always `InvalidInput`. */
  lemma {:induction false} ConcatenationFails(inputs: seq<Arg>)
    ensures Concatenation(inputs).Failure? <==> exists i :: 0 <= i < |inputs| && inputs[i].Other?
    ensures Concatenation(inputs).Failure? ==> Concatenation(inputs).error == InvalidInput
  {
    if inputs != [] {
      var init := inputs[..|inputs| - 1];
      ConcatenationFails(init);
      if exists i :: 0 <= i < |init| && init[i].Other? {
        var i :| 0 <= i < |init| && init[i].Other?;
        assert inputs[i].Other?;
      }
      if exists i :: 0 <= i < |inputs| && inputs[i].Other? {
        var i :| 0 <= i < |inputs| && inputs[i].Other?;
        if i < |init| {
          assert init[i].Other?;
        }
      }
    }
  }

  /** Two buffers one after the other; a failure of either is the failure. */
  function Join(front: Result<seq<byte>>, back: Result<seq<byte>>): Result<seq<byte>> {
    if front.Success? && back.Success? then Success(front.value + back.value) else Failure(InvalidInput)
  }

  /** Concatenating argument lists concatenates their buffers: `smthash` works
      on bytes, not on argument boundaries. */
  lemma {:induction false} ConcatenationAppend(xs: seq<Arg>, ys: seq<Arg>)
    ensures Concatenation(xs + ys) == Join(Concatenation(xs), Concatenation(ys))
  {
    if ys == [] {
      assert xs + ys == xs;
      if Concatenation(xs).Success? {
        assert Concatenation(xs).value + [] == Concatenation(xs).value;
      }
    } else {
      var init, last := ys[..|ys| - 1], ys[|ys| - 1];
      assert ys == init + [last];
      assert xs + ys == (xs + init) + [last];
      ConcatenationAppend(xs, init);
      ConcatenationSnoc(xs + init, last);
      ConcatenationSnoc(init, last);
      var front, mid := Concatenation(xs), Concatenation(init);
      if front.Success? && mid.Success? && !last.Other? {
        var e := Encoding(last).value;
        assert (front.value + mid.value) + e == front.value + (mid.value + e);
      }
    }
  }

  /** Appending one argument appends its bytes, or fails. */
  lemma ConcatenationSnoc(inputs: seq<Arg>, a: Arg)
    ensures Concatenation(inputs + [a]) ==
              if Concatenation(inputs).Failure? || a.Other? then Failure(InvalidInput)
              else Success(Concatenation(inputs).value + Encoding(a).value)
  {
    assert (inputs + [a])[..|inputs|] == inputs;
  }

  /** The buffer depends on the arguments only through their encodings. */
  lemma {:induction false} SameEncodingsSameBuffer(xs: seq<Arg>, ys: seq<Arg>)
    requires |xs| == |ys|
    requires forall i :: 0 <= i < |xs| ==> Encoding(xs[i]) == Encoding(ys[i])
    ensures Concatenation(xs) == Concatenation(ys)
  {
    if xs != [] {
      SameEncodingsSameBuffer(xs[..|xs| - 1], ys[..|ys| - 1]);
    }
  }

  /** A null argument in any position contributes what `0n` contributes. */
  lemma NullIsZero(inputs: seq<Arg>, i: nat)
    requires i < |inputs|
    ensures Concatenation(inputs[i := Null]) == Concatenation(inputs[i := Int(0)])
  {
    SameEncodingsSameBuffer(inputs[i := Null], inputs[i := Int(0)]);
  }

  /** Two arguments next to each other in the middle of a list may be
      replaced by one whose encoding is the concatenation of theirs. */
  lemma MergeAdjacent(xs: seq<Arg>, a1: Arg, a2: Arg, m: Arg, ys: seq<Arg>)
    requires !a1.Other? && !a2.Other? && !m.Other?
    requires Encoding(m).value == Encoding(a1).value + Encoding(a2).value
    ensures Concatenation(xs + [a1, a2] + ys) == Concatenation(xs + [m] + ys)
  {
    var l, r := xs + [a1, a2] + ys, xs + [m] + ys;
    ConcatenationAppend(xs + [a1, a2], ys);
    ConcatenationAppend(xs, [a1, a2]);
    ConcatenationAppend(xs + [m], ys);
    ConcatenationAppend(xs, [m]);
    ConcatenationAppend([a1], [a2]);
    assert [a1] + [a2] == [a1, a2];
    SingleArgument(a1);
    SingleArgument(a2);
    SingleArgument(m);
    ConcatenationFails(l);
    ConcatenationFails(r);
  }

  /** Two adjacent byte arguments give the buffer of their concatenation. */
  lemma AdjacentBytesMerge(xs: seq<Arg>, b1: seq<byte>, b2: seq<byte>, ys: seq<Arg>)
    ensures Concatenation(xs + [Bytes(b1), Bytes(b2)] + ys) == Concatenation(xs + [Bytes(b1 + b2)] + ys)
  {
    MergeAdjacent(xs, Bytes(b1), Bytes(b2), Bytes(b1 + b2), ys);
  }

  /** Two adjacent string arguments give the buffer of the joined string. */
  lemma AdjacentStringsMerge(xs: seq<Arg>, s: string, t: string, ys: seq<Arg>)
    ensures Concatenation(xs + [Str(s), Str(t)] + ys) == Concatenation(xs + [Str(s + t)] + ys)
  {
    Utf8.StringToWordArrayAppend(s, t);
    MergeAdjacent(xs, Str(s), Str(t), Str(s + t), ys);
  }

  /** A single argument's buffer is its own encoding; with no argument at all
      the buffer is empty. */
  lemma SingleArgument(a: Arg)
    ensures Concatenation([]) == Success([])
    ensures Concatenation([a]) == if a.Other? then Failure(InvalidInput) else Success(Encoding(a).value)
  {
    assert [a][..0] == [];
    if !a.Other? {
      assert [] + Encoding(a).value == Encoding(a).value;
    }
  }

  /** `null` and `0n` both hash the single byte 0x00; `1n` hashes 0x01. */
  lemma SmallIntegerBuffers()
    ensures Concatenation([Null]) == Success([0]) && Concatenation([Int(0)]) == Success([0])
    ensures Concatenation([Int(1)]) == Success([1])
  {
    SingleArgument(Null);
    SingleArgument(Int(0));
    SingleArgument(Int(1));
  }

  /** "abc" hashes its UTF-8 bytes 0x61 0x62 0x63. */
  lemma AbcBuffer()
    ensures Concatenation([Str("abc")]) == Success([0x61, 0x62, 0x63])
  {
    SingleArgument(Str("abc"));
    Utf8.AsciiEncoding("abc");
    var e := Utf8.StringToWordArray("abc");
    assert e[0] == 0x61 && e[1] == 0x62 && e[2] == 0x63;
    assert e == [0x61, 0x62, 0x63];
  }

  /** The hex texts "ab" and "cd", decoded and passed as two byte arguments,
      give the buffer of "abcd" decoded and passed as one. */
  lemma HexPiecesBuffer()
    ensures Hex.HexToWordArray("ab").Success? && Hex.HexToWordArray("cd").Success?
    ensures Hex.HexToWordArray("abcd").Success?
    ensures Concatenation([Bytes(Hex.HexToWordArray("ab").value), Bytes(Hex.HexToWordArray("cd").value)])
         == Concatenation([Bytes(Hex.HexToWordArray("abcd").value)])
         == Success([0xab, 0xcd])
  {
    var ab, cd := Hex.HexToWordArray("ab").value, Hex.HexToWordArray("cd").value;
    assert ab == [0xab] && cd == [0xcd];
    assert Hex.HexToWordArray("abcd").value == [0xab, 0xcd] == ab + cd;
    AdjacentBytesMerge([], ab, cd, []);
    SingleArgument(Bytes(ab + cd));
    assert [] + [Bytes(ab), Bytes(cd)] + [] == [Bytes(ab), Bytes(cd)];
    assert [] + [Bytes(ab + cd)] + [] == [Bytes(ab + cd)];
  }

  /** `smthash` (utils.js:11-33): appends the bytes of every argument in
      order into one buffer, throwing `InvalidInput` at the first argument of
      an unsupported kind, and hashes the buffer once. */
  method Smthash(sha256: seq<byte> -> seq<byte>, inputs: seq<Arg>) returns (r: Result<seq<byte>>)
    ensures Concatenation(inputs).Success? ==> r == Success(sha256(Concatenation(inputs).value))
    ensures r.Failure? <==> exists i :: 0 <= i < |inputs| && inputs[i].Other?
    ensures r.Failure? ==> r.error == InvalidInput
  {
    ConcatenationFails(inputs);
    var acc: seq<byte> := [];
    var i := 0;
    while i < |inputs|
      invariant 0 <= i <= |inputs|
      invariant Concatenation(inputs[..i]) == Success(acc)
    {
      var input := inputs[i];
      var bytes: seq<byte>;
      match input {
        case Int(n) =>
          bytes := BigInt.BigIntToWordArray(n);
        case Str(s) =>
          bytes := Utf8.StringToWordArray(s);
        case Null =>
          bytes := BigInt.BigIntToWordArray(0);
        case Bytes(b) =>
          bytes := b;
        case Other =>
          assert inputs[i].Other?;
          return Failure(InvalidInput);
      }
      assert inputs[..i + 1][..i] == inputs[..i];
      acc := acc + bytes;
      i := i + 1;
    }
    assert inputs[..i] == inputs;
    r := Success(sha256(acc));
  }
}
