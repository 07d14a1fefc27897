/**
  The trivial encoder: every input byte becomes the literal token `(0, b)`.
  It never compresses and never fails, and it is the baseline against which
  the token format is checked.
 */
module SimpleEncoder {
  import opened Bytes
  import opened Decoder

  /** The literal-token encoding of `x`, as a flat byte string. */
  function Literals(x: seq<byte>): (r: seq<byte>)
    ensures |r| == 2 * |x|
  {
    if x == [] then [] else [0, x[0]] + Literals(x[1..])
  }

  /** Every input byte `x[k]` sits at odd position `2k + 1`, after a zero at `2k`. */
  lemma {:induction false} LiteralsLayout(x: seq<byte>)
    ensures forall k :: 0 <= k < |x| ==> Literals(x)[2 * k] == 0 && Literals(x)[2 * k + 1] == x[k]
    decreases |x|
  {
    if x != [] {
      LiteralsLayout(x[1..]);
      var r, tail := Literals(x), Literals(x[1..]);
      assert r == [0, x[0]] + tail;
      forall k | 1 <= k < |x| ensures r[2 * k] == 0 && r[2 * k + 1] == x[k] {
        assert r[2 * k] == tail[2 * (k - 1)] && r[2 * k + 1] == tail[2 * (k - 1) + 1];
        assert x[k] == x[1..][k - 1];
      }
    }
  }

  /** Emits one literal token per input byte. */
  method EncodeSimple(byteStr: seq<byte>) returns (r: seq<byte>)
    ensures r == Literals(byteStr)
  {
    var result: seq<byte> := [];
    for k := 0 to |byteStr|
      invariant result + Literals(byteStr[k..]) == Literals(byteStr)
    {
      var b := byteStr[k];
      assert byteStr[k..][1..] == byteStr[k + 1..];
      assert Literals(byteStr[k..]) == [0, b] + Literals(byteStr[k + 1..]);
      result := result + [0, b];
    }
    r := result;
  }

  /** Literal tokens decode to exactly the bytes they carry, after what is already decoded. */
  lemma {:induction false} DecodeLiterals(x: seq<byte>, out: seq<byte>)
    ensures DecodeFrom(Literals(x), out) == out + x
    decreases |x|
  {
    if x == [] {
    } else {
      var lits, rest := Literals(x), Literals(x[1..]);
      assert lits == [0, x[0]] + rest;
      assert lits[0] == 0 && lits[1] == x[0] && lits[2..] == rest;
      assert DecodeFrom(lits, out) == DecodeFrom(rest, out + [x[0]]);
      DecodeLiterals(x[1..], out + [x[0]]);
      assert out + [x[0]] + x[1..] == out + x;
    }
  }

  /** The trivial encoder round-trips every byte string through the decoder. */
  lemma EncodeSimpleRoundTrip(x: seq<byte>)
    ensures Decoded(Literals(x)) == x
  {
    DecodeLiterals(x, []);
  }

  /** The `badass` example: `decode(encode_simple(b'badass')) == b'badass'`. */
  lemma EncodeSimpleBadass()
    ensures Decoded(Literals([0x62, 0x61, 0x64, 0x61, 0x73, 0x73])) == [0x62, 0x61, 0x64, 0x61, 0x73, 0x73]
  {
    EncodeSimpleRoundTrip([0x62, 0x61, 0x64, 0x61, 0x73, 0x73]);
  }
}
