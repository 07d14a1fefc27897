/**
  The decoding side of the back-reference codec.

  The wire format is a flat run of two-byte tokens `(p, q)`. A token with
  `p == 0` is the literal byte `q`; a token with `p > 0` takes the last `p`
  bytes of the output produced so far and appends the first `q` of them.
  The decoder reads its input two bytes at a time; a dangling last byte
  cannot form a pair and is replaced by one placeholder byte `?`.
 */
module Decoder {
  import opened Bytes

  /** The byte `?` appended in place of a pair that cannot be decoded. */
  const Placeholder: byte := 0x3F

  /**
    The output after applying token `(p, q)` to `out`. A back-reference
    looks at a window of the last `min(p, |out|)` bytes and appends the first
    `min(q, window)` of them: never more than the window holds, and never
    past the end of the buffer, so the copy does not overlap itself.
   */
  function ApplyPair(out: seq<byte>, p: byte, q: byte): (r: seq<byte>)
    ensures |out| <= |r| && r[..|out|] == out
    ensures p == 0 ==> r == out + [q]
    ensures p > 0 ==> |r| == |out| + Min(Min(p, q), |out|)
  {
    if p == 0 then out + [q]
    else
      var start := |out| - Min(p, |out|);
      out + out[start..start + Min(Min(p, q), |out|)]
  }

  /** The chunk the next two-byte read returns: two bytes, or fewer at the end of the input. */
  function NextChunk(input: seq<byte>): (r: seq<byte>)
    ensures |r| == Min(2, |input|) && r == input[..|r|]
  {
    input[..Min(2, |input|)]
  }

  /**
    Decoding the rest of the input, `input`, onto the output `out` produced
    so far: each complete pair is applied as a token, and a dangling last
    byte, which cannot be unpacked into a pair, adds one placeholder.
   */
  function DecodeFrom(input: seq<byte>, out: seq<byte>): (r: seq<byte>)
    ensures |out| <= |r| && r[..|out|] == out
    decreases |input|
  {
    if |input| == 0 then out
    else if |input| == 1 then out + [Placeholder]
    else DecodeFrom(input[2..], ApplyPair(out, input[0], input[1]))
  }

  /**
    What decoding the byte string `input` produces: nothing for an empty
    input, and an output ending in the placeholder for an odd-length one.
   */
  function Decoded(input: seq<byte>): (r: seq<byte>)
    ensures input == [] ==> r == []
    ensures |input| % 2 == 1 ==> |r| > 0 && r[|r| - 1] == Placeholder
  {
    DecodeFromOdd(input, []);
    DecodeFrom(input, [])
  }

  /** An odd number of remaining bytes leaves a dangling last byte, so the output ends with the placeholder. */
  lemma {:induction false} DecodeFromOdd(input: seq<byte>, out: seq<byte>)
    ensures |input| % 2 == 1 ==>
      |out| < |DecodeFrom(input, out)| && DecodeFrom(input, out)[|DecodeFrom(input, out)| - 1] == Placeholder
    decreases |input|
  {
    if |input| >= 2 {
      var next, rest := ApplyPair(out, input[0], input[1]), input[2..];
      assert |rest| % 2 == |input| % 2 by { assert |rest| + 2 == |input|; }
      DecodeFromOdd(rest, next);
      assert DecodeFrom(input, out) == DecodeFrom(rest, next) && |out| <= |next|;
    }
  }

  /** The growing output list that the pair decoder extends in place. */
  class Output {
    var bytes: seq<byte>

    constructor ()
      ensures bytes == []
    {
      bytes := [];
    }

    /** `list.append` of one byte. */
    method Append(b: byte)
      modifies this
      ensures bytes == old(bytes) + [b]
    {
      bytes := bytes + [b];
    }

    /**
      Applies one chunk as a token. `ok` is false exactly when the chunk
      cannot be unpacked into two values, in which case nothing changes.
     */
    method DecodePair(pair: seq<byte>) returns (ok: bool)
      modifies this
      ensures ok <==> |pair| == 2
      ensures ok ==> bytes == ApplyPair(old(bytes), pair[0], pair[1])
      ensures !ok ==> bytes == old(bytes)
    {
      if |pair| != 2 {
        return false;
      }
      var p, q := pair[0], pair[1];
      if p == 0 {
        Append(q);
      } else {
        var copied := Prefix(Suffix(bytes, p), q);
        assert copied == bytes[|bytes| - Min(p, |bytes|)..][..|copied|];
        bytes := bytes + copied;
      }
      ok := true;
    }
  }

  /** Reads `incoming` two bytes at a time until a read comes back empty. */
  method DecodeByteStream(incoming: seq<byte>) returns (r: seq<byte>)
    ensures r == Decoded(incoming)
  {
    var result := new Output();
    var pos := 0;
    while true
      invariant 0 <= pos <= |incoming|
      invariant DecodeFrom(incoming[pos..], result.bytes) == Decoded(incoming)
      decreases |incoming| - pos
    {
      var pair := NextChunk(incoming[pos..]);
      if |pair| == 0 {
        break;
      }
      DecodeFromChunk(incoming[pos..], result.bytes);
      var ok := result.DecodePair(pair);
      if !ok {
        result.Append(Placeholder);
      }
      assert incoming[pos..][|pair|..] == incoming[pos + |pair|..];
      pos := pos + |pair|;
    }
    r := result.bytes;
  }

  /**
    One read of the stream: a chunk of two bytes is applied as a token, a
    shorter one adds a placeholder, and decoding goes on after the chunk.
   */
  lemma DecodeFromChunk(input: seq<byte>, out: seq<byte>)
    requires |input| > 0
    ensures var pair := NextChunk(input);
      DecodeFrom(input, out) ==
        DecodeFrom(input[|pair|..], if |pair| == 2 then ApplyPair(out, pair[0], pair[1]) else out + [Placeholder])
  {
  }

  /** Decodes a whole byte string held in memory. */
  method Decode(byteStr: seq<byte>) returns (r: seq<byte>)
    ensures r == Decoded(byteStr)
  {
    r := DecodeByteStream(byteStr);
  }

  /** Decoding a concatenation whose first part is whole pairs decodes the parts in turn. */
  lemma {:induction false} DecodeFromConcat(x: seq<byte>, y: seq<byte>, out: seq<byte>)
    requires |x| % 2 == 0
    ensures DecodeFrom(x + y, out) == DecodeFrom(y, DecodeFrom(x, out))
    decreases |x|
  {
    if |x| == 0 {
      assert x + y == y;
    } else {
      assert (x + y)[2..] == x[2..] + y;
      DecodeFromConcat(x[2..], y, ApplyPair(out, x[0], x[1]));
    }
  }

  /** Reading the `k`-th complete pair of `input` takes the output from `out` to `next`, the pair applied to it. */
  lemma DecodeFromPairAt(input: seq<byte>, k: nat, out: seq<byte>, next: seq<byte>)
    requires 2 * k + 2 <= |input| && next == ApplyPair(out, input[2 * k], input[2 * k + 1])
    ensures DecodeFrom(input[2 * k..], out) == DecodeFrom(input[2 * k + 2..], next)
  {
    assert input[2 * k..][2..] == input[2 * k + 2..];
  }

  /** A complete pair is always applied as a token, never replaced by a placeholder. */
  lemma DecodedAppendPair(x: seq<byte>, p: byte, q: byte)
    requires |x| % 2 == 0
    ensures Decoded(x + [p, q]) == ApplyPair(Decoded(x), p, q)
  {
    DecodeFromConcat(x, [p, q], []);
    assert [p, q][2..] == [];
  }

  /** A dangling last byte contributes exactly one placeholder, after which decoding stops. */
  lemma DecodedTrailingByte(x: seq<byte>, b: byte)
    requires |x| % 2 == 0
    ensures Decoded(x + [b]) == Decoded(x) + [Placeholder]
  {
    DecodeFromConcat(x, [b], []);
    assert [b][1..] == [];
  }

  /** Decoding only ever appends: a prefix of the input decodes to a prefix of the output. */
  lemma DecodedPrefix(x: seq<byte>, y: seq<byte>)
    requires |x| % 2 == 0
    ensures |Decoded(x)| <= |Decoded(x + y)|
    ensures Decoded(x + y)[..|Decoded(x)|] == Decoded(x)
  {
    DecodeFromConcat(x, y, []);
  }

  /** Once the output produced so far parts from `s`, no further input can bring decoding back to `s`. */
  lemma DecodeFromKeepsMismatch(input: seq<byte>, out: seq<byte>, s: seq<byte>)
    requires |out| <= |s| && out != s[..|out|]
    ensures DecodeFrom(input, out) != s
  {
  }

  /**
    A back-reference reaching past the start of the output takes the whole
    output as its window, and copies the first `q` bytes of it: all of it
    when `q` is at least its length.
   */
  lemma WindowClampsToBuffer(out: seq<byte>, p: byte, q: byte)
    requires |out| < p
    ensures ApplyPair(out, p, q) == out + out[..Min(q, |out|)]
    ensures |out| <= q ==> ApplyPair(out, p, q) == out + out
  {
  }

  /** A back-reference asking for more bytes than its distance copies only `p` bytes. */
  lemma CopyTruncatesToDistance(out: seq<byte>, p: byte, q: byte)
    requires 0 < p <= |out| && p < q
    ensures ApplyPair(out, p, q) == out + out[|out| - p..]
  {
  }
}
