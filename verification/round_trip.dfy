/**
  What the decoder makes of the matching encoder's output.

  The round trip `decode(encode(s)) == s` does not hold for every input. A
  one-byte back-reference always copies the right byte, since its source is
  an occurrence of the byte at the cursor. A longer run, copied from the
  start of the input, ends at the first length at which the encoder's inner
  loop guard fails, so only its first `n - 1` bytes are known to match the
  bytes they stand for; the last one was either never compared or compared
  and found to differ. The round trip holds exactly when, for every
  back-reference the encoder emits, that last byte happens to agree.
 */
module RoundTrip {
  import opened Bytes
  import opened Decoder
  import opened MatchingEncoder

  /**
    What the encoder knows about the token it emits at `i`: a literal
    carries the byte at `i`; a back-reference stays inside the input, and a
    run longer than one byte copies from the start of the input, all but its
    last byte having been compared there.
   */
  predicate WellShaped(s: seq<byte>, i: nat, t: Token)
    requires i < |s|
  {
    match t
    case Literal(b) => b == s[i]
    case Backref(d, length) =>
      1 <= d <= i && 1 <= length && i + length <= |s| &&
      (length > 1 ==> d == i && length <= i - 1 && RunRepeats(s, i, length))
  }

  /** All but the last byte of the run of `length` bytes at `i` repeat the start of `s`. */
  predicate RunRepeats(s: seq<byte>, i: nat, length: nat)
    requires 1 <= length <= i && i + length <= |s|
  {
    s[..length - 1] == s[i..i + length - 1]
  }

  /** Every token the encoder emits is well shaped at its cursor. */
  lemma TokenAtWellShaped(s: seq<byte>, i: nat)
    requires i < |s|
    ensures WellShaped(s, i, TokenAt(s, i))
  {
    TokenAtRun(s, i);
  }

  /** The last byte a token at cursor `i` makes the decoder copy is the byte at the end of its run. */
  predicate LastByteAgrees(s: seq<byte>, i: nat, t: Token)
    requires i < |s|
    requires t.Backref? ==> 1 <= t.distance <= i && 1 <= t.length && i + t.length <= |s|
  {
    match t
    case Literal(_) => true
    case Backref(distance, length) => s[i - distance + length - 1] == s[i + length - 1]
  }

  /** A one-byte back-reference the encoder emits always copies the byte it stands for. */
  lemma OneByteBackrefAgrees(s: seq<byte>, i: nat)
    requires i < |s|
    ensures var t := TokenAt(s, i);
      t.Backref? && t.length == 1 ==> LastByteAgrees(s, i, t)
  {
    TokenAtSource(s, i);
  }

  /**
    The tokens `ts`, read from cursor `i` on, are each well shaped at their
    own cursor and together span exactly the rest of `s`.
   */
  predicate ShapedFrom(s: seq<byte>, i: nat, ts: seq<Token>)
    requires i <= |s|
    decreases |ts|
  {
    if ts == [] then i == |s|
    else
      i < |s| && WellShaped(s, i, ts[0]) && i + Span(ts[0]) <= |s| &&
      ShapedFrom(s, i + Span(ts[0]), ts[1..])
  }

  /** Every token of `ts`, read from cursor `i` on, passes `LastByteAgrees`. */
  predicate AllAgree(s: seq<byte>, i: nat, ts: seq<Token>)
    requires i <= |s| && ShapedFrom(s, i, ts)
    decreases |ts|
  {
    ts == [] || (LastByteAgrees(s, i, ts[0]) && AllAgree(s, i + Span(ts[0]), ts[1..]))
  }

  /** The tokens from a cursor before the end start with the token at the cursor, followed by those after its run. */
  lemma TokensFromHead(s: seq<byte>, i: nat)
    requires i < |s|
    ensures var ts := TokensFrom(s, i);
      ts != [] && ts[0] == TokenAt(s, i) && ts[1..] == TokensFrom(s, i + Span(TokenAt(s, i)))
  {
    var t := TokenAt(s, i);
    assert ([t] + TokensFrom(s, i + Span(t)))[1..] == TokensFrom(s, i + Span(t));
  }

  /** The tokens the encoder emits from cursor `i` on are well shaped and span the rest of the input. */
  lemma {:induction false} TokensShaped(s: seq<byte>, i: nat)
    requires i <= |s|
    ensures ShapedFrom(s, i, TokensFrom(s, i))
    decreases |s| - i
  {
    if i < |s| {
      TokensFromHead(s, i);
      TokenAtWellShaped(s, i);
      TokensShaped(s, i + Span(TokenAt(s, i)));
    }
  }

  /**
    For every back-reference `encode(s)` emits, the last byte the decoder
    copies is the byte it stands for.
   */
  predicate LastBytesAgree(s: seq<byte>) {
    ShapedFrom(s, 0, Tokens(s)) && AllAgree(s, 0, Tokens(s))
  }

  /**
    A back-reference `(d, length)` with `length <= d`, applied to a correctly
    decoded prefix `s[..i]`, appends the `length` bytes starting `d` bytes
    back, without overlapping the bytes it is appending.
   */
  lemma CopyAppends(s: seq<byte>, i: nat, d: byte, length: byte)
    requires 1 <= d <= i && 1 <= length <= d && i + length <= |s|
    ensures ApplyPair(s[..i], d, length) == s[..i] + s[i - d..i - d + length]
  {
    var out := ApplyPair(s[..i], d, length);
    assert Min(Min(d, length), i) == length;
    assert out[..i] == s[..i];
    assert out[i..] == s[i - d..i - d + length];
    assert out == out[..i] + out[i..];
  }

  /**
    Appending a copy of `length` bytes from `d` bytes back reproduces
    `s[..i + length]` exactly when the last copied byte agrees, provided all
    the others already do.
   */
  lemma CopyReproducesIff(s: seq<byte>, i: nat, d: nat, length: nat)
    requires 1 <= d <= i && 1 <= length && i + length <= |s|
    requires s[i - d..i - d + length - 1] == s[i..i + length - 1]
    ensures s[..i] + s[i - d..i - d + length] == s[..i + length] <==> s[i - d + length - 1] == s[i + length - 1]
  {
    var src, dst := s[i - d..i - d + length], s[i..i + length];
    assert s[..i + length] == s[..i] + dst;
    if src[length - 1] == dst[length - 1] {
      assert src == src[..length - 1] + [src[length - 1]];
      assert dst == dst[..length - 1] + [dst[length - 1]];
      assert src[..length - 1] == s[i - d..i - d + length - 1];
      assert dst[..length - 1] == s[i..i + length - 1];
    } else {
      assert (s[..i] + src)[i + length - 1] != s[..i + length][i + length - 1];
    }
  }

  /** A literal token for the byte at `i`, applied to a correctly decoded prefix, reproduces that byte. */
  lemma LiteralReproduces(s: seq<byte>, i: nat)
    requires i < |s|
    ensures ApplyPair(s[..i], 0, s[i]) == s[..i + 1]
  {
    assert s[..i] + [s[i]] == s[..i + 1];
  }

  /**
    A back-reference as the encoder shapes it, applied to a correctly decoded
    prefix, reproduces its run exactly when the last byte it copies is the
    one at the end of the run.
   */
  lemma BackrefReproducesIff(s: seq<byte>, i: nat, d: byte, length: byte)
    requires 1 <= d <= i && 1 <= length && i + length <= |s|
    requires length > 1 ==> d == i && length <= i - 1 && s[..length - 1] == s[i..i + length - 1]
    ensures |ApplyPair(s[..i], d, length)| == i + length
    ensures ApplyPair(s[..i], d, length) == s[..i + length] <==> s[i - d + length - 1] == s[i + length - 1]
  {
    if length > 1 {
      assert s[i - d..i - d + length - 1] == s[..length - 1];
    }
    CopyAppends(s, i, d, length);
    CopyReproducesIff(s, i, d, length);
  }

  /**
    Applied to a correctly decoded prefix, a well-shaped token at `i`
    reproduces its run exactly when its last copied byte agrees.
   */
  lemma ApplyTokenIff(s: seq<byte>, i: nat, t: Token)
    requires i < |s| && WellShaped(s, i, t) && Representable(t)
    ensures var out := ApplyPair(s[..i], TokenInts(t)[0], TokenInts(t)[1]);
      |out| == i + Span(t) && (out == s[..i + Span(t)] <==> LastByteAgrees(s, i, t))
  {
    match t
    case Literal(b) =>
      assert TokenInts(t) == [0, s[i]];
      LiteralReproduces(s, i);
    case Backref(d, length) =>
      assert TokenInts(t) == [d, length];
      assert LastByteAgrees(s, i, t) <==> s[i - d + length - 1] == s[i + length - 1];
      BackrefReproducesIff(s, i, d, length);
  }

  /**
    One decoding step over the two bytes of a well-shaped token, after a
    correctly decoded prefix: when the token's last byte agrees, decoding
    goes on from the prefix that also holds the token's run; otherwise the
    result is not `s`, whatever follows.
   */
  lemma DecodeTokenStep(s: seq<byte>, i: nat, t: Token, raw: seq<byte>)
    requires i < |s| && WellShaped(s, i, t) && Representable(t)
    requires |raw| >= 2 && TokenInts(t) == [raw[0], raw[1]]
    ensures LastByteAgrees(s, i, t) ==> DecodeFrom(raw, s[..i]) == DecodeFrom(raw[2..], s[..i + Span(t)])
    ensures !LastByteAgrees(s, i, t) ==> DecodeFrom(raw, s[..i]) != s
  {
    ApplyTokenIff(s, i, t);
    var out := ApplyPair(s[..i], raw[0], raw[1]);
    assert DecodeFrom(raw, s[..i]) == DecodeFrom(raw[2..], out);
    if !LastByteAgrees(s, i, t) {
      DecodeFromKeepsMismatch(raw[2..], out, s);
    }
  }

  /**
    Decoding the pairs of tokens `ts` that are well shaped from cursor `i`
    on, after a correctly decoded prefix `s[..i]`, gives back `s` exactly
    when every one of them agrees.
   */
  lemma {:induction false} DecodeTokens(s: seq<byte>, i: nat, ts: seq<Token>, raw: seq<byte>)
    requires i <= |s| && ShapedFrom(s, i, ts) && raw == Flatten(ts)
    ensures DecodeFrom(raw, s[..i]) == s <==> AllAgree(s, i, ts)
    decreases |ts|
  {
    if ts == [] {
      assert raw == [];
      assert s[..i] == s;
    } else {
      var next := i + Span(ts[0]);
      assert WellShaped(s, i, ts[0]) && next <= |s| && ShapedFrom(s, next, ts[1..]);
      assert AllAgree(s, i, ts) <==> LastByteAgrees(s, i, ts[0]) && AllAgree(s, next, ts[1..]);
      LeadingToken(ts, raw);
      DecodeTokenStep(s, i, ts[0], raw);
      if LastByteAgrees(s, i, ts[0]) {
        DecodeTokens(s, next, ts[1..], raw[2..]);
      }
    }
  }

  /**
    The round trip of the matching encoder holds for an input that encodes
    at all exactly when every back-reference's last copied byte agrees.
   */
  lemma RoundTripIff(s: seq<byte>)
    requires Encoded(s).Ok?
    ensures Decoded(Encoded(s).value) == s <==> LastBytesAgree(s)
  {
    EncodedFailsIff(s);
    TokensShaped(s, 0);
    assert s[..0] == [];
    DecodeTokens(s, 0, Tokens(s), Encoded(s).value);
  }
}
