/**
  The examples written down next to the codec, worked through the model:
  the two decoding examples, the three round trips of the matching encoder
  that succeed, a run grown by two passes of the inner loop, two inputs
  whose round trip fails because the last byte of a back-reference does
  not match the byte it stands for, and an input whose encoding fails.
  Each input is described by its bytes one index at a time, and each lemma
  holds for every byte string equal to it.
 */
module Doctests {
  import opened Bytes
  import opened Decoder
  import opened MatchingEncoder
  import opened RoundTrip

  // ---- decoding examples ----

  /** `decode(bytes([0, 0x61, 1, 1, 0, 0x62, 3, 2, 3, 3])) == b'aabaabaa'`. */
  lemma DecodeAabaabaaExample(e: seq<byte>)
    requires |e| == 10 && e[0] == 0 && e[1] == 0x61 && e[2] == 1 && e[3] == 1 && e[4] == 0 && e[5] == 0x62
    requires e[6] == 3 && e[7] == 2 && e[8] == 3 && e[9] == 3
    ensures Decoded(e) == [0x61, 0x61, 0x62, 0x61, 0x61, 0x62, 0x61, 0x61]
  {
    assert e[0..] == e;
    DecodeFromPairAt(e, 0, [], [0x61]);
    DecodeFromPairAt(e, 1, [0x61], [0x61, 0x61]);
    DecodeFromPairAt(e, 2, [0x61, 0x61], [0x61, 0x61, 0x62]);
    DecodeFromPairAt(e, 3, [0x61, 0x61, 0x62], [0x61, 0x61, 0x62, 0x61, 0x61]);
    DecodeFromPairAt(e, 4, [0x61, 0x61, 0x62, 0x61, 0x61], [0x61, 0x61, 0x62, 0x61, 0x61, 0x62, 0x61, 0x61]);
    assert e[10..] == [];
  }

  /** `decode(bytes([0, 0x20, 0, 0x2A, 2, 1, 0xFF])) == b' * ?'`: the dangling 0xFF becomes `?`. */
  lemma DecodeDanglingExample(e: seq<byte>)
    requires |e| == 7 && e[0] == 0 && e[1] == 0x20 && e[2] == 0 && e[3] == 0x2A && e[4] == 2 && e[5] == 1
    requires e[6] == 0xFF
    ensures Decoded(e) == [0x20, 0x2A, 0x20, Placeholder]
  {
    assert e[0..] == e;
    DecodeFromPairAt(e, 0, [], [0x20]);
    DecodeFromPairAt(e, 1, [0x20], [0x20, 0x2A]);
    DecodeFromPairAt(e, 2, [0x20, 0x2A], [0x20, 0x2A, 0x20]);
    assert |e[6..]| == 1;
  }

  // ---- b'aabaabaa' ----

  /** `s` is `b'aabaabaa'`, byte by byte. */
  predicate IsAabaabaa(s: seq<byte>) {
    |s| == 8 && s[0] == 0x61 && s[1] == 0x61 && s[2] == 0x62 && s[3] == 0x61 &&
    s[4] == 0x61 && s[5] == 0x62 && s[6] == 0x61 && s[7] == 0x61
  }

  /** From cursor 5 on, `aabaabaa` is `b` copied from index 2, then `aa` from the start. */
  lemma AabaabaaEnd(s: seq<byte>)
    requires IsAabaabaa(s)
    ensures TokensFrom(s, 5) == [Backref(3, 1), Backref(6, 2)]
  {
    assert Extends(s, 6, 0, 1) && !Extends(s, 6, 0, 2);
    TokensFromSeenAt(s, 6, 0, 2, []);
    assert !Extends(s, 5, 2, 1);
    TokensFromSeenAt(s, 5, 2, 1, [Backref(6, 2)]);
  }

  /** From cursor 3 on, `aabaabaa` is three back-references: `aa` from the start, `b`, `aa` from the start. */
  lemma AabaabaaTail(s: seq<byte>)
    requires IsAabaabaa(s)
    ensures TokensFrom(s, 3) == [Backref(3, 2), Backref(3, 1), Backref(6, 2)]
  {
    AabaabaaEnd(s);
    assert Extends(s, 3, 0, 1) && !Extends(s, 3, 0, 2);
    TokensFromSeenAt(s, 3, 0, 2, [Backref(3, 1), Backref(6, 2)]);
  }

  /** `encode(b'aabaabaa')`: a literal, a one-byte copy, a literal, then the three copies above. */
  lemma AabaabaaTokens(s: seq<byte>)
    requires IsAabaabaa(s)
    ensures Tokens(s) == [Literal(0x61), Backref(1, 1), Literal(0x62), Backref(3, 2), Backref(3, 1), Backref(6, 2)]
  {
    AabaabaaTail(s);
    TokensFromFirstSeen(s, 2, 0x62, [Backref(3, 2), Backref(3, 1), Backref(6, 2)]);
    assert !Extends(s, 1, 0, 1);
    TokensFromSeenAt(s, 1, 0, 1, [Literal(0x62), Backref(3, 2), Backref(3, 1), Backref(6, 2)]);
    TokensFromFirstSeen(s, 0, 0x61, [Backref(1, 1), Literal(0x62), Backref(3, 2), Backref(3, 1), Backref(6, 2)]);
  }

  /** The bytes `encode(b'aabaabaa')` returns: the tokens above, two values each. */
  lemma AabaabaaEncodes(s: seq<byte>)
    requires IsAabaabaa(s)
    ensures Encoded(s) == Ok([0, 0x61, 1, 1, 0, 0x62, 3, 2, 3, 1, 6, 2])
  {
    AabaabaaTokens(s);
    assert Flatten([Literal(0x61), Backref(1, 1), Literal(0x62), Backref(3, 2), Backref(3, 1), Backref(6, 2)])
      == [0, 0x61, 1, 1, 0, 0x62, 3, 2, 3, 1, 6, 2];
  }

  /** The first three pairs of the encoding of `aabaabaa` decode to `aab`. */
  lemma AabaabaaDecodesStart(e: seq<byte>)
    requires |e| >= 6 && e[0] == 0 && e[1] == 0x61 && e[2] == 1 && e[3] == 1 && e[4] == 0 && e[5] == 0x62
    ensures Decoded(e) == DecodeFrom(e[6..], [0x61, 0x61, 0x62])
  {
    assert e[0..] == e;
    DecodeFromPairAt(e, 0, [], [0x61]);
    DecodeFromPairAt(e, 1, [0x61], [0x61, 0x61]);
    DecodeFromPairAt(e, 2, [0x61, 0x61], [0x61, 0x61, 0x62]);
  }

  /** The encoding of `aabaabaa` decodes pair by pair back to `aabaabaa`. */
  lemma AabaabaaDecodes(e: seq<byte>, s: seq<byte>)
    requires IsAabaabaa(s)
    requires |e| == 12 && e[0] == 0 && e[1] == 0x61 && e[2] == 1 && e[3] == 1 && e[4] == 0 && e[5] == 0x62
    requires e[6] == 3 && e[7] == 2 && e[8] == 3 && e[9] == 1 && e[10] == 6 && e[11] == 2
    ensures Decoded(e) == s
  {
    AabaabaaDecodesStart(e);
    DecodeFromPairAt(e, 3, [0x61, 0x61, 0x62], [0x61, 0x61, 0x62, 0x61, 0x61]);
    DecodeFromPairAt(e, 4, [0x61, 0x61, 0x62, 0x61, 0x61], [0x61, 0x61, 0x62, 0x61, 0x61, 0x62]);
    DecodeFromPairAt(e, 5, [0x61, 0x61, 0x62, 0x61, 0x61, 0x62], [0x61, 0x61, 0x62, 0x61, 0x61, 0x62, 0x61, 0x61]);
    assert e[12..] == [];
  }

  /** `decode(encode(b'aabaabaa')) == b'aabaabaa'`. */
  lemma AabaabaaRoundTrip(s: seq<byte>)
    requires IsAabaabaa(s)
    ensures Encoded(s).Ok? && Decoded(Encoded(s).value) == s
  {
    AabaabaaEncodes(s);
    AabaabaaDecodes(Encoded(s).value, s);
  }

  // ---- b'banana' ----

  /** `s` is `b'banana'`, byte by byte. */
  predicate IsBanana(s: seq<byte>) {
    |s| == 6 && s[0] == 0x62 && s[1] == 0x61 && s[2] == 0x6E && s[3] == 0x61 && s[4] == 0x6E && s[5] == 0x61
  }

  /** From cursor 3 on, `banana` is three one-byte back-references to the first `a`, `n`, `a`. */
  lemma BananaTail(s: seq<byte>)
    requires IsBanana(s)
    ensures TokensFrom(s, 3) == [Backref(2, 1), Backref(2, 1), Backref(4, 1)]
  {
    TokensFromSeenAt(s, 5, 1, 1, []);
    TokensFromSeenAt(s, 4, 2, 1, [Backref(4, 1)]);
    TokensFromSeenAt(s, 3, 1, 1, [Backref(2, 1), Backref(4, 1)]);
  }

  /** `encode(b'banana')`: three literals, then three one-byte back-references. */
  lemma BananaTokens(s: seq<byte>)
    requires IsBanana(s)
    ensures Tokens(s) == [Literal(0x62), Literal(0x61), Literal(0x6E), Backref(2, 1), Backref(2, 1), Backref(4, 1)]
  {
    BananaTail(s);
    TokensFromFirstSeen(s, 2, 0x6E, [Backref(2, 1), Backref(2, 1), Backref(4, 1)]);
    TokensFromFirstSeen(s, 1, 0x61, [Literal(0x6E), Backref(2, 1), Backref(2, 1), Backref(4, 1)]);
    TokensFromFirstSeen(s, 0, 0x62, [Literal(0x61), Literal(0x6E), Backref(2, 1), Backref(2, 1), Backref(4, 1)]);
  }

  /** The bytes `encode(b'banana')` returns: the tokens above, two values each. */
  lemma BananaEncodes(s: seq<byte>)
    requires IsBanana(s)
    ensures Encoded(s) == Ok([0, 0x62, 0, 0x61, 0, 0x6E, 2, 1, 2, 1, 4, 1])
  {
    BananaTokens(s);
    assert Flatten([Literal(0x62), Literal(0x61), Literal(0x6E), Backref(2, 1), Backref(2, 1), Backref(4, 1)])
      == [0, 0x62, 0, 0x61, 0, 0x6E, 2, 1, 2, 1, 4, 1];
  }

  /** The encoding of `banana` decodes pair by pair back to `banana`. */
  lemma BananaDecodes(e: seq<byte>, s: seq<byte>)
    requires IsBanana(s)
    requires |e| == 12 && e[0] == 0 && e[1] == 0x62 && e[2] == 0 && e[3] == 0x61 && e[4] == 0 && e[5] == 0x6E
    requires e[6] == 2 && e[7] == 1 && e[8] == 2 && e[9] == 1 && e[10] == 4 && e[11] == 1
    ensures Decoded(e) == s
  {
    assert e[0..] == e;
    DecodeFromPairAt(e, 0, [], [0x62]);
    DecodeFromPairAt(e, 1, [0x62], [0x62, 0x61]);
    DecodeFromPairAt(e, 2, [0x62, 0x61], [0x62, 0x61, 0x6E]);
    DecodeFromPairAt(e, 3, [0x62, 0x61, 0x6E], [0x62, 0x61, 0x6E, 0x61]);
    DecodeFromPairAt(e, 4, [0x62, 0x61, 0x6E, 0x61], [0x62, 0x61, 0x6E, 0x61, 0x6E]);
    DecodeFromPairAt(e, 5, [0x62, 0x61, 0x6E, 0x61, 0x6E], [0x62, 0x61, 0x6E, 0x61, 0x6E, 0x61]);
    assert e[12..] == [];
  }

  /** `decode(encode(b'banana')) == b'banana'`. */
  lemma BananaRoundTrip(s: seq<byte>)
    requires IsBanana(s)
    ensures Encoded(s).Ok? && Decoded(Encoded(s).value) == s
  {
    BananaEncodes(s);
    BananaDecodes(Encoded(s).value, s);
  }

  // ---- b'bananas' ----

  /** `s` is `b'bananas'`, byte by byte. */
  predicate IsBananas(s: seq<byte>) {
    |s| == 7 && s[0] == 0x62 && s[1] == 0x61 && s[2] == 0x6E && s[3] == 0x61 && s[4] == 0x6E && s[5] == 0x61 &&
    s[6] == 0x73
  }

  /** From cursor 5 on, `bananas` is `a` copied from index 1, then the literal `s`. */
  lemma BananasEnd(s: seq<byte>)
    requires IsBananas(s)
    ensures TokensFrom(s, 5) == [Backref(4, 1), Literal(0x73)]
  {
    TokensFromFirstSeen(s, 6, 0x73, []);
    TokensFromSeenAt(s, 5, 1, 1, [Literal(0x73)]);
  }

  /** From cursor 3 on, `bananas` is the three back-references of `banana`, then the literal `s`. */
  lemma BananasTail(s: seq<byte>)
    requires IsBananas(s)
    ensures TokensFrom(s, 3) == [Backref(2, 1), Backref(2, 1), Backref(4, 1), Literal(0x73)]
  {
    BananasEnd(s);
    TokensFromSeenAt(s, 4, 2, 1, [Backref(4, 1), Literal(0x73)]);
    TokensFromSeenAt(s, 3, 1, 1, [Backref(2, 1), Backref(4, 1), Literal(0x73)]);
  }

  /** `encode(b'bananas')`: the tokens of `banana` followed by the literal `s`. */
  lemma BananasTokens(s: seq<byte>)
    requires IsBananas(s)
    ensures Tokens(s) ==
      [Literal(0x62), Literal(0x61), Literal(0x6E), Backref(2, 1), Backref(2, 1), Backref(4, 1), Literal(0x73)]
  {
    BananasTail(s);
    TokensFromFirstSeen(s, 2, 0x6E, [Backref(2, 1), Backref(2, 1), Backref(4, 1), Literal(0x73)]);
    TokensFromFirstSeen(s, 1, 0x61, [Literal(0x6E), Backref(2, 1), Backref(2, 1), Backref(4, 1), Literal(0x73)]);
    TokensFromFirstSeen(s, 0, 0x62,
      [Literal(0x61), Literal(0x6E), Backref(2, 1), Backref(2, 1), Backref(4, 1), Literal(0x73)]);
  }

  /** The bytes `encode(b'bananas')` returns: the tokens above, two values each. */
  lemma BananasEncodes(s: seq<byte>)
    requires IsBananas(s)
    ensures Encoded(s) == Ok([0, 0x62, 0, 0x61, 0, 0x6E, 2, 1, 2, 1, 4, 1, 0, 0x73])
  {
    BananasTokens(s);
    assert Flatten(
        [Literal(0x62), Literal(0x61), Literal(0x6E), Backref(2, 1), Backref(2, 1), Backref(4, 1), Literal(0x73)])
      == [0, 0x62, 0, 0x61, 0, 0x6E, 2, 1, 2, 1, 4, 1, 0, 0x73];
  }

  /** The encoding of `bananas` decodes pair by pair back to `bananas`. */
  lemma BananasDecodes(e: seq<byte>, s: seq<byte>)
    requires IsBananas(s)
    requires |e| == 14 && e[0] == 0 && e[1] == 0x62 && e[2] == 0 && e[3] == 0x61 && e[4] == 0 && e[5] == 0x6E
    requires e[6] == 2 && e[7] == 1 && e[8] == 2 && e[9] == 1 && e[10] == 4 && e[11] == 1 && e[12] == 0
    requires e[13] == 0x73
    ensures Decoded(e) == s
  {
    assert e[0..] == e;
    DecodeFromPairAt(e, 0, [], [0x62]);
    DecodeFromPairAt(e, 1, [0x62], [0x62, 0x61]);
    DecodeFromPairAt(e, 2, [0x62, 0x61], [0x62, 0x61, 0x6E]);
    DecodeFromPairAt(e, 3, [0x62, 0x61, 0x6E], [0x62, 0x61, 0x6E, 0x61]);
    DecodeFromPairAt(e, 4, [0x62, 0x61, 0x6E, 0x61], [0x62, 0x61, 0x6E, 0x61, 0x6E]);
    DecodeFromPairAt(e, 5, [0x62, 0x61, 0x6E, 0x61, 0x6E], [0x62, 0x61, 0x6E, 0x61, 0x6E, 0x61]);
    DecodeFromPairAt(e, 6, [0x62, 0x61, 0x6E, 0x61, 0x6E, 0x61], [0x62, 0x61, 0x6E, 0x61, 0x6E, 0x61, 0x73]);
    assert e[14..] == [];
  }

  /** `decode(encode(b'bananas')) == b'bananas'`. */
  lemma BananasRoundTrip(s: seq<byte>)
    requires IsBananas(s)
    ensures Encoded(s).Ok? && Decoded(Encoded(s).value) == s
  {
    BananasEncodes(s);
    BananasDecodes(Encoded(s).value, s);
  }

  // ---- b'wut wut' ----

  /** `s` is `b'wut wut'`, byte by byte. */
  predicate IsWutWut(s: seq<byte>) {
    |s| == 7 && s[0] == 0x77 && s[1] == 0x75 && s[2] == 0x74 && s[3] == 0x20 && s[4] == 0x77 && s[5] == 0x75 &&
    s[6] == 0x74
  }

  /**
    At cursor 4 the inner loop runs twice: `w` and then `wu` match the start
    of the input, and the bound `length < i - 1` stops it at a run of three.
   */
  lemma WutWutTail(s: seq<byte>)
    requires IsWutWut(s)
    ensures TokensFrom(s, 3) == [Literal(0x20), Backref(4, 3)]
  {
    assert Extends(s, 4, 0, 1) && Extends(s, 4, 0, 2) && !Extends(s, 4, 0, 3);
    TokensFromSeenAt(s, 4, 0, 3, []);
    TokensFromFirstSeen(s, 3, 0x20, [Backref(4, 3)]);
  }

  /** `encode(b'wut wut')`: four literals, then the run `(4, 3)` for the second `wut`. */
  lemma WutWutTokens(s: seq<byte>)
    requires IsWutWut(s)
    ensures Tokens(s) == [Literal(0x77), Literal(0x75), Literal(0x74), Literal(0x20), Backref(4, 3)]
  {
    WutWutTail(s);
    TokensFromFirstSeen(s, 2, 0x74, [Literal(0x20), Backref(4, 3)]);
    TokensFromFirstSeen(s, 1, 0x75, [Literal(0x74), Literal(0x20), Backref(4, 3)]);
    TokensFromFirstSeen(s, 0, 0x77, [Literal(0x75), Literal(0x74), Literal(0x20), Backref(4, 3)]);
  }

  /** The bytes `encode(b'wut wut')` returns: `00 77 00 75 00 74 00 20 04 03`. */
  lemma WutWutEncodes(s: seq<byte>)
    requires IsWutWut(s)
    ensures Encoded(s) == Ok([0, 0x77, 0, 0x75, 0, 0x74, 0, 0x20, 4, 3])
  {
    WutWutTokens(s);
    assert Flatten([Literal(0x77), Literal(0x75), Literal(0x74), Literal(0x20), Backref(4, 3)])
      == [0, 0x77, 0, 0x75, 0, 0x74, 0, 0x20, 4, 3];
  }

  /** The run `(4, 3)` copies `wut` from four bytes back, so that encoding decodes to `wut wut`. */
  lemma WutWutDecodes(e: seq<byte>, s: seq<byte>)
    requires IsWutWut(s)
    requires |e| == 10 && e[0] == 0 && e[1] == 0x77 && e[2] == 0 && e[3] == 0x75 && e[4] == 0 && e[5] == 0x74
    requires e[6] == 0 && e[7] == 0x20 && e[8] == 4 && e[9] == 3
    ensures Decoded(e) == s
  {
    assert e[0..] == e;
    DecodeFromPairAt(e, 0, [], [0x77]);
    DecodeFromPairAt(e, 1, [0x77], [0x77, 0x75]);
    DecodeFromPairAt(e, 2, [0x77, 0x75], [0x77, 0x75, 0x74]);
    DecodeFromPairAt(e, 3, [0x77, 0x75, 0x74], [0x77, 0x75, 0x74, 0x20]);
    DecodeFromPairAt(e, 4, [0x77, 0x75, 0x74, 0x20], [0x77, 0x75, 0x74, 0x20, 0x77, 0x75, 0x74]);
    assert e[10..] == [];
  }

  /** `decode(encode(b'wut wut')) == b'wut wut'`: a run of three, grown by two passes of the inner loop. */
  lemma WutWutRoundTrip(s: seq<byte>)
    requires IsWutWut(s)
    ensures Encoded(s).Ok? && Decoded(Encoded(s).value) == s
  {
    WutWutEncodes(s);
    WutWutDecodes(Encoded(s).value, s);
  }

  // ---- b'Tai Tbo' ----

  /** `s` is `b'Tai Tbo'`, byte by byte. */
  predicate IsTaiTbo(s: seq<byte>) {
    |s| == 7 && s[0] == 0x54 && s[1] == 0x61 && s[2] == 0x69 && s[3] == 0x20 && s[4] == 0x54 && s[5] == 0x62 &&
    s[6] == 0x6F
  }

  /**
    At cursor 4 the second `T` matches the first. The inner loop then
    compares `Ta` with `Tb`, finds them different and stops, yet emits the
    run of two it has reached, whose last byte is the mismatching `b`.
   */
  lemma TaiTboTail(s: seq<byte>)
    requires IsTaiTbo(s)
    ensures TokensFrom(s, 3) == [Literal(0x20), Backref(4, 2), Literal(0x6F)]
  {
    TokensFromFirstSeen(s, 6, 0x6F, []);
    assert Extends(s, 4, 0, 1) && !Extends(s, 4, 0, 2);
    TokensFromSeenAt(s, 4, 0, 2, [Literal(0x6F)]);
    TokensFromFirstSeen(s, 3, 0x20, [Backref(4, 2), Literal(0x6F)]);
  }

  /** `encode(b'Tai Tbo')`: three literals, then the space, the run `(4, 2)` standing for `Tb`, and `o`. */
  lemma TaiTboTokens(s: seq<byte>)
    requires IsTaiTbo(s)
    ensures Tokens(s) == [Literal(0x54), Literal(0x61), Literal(0x69), Literal(0x20), Backref(4, 2), Literal(0x6F)]
  {
    TaiTboTail(s);
    TokensFromFirstSeen(s, 2, 0x69, [Literal(0x20), Backref(4, 2), Literal(0x6F)]);
    TokensFromFirstSeen(s, 1, 0x61, [Literal(0x69), Literal(0x20), Backref(4, 2), Literal(0x6F)]);
    TokensFromFirstSeen(s, 0, 0x54, [Literal(0x61), Literal(0x69), Literal(0x20), Backref(4, 2), Literal(0x6F)]);
  }

  /** The bytes `encode(b'Tai Tbo')` returns: the tokens above, two values each. */
  lemma TaiTboEncodes(s: seq<byte>)
    requires IsTaiTbo(s)
    ensures Encoded(s) == Ok([0, 0x54, 0, 0x61, 0, 0x69, 0, 0x20, 4, 2, 0, 0x6F])
  {
    TaiTboTokens(s);
    assert Flatten([Literal(0x54), Literal(0x61), Literal(0x69), Literal(0x20), Backref(4, 2), Literal(0x6F)])
      == [0, 0x54, 0, 0x61, 0, 0x69, 0, 0x20, 4, 2, 0, 0x6F];
  }

  /** The run `(4, 2)` copies `Ta`, so the encoding of `Tai Tbo` decodes to `Tai Tao`. */
  lemma TaiTboDecodes(e: seq<byte>)
    requires |e| == 12 && e[0] == 0 && e[1] == 0x54 && e[2] == 0 && e[3] == 0x61 && e[4] == 0 && e[5] == 0x69
    requires e[6] == 0 && e[7] == 0x20 && e[8] == 4 && e[9] == 2 && e[10] == 0 && e[11] == 0x6F
    ensures Decoded(e) == [0x54, 0x61, 0x69, 0x20, 0x54, 0x61, 0x6F]
  {
    assert e[0..] == e;
    DecodeFromPairAt(e, 0, [], [0x54]);
    DecodeFromPairAt(e, 1, [0x54], [0x54, 0x61]);
    DecodeFromPairAt(e, 2, [0x54, 0x61], [0x54, 0x61, 0x69]);
    DecodeFromPairAt(e, 3, [0x54, 0x61, 0x69], [0x54, 0x61, 0x69, 0x20]);
    DecodeFromPairAt(e, 4, [0x54, 0x61, 0x69, 0x20], [0x54, 0x61, 0x69, 0x20, 0x54, 0x61]);
    DecodeFromPairAt(e, 5, [0x54, 0x61, 0x69, 0x20, 0x54, 0x61], [0x54, 0x61, 0x69, 0x20, 0x54, 0x61, 0x6F]);
    assert e[12..] == [];
  }

  /**
    `decode(encode(b'Tai Tbo'))` is `b'Tai Tao'`, not `b'Tai Tbo'` as the
    last example claims: the back-reference's last byte disagrees.
   */
  lemma TaiTboRoundTripFails(s: seq<byte>)
    requires IsTaiTbo(s)
    ensures Encoded(s).Ok? && Decoded(Encoded(s).value) == [0x54, 0x61, 0x69, 0x20, 0x54, 0x61, 0x6F]
    ensures Decoded(Encoded(s).value) != s && !LastBytesAgree(s)
  {
    TaiTboEncodes(s);
    TaiTboDecodes(Encoded(s).value);
    assert Decoded(Encoded(s).value)[5] != s[5];
    RoundTripIff(s);
  }

  // ---- b'abcad' ----

  /** `s` is `b'abcad'`, byte by byte. */
  predicate IsAbcad(s: seq<byte>) {
    |s| == 5 && s[0] == 0x61 && s[1] == 0x62 && s[2] == 0x63 && s[3] == 0x61 && s[4] == 0x64
  }

  /**
    `encode(b'abcad')`: three literals, then a run of two for `ad`. Only `a`
    was compared: the bound `length < i - 1` stopped the loop before `d`.
   */
  lemma AbcadTokens(s: seq<byte>)
    requires IsAbcad(s)
    ensures Tokens(s) == [Literal(0x61), Literal(0x62), Literal(0x63), Backref(3, 2)]
  {
    assert Extends(s, 3, 0, 1) && !Extends(s, 3, 0, 2);
    TokensFromSeenAt(s, 3, 0, 2, []);
    TokensFromFirstSeen(s, 2, 0x63, [Backref(3, 2)]);
    TokensFromFirstSeen(s, 1, 0x62, [Literal(0x63), Backref(3, 2)]);
    TokensFromFirstSeen(s, 0, 0x61, [Literal(0x62), Literal(0x63), Backref(3, 2)]);
  }

  /** The bytes `encode(b'abcad')` returns: the tokens above, two values each. */
  lemma AbcadEncodes(s: seq<byte>)
    requires IsAbcad(s)
    ensures Encoded(s) == Ok([0, 0x61, 0, 0x62, 0, 0x63, 3, 2])
  {
    AbcadTokens(s);
    assert Flatten([Literal(0x61), Literal(0x62), Literal(0x63), Backref(3, 2)])
      == [0, 0x61, 0, 0x62, 0, 0x63, 3, 2];
  }

  /** The run `(3, 2)` copies `ab`, so the encoding of `abcad` decodes to `abcab`. */
  lemma AbcadDecodes(e: seq<byte>)
    requires |e| == 8 && e[0] == 0 && e[1] == 0x61 && e[2] == 0 && e[3] == 0x62 && e[4] == 0 && e[5] == 0x63
    requires e[6] == 3 && e[7] == 2
    ensures Decoded(e) == [0x61, 0x62, 0x63, 0x61, 0x62]
  {
    assert e[0..] == e;
    DecodeFromPairAt(e, 0, [], [0x61]);
    DecodeFromPairAt(e, 1, [0x61], [0x61, 0x62]);
    DecodeFromPairAt(e, 2, [0x61, 0x62], [0x61, 0x62, 0x63]);
    DecodeFromPairAt(e, 3, [0x61, 0x62, 0x63], [0x61, 0x62, 0x63, 0x61, 0x62]);
    assert e[8..] == [];
  }

  /** `decode(encode(b'abcad'))` is `b'abcab'`: the run copies `ab` where the input has `ad`. */
  lemma AbcadRoundTripFails(s: seq<byte>)
    requires IsAbcad(s)
    ensures Encoded(s).Ok? && Decoded(Encoded(s).value) == [0x61, 0x62, 0x63, 0x61, 0x62]
    ensures Decoded(Encoded(s).value) != s && !LastBytesAgree(s)
  {
    AbcadEncodes(s);
    AbcadDecodes(Encoded(s).value);
    assert Decoded(Encoded(s).value)[4] != s[4];
    RoundTripIff(s);
  }

  // ---- a distance that does not fit in a byte ----

  /** Bytes `0, 1, ..., 255` followed by a repeated `0`. */
  predicate IsCountThenZero(s: seq<byte>) {
    |s| == 257 && s[256] == 0 && forall k :: 0 <= k < 256 ==> s[k] == k
  }

  /** From any cursor up to 256 the tokens are literals, ending in a back-reference of distance 256. */
  lemma {:induction false} CountThenZeroTokens(s: seq<byte>, i: nat)
    requires IsCountThenZero(s) && i <= 256
    ensures |TokensFrom(s, i)| == 257 - i && TokensFrom(s, i)[256 - i] == Backref(256, 1)
    ensures forall k :: 0 <= k < 256 - i ==> TokensFrom(s, i)[k] == Literal(i + k)
    decreases 256 - i
  {
    if i == 256 {
      TokensFromSeenAt(s, 256, 0, 1, []);
    } else {
      CountThenZeroTokens(s, i + 1);
      TokensFromFirstSeen(s, i, i, TokensFrom(s, i + 1));
    }
  }

  /** `encode` of 257 bytes whose last byte was first seen 256 bytes back fails in `bytes()`. */
  lemma CountThenZeroOverflows(s: seq<byte>)
    requires IsCountThenZero(s)
    ensures Encoded(s) == Err(ValueOutOfRange)
  {
    CountThenZeroTokens(s, 0);
    EncodedFailsIff(s);
    assert !Representable(Tokens(s)[256]);
  }
}
