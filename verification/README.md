# Back-reference codec (`decoder.py`) in Dafny

This project models the back-reference codec of `decoder.py` and proves properties of the model. The codec's wire format is a flat byte
string of two-byte tokens `(p, q)`:

- a token with `p == 0` is the literal byte `q`;
- a token with `p > 0` takes the last `p` bytes of the output produced so far and appends the first `q` of them (Python's
  `result[-p:][:q]`, so the copy is clamped to what the output holds and never overlaps itself).

The decoder reads its input two bytes at a time. A dangling last byte cannot be unpacked into a pair, so it is replaced by one
`?` (0x3F).

Two encoders produce the format:

- `encode_simple` emits a literal for every byte.
- `encode`, the matching encoder, walks a cursor `i` over the input.
  - A byte not seen before the cursor becomes a literal.
  - Otherwise the leftmost earlier occurrence `p` gives the distance `i - p`, and an inner loop grows a run length from 1.
  - The token values are collected as Python ints, and `bytes(result)` fails when one of them does not fit in a byte.

Modules, one file each:

- `Bytes` (`bytes.dfy`): the `byte` type (`0 <= x < 256`) and Python's clamping slices `s[:n]` and `s[-n:]`.
- `Decoder` (`decoder.dfy`): the decoding specification `ApplyPair`/`DecodeFrom`/`Decoded`.
  - `class Output` is the list that `decode_pair` extends in place.
  - `DecodeByteStream` and `Decode` are the read loop, proved equal to the specification.
- `SimpleEncoder` (`simple_encoder.dfy`): `encode_simple` as a loop, its specification `Literals`, and its general round trip.
- `MatchingEncoder` (`matching_encoder.dfy`): the specification `TokenAt`/`TokensFrom`/`Encoded` of `encode`.
  - The two loops of `encode` are the methods `Encode`/`EmitAt` and `GrowRun`, proved against that specification.
  - The module also holds the properties of the emitted tokens and the overflow behaviour of `bytes()`.
- `RoundTrip` (`round_trip.dfy`): exactly when `decode(encode(s)) == s` holds for the code as written.
- `Doctests` (`doctests.dfy`): the examples in `test()` except `badass`, plus `wut wut`, `abcad` and an overflowing input,
  worked through the model. The `badass` example is `SimpleEncoder.EncodeSimpleBadass`.

### The matching encoder as written

The model follows the code of `encode` (decoder.py:26-44) as it stands. Three of its consequences are easy to miss:

- **Which runs grow.** The inner loop (decoder.py:38-41) compares `byte_str[p:p+length]` with `byte_str[i-p:i+length]`. The
  second slice is `p` bytes longer than the first, so the comparison can only succeed when `p == 0`. A run grows past one
  byte only for a byte first seen at index 0, and then reaches at most `i - 1` because of the bound `length < i-1`.
- **Where a run stops.** A one-byte back-reference always copies the right byte, since `p` is an occurrence of `s[i]`
  (`RoundTrip.OneByteBackrefAgrees`). A run from `p == 0` longer than one byte ends at the first length at which the guard
  fails. Only its first `length - 1` bytes are known to repeat the start of the input. Its last byte was either never
  compared, because a bound stopped the loop (`abcad`), or compared and found to differ (`Tai Tbo`, where
  `b'Ta' == b'Tb'` is false).
- **The round trip.** The last example in `test()` (decoder.py:91-92) expects `decode(encode(b'Tai Tbo'))` to give back
  `b'Tai Tbo'`; the code gives `b'Tai Tao'`. Likewise `abcad` comes back as `abcab`.
  - Both are proved in `Doctests`, next to `wut wut`, whose run of three is grown by two passes of the inner loop and does
    round-trip.
  - No theorem here states `decode(encode(x)) == x` for every input. `RoundTrip.RoundTripIff` proves the exact condition
    instead: the round trip holds if and only if, for every back-reference emitted, the last byte it copies equals the byte
    it stands for.

## Model

| member | source | states |
|---|---|---|
| Bytes.Prefix | decoder.py:22 | `s[:n]` has `min(n, len(s))` elements, the first ones of `s` |
| Bytes.Suffix | decoder.py:22 | `s[-n:]` for `n > 0` has `min(n, len(s))` elements, the last ones of `s` |
| Decoder.ApplyPair | decoder.py:17-24 | applying a pair keeps the output so far as a prefix; `p == 0` appends exactly `q`; `p > 0` appends exactly `min(p, q, len(result))` bytes |
| Decoder.NextChunk | decoder.py:55 | `read(2)` returns `min(2, remaining)` bytes, the next ones of the stream |
| Decoder.DecodeFrom | decoder.py:54-60 | decoding the rest of the stream only appends to the output already produced |
| Decoder.Decoded | decoder.py:52-64 | `decode` of an empty input is empty, and of an odd-length input ends with `?` |
| Decoder.DecodeFromOdd | decoder.py:55-60 | an odd number of remaining bytes makes the output grow and end with `?` |
| Decoder.Output.constructor | decoder.py:53 | the result list starts empty |
| Decoder.Output.Append | decoder.py:20 | `append` adds exactly one byte at the end |
| Decoder.Output.DecodePair | decoder.py:17-24 | unpacking succeeds exactly when the chunk has two bytes; the list then becomes the pair applied to it; otherwise it is unchanged, for the caller's `except` branch |
| Decoder.DecodeByteStream | decoder.py:52-61 | the read loop returns exactly the pair-by-pair decoding of the whole stream, with one `?` for a dangling byte |
| Decoder.DecodeFromChunk | decoder.py:55-60 | one iteration: a two-byte chunk is applied as a pair, a shorter one adds `?`, and decoding goes on after the chunk |
| Decoder.Decode | decoder.py:63-64 | `decode` of an in-memory byte string equals the stream decoding of it |
| Decoder.DecodeFromConcat | decoder.py:54-60 | decoding a concatenation whose first part is whole pairs decodes the parts one after the other |
| Decoder.DecodeFromPairAt | decoder.py:55-58 | reading the `k`-th complete pair applies it to the output and moves on two bytes |
| Decoder.DecodedAppendPair | decoder.py:55-58 | a complete trailing pair is always applied as a token, never replaced by `?` |
| Decoder.DecodedTrailingByte | decoder.py:57-60 | a trailing odd byte contributes exactly one `?` (0x3F) |
| Decoder.DecodedPrefix | decoder.py:19-22 | decoding only appends: a prefix of whole pairs decodes to a prefix of the output |
| Decoder.DecodeFromKeepsMismatch | decoder.py:19-22 | once the output differs from a target in its first bytes, no further input brings it back |
| Decoder.WindowClampsToBuffer | decoder.py:22 | a distance beyond the output's length makes the whole output the window, of which the first `min(q, len)` bytes are copied: all of it when the count is at least that length (slice clamping) |
| Decoder.CopyTruncatesToDistance | decoder.py:22 | a count larger than the distance copies only `p` bytes: the copy never overlaps itself |
| SimpleEncoder.Literals | decoder.py:46-50 | the trivial encoding is exactly twice as long as the input |
| SimpleEncoder.LiteralsLayout | decoder.py:48-49 | position `2k` holds 0 and position `2k+1` holds input byte `k` |
| SimpleEncoder.EncodeSimple | decoder.py:46-50 | the loop returns the trivial encoding of its whole input |
| SimpleEncoder.DecodeLiterals | decoder.py:19-20 | literal tokens decode to exactly the bytes they carry, after any output already produced |
| SimpleEncoder.EncodeSimpleRoundTrip | decoder.py:46-64 | `decode(encode_simple(x)) == x` for every byte string `x` |
| SimpleEncoder.EncodeSimpleBadass | decoder.py:89-90 | `decode(encode_simple(b'badass')) == b'badass'` |
| MatchingEncoder.IndexOf | decoder.py:32-33 | `bytes.index` yields the leftmost occurrence, and fails only when the byte is absent |
| MatchingEncoder.IndexOfLeftmost | decoder.py:32 | an occurrence with none before it is the index found |
| MatchingEncoder.Extends | decoder.py:39-40 | the inner-loop guard holds only for a copy from index 0 (`p == 0`), and only while `length < i - 1` |
| MatchingEncoder.MatchLength | decoder.py:38-41 | the inner loop never runs past the input, and grows the run past 1 only when `p == 0`, staying at most `i - 1` |
| MatchingEncoder.MatchLengthRepeats | decoder.py:39-41 | a run of `r > 1` repeats the input's first `r - 1` bytes; its last byte is not known to match |
| MatchingEncoder.GrowRun | decoder.py:38-41 | the inner loop ends at the length the guard allows |
| MatchingEncoder.TokenAt | decoder.py:30-43 | a literal carries the byte at the cursor; a back-reference has `1 <= distance <= i`, `length >= 1` and `i + length <= len(s)` |
| MatchingEncoder.TokenAtLiteral | decoder.py:32-36 | a literal is emitted exactly when the byte is absent before the cursor |
| MatchingEncoder.TokenAtSource | decoder.py:32-42 | a back-reference's distance leads to the leftmost earlier copy of the byte |
| MatchingEncoder.TokenAtRun | decoder.py:38-42 | a run longer than 1 has distance `i` (copy from index 0), is shorter than `i`, and repeats the input's start except for its last byte |
| MatchingEncoder.TokensFrom | decoder.py:29-43 | the outer loop from cursor `i` emits at most one token per remaining byte, and none exactly when the cursor is at the end |
| MatchingEncoder.Tokens | decoder.py:26-43 | `encode` emits at most one token per input byte, none for an empty input, and always a literal first |
| MatchingEncoder.Encoded | decoder.py:26-44 | on success `encode` returns whole pairs, at most two bytes per input byte, starting with `0` and the first input byte |
| MatchingEncoder.TokenAtFirstSeen | decoder.py:32-36 | a byte absent before the cursor is emitted as that literal |
| MatchingEncoder.TokenAtSeenAt | decoder.py:32-42 | a byte first seen at `p` is emitted as a back-reference of distance `i - p` and the inner loop's length |
| MatchingEncoder.TokensFromFirstSeen | decoder.py:29-36 | the tokens from such a cursor are that literal followed by the tokens from the next byte |
| MatchingEncoder.TokensFromSeenAt | decoder.py:29-43 | the tokens from such a cursor are that back-reference followed by the tokens after its run |
| MatchingEncoder.Span | decoder.py:35-43 | how far the cursor moves past a token: 1 for a literal (`i += 1`), the run length for a back-reference (`i += length`) |
| MatchingEncoder.TokenInts | decoder.py:34-42 | the two values `result.extend` receives for a token: `(0, b)` for a literal, `(i-p, length)` for a back-reference |
| MatchingEncoder.Flatten | decoder.py:27-43 | the list `result` the cursor loop builds from a token list: each token's two values, in order |
| MatchingEncoder.Representable | decoder.py:44 | whether both values of a token pass the range test of `bytes()`, range(0, 256) |
| MatchingEncoder.CursorStep | decoder.py:29-43 | one pass of the outer loop keeps "values so far + values still to come" fixed and strictly advances the cursor |
| MatchingEncoder.TokensFromStepFlat | decoder.py:29-43 | the values emitted from a cursor are those of its token followed by the rest |
| MatchingEncoder.EmitAt | decoder.py:30-43 | one pass appends exactly the two values of the token at the cursor and moves the cursor by its span |
| MatchingEncoder.Encode | decoder.py:26-44 | `encode` returns exactly the bytes of the emitted tokens, or the overflow error |
| MatchingEncoder.LeadingToken | decoder.py:42-44 | in a successful encoding the first token fills the first two bytes and fits in them |
| MatchingEncoder.ToBytes | decoder.py:44 | `bytes()` succeeds exactly when every value is in range(0, 256), and then keeps every value: no wrap-around |
| MatchingEncoder.FlattenBytes | decoder.py:42-44 | two values per token, all bytes exactly when every token is representable |
| MatchingEncoder.EncodedFailsIff | decoder.py:44 | `encode` fails exactly when some token value exceeds a byte; on success the output has two bytes per token |
| MatchingEncoder.SpansCoverInput | decoder.py:29-43 | the spans of the tokens from a cursor add up to the rest of the input |
| MatchingEncoder.SpansCoverAll | decoder.py:26-44 | the spans of all tokens add up to the input length |
| MatchingEncoder.ShortInputTokensRepresentable | decoder.py:42 | from inputs of at most 256 bytes every token value fits in a byte |
| MatchingEncoder.ShortInputEncodes | decoder.py:44 | `encode` never fails on inputs of at most 256 bytes |
| RoundTrip.TokenAtWellShaped | decoder.py:30-43 | every emitted token is well shaped: in bounds, and a longer run repeats the start of the input but for its last byte |
| RoundTrip.OneByteBackrefAgrees | decoder.py:32-42 | every one-byte back-reference the encoder emits copies exactly the byte it stands for |
| RoundTrip.TokensFromHead | decoder.py:29-43 | the tokens from a cursor before the end start with the token at that cursor, followed by the tokens after its run |
| RoundTrip.TokensShaped | decoder.py:29-43 | the whole token list is well shaped and spans the input exactly |
| RoundTrip.CopyAppends | decoder.py:22 | a back-reference with `length <= distance` appends the `length` bytes starting `distance` back |
| RoundTrip.CopyReproducesIff | decoder.py:22 | such a copy reproduces the input's run exactly when its last byte agrees, if the others do |
| RoundTrip.LiteralReproduces | decoder.py:19-20 | a literal for the byte at the cursor reproduces it |
| RoundTrip.BackrefReproducesIff | decoder.py:22 | an encoder-shaped back-reference reproduces its run exactly when its last copied byte agrees |
| RoundTrip.ApplyTokenIff | decoder.py:17-22 | applying a well-shaped token to a correct prefix reproduces its run exactly when its last byte agrees |
| RoundTrip.DecodeTokenStep | decoder.py:55-58 | one decoding step over a token: it extends a correct prefix, or decoding can no longer return the input |
| RoundTrip.DecodeTokens | decoder.py:52-61 | decoding the bytes of tokens well shaped from the cursor on, after a correct prefix, gives the input back exactly when every token's last byte agrees |
| RoundTrip.RoundTripIff | decoder.py:26-64 | for every input that encodes, `decode(encode(s)) == s` if and only if every back-reference's last copied byte agrees |
| Doctests.DecodeAabaabaaExample | decoder.py:79-80 | `decode(bytes([0, 0x61, 1, 1, 0, 0x62, 3, 2, 3, 3])) == b'aabaabaa'` |
| Doctests.DecodeDanglingExample | decoder.py:81-82 | `decode(bytes([0, 0x20, 0, 0x2A, 2, 1, 0xFF])) == b' * ?'` |
| Doctests.AabaabaaEnd | decoder.py:83-84 | the tokens of `aabaabaa` from cursor 5 on: `(3, 1)`, then `(6, 2)` |
| Doctests.AabaabaaTail | decoder.py:83-84 | the tokens of `aabaabaa` from cursor 3 on |
| Doctests.AabaabaaTokens | decoder.py:83-84 | the tokens `encode(b'aabaabaa')` emits |
| Doctests.AabaabaaEncodes | decoder.py:83-84 | `encode(b'aabaabaa')` is `[0, 0x61, 1, 1, 0, 0x62, 3, 2, 3, 1, 6, 2]` |
| Doctests.AabaabaaDecodesStart | decoder.py:83-84 | the first three pairs of that encoding decode to `aab` |
| Doctests.AabaabaaDecodes | decoder.py:83-84 | that encoding decodes to `aabaabaa` |
| Doctests.AabaabaaRoundTrip | decoder.py:83-84 | `decode(encode(b'aabaabaa')) == b'aabaabaa'` |
| Doctests.BananaTail | decoder.py:85-86 | the tokens of `banana` from cursor 3 on |
| Doctests.BananaTokens | decoder.py:85-86 | the tokens `encode(b'banana')` emits |
| Doctests.BananaEncodes | decoder.py:85-86 | `encode(b'banana')` is `[0, 0x62, 0, 0x61, 0, 0x6E, 2, 1, 2, 1, 4, 1]` |
| Doctests.BananaDecodes | decoder.py:85-86 | that encoding decodes to `banana` |
| Doctests.BananaRoundTrip | decoder.py:85-86 | `decode(encode(b'banana')) == b'banana'` |
| Doctests.BananasEnd | decoder.py:87-88 | the tokens of `bananas` from cursor 5 on: `(4, 1)`, then the literal `s` |
| Doctests.BananasTail | decoder.py:87-88 | the tokens of `bananas` from cursor 3 on |
| Doctests.BananasTokens | decoder.py:87-88 | the tokens `encode(b'bananas')` emits |
| Doctests.BananasEncodes | decoder.py:87-88 | `encode(b'bananas')` is the encoding of `banana` followed by `0, 0x73` |
| Doctests.BananasDecodes | decoder.py:87-88 | that encoding decodes to `bananas` |
| Doctests.BananasRoundTrip | decoder.py:87-88 | `decode(encode(b'bananas')) == b'bananas'` |
| Doctests.WutWutTail | decoder.py:38-42 | from cursor 3 on, `wut wut` gives a literal space and the run `(4, 3)`, grown by two passes of the inner loop |
| Doctests.WutWutTokens | decoder.py:29-43 | `encode(b'wut wut')` emits four literals and the run `(4, 3)` |
| Doctests.WutWutEncodes | decoder.py:26-44 | `encode(b'wut wut')` is `00 77 00 75 00 74 00 20 04 03` |
| Doctests.WutWutDecodes | decoder.py:17-22 | that encoding decodes to `wut wut` |
| Doctests.WutWutRoundTrip | decoder.py:26-64 | `decode(encode(b'wut wut')) == b'wut wut'` |
| Doctests.TaiTboTail | decoder.py:91-92 | from cursor 3 on, `Tai Tbo` gives a literal space, the run `(4, 2)` (the loop stops when `Ta` and `Tb` differ) and a literal `o` |
| Doctests.TaiTboTokens | decoder.py:91-92 | the tokens `encode(b'Tai Tbo')` emits |
| Doctests.TaiTboEncodes | decoder.py:91-92 | `encode(b'Tai Tbo')` is `[0, 0x54, 0, 0x61, 0, 0x69, 0, 0x20, 4, 2, 0, 0x6F]` |
| Doctests.TaiTboDecodes | decoder.py:91-92 | that encoding decodes to `Tai Tao` |
| Doctests.TaiTboRoundTripFails | decoder.py:91-92 | `decode(encode(b'Tai Tbo'))` is `b'Tai Tao'`, not the `b'Tai Tbo'` the example claims, and the last-byte condition fails |
| Doctests.AbcadTokens | decoder.py:38-42 | `encode(b'abcad')` emits three literals and the run `(3, 2)` |
| Doctests.AbcadEncodes | decoder.py:38-44 | `encode(b'abcad')` is `[0, 0x61, 0, 0x62, 0, 0x63, 3, 2]` |
| Doctests.AbcadDecodes | decoder.py:17-22 | that encoding decodes to `abcab` |
| Doctests.AbcadRoundTripFails | decoder.py:38-42 | `decode(encode(b'abcad'))` is `b'abcab'`, and the last-byte condition fails |
| Doctests.CountThenZeroTokens | decoder.py:29-43 | for bytes `0..255` followed by `0`, the tokens from any cursor `i <= 256` are `257 - i` in number: the literals `i, ..., 255`, then a back-reference `(256, 1)` |
| Doctests.CountThenZeroOverflows | decoder.py:44 | `encode` of that input is the overflow error, not a wrapped-around byte |

## Left out

- `main` (decoder.py:66-75) reads standard input, prints, and picks an encoder from an environment variable. These are I/O and
  policy, so they are not modelled.
- `test()` and the commented-out doctest runner (decoder.py:77-96) are not modelled as code. Each example in `test()` is a
  lemma in `Doctests` instead.
- `io.BytesIO` and its `read(2)` are modelled as a position in an in-memory byte sequence (`NextChunk`). Other stream kinds,
  such as the `sys.stdin` that `main` passes, are not modelled.
- `decode_pair` with its `result=None` default is not modelled as a separate entry point. `Output.DecodePair` always extends
  an existing list; the fresh list the default creates is the `Output` constructor.
- The bare `except:` in `decode_byte_stream` catches any exception. The only one a chunk of at most two bytes can raise is
  the failed unpacking of a one-byte chunk, which is what `Output.DecodePair` returning `false` models. Out-of-memory and
  similar interpreter failures are not modelled.
- The `elif p > 0` test in `decode_pair` has no `else`. A value read from `bytes` is never negative, so that missing branch
  cannot be reached and is not modelled.
- The final `bytes(result)` in `decode_byte_stream` is the identity on a list of bytes. The model returns the sequence itself.
- `encode` and `decode` are modelled for `bytes` arguments only. Python would also accept other sequence types, and those are
  not modelled.
- Time and memory cost, such as the quadratic slicing of `byte_str[:i]` and of the inner loop, are not modelled.
- RoundTrip.RoundTripIff: no theorem states `decode(encode(x)) == x` for all inputs, because that is false for the code. The
  iff theorem replaces it, and the counterexamples are in `Doctests`.
