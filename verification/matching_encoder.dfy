/**
  The matching encoder. A cursor `i` walks the input. A byte not seen before
  the cursor becomes a literal token; otherwise the leftmost earlier
  occurrence `p` of that byte gives the distance `i - p`, and an inner loop
  grows a run length starting from 1. The tokens are collected as a list of
  ints, and turning that list into a byte string fails when a distance or a
  length does not fit in one byte.

  The inner loop compares `s[p..p+length]` with `s[i-p..i+length]`: the
  second slice is `p` elements longer than the first, so the run can only
  grow when `p == 0`, and then to at most `i - 1`. A one-byte
  back-reference always copies the right byte, since `p` is an occurrence
  of the byte at the cursor. A run from `p == 0` longer than one byte ends
  at the first length at which the guard fails, so its last byte is not
  known to match: either the bound `length < i - 1` or the end of the input
  stopped the loop before comparing it, or it was compared and differed.
 */
module MatchingEncoder {
  import opened Bytes

  /** An encoder token, before it is flattened to two values. */
  datatype Token = Literal(b: byte) | Backref(distance: int, length: int)

  /** The only way encoding fails: a token value outside range(0, 256). */
  datatype EncodeError = ValueOutOfRange

  datatype Result<T> = Ok(value: T) | Err(error: EncodeError)

  /** The leftmost index of `b` in `s`, as `bytes.index` finds it, or `None` when absent. */
  function IndexOf(s: seq<byte>, b: byte): (r: Option<nat>)
    ensures r.None? ==> forall k :: 0 <= k < |s| ==> s[k] != b
    ensures r.Some? ==> r.value < |s| && s[r.value] == b && forall k :: 0 <= k < r.value ==> s[k] != b
  {
    if |s| == 0 then None
    else if s[0] == b then Some(0)
    else
      match IndexOf(s[1..], b)
      case None =>
        assert forall k :: 1 <= k < |s| ==> s[k] == s[1..][k - 1];
        None
      case Some(k) =>
        assert forall j :: 1 <= j <= k + 1 ==> s[j] == s[1..][j - 1];
        Some(k + 1)
  }

  /**
    The guard of the inner loop: may the run starting at `i`, copied from `p`,
    grow past `length`? The two slices it compares differ in length unless
    `p == 0`, so it only holds for a copy from the start of the input, and
    only while the run is shorter than `i - 1`.
   */
  predicate Extends(s: seq<byte>, i: nat, p: nat, length: nat): (r: bool)
    requires p < i && i + length <= |s|
    ensures r ==> p == 0 && length < i - 1
  {
    assert |s[p..p + length]| == length && |s[i - p..i + length]| == length + p;
    length < i - 1 && i + length < |s| && s[p..p + length] == s[i - p..i + length]
  }

  /**
    The length the inner loop ends with when it starts from `length`. It
    never passes the end of the input, and it only ever grows when `p == 0`,
    to at most `i - 1` then: the slice starting at `i - p` is `p` elements
    longer than the one starting at `p`.
   */
  function MatchLength(s: seq<byte>, i: nat, p: nat, length: nat): (r: nat)
    requires p < i && 1 <= length && i + length <= |s|
    ensures length <= r && i + r <= |s|
    ensures r > length ==> p == 0 && r <= i - 1
    decreases i - length
  {
    if Extends(s, i, p, length) then
      assert |s[p..p + length]| == length && |s[i - p..i + length]| == length + p;
      MatchLength(s, i, p, length + 1)
    else length
  }

  /**
    When the run grows, every extension but the last was checked: the first
    `r - 1` bytes at the cursor repeat the start of the input. Nothing is
    known of the last byte counted: a bound stopped the loop before comparing
    it, or the comparison that included it failed.
   */
  lemma {:induction false} MatchLengthRepeats(s: seq<byte>, i: nat, p: nat, length: nat)
    requires p < i && 1 <= length && i + length <= |s|
    ensures var r := MatchLength(s, i, p, length);
      r > length ==> s[..r - 1] == s[i..i + r - 1]
    decreases i - length
  {
    if Extends(s, i, p, length) {
      var r := MatchLength(s, i, p, length + 1);
      if r > length + 1 {
        MatchLengthRepeats(s, i, p, length + 1);
      } else {
        assert |s[p..p + length]| == length && |s[i - p..i + length]| == length + p;
      }
    }
  }

  /**
    The token emitted with the cursor at `i`. A back-reference points at most
    `i` bytes back and covers at least one byte without passing the end.
   */
  function TokenAt(s: seq<byte>, i: nat): (t: Token)
    requires i < |s|
    ensures t.Literal? ==> t.b == s[i]
    ensures t.Backref? ==> 1 <= t.distance <= i && 1 <= t.length && i + t.length <= |s|
  {
    match IndexOf(s[..i], s[i])
    case None => Literal(s[i])
    case Some(p) => Backref(i - p, MatchLength(s, i, p, 1))
  }

  /** The token at `i` is the literal `s[i]` exactly when `s[i]` does not occur before `i`. */
  lemma TokenAtLiteral(s: seq<byte>, i: nat)
    requires i < |s|
    ensures TokenAt(s, i).Literal? <==> s[i] !in s[..i]
    ensures TokenAt(s, i).Literal? ==> TokenAt(s, i).b == s[i]
  {
  }

  /** A back-reference's distance leads to the leftmost earlier copy of the byte at the cursor. */
  lemma TokenAtSource(s: seq<byte>, i: nat)
    requires i < |s|
    ensures TokenAt(s, i).Backref? ==>
      var d := TokenAt(s, i).distance;
      s[i - d] == s[i] && s[i] !in s[..i - d]
  {
    match IndexOf(s[..i], s[i])
    case None =>
    case Some(p) =>
      assert s[..i][..p] == s[..p];
  }

  /**
    A run longer than one byte only comes from a copy at index 0, so its
    distance is the cursor itself; all but its last byte repeat the start of
    the input, and it is shorter than the prefix before the cursor.
   */
  lemma TokenAtRun(s: seq<byte>, i: nat)
    requires i < |s|
    ensures TokenAt(s, i).Backref? && TokenAt(s, i).length > 1 ==>
      var length := TokenAt(s, i).length;
      TokenAt(s, i).distance == i && length <= i - 1 && s[..length - 1] == s[i..i + length - 1]
  {
    match IndexOf(s[..i], s[i])
    case None =>
    case Some(p) =>
      MatchLengthRepeats(s, i, p, 1);
  }

  /** `bytes.index` finds the leftmost occurrence: any occurrence with none before it is the one found. */
  lemma IndexOfLeftmost(s: seq<byte>, b: byte, p: nat)
    requires p < |s| && s[p] == b && b !in s[..p]
    ensures IndexOf(s, b) == Some(p)
  {
  }

  /** A byte that occurs nowhere before the cursor is emitted as a literal. */
  lemma TokenAtFirstSeen(s: seq<byte>, i: nat)
    requires i < |s| && forall k :: 0 <= k < i ==> s[k] != s[i]
    ensures TokenAt(s, i) == Literal(s[i])
  {
    assert forall k :: 0 <= k < i ==> s[..i][k] == s[k];
  }

  /** A byte first seen at `p` is emitted as a back-reference of distance `i - p`. */
  lemma TokenAtSeenAt(s: seq<byte>, i: nat, p: nat)
    requires p < i < |s| && s[p] == s[i] && forall k :: 0 <= k < p ==> s[k] != s[i]
    ensures TokenAt(s, i) == Backref(i - p, MatchLength(s, i, p, 1))
  {
    assert forall k :: 0 <= k <= p ==> s[..i][k] == s[k];
  }

  /** How far a token moves the cursor: one byte for a literal, its length for a back-reference. */
  function Span(t: Token): int {
    match t
    case Literal(_) => 1
    case Backref(_, length) => length
  }

  /**
    The tokens emitted from cursor `i` to the end of `s`: at most one per
    remaining byte, and none exactly when the cursor is at the end.
   */
  function TokensFrom(s: seq<byte>, i: nat): (r: seq<Token>)
    requires i <= |s|
    ensures |r| <= |s| - i && (r == [] <==> i == |s|)
    decreases |s| - i
  {
    if i == |s| then []
    else
      var t := TokenAt(s, i);
      [t] + TokensFrom(s, i + Span(t))
  }

  /** From a cursor whose byte has not occurred before, the tokens start with that byte as a literal. */
  lemma TokensFromFirstSeen(s: seq<byte>, i: nat, b: byte, rest: seq<Token>)
    requires i < |s| && s[i] == b && (forall k :: 0 <= k < i ==> s[k] != b) && TokensFrom(s, i + 1) == rest
    ensures TokensFrom(s, i) == [Literal(b)] + rest
  {
    TokenAtFirstSeen(s, i);
  }

  /** From a cursor whose byte first occurred at `p`, the tokens start with a back-reference to `p`. */
  lemma TokensFromSeenAt(s: seq<byte>, i: nat, p: nat, length: nat, rest: seq<Token>)
    requires p < i < |s| && s[p] == s[i] && forall k :: 0 <= k < p ==> s[k] != s[i]
    requires MatchLength(s, i, p, 1) == length && TokensFrom(s, i + length) == rest
    ensures TokensFrom(s, i) == [Backref(i - p, length)] + rest
  {
    TokenAtSeenAt(s, i, p);
  }

  /**
    One cursor step: if `done` followed by the values of the tokens from `i`
    on is `all`, so is `done` with the token at `i` appended, followed by the
    values of the tokens after it.
   */
  lemma CursorStep(s: seq<byte>, i: nat, done: seq<int>, all: seq<int>)
    requires i < |s| && done + Flatten(TokensFrom(s, i)) == all
    ensures i < i + Span(TokenAt(s, i)) <= |s|
    ensures (done + TokenInts(TokenAt(s, i))) + Flatten(TokensFrom(s, i + Span(TokenAt(s, i)))) == all
  {
    TokensFromStepFlat(s, i);
  }

  /** The flattened tokens from cursor `i`: those of the token at `i`, then the rest. */
  lemma TokensFromStepFlat(s: seq<byte>, i: nat)
    requires i < |s|
    ensures Flatten(TokensFrom(s, i)) == TokenInts(TokenAt(s, i)) + Flatten(TokensFrom(s, i + Span(TokenAt(s, i))))
  {
    var t := TokenAt(s, i);
    assert ([t] + TokensFrom(s, i + Span(t)))[1..] == TokensFrom(s, i + Span(t));
  }

  /** The two values a token contributes to the result list. */
  function TokenInts(t: Token): seq<int> {
    match t
    case Literal(b) => [0, b]
    case Backref(distance, length) => [distance, length]
  }

  /** The result list after extending it with the values of each token of `ts` in turn. */
  function Flatten(ts: seq<Token>): seq<int> {
    if ts == [] then [] else TokenInts(ts[0]) + Flatten(ts[1..])
  }

  /** A byte string holding the values of tokens `ts`: the first token fits in bytes and fills the first pair. */
  lemma LeadingToken(ts: seq<Token>, raw: seq<byte>)
    requires ts != [] && raw == Flatten(ts)
    ensures Representable(ts[0]) && |raw| >= 2
    ensures TokenInts(ts[0]) == [raw[0], raw[1]] && raw == [raw[0], raw[1]] + raw[2..]
    ensures raw[2..] == Flatten(ts[1..])
  {
    var head := TokenInts(ts[0]);
    assert raw == head + Flatten(ts[1..]);
    assert raw[0] == head[0] && raw[1] == head[1];
    assert raw[..2] == head;
  }

  /** Can both values of `t` be stored in one byte each? */
  predicate Representable(t: Token) {
    match t
    case Literal(_) => true
    case Backref(distance, length) => 0 <= distance < 256 && 0 <= length < 256
  }

  /** `bytes(raw)`: fails when any value lies outside range(0, 256), never wraps around. */
  function ToBytes(raw: seq<int>): (r: Result<seq<byte>>)
    ensures r.Ok? <==> forall k :: 0 <= k < |raw| ==> 0 <= raw[k] < 256
    ensures r.Ok? ==> r.value == raw
  {
    if forall k :: 0 <= k < |raw| ==> 0 <= raw[k] < 256 then Ok(raw) else Err(ValueOutOfRange)
  }

  /** A flattened token list has two values per token, all bytes exactly when every token is representable. */
  lemma {:induction false} FlattenBytes(ts: seq<Token>)
    ensures |Flatten(ts)| == 2 * |ts|
    ensures (forall k :: 0 <= k < |Flatten(ts)| ==> 0 <= Flatten(ts)[k] < 256)
        <==> (forall k :: 0 <= k < |ts| ==> Representable(ts[k]))
    decreases |ts|
  {
    if ts != [] {
      FlattenBytes(ts[1..]);
      var head, rest, flat := TokenInts(ts[0]), Flatten(ts[1..]), Flatten(ts);
      assert flat == head + rest;
      var headOk := 0 <= head[0] < 256 && 0 <= head[1] < 256;
      assert headOk <==> Representable(ts[0]);
      if forall k :: 0 <= k < |flat| ==> 0 <= flat[k] < 256 {
        assert headOk by { assert flat[0] == head[0] && flat[1] == head[1]; }
        forall k | 0 <= k < |rest| ensures 0 <= rest[k] < 256 {
          assert flat[k + 2] == rest[k];
        }
        forall k | 0 <= k < |ts| ensures Representable(ts[k]) {
          if k > 0 { assert ts[k] == ts[1..][k - 1]; }
        }
      }
      if forall k :: 0 <= k < |ts| ==> Representable(ts[k]) {
        assert Representable(ts[0]);
        forall k | 0 <= k < |ts| - 1 ensures Representable(ts[1..][k]) {
          assert ts[1..][k] == ts[k + 1];
        }
        forall k | 0 <= k < |flat| ensures 0 <= flat[k] < 256 {
          if k >= 2 { assert flat[k] == rest[k - 2]; }
        }
      }
    }
  }

  /**
    The tokens `encode(s)` emits, in order: at most one per input byte, and
    the first one is always a literal, as nothing precedes it.
   */
  function Tokens(s: seq<byte>): (r: seq<Token>)
    ensures |r| <= |s| && (r == [] <==> s == [])
    ensures s != [] ==> r[0] == Literal(s[0])
  {
    TokensFrom(s, 0)
  }

  /**
    The result of `encode(s)`: on success, whole pairs, at most two bytes per
    input byte, opening with the literal pair for the first byte.
   */
  function Encoded(s: seq<byte>): (r: Result<seq<byte>>)
    ensures r.Ok? ==> |r.value| % 2 == 0 && |r.value| <= 2 * |s|
    ensures r.Ok? && s != [] ==> |r.value| >= 2 && r.value[0] == 0 && r.value[1] == s[0]
  {
    FlattenBytes(Tokens(s));
    ToBytes(Flatten(Tokens(s)))
  }

  /**
    Encoding fails exactly when some emitted token holds a value that does not
    fit in a byte; on success the output holds two bytes per token.
   */
  lemma EncodedFailsIff(s: seq<byte>)
    ensures Encoded(s).Ok? <==> forall k :: 0 <= k < |Tokens(s)| ==> Representable(Tokens(s)[k])
    ensures Encoded(s).Ok? ==> Encoded(s).value == Flatten(Tokens(s))
    ensures Encoded(s).Ok? ==> |Encoded(s).value| == 2 * |Tokens(s)|
  {
    FlattenBytes(Tokens(s));
  }

  /**
    The inner loop of the matching encoder: starting from 1, grows the run
    length while the guard holds, and returns the length it stopped at.
   */
  method GrowRun(byteStr: seq<byte>, i: nat, p: nat) returns (length: nat)
    requires p < i < |byteStr|
    ensures length == MatchLength(byteStr, i, p, 1)
  {
    length := 1;
    while Extends(byteStr, i, p, length)
      invariant 1 <= length && i + length <= |byteStr|
      invariant MatchLength(byteStr, i, p, length) == MatchLength(byteStr, i, p, 1)
      decreases i - length
    {
      length := length + 1;
    }
  }

  /**
    One pass of the cursor loop: the values the encoder appends for the
    cursor at `i`, and where the cursor moves next.
   */
  method EmitAt(byteStr: seq<byte>, i: nat) returns (values: seq<int>, next: nat)
    requires i < |byteStr|
    ensures values == TokenInts(TokenAt(byteStr, i))
    ensures next == i + Span(TokenAt(byteStr, i))
  {
    var b := byteStr[i];
    var found := IndexOf(byteStr[..i], b);
    if found.None? {
      return [0, b], i + 1;
    }
    var p := found.value;
    var length := GrowRun(byteStr, i, p);
    values, next := [i - p, length], i + length;
  }

  /** The matching encoder: its cursor loop collects the token values, which are then turned into bytes. */
  method Encode(byteStr: seq<byte>) returns (r: Result<seq<byte>>)
    ensures r == Encoded(byteStr)
  {
    ghost var all := Flatten(Tokens(byteStr));
    var result: seq<int> := [];
    var i := 0;
    assert result + Flatten(TokensFrom(byteStr, i)) == all;
    while i < |byteStr|
      invariant 0 <= i <= |byteStr|
      invariant result + Flatten(TokensFrom(byteStr, i)) == all
      decreases |byteStr| - i
    {
      CursorStep(byteStr, i, result, all);
      var values, next := EmitAt(byteStr, i);
      result := result + values;
      i := next;
    }
    assert TokensFrom(byteStr, i) == [] && result + [] == result;
    r := ToBytes(result);
  }

  /** How far the tokens `ts` move the cursor altogether. */
  function SpanSum(ts: seq<Token>): int {
    if ts == [] then 0 else Span(ts[0]) + SpanSum(ts[1..])
  }

  /** The token spans from cursor `i` add up to exactly the rest of the input. */
  lemma {:induction false} SpansCoverInput(s: seq<byte>, i: nat)
    requires i <= |s|
    ensures SpanSum(TokensFrom(s, i)) == |s| - i
    decreases |s| - i
  {
    if i < |s| {
      var t := TokenAt(s, i);
      SpansCoverInput(s, i + Span(t));
      assert ([t] + TokensFrom(s, i + Span(t)))[1..] == TokensFrom(s, i + Span(t));
    }
  }

  /** The token lengths of a whole encoding, one per literal, add up to the input length. */
  lemma SpansCoverAll(s: seq<byte>)
    ensures SpanSum(Tokens(s)) == |s|
  {
    SpansCoverInput(s, 0);
  }

  /** Every token emitted from a cursor inside a short input fits in one byte per value. */
  lemma {:induction false} ShortInputTokensRepresentable(s: seq<byte>, i: nat)
    requires |s| <= 256 && i <= |s|
    ensures forall k :: 0 <= k < |TokensFrom(s, i)| ==> Representable(TokensFrom(s, i)[k])
    decreases |s| - i
  {
    if i < |s| {
      var t := TokenAt(s, i);
      ShortInputTokensRepresentable(s, i + Span(t));
      var ts := TokensFrom(s, i);
      assert forall k :: 1 <= k < |ts| ==> ts[k] == TokensFrom(s, i + Span(t))[k - 1];
    }
  }

  /** Inputs of at most 256 bytes never overflow a token value, so encoding them succeeds. */
  lemma ShortInputEncodes(s: seq<byte>)
    requires |s| <= 256
    ensures Encoded(s).Ok?
  {
    ShortInputTokensRepresentable(s, 0);
    EncodedFailsIff(s);
  }
}
