/**
  Byte values and the few Python sequence operations the codec relies on.

  A Python `bytes` object is a sequence of ints in range(0, 256); a `list`
  built from such values is modelled by the same `seq<byte>`. Python's
  slices clamp out-of-range bounds instead of failing, so the two slice
  forms the decoder uses are written out here with their clamping.
 */
module Bytes {

  /** One element of a Python `bytes` object. */
  type byte = x: int | 0 <= x < 256

  datatype Option<T> = None | Some(value: T)

  function Min(a: int, b: int): int {
    if a <= b then a else b
  }

  /** Python's `s[:n]` for n >= 0: the first `n` elements, or all of `s` when it is shorter. */
  function Prefix<T>(s: seq<T>, n: nat): (r: seq<T>)
    ensures |r| == Min(n, |s|)
    ensures forall k :: 0 <= k < |r| ==> r[k] == s[k]
  {
    if n <= |s| then s[..n] else s
  }

  /** Python's `s[-n:]` for n > 0: the last `n` elements, or all of `s` when it is shorter. */
  function Suffix<T>(s: seq<T>, n: nat): (r: seq<T>)
    requires n > 0
    ensures |r| == Min(n, |s|)
    ensures forall k :: 0 <= k < |r| ==> r[k] == s[|s| - |r| + k]
  {
    if n <= |s| then s[|s| - n..] else s
  }
}
