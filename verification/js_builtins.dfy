/**
 The JavaScript built-ins the pagination logic leans on, stated over
 Dafny's unbounded integers and sequences: `Math.min`/`Math.max` on integers
 and `Array.prototype.slice` with both arguments given.
 */
module JsBuiltins {

  function Min(a: int, b: int): int {
    if a < b then a else b
  }

  function Max(a: int, b: int): int {
    if a < b then b else a
  }

  /** The position `Array.prototype.slice` actually uses for an argument `i` on
      an array of length `len`: a negative argument counts back from the end,
      and the position is clamped into `[0, len]`. */
  function RelativeIndex(i: int, len: nat): (k: nat)
    ensures k <= len
  {
    if i < 0 then Max(len + i, 0) else Min(i, len)
  }

  /** `s.slice(start, end)`: the elements from the relative start position up
      to, but excluding, the relative end position; empty when the end does
      not lie after the start. */
  function Slice<T>(s: seq<T>, start: int, end: int): (r: seq<T>)
    ensures |r| == Max(RelativeIndex(end, |s|) - RelativeIndex(start, |s|), 0)
    ensures forall i :: 0 <= i < |r| ==> r[i] == s[RelativeIndex(start, |s|) + i]
  {
    var a := RelativeIndex(start, |s|);
    var b := RelativeIndex(end, |s|);
    if a < b then s[a..b] else []
  }

  /** With `0 <= start <= end`, `slice` is the plain sub-sequence from `start`
      to `end` clipped to the length, and empty once `start` reaches the end
      of the array. */
  lemma SliceFromNonNegative<T>(s: seq<T>, start: int, end: int)
    requires 0 <= start <= end
    ensures start < |s| ==> Slice(s, start, end) == s[start..Min(end, |s|)]
    ensures start < |s| ==> |Slice(s, start, end)| == Min(end, |s|) - start
    ensures |s| <= start ==> Slice(s, start, end) == []
  {
    assert RelativeIndex(start, |s|) == Min(start, |s|);
    assert RelativeIndex(end, |s|) == Min(end, |s|);
  }
}
