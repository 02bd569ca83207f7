/** Python's slice semantics on sequences: `s[start:stop]` and `s[start:]`. */
module Slicing {

  /** How Python normalises one slice bound `i` against a sequence of length `len`:
      a negative bound counts from the end, and the outcome is clipped to `[0, len]`. */
  function SliceIndex(i: int, len: nat): (r: nat)
    ensures r <= len
    ensures 0 <= i ==> r == if i <= len then i else len
  {
    if i < 0 then (if i + len < 0 then 0 else i + len)
    else if i > len then len
    else i
  }

  /** `s[start:stop]`: empty when the normalised bounds cross. */
  function Slice<T>(s: seq<T>, start: int, stop: int): seq<T>
  {
    var a, b := SliceIndex(start, |s|), SliceIndex(stop, |s|);
    if a < b then s[a..b] else []
  }

  /** `s[start:]`. */
  function From<T>(s: seq<T>, start: int): seq<T>
  {
    s[SliceIndex(start, |s|)..]
  }

  /** `s[::-1]`. */
  function Reversed<T>(s: seq<T>): (r: seq<T>)
    ensures |r| == |s|
  {
    seq(|s|, i requires 0 <= i < |s| => s[|s| - 1 - i])
  }

  /** Whatever the bounds, a slice is a contiguous window of its sequence and never
      longer than the distance between the (non-negative) bounds. */
  lemma SliceIsWindow<T>(s: seq<T>, start: int, stop: int)
    ensures exists a, b :: 0 <= a <= b <= |s| && Slice(s, start, stop) == s[a..b]
    ensures 0 <= start <= stop ==> |Slice(s, start, stop)| <= stop - start
  {
    var a, b := SliceIndex(start, |s|), SliceIndex(stop, |s|);
    if a < b {
      assert Slice(s, start, stop) == s[a..b];
    } else {
      assert Slice(s, start, stop) == s[a..a];
    }
  }
}
