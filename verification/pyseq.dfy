/** Python's `min`/`max` on two integers and list slicing `s[start:end]`, where a
    negative bound counts from the end and an out-of-range bound is clamped. */
module PySeq {

  function Min(a: int, b: int): int { if a <= b then a else b }

  function Max(a: int, b: int): int { if a >= b then a else b }

  /** A slice bound as Python reads it for a sequence of length `len`. */
  function SliceBound(len: nat, i: int): (r: nat)
    ensures r <= len
    ensures 0 <= i <= len ==> r == i
    ensures i < 0 ==> r == Max(0, len + i)
  {
    if i < 0 then (if len + i < 0 then 0 else len + i) else if i > len then len else i
  }

  /** `s[start:end]` */
  function Slice<T>(s: seq<T>, start: int, end: int): (r: seq<T>)
    ensures 0 <= start <= end <= |s| ==> r == s[start..end]
    ensures start == -1 && 0 <= end < |s| ==> r == []
  {
    var lo, hi := SliceBound(|s|, start), SliceBound(|s|, end);
    if lo < hi then s[lo..hi] else []
  }
}
