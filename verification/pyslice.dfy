/**
 * Python slice semantics (step 1), shared by list slicing
 * (`design_files[start-1:end]`, line 71 of `mockup_generator.py`) and
 * numpy basic indexing (`gray[y:y+h, x:x+w]`, line 104): a negative bound counts from the end, then every
 * bound is clamped to `[0, n]`, and the slice is empty when stop <= start.
 */
module PySlice {

  /** One slice bound normalised against a sequence of length `n`. */
  function Bound(i: int, n: nat): (b: nat)
    ensures b <= n
    ensures 0 <= i <= n ==> b == i
    ensures i > n ==> b == n
    ensures i < 0 && 0 <= i + n ==> b == i + n
    ensures i + n < 0 ==> b == 0
  {
    if i < 0 then (if i + n < 0 then 0 else i + n)
    else if i > n then n
    else i
  }

  /** Length of `s[start:stop]` for `|s| == n`. */
  function Len(n: nat, start: int, stop: int): (k: nat)
    ensures k <= n
    ensures Bound(start, n) + k <= n
    ensures k == 0 <==> Bound(stop, n) <= Bound(start, n)
    ensures Bound(start, n) < Bound(stop, n) ==> k == Bound(stop, n) - Bound(start, n)
  {
    var lo := Bound(start, n);
    var hi := Bound(stop, n);
    if hi <= lo then 0 else hi - lo
  }

  /** `s[start:stop]` on a Python list or one numpy axis. */
  function Slice<T>(s: seq<T>, start: int, stop: int): (r: seq<T>)
    ensures |r| == Len(|s|, start, stop)
    ensures forall k :: 0 <= k < |r| ==> r[k] == s[Bound(start, |s|) + k]
  {
    var lo := Bound(start, |s|);
    s[lo .. lo + Len(|s|, start, stop)]
  }

  /** A slice whose bounds already lie inside the sequence is the plain sub-range. */
  lemma InRangeSlice<T>(s: seq<T>, start: int, stop: int)
    requires 0 <= start <= stop <= |s|
    ensures Slice(s, start, stop) == s[start .. stop]
  {
  }

  /**
   * Exact condition under which a slice of `h > 0` elements starting at `y`
   * keeps all `h` elements: either the range lies inside `[0, n]`, or it lies
   * wholly at negative positions no further back than `-n`, where Python's
   * wrap-around maps it onto the tail of the sequence.
   */
  lemma FullLengthIff(n: nat, y: int, h: int)
    requires h > 0
    ensures Len(n, y, y + h) == h <==> (0 <= y && y + h <= n) || (0 <= y + n && y + h < 0)
  {
    if y >= 0 {
    } else if y + h < 0 {
    } else {
      assert Bound(y + h, n) <= y + h;
    }
  }
}
