/**
 * Python's bounds normalisation for a step-1 slice `s[start:stop]` over a
 * sequence of length `len` (what `slice.indices(len)` computes): `None`
 * means "from the start" or "to the end", a negative index counts from the
 * end, and the result is clipped into `[0, len]`.
 */
module PySlice {
  import opened Common

  /** One slice index after normalisation. */
  function NormIndex(i: int, len: nat): (k: nat)
    ensures k <= len
    ensures 0 <= i <= len ==> k == i
    ensures i < 0 && 0 <= i + len ==> k == i + len
    ensures i > len ==> k == len
    ensures i + len < 0 ==> k == 0
  {
    var shifted := if i < 0 then i + len else i;
    if shifted < 0 then 0 else if shifted > len then len else shifted
  }

  /** The half-open range `[lo, hi)` that `s[start:stop]` covers (empty when hi <= lo). */
  function Bounds(start: Option<int>, stop: Option<int>, len: nat): (r: (nat, nat))
    ensures r.0 <= len && r.1 <= len
    ensures start.None? ==> r.0 == 0
    ensures stop.None? ==> r.1 == len
  {
    (if start.None? then 0 else NormIndex(start.value, len),
     if stop.None? then len else NormIndex(stop.value, len))
  }

  /** Index `k` of a length-`len` sequence is covered by `s[start:stop]`. */
  predicate InSlice(k: int, start: Option<int>, stop: Option<int>, len: nat) {
    var (lo, hi) := Bounds(start, stop, len);
    lo <= k < hi
  }

  /** `s[:m]` for 0 <= m covers exactly the indices below `min(m, len)`. */
  lemma HeadSlice(k: int, m: int, len: nat)
    requires 0 <= m && 0 <= k < len
    ensures InSlice(k, None, Some(m), len) <==> k < m
  {
  }

  /** `s[-m:-1]` for 1 <= m covers `[max(len - m, 0), len - 1)`: never the last index. */
  lemma TailSlice(k: int, m: int, len: nat)
    requires 1 <= m && 0 <= k < len
    ensures InSlice(k, Some(-m), Some(-1), len) <==> len - m <= k < len - 1
  {
  }

  /** `s[-0:-1]` is `s[0:-1]`, since -0 is 0: every index but the last. */
  lemma TailSliceZero(k: int, len: nat)
    requires 0 <= k < len
    ensures InSlice(k, Some(-0), Some(-1), len) <==> k < len - 1
  {
  }

  /** A slice whose bounds already lie in `[0, len]` is taken as written. */
  lemma InRangeSlice(lo: int, hi: int, len: nat)
    requires 0 <= lo <= hi <= len
    ensures Bounds(Some(lo), Some(hi), len) == (lo, hi)
  {
  }
}
