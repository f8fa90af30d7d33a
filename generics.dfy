/** The generic helpers of Generics/1-Intro.go. */
module Generics {

  /** getLast: the last element, or the zero value of `T` (passed as `zero`)
      for an empty slice. */
  function GetLast<T>(s: seq<T>, zero: T): (r: T)
  {
    if |s| == 0 then zero else s[|s| - 1]
  }

  /** splitAnySlice: `s[:mid], s[mid:]` with `mid := len(s)/2`.  The halves
      put back together give `s`; the second is the first or one longer. */
  function SplitAnySlice<T>(s: seq<T>): (r: (seq<T>, seq<T>))
    ensures |r.0| == |s| / 2
    ensures r.0 + r.1 == s
    ensures |r.0| <= |r.1| <= |r.0| + 1
  {
    var mid := |s| / 2;
    (s[..mid], s[mid..])
  }

  /** getLast of an empty slice is the zero value; of a slice ending in `x`
      it is `x`, whatever came before. */
  lemma GetLastOfAppend<T>(s: seq<T>, x: T, zero: T)
    ensures GetLast([], zero) == zero
    ensures GetLast(s + [x], zero) == x
  {
  }

  /** The last element always lands in the second half of a split. */
  lemma GetLastOfSecondHalf<T>(s: seq<T>, zero: T)
    ensures GetLast(SplitAnySlice(s).1, zero) == GetLast(s, zero)
  {
  }

  /** Splitting the harness's four ints gives [0, 1] and [2, 3]. */
  lemma SplitFourInts()
    ensures SplitAnySlice([0, 1, 2, 3]) == ([0, 1], [2, 3])
  {
    var s := [0, 1, 2, 3];
    assert s[..2] == [0, 1] && s[2..] == [2, 3];
  }
}
