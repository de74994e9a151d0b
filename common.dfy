/** Small shared vocabulary: an optional value, a table row, the minimum of
    two integers, and slices of slices. */
module Common {

  datatype Option<+T> = None | Some(value: T)

  /** A table row: one string per column. */
  type Row = seq<string>

  function Min(a: int, b: int): int {
    if a <= b then a else b
  }

  /** Every element is smaller than every later one. */
  predicate StrictlyIncreasing(s: seq<int>) {
    forall i, j :: 0 <= i < j < |s| ==> s[i] < s[j]
  }

  /** A slice of a suffix is a slice of the whole. */
  lemma SliceOfSuffix<T>(s: seq<T>, m: nat, a: nat, b: nat)
    requires m <= |s| && a <= b <= |s| - m
    ensures s[m..][a..b] == s[m + a..m + b]
  {
  }

  /** A slice of a slice is a slice of the whole. */
  lemma SliceOfSlice<T>(s: seq<T>, lo: nat, hi: nat, a: nat, b: nat)
    requires lo <= hi <= |s| && a <= b <= hi - lo
    ensures s[lo..hi][a..b] == s[lo + a..lo + b]
  {
    var t := s[lo..hi];
    assert |t[a..b]| == b - a == |s[lo + a..lo + b]|;
    forall i | 0 <= i < b - a ensures t[a..b][i] == s[lo + a..lo + b][i] {
      assert t[a..b][i] == t[a + i] == s[lo + a + i];
    }
  }
}
