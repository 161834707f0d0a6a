/** The generic exact-match binary search of the utilities, over integers. */
module BinarySearch {
  import opened Wrappers

  ghost predicate Sorted(a: seq<int>)
  {
    forall i, j :: 0 <= i < j < |a| ==> a[i] <= a[j]
  }

  /**
   * Searches `a` for `key`. A found index always holds `key`; on a sorted
   * sequence the search misses only when `key` does not occur at all.
   */
  method BinarySearch(a: seq<int>, key: int) returns (r: Option<nat>)
    ensures r.Some? ==> r.value < |a| && a[r.value] == key
    ensures Sorted(a) ==> (r.None? <==> key !in a)
    ensures |a| == 0 ==> r.None?
  {
    var lowerBound, upperBound := 0, |a|;
    while lowerBound < upperBound
      invariant 0 <= lowerBound <= upperBound <= |a|
      invariant Sorted(a) ==> forall i :: 0 <= i < lowerBound ==> a[i] < key
      invariant Sorted(a) ==> forall i :: upperBound <= i < |a| ==> key < a[i]
      decreases upperBound - lowerBound
    {
      var midIndex := lowerBound + (upperBound - lowerBound) / 2;
      if a[midIndex] == key {
        return Some(midIndex);
      } else if a[midIndex] < key {
        lowerBound := midIndex + 1;
      } else {
        upperBound := midIndex;
      }
    }
    return None;
  }
}
