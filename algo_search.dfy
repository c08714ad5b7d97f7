/** Searching and the maximum-difference problem over integer lists. */
module AlgoSearch {

  predicate Sorted(arr: seq<int>) {
    forall p, q :: 0 <= p < q < |arr| ==> arr[p] <= arr[q]
  }

  /** Scan from the front; the first index holding target, or -1. */
  method LinearSearch(arr: seq<int>, target: int) returns (r: int)
    ensures -1 <= r < |arr|
    ensures r == -1 <==> target !in arr
    ensures r >= 0 ==> arr[r] == target && forall k :: 0 <= k < r ==> arr[k] != target
  {
    for i := 0 to |arr|
      invariant forall k :: 0 <= k < i ==> arr[k] != target
    {
      if arr[i] == target {
        return i;
      }
    }
    return -1;
  }

  /** Halve the window [left, right] until target is found or the window is empty.
      Any index returned holds target; on a sorted list -1 means target is absent. */
  method BinarySearch(arr: seq<int>, target: int) returns (r: int)
    ensures -1 <= r < |arr|
    ensures r >= 0 ==> arr[r] == target
    ensures Sorted(arr) ==> (r == -1 <==> target !in arr)
  {
    var left, right := 0, |arr| - 1;
    while left <= right
      invariant 0 <= left <= right + 1 <= |arr|
      invariant Sorted(arr) ==> forall k :: 0 <= k < left ==> arr[k] < target
      invariant Sorted(arr) ==> forall k :: right < k < |arr| ==> arr[k] > target
      decreases right - left + 1
    {
      var mid := (left + right) / 2;
      if arr[mid] == target {
        return mid;
      } else if arr[mid] < target {
        left := mid + 1;
      } else {
        right := mid - 1;
      }
    }
    return -1;
  }

  /** d is the largest arr[q] - arr[p] over p < q, or 0 when no pair does better. */
  predicate IsMaxDiff(arr: seq<int>, d: int) {
    && d >= 0
    && (forall p, q :: 0 <= p < q < |arr| ==> arr[q] - arr[p] <= d)
    && (d == 0 || exists p, q :: 0 <= p < q < |arr| && arr[q] - arr[p] == d)
  }

  /** At most one value meets the maximum-difference specification, so the two
      routines below agree on every list both accept. */
  lemma MaxDiffUnique(arr: seq<int>, d1: int, d2: int)
    requires IsMaxDiff(arr, d1) && IsMaxDiff(arr, d2)
    ensures d1 == d2
  {
    if d1 != 0 {
      var p, q :| 0 <= p < q < |arr| && arr[q] - arr[p] == d1;
      assert d1 <= d2;
    }
    if d2 != 0 {
      var p, q :| 0 <= p < q < |arr| && arr[q] - arr[p] == d2;
      assert d2 <= d1;
    }
  }

  /** Every pair p < q, visited row by row. */
  method MaxDiffBruteForce(arr: seq<int>) returns (maxDiff: int)
    ensures IsMaxDiff(arr, maxDiff)
  {
    maxDiff := 0;
    var n := |arr|;
    ghost var wp, wq := 0, 0;
    for i := 0 to n
      invariant maxDiff >= 0
      invariant forall p, q :: 0 <= p < i && p < q < n ==> arr[q] - arr[p] <= maxDiff
      invariant maxDiff != 0 ==> 0 <= wp < wq < n && arr[wq] - arr[wp] == maxDiff
    {
      for j := i + 1 to n
        invariant maxDiff >= 0
        invariant forall p, q :: 0 <= p < i && p < q < n ==> arr[q] - arr[p] <= maxDiff
        invariant forall q :: i < q < j ==> arr[q] - arr[i] <= maxDiff
        invariant maxDiff != 0 ==> 0 <= wp < wq < n && arr[wq] - arr[wp] == maxDiff
      {
        if arr[j] - arr[i] > maxDiff {
          maxDiff := arr[j] - arr[i];
          wp, wq := i, j;
        }
      }
    }
  }

  /** One pass keeping the minimum of the prefix seen so far.  The list must be
      non-empty: its first element seeds the minimum. */
  method MaxDiffOptimized(arr: seq<int>) returns (maxDiff: int)
    requires |arr| > 0
    ensures IsMaxDiff(arr, maxDiff)
  {
    var minVal := arr[0];
    maxDiff := 0;
    ghost var wm := 0;
    ghost var wp, wq := 0, 0;
    for i := 1 to |arr|
      invariant 0 <= wm < i && arr[wm] == minVal
      invariant forall k :: 0 <= k < i ==> minVal <= arr[k]
      invariant maxDiff >= 0
      invariant forall p, q :: 0 <= p < q < i ==> arr[q] - arr[p] <= maxDiff
      invariant maxDiff != 0 ==> 0 <= wp < wq < i && arr[wq] - arr[wp] == maxDiff
    {
      if arr[i] - minVal > maxDiff {
        maxDiff := arr[i] - minVal;
        wp, wq := wm, i;
      }
      if arr[i] < minVal {
        minVal := arr[i];
        wm := i;
      }
    }
  }
}
