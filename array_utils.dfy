/**
 * Floor search over a sorted `int[]`: the index of the largest element that
 * is not greater than the key.
 */
module ArrayUtils {

  ghost predicate Sorted(a: seq<int>)
  {
    forall i, j :: 0 <= i < j < |a| ==> a[i] <= a[j]
  }

  /**
   * Binary search for the floor of `x`. A null or empty array gives -1; an
   * exact hit stops the search at once.
   */
  method BinaryFloorIdxSearch(arr: array?<int>, x: int) returns (floorIdx: int)
    ensures arr == null ==> floorIdx == -1
    ensures arr != null ==> -1 <= floorIdx < arr.Length
    ensures arr != null && floorIdx >= 0 ==> arr[floorIdx] <= x
    ensures arr != null && Sorted(arr[..]) && floorIdx == -1 ==>
      forall j :: 0 <= j < arr.Length ==> arr[j] > x
    ensures arr != null && Sorted(arr[..]) && floorIdx >= 0 ==>
      forall j :: 0 <= j < arr.Length && arr[j] <= x ==> arr[j] <= arr[floorIdx]
    ensures arr != null && Sorted(arr[..]) && x in arr[..] ==> floorIdx >= 0 && arr[floorIdx] == x
  {
    if arr == null || arr.Length == 0 {
      return -1;
    }
    var left, right := 0, arr.Length - 1;
    floorIdx := -1;
    while left <= right
      invariant 0 <= left <= right + 1 <= arr.Length
      invariant floorIdx == left - 1
      invariant floorIdx >= 0 ==> arr[floorIdx] <= x
      invariant Sorted(arr[..]) ==> forall j :: 0 <= j < left ==> arr[j] <= x
      invariant Sorted(arr[..]) ==> forall j :: right < j < arr.Length ==> arr[j] > x
    {
      var middle := left + (right - left) / 2;
      if arr[middle] <= x {
        floorIdx := middle;
        if arr[middle] == x {
          break;
        }
        left := middle + 1;
      } else {
        right := middle - 1;
      }
    }
  }
}
