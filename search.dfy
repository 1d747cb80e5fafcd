/** The membership test of the numbers store (`NumbersService.BinarySearch`):
    sort a copy ascending, then a closed-interval binary search on it. */
module Search {
  import opened Sequences
  import opened Sorting

  /** In an ascending sequence, an element below the target rules out every
      position up to it ... */
  lemma RuleOutLeft(sorted: seq<int>, mid: nat, target: int)
    requires SortedAsc(sorted) && mid < |sorted| && sorted[mid] < target
    ensures forall i :: 0 <= i <= mid ==> sorted[i] < target
  {
  }

  /** ... and an element above the target every position from it on. */
  lemma RuleOutRight(sorted: seq<int>, mid: nat, target: int)
    requires SortedAsc(sorted) && mid < |sorted| && sorted[mid] > target
    ensures forall i :: mid <= i < |sorted| ==> sorted[i] > target
  {
  }

  method BinarySearch(numbers: seq<int>, target: int) returns (found: bool)
    ensures found <==> target in numbers
  {
    if |numbers| == 0 {
      return false;
    }
    var sorted := QuickSort(numbers, false);
    assert |sorted| == |numbers| by {
      assert |multiset(sorted)| == |multiset(numbers)|;
    }
    var left, right := 0, |sorted| - 1;
    while left <= right
      invariant 0 <= left <= |sorted| && -1 <= right < |sorted|
      invariant forall i :: 0 <= i < left ==> sorted[i] < target
      invariant forall i :: right < i < |sorted| ==> sorted[i] > target
      decreases right - left
    {
      var mid := left + (right - left) / 2;
      assert 0 <= left <= mid <= right < |sorted|;
      if sorted[mid] == target {
        assert target in multiset(sorted);
        return true;
      }
      if sorted[mid] < target {
        RuleOutLeft(sorted, mid, target);
        left := mid + 1;
      } else {
        RuleOutRight(sorted, mid, target);
        right := mid - 1;
      }
    }
    assert target !in multiset(sorted);
    return false;
  }
}
