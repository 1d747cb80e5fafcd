/** The copy-based three-way-partition quicksort of the numbers store
    (`NumbersService.QuickSort` and `GetSortedNumbers`). */
module Sorting {
  import opened Sequences

  /** The three lists one pass over the input fills: strictly less than the
      pivot, equal to it, strictly greater. */
  datatype Parts = Parts(less: seq<int>, equal: seq<int>, greater: seq<int>)

  /** One `foreach` pass over the input, appending each element to the list
      it belongs to. */
  function Partition(s: seq<int>, pivot: int): (p: Parts)
    ensures |p.less| + |p.equal| + |p.greater| == |s|
  {
    if |s| == 0 then Parts([], [], [])
    else
      var rest := Partition(s[1..], pivot);
      if s[0] < pivot then Parts([s[0]] + rest.less, rest.equal, rest.greater)
      else if s[0] > pivot then Parts(rest.less, rest.equal, [s[0]] + rest.greater)
      else Parts(rest.less, [s[0]] + rest.equal, rest.greater)
  }

  /** Each list holds only elements on its side of the pivot. */
  lemma {:induction false} PartitionBounds(s: seq<int>, pivot: int)
    ensures forall i :: 0 <= i < |Partition(s, pivot).less| ==> Partition(s, pivot).less[i] < pivot
    ensures forall i :: 0 <= i < |Partition(s, pivot).equal| ==> Partition(s, pivot).equal[i] == pivot
    ensures forall i :: 0 <= i < |Partition(s, pivot).greater| ==> Partition(s, pivot).greater[i] > pivot
    decreases |s|
  {
    if |s| > 0 {
      PartitionBounds(s[1..], pivot);
    }
  }

  /** Every element lands in exactly one list: the three lists together hold
      the input's elements, each as often as the input does. */
  lemma {:induction false} PartitionKeepsElements(s: seq<int>, pivot: int)
    ensures var p := Partition(s, pivot);
      multiset(p.less) + multiset(p.equal) + multiset(p.greater) == multiset(s)
    decreases |s|
  {
    if |s| > 0 {
      var rest := Partition(s[1..], pivot);
      PartitionKeepsElements(s[1..], pivot);
      assert multiset(s) == multiset{s[0]} + multiset(s[1..]) by {
        assert s == [s[0]] + s[1..];
      }
      var p := Partition(s, pivot);
      if s[0] < pivot {
        assert multiset(p.less) == multiset{s[0]} + multiset(rest.less);
      } else if s[0] > pivot {
        assert multiset(p.greater) == multiset{s[0]} + multiset(rest.greater);
      } else {
        assert multiset(p.equal) == multiset{s[0]} + multiset(rest.equal);
      }
    }
  }

  /** Partitioning around an element of `s` leaves the outer lists shorter than `s`. */
  lemma PartitionShrinks(s: seq<int>, pivot: int)
    requires pivot in s
    ensures |Partition(s, pivot).less| < |s| && |Partition(s, pivot).greater| < |s|
  {
    var p := Partition(s, pivot);
    PartitionBounds(s, pivot);
    PartitionKeepsElements(s, pivot);
    assert pivot in multiset(s);
    assert pivot !in multiset(p.less) && pivot !in multiset(p.greater);
    assert pivot in multiset(p.equal);
    assert |multiset(p.less)| + |multiset(p.equal)| + |multiset(p.greater)| == |multiset(s)|;
  }

  /** Gluing the sorted outer parts around the pivot run keeps the order. */
  lemma GlueAscending(lo: seq<int>, mid: seq<int>, hi: seq<int>, pivot: int)
    requires SortedAsc(lo) && SortedAsc(hi)
    requires forall i :: 0 <= i < |lo| ==> lo[i] < pivot
    requires forall i :: 0 <= i < |mid| ==> mid[i] == pivot
    requires forall i :: 0 <= i < |hi| ==> hi[i] > pivot
    ensures SortedAsc(lo + mid + hi)
  {
  }

  lemma GlueDescending(hi: seq<int>, mid: seq<int>, lo: seq<int>, pivot: int)
    requires SortedDesc(lo) && SortedDesc(hi)
    requires forall i :: 0 <= i < |lo| ==> lo[i] < pivot
    requires forall i :: 0 <= i < |mid| ==> mid[i] == pivot
    requires forall i :: 0 <= i < |hi| ==> hi[i] > pivot
    ensures SortedDesc(hi + mid + lo)
  {
  }

  /** A permutation keeps every element's bound. */
  lemma BoundsCarryOver(s: seq<int>, t: seq<int>, pivot: int, below: bool)
    requires multiset(s) == multiset(t)
    requires forall i :: 0 <= i < |s| ==> if below then s[i] < pivot else s[i] > pivot
    ensures forall i :: 0 <= i < |t| ==> if below then t[i] < pivot else t[i] > pivot
  {
    forall i | 0 <= i < |t|
      ensures if below then t[i] < pivot else t[i] > pivot
    {
      assert t[i] in multiset(s);
    }
  }

  /** The recursive sort: pivot at the middle index, recurse on the outer
      parts, concatenate in the requested direction. */
  function QuickSort(s: seq<int>, descending: bool): (r: seq<int>)
    ensures multiset(r) == multiset(s)
    ensures if descending then SortedDesc(r) else SortedAsc(r)
    decreases |s|
  {
    if |s| <= 1 then s
    else
      var pivot := s[|s| / 2];
      var p := Partition(s, pivot);
      PartitionBounds(s, pivot);
      PartitionKeepsElements(s, pivot);
      PartitionShrinks(s, pivot);
      var sortedLess := QuickSort(p.less, descending);
      var sortedGreater := QuickSort(p.greater, descending);
      BoundsCarryOver(p.less, sortedLess, pivot, true);
      BoundsCarryOver(p.greater, sortedGreater, pivot, false);
      if descending then
        GlueDescending(sortedGreater, p.equal, sortedLess, pivot);
        sortedGreater + p.equal + sortedLess
      else
        GlueAscending(sortedLess, p.equal, sortedGreater, pivot);
        sortedLess + p.equal + sortedGreater
  }

  /** An input already in the requested order comes back unchanged; this
      covers the 0- and 1-element base case and makes the sort idempotent. */
  lemma QuickSortKeepsSorted(s: seq<int>, descending: bool)
    requires if descending then SortedDesc(s) else SortedAsc(s)
    ensures QuickSort(s, descending) == s
  {
    if descending {
      var r := QuickSort(s, true);
      ReverseFlipsOrder(r);
      ReverseFlipsOrder(s);
      ReverseMultiset(r);
      ReverseMultiset(s);
      SortedUnique(Reverse(r), Reverse(s));
      ReverseReverse(r);
      ReverseReverse(s);
    } else {
      SortedUnique(QuickSort(s, false), s);
    }
  }

  /** Sorting twice gives the same as sorting once. */
  lemma QuickSortIdempotent(s: seq<int>, descending: bool)
    ensures QuickSort(QuickSort(s, descending), descending) == QuickSort(s, descending)
  {
    QuickSortKeepsSorted(QuickSort(s, descending), descending);
  }

  /** The result depends only on which elements the input holds. */
  lemma QuickSortPermutationInvariant(s: seq<int>, t: seq<int>, descending: bool)
    requires multiset(s) == multiset(t)
    ensures QuickSort(s, descending) == QuickSort(t, descending)
  {
    if descending {
      var a, b := QuickSort(s, true), QuickSort(t, true);
      ReverseFlipsOrder(a);
      ReverseFlipsOrder(b);
      ReverseMultiset(a);
      ReverseMultiset(b);
      SortedUnique(Reverse(a), Reverse(b));
      ReverseReverse(a);
      ReverseReverse(b);
    } else {
      SortedUnique(QuickSort(s, false), QuickSort(t, false));
    }
  }

  /** The descending sort is the ascending sort read back to front. */
  lemma DescendingIsReversedAscending(s: seq<int>)
    ensures QuickSort(s, true) == Reverse(QuickSort(s, false))
  {
    var d := QuickSort(s, true);
    ReverseFlipsOrder(d);
    ReverseMultiset(d);
    SortedUnique(Reverse(d), QuickSort(s, false));
    ReverseReverse(d);
  }

  /** The sort's result is the one arrangement of the input's elements in
      the requested order. */
  lemma QuickSortIsTheOrderedPermutation(s: seq<int>, t: seq<int>, descending: bool)
    requires multiset(t) == multiset(s)
    requires if descending then SortedDesc(t) else SortedAsc(t)
    ensures QuickSort(s, descending) == t
  {
    QuickSortPermutationInvariant(s, t, descending);
    QuickSortKeepsSorted(t, descending);
  }

  /** [1, 2, 3, 4] is the ascending arrangement of [2, 4, 3, 1] ... */
  lemma ExampleAscending(input: seq<int>, up: seq<int>)
    requires input == [2, 4, 3, 1] && up == [1, 2, 3, 4]
    ensures multiset(up) == multiset(input) && SortedAsc(up)
  {
    assert multiset(input) == multiset{1, 2, 3, 4} == multiset(up);
  }

  /** ... and [4, 3, 2, 1] its descending one. */
  lemma ExampleDescending(input: seq<int>, down: seq<int>)
    requires input == [2, 4, 3, 1] && down == [4, 3, 2, 1]
    ensures multiset(down) == multiset(input) && SortedDesc(down)
  {
    assert multiset(input) == multiset{1, 2, 3, 4} == multiset(down);
  }

  /** The store's example: [2, 4, 3, 1] sorts ascending to [1, 2, 3, 4] ... */
  lemma SortExampleAscending()
    ensures QuickSort([2, 4, 3, 1], false) == [1, 2, 3, 4]
  {
    ExampleAscending([2, 4, 3, 1], [1, 2, 3, 4]);
    QuickSortIsTheOrderedPermutation([2, 4, 3, 1], [1, 2, 3, 4], false);
  }

  /** ... and descending to [4, 3, 2, 1]. */
  lemma SortExampleDescending()
    ensures QuickSort([2, 4, 3, 1], true) == [4, 3, 2, 1]
  {
    ExampleDescending([2, 4, 3, 1], [4, 3, 2, 1]);
    QuickSortIsTheOrderedPermutation([2, 4, 3, 1], [4, 3, 2, 1], true);
  }
}
