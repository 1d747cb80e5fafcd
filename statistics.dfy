/** Average and median of the numbers store (`NumbersService.GetStatistics`
    and `NumbersService.Median`), on exact rationals. */
module Statistics {
  import opened Sequences
  import opened Sorting

  /** The statistics response: rounded average and median. */
  datatype Stats = Stats(average: real, median: real)

  /** Rounding to two decimal places, ties to the even hundredth (the default
      midpoint rule of `Math.Round(value, 2)`). */
  function RoundTo2(q: real): (r: real)
    ensures (r * 100.0).Floor as real == r * 100.0
    ensures -0.005 <= r - q <= 0.005
    ensures q * 100.0 - (q * 100.0).Floor as real == 0.5 ==> (r * 100.0).Floor % 2 == 0
  {
    var scaled := q * 100.0;
    var down := scaled.Floor;
    var fraction := scaled - down as real;
    var hundredths :=
      if fraction < 0.5 then down
      else if fraction > 0.5 then down + 1
      else if down % 2 == 0 then down
      else down + 1;
    hundredths as real / 100.0
  }

  /** The middle element for an odd count, the mean of the two middle
      elements for an even count; either way, twice the median is the sum of
      the elements at the two middle positions (which coincide for an odd count). */
  function Median(sortedNumbers: seq<int>): (m: real)
    requires |sortedNumbers| > 0
    ensures 2.0 * m == sortedNumbers[(|sortedNumbers| - 1) / 2] as real + sortedNumbers[|sortedNumbers| / 2] as real
  {
    var count := |sortedNumbers|;
    if count % 2 == 0 then
      (sortedNumbers[count / 2 - 1] + sortedNumbers[count / 2]) as real / 2.0
    else
      sortedNumbers[count / 2] as real
  }

  /** In an ascending sequence, only the positions before one holding a
      value at or above `m` can hold values below `m`. */
  lemma FewBelow(sorted: seq<int>, m: real, hi: nat)
    requires SortedAsc(sorted) && hi < |sorted| && m <= sorted[hi] as real
    ensures Count(sorted, m, Below) <= hi
  {
    var front, back := sorted[..hi], sorted[hi..];
    assert sorted == front + back;
    CountConcat(front, back, m, Below);
    CountAtMost(front, m, Below);
    forall i | 0 <= i < |back| ensures !Beyond(back[i], m, Below) {
      assert back[i] == sorted[hi + i] >= sorted[hi];
    }
    CountNone(back, m, Below);
  }

  /** Symmetrically, only the positions after one holding a value at or
      below `m` can hold values above `m`. */
  lemma FewAbove(sorted: seq<int>, m: real, lo: nat)
    requires SortedAsc(sorted) && lo < |sorted| && sorted[lo] as real <= m
    ensures Count(sorted, m, Above) <= |sorted| - lo - 1
  {
    var front, back := sorted[..lo + 1], sorted[lo + 1..];
    assert sorted == front + back;
    CountConcat(front, back, m, Above);
    CountAtMost(back, m, Above);
    forall i | 0 <= i < |front| ensures !Beyond(front[i], m, Above) {
      assert front[i] == sorted[i] <= sorted[lo];
    }
    CountNone(front, m, Above);
  }

  /** A C# `int` sum in the default unchecked context: the exact sum wrapped
      into [-2^31, 2^31). */
  function Wrap32(x: int): (w: int)
    ensures -0x8000_0000 <= w < 0x8000_0000
    ensures (w - x) % 0x1_0000_0000 == 0
  {
    (x + 0x8000_0000) % 0x1_0000_0000 - 0x8000_0000
  }

  /** `Median` as the source computes it: for an even count the two middle
      elements are added as 32-bit integers before the division by 2.0. */
  function MedianAsWritten(sortedNumbers: seq<int>): (m: real)
    requires |sortedNumbers| > 0
    ensures |sortedNumbers| % 2 == 1 ==> m == Median(sortedNumbers)
    ensures -0x8000_0000 <= sortedNumbers[(|sortedNumbers| - 1) / 2] + sortedNumbers[|sortedNumbers| / 2] < 0x8000_0000
      ==> m == Median(sortedNumbers)
  {
    var count := |sortedNumbers|;
    if count % 2 == 0 then
      Wrap32(sortedNumbers[count / 2 - 1] + sortedNumbers[count / 2]) as real / 2.0
    else
      sortedNumbers[count / 2] as real
  }

  /** Two stored copies of `int.MaxValue`: the source's median wraps to -1,
      below every stored value, while the exact median is the value itself. */
  lemma MedianOverflowExample(sortedNumbers: seq<int>)
    requires sortedNumbers == [0x7FFF_FFFF, 0x7FFF_FFFF]
    ensures MedianAsWritten(sortedNumbers) == -1.0
    ensures Median(sortedNumbers) == 2147483647.0
    ensures 2 * Count(sortedNumbers, MedianAsWritten(sortedNumbers), Above) > |sortedNumbers|
  {
    assert Wrap32(0x7FFF_FFFF + 0x7FFF_FFFF) == -2;
    var m := MedianAsWritten(sortedNumbers);
    assert m == -1.0;
    var tail := sortedNumbers[1..];
    assert tail[1..] == [] && tail[0] == 0x7FFF_FFFF;
    assert Beyond(tail[0], m, Above);
    assert Count(tail, m, Above) == 1;
    assert Beyond(sortedNumbers[0], m, Above);
  }

  /** On an ascending sequence the median splits it in halves: at most half
      of the elements lie strictly below it and at most half strictly above. */
  lemma MedianSplits(sorted: seq<int>)
    requires SortedAsc(sorted) && |sorted| > 0
    ensures 2 * Count(sorted, Median(sorted), Below) <= |sorted|
    ensures 2 * Count(sorted, Median(sorted), Above) <= |sorted|
  {
    var n, m := |sorted|, Median(sorted);
    var lo, hi := (n - 1) / 2, n / 2;
    assert sorted[lo] <= sorted[hi];
    FewBelow(sorted, m, hi);
    FewAbove(sorted, m, lo);
  }

  /** The body of `GetStatistics`: zeros on an empty store; otherwise the
      rounded mean and the median of an ascending copy. */
  function StatisticsOf(numbers: seq<int>): (st: Stats)
    ensures |numbers| == 0 ==> st == Stats(0.0, 0.0)
    ensures |numbers| > 0 ==> -0.005 <= st.average - Mean(numbers) <= 0.005
    ensures 2 * Count(numbers, st.median, Below) <= |numbers|
    ensures 2 * Count(numbers, st.median, Above) <= |numbers|
  {
    if |numbers| == 0 then Stats(0.0, 0.0)
    else
      var sorted := QuickSort(numbers, false);
      assert |sorted| == |numbers| by {
        assert |multiset(sorted)| == |multiset(numbers)|;
      }
      var median := Median(sorted);
      MedianSplits(sorted);
      CountPermutation(sorted, numbers, median, Below);
      CountPermutation(sorted, numbers, median, Above);
      Stats(RoundTo2(Mean(numbers)), median)
  }

  /** The statistics depend only on which numbers are stored, not on the
      order they were added in. */
  lemma StatisticsIgnoreOrder(numbers: seq<int>, shuffled: seq<int>)
    requires multiset(numbers) == multiset(shuffled)
    ensures StatisticsOf(numbers) == StatisticsOf(shuffled)
  {
    assert |numbers| == |multiset(numbers)| == |multiset(shuffled)| == |shuffled|;
    if |numbers| > 0 {
      SumPermutation(numbers, shuffled);
      QuickSortPermutationInvariant(numbers, shuffled, false);
    }
  }

  /** The statistics of a non-empty store are exactly the source's values:
      the median is the middle of the store's ascending arrangement `t` (the
      mean of its two middle elements for an even count), and the average is
      the exact mean rounded half-even to hundredths. */
  lemma StatisticsExact(numbers: seq<int>, t: seq<int>)
    requires |numbers| > 0 && SortedAsc(t) && multiset(t) == multiset(numbers)
    ensures 2.0 * StatisticsOf(numbers).median == t[(|t| - 1) / 2] as real + t[|t| / 2] as real
    ensures StatisticsOf(numbers).average == RoundTo2(Mean(numbers))
  {
    SortedUnique(QuickSort(numbers, false), t);
  }

  /** The store's example: [1, 2, 3, 4] has average 2.5 and median 2.5. */
  lemma StatisticsExample()
    ensures StatisticsOf([1, 2, 3, 4]) == Stats(2.5, 2.5)
  {
    StatisticsOfExample([1, 2, 3, 4]);
  }

  lemma StatisticsOfExample(numbers: seq<int>)
    requires numbers == [1, 2, 3, 4]
    ensures StatisticsOf(numbers) == Stats(2.5, 2.5)
  {
    MedianOfExample(numbers);
    AverageOfExample(numbers);
  }

  lemma MedianOfExample(numbers: seq<int>)
    requires numbers == [1, 2, 3, 4]
    ensures StatisticsOf(numbers).median == 2.5
  {
    ExampleAscending([2, 4, 3, 1], numbers);
    StatisticsExact(numbers, numbers);
  }

  lemma AverageOfExample(numbers: seq<int>)
    requires numbers == [1, 2, 3, 4]
    ensures StatisticsOf(numbers).average == 2.5
  {
    ExampleAscending([2, 4, 3, 1], numbers);
    StatisticsExact(numbers, numbers);
    MeanOfExample(numbers);
    RoundExample();
  }

  lemma MeanOfExample(numbers: seq<int>)
    requires numbers == [1, 2, 3, 4]
    ensures Mean(numbers) == 2.5
  {
    SumOfExample(numbers);
  }

  lemma SumOfExample(numbers: seq<int>)
    requires numbers == [1, 2, 3, 4]
    ensures Sum(numbers) == 10
  {
    var three, two, one := numbers[..3], numbers[..2], numbers[..1];
    assert three[..2] == two && two[..1] == one && one[..0] == [];
    assert one[0] == 1 && two[1] == 2 && three[2] == 3 && numbers[3] == 4;
    assert Sum(one) == 1;
    assert Sum(two) == 3;
    assert Sum(three) == 6;
  }

  lemma RoundExample()
    ensures RoundTo2(2.5) == 2.5
  {
    assert (2.5 * 100.0).Floor == 250;
  }
}
