/** The in-memory numbers store (`NumbersService`): one list of integers that
    requests append to and read from. */
module Service {
  import opened Sequences
  import opened Sorting
  import Search
  import opened Statistics
  import opened Aggregation

  /** The answer to a membership query. */
  datatype SearchResponse = SearchResponse(value: int, found: bool)

  class NumbersService {
    /** The stored numbers, in insertion order. */
    var numbers: seq<int>

    /** A fresh store is empty. */
    constructor ()
      ensures numbers == []
    {
      numbers := [];
    }

    /** Appends `items` to the end, keeping their order. */
    method AddNumbers(items: seq<int>)
      modifies this
      ensures numbers == old(numbers) + items
    {
      numbers := numbers + items;
    }

    /** A copy of the store, in insertion order. */
    method GetAllNumbers() returns (all: seq<int>)
      ensures all == numbers
    {
      all := numbers;
    }

    /** A sorted copy: descending for "desc", ascending for "asc" and for
        every other string. */
    method GetSortedNumbers(sortOrder: string) returns (sorted: seq<int>)
      ensures multiset(sorted) == multiset(numbers)
      ensures sortOrder == "desc" ==> SortedDesc(sorted)
      ensures sortOrder != "desc" ==> SortedAsc(sorted)
      ensures sorted == QuickSort(numbers, sortOrder == "desc")
    {
      var copy := numbers;
      match sortOrder
      case "desc" =>
        sorted := QuickSort(copy, true);
      case "asc" =>
        sorted := QuickSort(copy, false);
      case _ =>
        sorted := QuickSort(copy, false);
    }

    /** Whether `value` is stored. */
    method SearchNumber(value: int) returns (response: SearchResponse)
      ensures response.value == value
      ensures response.found <==> value in numbers
    {
      var found := Search.BinarySearch(numbers, value);
      response := SearchResponse(value, found);
    }

    /** Rounded average and median; both zero on an empty store. */
    method GetStatistics() returns (stats: Stats)
      ensures stats == StatisticsOf(numbers)
      ensures |numbers| == 0 ==> stats == Stats(0.0, 0.0)
      ensures |numbers| > 0 ==> -0.005 <= stats.average - Mean(numbers) <= 0.005
      ensures 2 * Count(numbers, stats.median, Below) <= |numbers|
      ensures 2 * Count(numbers, stats.median, Above) <= |numbers|
    {
      stats := StatisticsOf(numbers);
    }

    /** Count, sum and average of the store, computed chunk by chunk. The
        workers run one after another here; `cores` stands for the
        processor count the runtime reports. */
    method ProcessNumbersParallel(cores: int) returns (response: ParallelResult)
      requires cores >= 1
      ensures response.count == |numbers|
      ensures response.sum == Sum(numbers)
      ensures response.average == if |numbers| > 0 then Mean(numbers) else 0.0
    {
      var count := |numbers|;
      var partSize := PartSize(count, cores);
      var results: seq<int> := [];
      ghost var done: seq<Chunk> := [];
      var i := 0;
      while i < count
        invariant 0 <= i
        invariant done + ChunksFrom(i, count, partSize) == Chunks(count, cores)
        invariant results == ChunkSums(numbers, done)
        decreases count - i
      {
        var start := i;
        var end := Min(i + partSize, count);
        var localSum := 0;
        var j := start;
        while j < end
          invariant start <= j <= end
          invariant localSum == Sum(numbers[start..j])
        {
          SumExtend(numbers, start, j);
          localSum := localSum + numbers[j];
          j := j + 1;
        }
        ChunksFromHead(i, count, partSize);
        ChunkSumsAppend(numbers, done, Chunk(start, end));
        done := done + [Chunk(start, end)];
        results := results + [localSum];
        i := i + partSize;
      }
      assert done == Chunks(count, cores);
      var sum := Sum(results);
      ChunkedSumIsSum(numbers, cores);
      response := ParallelResult(count, sum, if count > 0 then sum as real / count as real else 0.0);
    }
  }
}
