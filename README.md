# NumbersApi numbers store, in Dafny

This project models `NumbersService`, the in-memory integer store behind the
NumbersApi HTTP service. Clients append integers to the store. They read the
store back in insertion order or sorted ascending or descending. They can ask
whether a value is stored, get the average and the median, and have the sum
computed in parallel chunks.

Layout:

- `sequences.dfy` (module `Sequences`): shared notions. These are ascending
  and descending order, the sequential sum and the mean, reversal, and
  counting the elements below or above a threshold. It also proves that the
  ascending arrangement of a multiset is unique, and that sums and counts do
  not depend on element order.
- `sorting.dfy` (module `Sorting`): the copy-based three-way-partition
  `QuickSort`. The pivot is the element at index `count / 2`. Elements are
  split into less / equal / greater in input order, the outer parts are
  sorted recursively, and the parts are concatenated in the requested
  direction.
- `search.dfy` (module `Search`): `BinarySearch`. It sorts a copy ascending,
  then runs a closed-interval `while (left <= right)` search.
- `statistics.dfy` (module `Statistics`): `Median`, rounding to two decimals,
  and the body of `GetStatistics`.
- `aggregation.dfy` (module `Aggregation`): the chunking of
  `ProcessNumbersParallelAsync`. The chunk length is `max(1, count / cores)`.
  Chunks are `[i, min(i + partSize, count))` for `i = 0, partSize, ...`. The
  module also defines the per-chunk sums.
- `service.dfy` (module `Service`): the class `NumbersService`, whose field
  `numbers: seq<int>` is the store. It has one method per public operation.

Numbers are mathematical integers. Averages and medians are exact `real`s.
The processor count is a parameter `cores >= 1`. The parallel tasks run one
after another. Each task only reads its own slice, so the order does not
change the result.

At `NumbersApi/Services/NumbersService.cs:77-80` the chunk loop steps by
`partSize` and clips the last chunk at `count`. So the last chunk is the
remainder and is never longer than `partSize`. The number of chunks is
`count / partSize` rounded up, which can exceed the processor count
(`Aggregation.ChunkCount`, `Aggregation.MoreChunksThanCores`).

## Model

| member | source | states |
|---|---|---|
| `Service.NumbersService.constructor` | NumbersApi/Services/NumbersService.cs:9 | a new store is empty |
| `Service.NumbersService.AddNumbers` | NumbersApi/Services/NumbersService.cs:11-14 | the new store is the old store followed by the argument, in order; an empty argument leaves it unchanged |
| `Service.NumbersService.GetAllNumbers` | NumbersApi/Services/NumbersService.cs:16-19 | returns exactly the stored sequence in insertion order and leaves the store untouched |
| `Service.NumbersService.GetSortedNumbers` | NumbersApi/Services/NumbersService.cs:21-36 | the result is a permutation of the store; it is non-increasing for "desc" and non-decreasing for "asc" and for every other string, which sort exactly as "asc"; the store is untouched |
| `Service.NumbersService.SearchNumber` | NumbersApi/Services/NumbersService.cs:39-45 | echoes the queried value; found is true iff the value is in the store (so false on an empty store) |
| `Service.NumbersService.GetStatistics` | NumbersApi/Services/NumbersService.cs:47-68 | zeros on an empty store; otherwise the average is within 0.005 of the exact mean and at most half of the stored values lie strictly below or strictly above the median |
| `Service.NumbersService.ProcessNumbersParallel` | NumbersApi/Services/NumbersService.cs:70-102 | for every store size and every `cores >= 1`, count is the store size, sum is the plain sum of the store, and average is the exact mean (0 when empty) |
| `Sorting.QuickSort` | NumbersApi/Services/NumbersService.cs:104-126 | the result is a permutation of the input (same multiset, hence same length), non-decreasing when `descending` is false and non-increasing when true |
| `Sorting.Partition` | NumbersApi/Services/NumbersService.cs:109-118 | one pass over the input fills three lists whose lengths add up to the input's length |
| `Sorting.PartitionBounds` | NumbersApi/Services/NumbersService.cs:113-118 | the left list holds only values below the pivot, the middle only the pivot, the right only values above |
| `Sorting.PartitionKeepsElements` | NumbersApi/Services/NumbersService.cs:109-118 | every input element lands in exactly one of the three lists |
| `Sorting.PartitionShrinks` | NumbersApi/Services/NumbersService.cs:108-121 | with the pivot taken from the input, both recursive calls get strictly shorter lists, so the recursion ends |
| `Sorting.QuickSortKeepsSorted` | NumbersApi/Services/NumbersService.cs:106 | an input already in the requested order is returned unchanged, including every input of length 0 or 1 |
| `Sorting.QuickSortIdempotent` | NumbersApi/Services/NumbersService.cs:104-126 | sorting a sorted result again returns it unchanged |
| `Sorting.QuickSortPermutationInvariant` | NumbersApi/Services/NumbersService.cs:104-126 | the sorted result depends only on the multiset of the input, not on the insertion order |
| `Sorting.DescendingIsReversedAscending` | NumbersApi/Services/NumbersService.cs:123-125 | the descending result is the ascending result read back to front |
| `Sorting.QuickSortIsTheOrderedPermutation` | NumbersApi/Services/NumbersService.cs:104-126 | any arrangement of the input's elements in the requested order is the sort's result: the result is determined by the input's multiset and the direction |
| `Sorting.SortExampleAscending` | NumbersApiTests/Services/NumbersServiceTests.cs:45-59 | [2, 4, 3, 1] sorts ascending to [1, 2, 3, 4] |
| `Sorting.SortExampleDescending` | NumbersApiTests/Services/NumbersServiceTests.cs:45-59 | [2, 4, 3, 1] sorts descending to [4, 3, 2, 1] |
| `Search.BinarySearch` | NumbersApi/Services/NumbersService.cs:128-145 | returns true iff the target occurs in the list, false on an empty list; every probe index satisfies `0 <= left <= mid <= right < count` and the loop terminates |
| `Statistics.Median` | NumbersApi/Services/NumbersService.cs:147-159 | twice the result is the sum of the elements at positions `(count-1)/2` and `count/2`: the middle element for an odd count, the mean of the two middle elements for an even count |
| `Statistics.MedianSplits` | NumbersApi/Services/NumbersService.cs:147-159 | on an ascending non-empty list, at most half of the elements lie strictly below the median and at most half strictly above it |
| `Statistics.RoundTo2` | NumbersApi/Services/NumbersService.cs:65 | the result is a whole number of hundredths within 0.005 of the input, and an exact tie goes to the even hundredth |
| `Statistics.StatisticsOf` | NumbersApi/Services/NumbersService.cs:47-68 | zeros on an empty store; otherwise the average is within 0.005 of the exact mean, and at most half of the (unsorted) store lies strictly below the median and at most half strictly above |
| `Statistics.StatisticsExact` | NumbersApi/Services/NumbersService.cs:58-66 | for a non-empty store and its ascending arrangement, twice the median is the sum of the two middle elements (the middle element twice for an odd count), and the average is exactly the mean rounded half-even to hundredths |
| `Statistics.StatisticsIgnoreOrder` | NumbersApi/Services/NumbersService.cs:47-68 | two stores holding the same values in any order have the same statistics |
| `Statistics.StatisticsExample` | NumbersApiTests/Services/NumbersServiceTests.cs:100-112 | [1, 2, 3, 4] has average 2.5 and median 2.5 |
| `Statistics.Wrap32` | NumbersApi/Services/NumbersService.cs:153 | a C# `int` sum: the result lies in [-2^31, 2^31) and differs from the exact sum by a multiple of 2^32 |
| `Statistics.MedianAsWritten` | NumbersApi/Services/NumbersService.cs:147-159 | the source's median agrees with the exact one for an odd count, and for an even count whenever the two middle elements add up to a value inside the `int` range |
| `Statistics.MedianOverflowExample` | NumbersApi/Services/NumbersService.cs:153 | with two copies of `int.MaxValue`, the 32-bit sum makes the source's median -1, which lies below both stored values, while the exact median is 2147483647 |
| `Aggregation.PartSize` | NumbersApi/Services/NumbersService.cs:73 | the chunk length is at least 1 and never more than a non-empty store's size |
| `Aggregation.ChunksFrom` | NumbersApi/Services/NumbersService.cs:77-80 | the loop from index `i` creates no chunk exactly when `i` has reached `count` |
| `Aggregation.Chunks` | NumbersApi/Services/NumbersService.cs:72-80 | there are no chunks exactly when the store is empty |
| `Aggregation.ChunkCount` | NumbersApi/Services/NumbersService.cs:73-80 | for a non-empty store the number of chunks n satisfies (n - 1) * partSize < count <= n * partSize: the count divided by `partSize`, rounded up |
| `Aggregation.MoreChunksThanCores` | NumbersApi/Services/NumbersService.cs:72-80 | five numbers on two processors give a chunk length of 2 and three chunks, one more than the processors |
| `Aggregation.ChunksPartition` | NumbersApi/Services/NumbersService.cs:77-80 | the chunks lie end to end from 0 to count; all but the last are exactly `partSize` long and the last holds the remainder; every index in [0, count) is in some chunk, and in only one |
| `Aggregation.SliceSum` | NumbersApi/Services/NumbersService.cs:84-89 | one worker's result: for a chunk inside the store, the sum before the chunk plus the result plus the sum after it is the store's sum |
| `Aggregation.ChunkSums` | NumbersApi/Services/NumbersService.cs:82-93 | the results array: one result per chunk, in chunk order |
| `Aggregation.ChunkedSumIsSum` | NumbersApi/Services/NumbersService.cs:77-94 | adding the per-chunk sums gives the plain sum of the store, for every store size and every `cores >= 1` |

## Findings

| source | as written | input that shows it | evidently intended | confidence | as-written member | corrected member |
|---|---|---|---|---|---|---|
| NumbersApi/Services/NumbersService.cs:153 | the two middle elements are added as 32-bit `int`s, which wrap in C#'s default unchecked context, before the division by 2.0 | a store holding 2147483647 twice: the sum wraps to -2 and the median comes out as -1 | the mean of the two middle elements, 2147483647 | not executed; assumes the default unchecked arithmetic | `Statistics.MedianOverflowExample` (about `Statistics.MedianAsWritten`) | `Statistics.Median`, with `Statistics.MedianSplits` |

## Left out

- Concurrency: `Task.Run` and `Task.WhenAll` become a sequential loop over the chunks. Each task reads only its own slice, so the sum is the same. Appends that race with an aggregation in progress are not modelled.
- `Environment.ProcessorCount` is a runtime query; it becomes the parameter `cores`, with `cores >= 1` as the runtime guarantees.
- Floating point: averages and the median are exact rationals (`real`). `Math.Round(average, 2)` is modelled as exact rounding to hundredths with ties to even (.NET's default midpoint rule). The binary representation of `double` and its rounding errors are not modelled.
- Machine integers: the 64-bit `long` accumulators of the chunk sums, the `int` loop counters, and the `long` sum inside `Average()` are mathematical integers. The one overflow that changes a result for realistic stores, the `int` addition in `Median`, is logged under Findings. `Statistics.MedianAsWritten` shows it, and the rest of the model uses the exact `Statistics.Median`.
- Service.NumbersService.GetStatistics: for an even count, its median clause only says the median splits the store in halves, which allows any value between the two middle elements. Its first clause, `stats == StatisticsOf(numbers)`, together with `Statistics.StatisticsExact`, pins down the exact mean of the two and the exact rounded average.
- Statistics.StatisticsOf: its own ensures give the average only within 0.005 of the mean and allow, for an even count, any median between the two middle elements. The exact values (half-even rounding, mean of the two middle elements) are stated by `Statistics.StatisticsExact`, because they are about the store's sorted arrangement, which a function contract can name only through the sort.
- The HTTP controller (routing, the checks that reject an empty append or an unknown sort string, response marshalling) is not part of this model. The store accepts an empty append and treats unknown sort strings as "asc", as the service does.
- The `INumbersService` interface is a declaration only. The response DTOs (`SearchResponse`, `StatsResponse`, `ParallelProcessResponse`) are not part of this model; they are plain datatypes here.
- `GetAllNumbers` returning a fresh `List<int>` copy: Dafny sequences are values, so the returned sequence cannot alias the store. The store is unchanged by every read operation because those methods have no `modifies` clause.
