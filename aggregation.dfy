/** The work split of `NumbersService.ProcessNumbersParallelAsync`: the index
    range [0, count) is cut into contiguous chunks of `partSize` elements,
    starting at 0 and stepping by `partSize`; each chunk is summed on its own
    and the partial sums are added up. */
module Aggregation {
  import opened Sequences

  /** The parallel-processing response. */
  datatype ParallelResult = ParallelResult(count: nat, sum: int, average: real)

  /** One worker's slice of the index range: [start, end). */
  datatype Chunk = Chunk(start: nat, end: nat)

  predicate Holds(c: Chunk, k: int) {
    c.start <= k < c.end
  }

  function Min(a: int, b: int): int {
    if a < b then a else b
  }

  /** `Math.Max(1, count / cores)`: the chunk length. */
  function PartSize(count: nat, cores: nat): (size: nat)
    requires cores >= 1
    ensures size >= 1
    ensures count > 0 ==> size <= count
  {
    if count / cores > 1 then count / cores else 1
  }

  /** The chunks the `for` loop creates from index `i` on: none exactly
      when `i` has reached `count`. */
  function ChunksFrom(i: nat, count: nat, size: nat): (cs: seq<Chunk>)
    requires size >= 1
    ensures |cs| == 0 <==> i >= count
    decreases count - i
  {
    if i >= count then [] else [Chunk(i, Min(i + size, count))] + ChunksFrom(i + size, count, size)
  }

  /** As many chunks as it takes `size`-long steps to cover the `count - i`
      remaining indices: their number divided by `size`, rounded up. */
  lemma {:induction false} ChunksFromCount(i: nat, count: nat, size: nat)
    requires size >= 1 && i < count
    ensures (|ChunksFrom(i, count, size)| - 1) * size < count - i <= |ChunksFrom(i, count, size)| * size
    decreases count - i
  {
    var rest := ChunksFrom(i + size, count, size);
    assert |ChunksFrom(i, count, size)| == |rest| + 1;
    assert (|rest| + 1) * size == |rest| * size + size;
    if i + size < count {
      ChunksFromCount(i + size, count, size);
    }
  }

  /** The loop's next chunk, followed by the chunks after it. */
  lemma ChunksFromHead(i: nat, count: nat, size: nat)
    requires size >= 1 && i < count
    ensures ChunksFrom(i, count, size) == [Chunk(i, Min(i + size, count))] + ChunksFrom(i + size, count, size)
  {
  }

  /** All chunks of a store of `count` elements on `cores` processors: none
      exactly for an empty store. */
  function Chunks(count: nat, cores: nat): (cs: seq<Chunk>)
    requires cores >= 1
    ensures |cs| == 0 <==> count == 0
  {
    ChunksFrom(0, count, PartSize(count, cores))
  }

  /** There are `count / partSize` chunks, rounded up. That can be more than
      `cores`, because the last chunk is a remainder rather than a longer
      chunk. */
  lemma ChunkCount(count: nat, cores: nat)
    requires cores >= 1 && count > 0
    ensures (|Chunks(count, cores)| - 1) * PartSize(count, cores) < count <= |Chunks(count, cores)| * PartSize(count, cores)
  {
    ChunksFromCount(0, count, PartSize(count, cores));
  }

  /** Five numbers on two processors: chunks of two, and three chunks. */
  lemma MoreChunksThanCores()
    ensures PartSize(5, 2) == 2 && |Chunks(5, 2)| == 3
  {
    ChunkCount(5, 2);
  }

  /** The chunks lie end to end from `lo` to `hi`, each non-empty; every
      chunk but the last is exactly `size` long, and the last one holds the
      remainder, never more than `size`. */
  predicate Tiles(cs: seq<Chunk>, lo: nat, hi: nat, size: nat) {
    (|cs| == 0 <==> lo >= hi) &&
    (|cs| > 0 ==> cs[0].start == lo && cs[|cs| - 1].end == hi) &&
    (forall j :: 0 <= j < |cs| ==> cs[j].start < cs[j].end && cs[j].end - cs[j].start <= size) &&
    (forall j :: 0 <= j < |cs| - 1 ==> cs[j].end == cs[j + 1].start && cs[j].end - cs[j].start == size)
  }

  /** No chunk reaches outside [lo, hi). */
  predicate Within(cs: seq<Chunk>, lo: nat, hi: nat) {
    forall j :: 0 <= j < |cs| ==> lo <= cs[j].start && cs[j].end <= hi
  }

  /** Some chunk holds index `k`. */
  predicate Covered(cs: seq<Chunk>, k: int) {
    exists j :: 0 <= j < |cs| && Holds(cs[j], k)
  }

  /** No index lies in two chunks. */
  ghost predicate Disjoint(cs: seq<Chunk>) {
    forall j1, j2, k :: 0 <= j1 < |cs| && 0 <= j2 < |cs| && Holds(cs[j1], k) && Holds(cs[j2], k) ==> j1 == j2
  }

  lemma {:induction false} ChunksFromTile(i: nat, count: nat, size: nat)
    requires size >= 1
    ensures Tiles(ChunksFrom(i, count, size), i, count, size)
    decreases count - i
  {
    if i < count {
      var cs, rest := ChunksFrom(i, count, size), ChunksFrom(i + size, count, size);
      ChunksFromTile(i + size, count, size);
      assert cs == [Chunk(i, Min(i + size, count))] + rest;
      assert forall j :: 0 < j < |cs| ==> cs[j] == rest[j - 1];
    }
  }

  lemma {:induction false} ChunksFromWithin(i: nat, count: nat, size: nat)
    requires size >= 1
    ensures Within(ChunksFrom(i, count, size), i, count)
    decreases count - i
  {
    if i < count {
      var cs, rest := ChunksFrom(i, count, size), ChunksFrom(i + size, count, size);
      ChunksFromWithin(i + size, count, size);
      assert cs == [Chunk(i, Min(i + size, count))] + rest;
      assert forall j :: 0 < j < |cs| ==> cs[j] == rest[j - 1];
    }
  }

  lemma {:induction false} ChunksFromCover(i: nat, count: nat, size: nat)
    requires size >= 1
    ensures forall k :: i <= k < count ==> Covered(ChunksFrom(i, count, size), k)
    decreases count - i
  {
    if i < count {
      var cs, rest := ChunksFrom(i, count, size), ChunksFrom(i + size, count, size);
      ChunksFromCover(i + size, count, size);
      forall k | i <= k < count
        ensures Covered(cs, k)
      {
        if Holds(cs[0], k) {
          assert 0 < |cs|;
        } else {
          assert Covered(rest, k);
          var j :| 0 <= j < |rest| && Holds(rest[j], k);
          assert cs[j + 1] == rest[j];
        }
      }
    }
  }

  lemma {:induction false} ChunksFromDisjoint(i: nat, count: nat, size: nat)
    requires size >= 1
    ensures Disjoint(ChunksFrom(i, count, size))
    decreases count - i
  {
    if i < count {
      var cs, rest := ChunksFrom(i, count, size), ChunksFrom(i + size, count, size);
      ChunksFromDisjoint(i + size, count, size);
      ChunksFromWithin(i + size, count, size);
      assert cs == [Chunk(i, Min(i + size, count))] + rest;
      assert forall j :: 0 < j < |cs| ==> cs[j] == rest[j - 1];
      forall j1, j2, k | 0 <= j1 < |cs| && 0 <= j2 < |cs| && Holds(cs[j1], k) && Holds(cs[j2], k)
        ensures j1 == j2
      {
        if j1 > 0 && j2 > 0 {
          assert Holds(rest[j1 - 1], k) && Holds(rest[j2 - 1], k);
        }
      }
    }
  }

  /** The chunks of the store partition its index range [0, count): they lie
      end to end from 0 to `count` with only the last one shorter than the
      others, every index is covered, and by exactly one chunk. */
  lemma ChunksPartition(count: nat, cores: nat)
    requires cores >= 1
    ensures Tiles(Chunks(count, cores), 0, count, PartSize(count, cores))
    ensures Within(Chunks(count, cores), 0, count)
    ensures forall k :: 0 <= k < count ==> Covered(Chunks(count, cores), k)
    ensures Disjoint(Chunks(count, cores))
  {
    var size := PartSize(count, cores);
    ChunksFromTile(0, count, size);
    ChunksFromWithin(0, count, size);
    ChunksFromCover(0, count, size);
    ChunksFromDisjoint(0, count, size);
  }

  /** One worker's result: the sum of its slice. */
  function SliceSum(s: seq<int>, c: Chunk): (r: int)
    ensures c.start <= c.end <= |s| ==> Sum(s[..c.start]) + r + Sum(s[c.end..]) == Sum(s)
  {
    if c.start <= c.end <= |s| then
      SumConcat(s[..c.start], s[c.start..c.end]);
      assert s[..c.start] + s[c.start..c.end] == s[..c.end];
      SumConcat(s[..c.end], s[c.end..]);
      assert s[..c.end] + s[c.end..] == s;
      Sum(s[c.start..c.end])
    else 0
  }

  /** The workers' results, one per chunk, in chunk order. */
  function ChunkSums(s: seq<int>, cs: seq<Chunk>): (sums: seq<int>)
    ensures |sums| == |cs|
  {
    seq(|cs|, j requires 0 <= j < |cs| => SliceSum(s, cs[j]))
  }

  /** Finishing one more chunk appends its sum to the results. */
  lemma ChunkSumsAppend(s: seq<int>, cs: seq<Chunk>, c: Chunk)
    ensures ChunkSums(s, cs + [c]) == ChunkSums(s, cs) + [SliceSum(s, c)]
  {
    assert forall j :: 0 <= j < |cs| ==> (cs + [c])[j] == cs[j];
  }

  /** The first chunk's sum followed by the sums of the chunks after it. */
  lemma ChunkSumsStep(s: seq<int>, i: nat, size: nat)
    requires size >= 1 && i < |s|
    ensures Sum(ChunkSums(s, ChunksFrom(i, |s|, size)))
      == Sum(s[i..Min(i + size, |s|)]) + Sum(ChunkSums(s, ChunksFrom(i + size, |s|, size)))
  {
    var first, rest := Sum(s[i..Min(i + size, |s|)]), ChunkSums(s, ChunksFrom(i + size, |s|, size));
    assert ChunkSums(s, ChunksFrom(i, |s|, size)) == [first] + rest;
    SumConcat([first], rest);
    assert [first][..0] == [];
  }

  lemma {:induction false} ChunksFromSum(s: seq<int>, i: nat, size: nat)
    requires size >= 1 && i <= |s|
    ensures Sum(ChunkSums(s, ChunksFrom(i, |s|, size))) == Sum(s[i..])
    decreases |s| - i
  {
    var n := |s|;
    if i == n {
      assert s[i..] == [];
    } else {
      var end := Min(i + size, n);
      assert s[i..] == s[i..end] + s[end..];
      SumConcat(s[i..end], s[end..]);
      ChunkSumsStep(s, i, size);
      if i + size <= n {
        ChunksFromSum(s, i + size, size);
      } else {
        assert ChunksFrom(i + size, n, size) == [] && s[end..] == [];
      }
    }
  }

  /** Adding up the workers' results gives the plain sum of the store, for
      every store size and every processor count: no element is dropped or
      counted twice. */
  lemma ChunkedSumIsSum(s: seq<int>, cores: nat)
    requires cores >= 1
    ensures Sum(ChunkSums(s, Chunks(|s|, cores))) == Sum(s)
  {
    ChunksFromSum(s, 0, PartSize(|s|, cores));
    assert s[0..] == s;
  }
}
