/** Facts about integer sequences shared by the sort, search, statistics and
    aggregation parts of the numbers store. */
module Sequences {

  /** Non-decreasing order. */
  predicate SortedAsc(s: seq<int>) {
    forall i, j :: 0 <= i < j < |s| ==> s[i] <= s[j]
  }

  /** Non-increasing order. */
  predicate SortedDesc(s: seq<int>) {
    forall i, j :: 0 <= i < j < |s| ==> s[i] >= s[j]
  }

  /** The plain sequential sum, accumulated from the front as a `for` loop does. */
  function Sum(s: seq<int>): int {
    if |s| == 0 then 0 else Sum(s[..|s| - 1]) + s[|s| - 1]
  }

  /** The arithmetic mean, exactly. */
  function Mean(s: seq<int>): real
    requires |s| > 0
  {
    (Sum(s) as real) / (|s| as real)
  }

  /** Extending a slice by one element adds that element to its sum. */
  lemma SumExtend(s: seq<int>, start: nat, j: nat)
    requires start <= j < |s|
    ensures Sum(s[start..j + 1]) == Sum(s[start..j]) + s[j]
  {
    assert s[start..j + 1][..j - start] == s[start..j];
  }

  /** Summing a concatenation sums the two parts. */
  lemma {:induction false} SumConcat(a: seq<int>, b: seq<int>)
    ensures Sum(a + b) == Sum(a) + Sum(b)
    decreases |b|
  {
    if |b| > 0 {
      assert (a + b)[..|a + b| - 1] == a + b[..|b| - 1];
      SumConcat(a, b[..|b| - 1]);
    } else {
      assert a + b == a;
    }
  }

  /** Taking one element out of a sequence lowers its sum by that element. */
  lemma SumRemoveAt(b: seq<int>, j: nat)
    requires j < |b|
    ensures Sum(b) == b[j] + Sum(b[..j] + b[j + 1..])
  {
    var front, upTo, back := b[..j], b[..j + 1], b[j + 1..];
    assert b == upTo + back;
    SumConcat(upTo, back);
    assert upTo[..j] == front;
    assert Sum(upTo) == Sum(front) + b[j];
    SumConcat(front, back);
  }

  /** Summing depends only on which elements occur, not on their order. */
  lemma {:induction false} SumPermutation(a: seq<int>, b: seq<int>)
    requires multiset(a) == multiset(b)
    ensures Sum(a) == Sum(b)
    decreases |a|
  {
    if |a| > 0 {
      var x := a[|a| - 1];
      assert x in multiset(b);
      var j :| 0 <= j < |b| && b[j] == x;
      var a', b' := a[..|a| - 1], b[..j] + b[j + 1..];
      MultisetRemoveAt(b, j);
      assert multiset(a') == multiset(a) - multiset{x} by {
        assert a == a' + [x];
      }
      assert multiset(a') == multiset(b');
      SumPermutation(a', b');
      SumRemoveAt(b, j);
    } else {
      assert |b| == |multiset(b)| == 0;
    }
  }

  /** The sequence read back to front. */
  function Reverse(s: seq<int>): (r: seq<int>)
    ensures |r| == |s|
    ensures forall k :: 0 <= k < |s| ==> r[k] == s[|s| - 1 - k]
  {
    seq(|s|, k requires 0 <= k < |s| => s[|s| - 1 - k])
  }

  lemma {:induction false} ReverseMultiset(s: seq<int>)
    ensures multiset(Reverse(s)) == multiset(s)
    decreases |s|
  {
    if |s| > 0 {
      assert Reverse(s) == Reverse(s[1..]) + [s[0]];
      ReverseMultiset(s[1..]);
      assert s == [s[0]] + s[1..];
    }
  }

  lemma ReverseReverse(s: seq<int>)
    ensures Reverse(Reverse(s)) == s
  {
  }

  lemma ReverseFlipsOrder(s: seq<int>)
    requires SortedDesc(s)
    ensures SortedAsc(Reverse(s))
  {
  }

  /** The head of a non-decreasing sequence is its least element. */
  lemma SortedHeadIsLeast(a: seq<int>, x: int)
    requires SortedAsc(a) && x in multiset(a)
    ensures |a| > 0 && a[0] <= x
  {
    assert x in a;
    var i :| 0 <= i < |a| && a[i] == x;
    assert i == 0 || a[0] <= a[i];
  }

  /** Two non-decreasing sequences holding the same elements are equal: the
      ascending arrangement of a multiset is unique. */
  lemma {:induction false} SortedUnique(a: seq<int>, b: seq<int>)
    requires SortedAsc(a) && SortedAsc(b)
    requires multiset(a) == multiset(b)
    ensures a == b
    decreases |a|
  {
    if |a| == 0 {
      assert |b| == |multiset(b)| == 0;
    } else {
      SortedHeadIsLeast(b, a[0]);
      SortedHeadIsLeast(a, b[0]);
      var a', b' := a[1..], b[1..];
      assert a[0] == b[0];
      assert multiset(a') == multiset(a) - multiset{a[0]} by {
        assert a == [a[0]] + a';
      }
      assert multiset(b') == multiset(b) - multiset{b[0]} by {
        assert b == [b[0]] + b';
      }
      assert SortedAsc(a') && SortedAsc(b');
      SortedUnique(a', b');
      assert a == [a[0]] + a[1..];
      assert b == [b[0]] + b[1..];
    }
  }

  /** Which side of a threshold an element is counted on. */
  datatype Side = Below | Above

  predicate Beyond(x: int, m: real, side: Side) {
    match side
    case Below => (x as real) < m
    case Above => (x as real) > m
  }

  /** The number of elements of `s` strictly on `side` of `m`. */
  function Count(s: seq<int>, m: real, side: Side): nat {
    if |s| == 0 then 0 else (if Beyond(s[0], m, side) then 1 else 0) + Count(s[1..], m, side)
  }

  lemma {:induction false} CountConcat(a: seq<int>, b: seq<int>, m: real, side: Side)
    ensures Count(a + b, m, side) == Count(a, m, side) + Count(b, m, side)
    decreases |a|
  {
    if |a| > 0 {
      assert (a + b)[1..] == a[1..] + b;
      CountConcat(a[1..], b, m, side);
    } else {
      assert a + b == b;
    }
  }

  lemma {:induction false} CountAtMost(s: seq<int>, m: real, side: Side)
    ensures Count(s, m, side) <= |s|
    decreases |s|
  {
    if |s| > 0 {
      CountAtMost(s[1..], m, side);
    }
  }

  lemma {:induction false} CountNone(s: seq<int>, m: real, side: Side)
    requires forall i :: 0 <= i < |s| ==> !Beyond(s[i], m, side)
    ensures Count(s, m, side) == 0
    decreases |s|
  {
    if |s| > 0 {
      CountNone(s[1..], m, side);
    }
  }

  /** Taking one element out of a sequence takes one copy out of its multiset. */
  lemma MultisetRemoveAt(b: seq<int>, j: nat)
    requires j < |b|
    ensures multiset(b[..j] + b[j + 1..]) == multiset(b) - multiset{b[j]}
  {
    assert b == b[..j] + [b[j]] + b[j + 1..];
  }

  /** Taking one element out of a sequence lowers its count by that element's share. */
  lemma CountRemoveAt(b: seq<int>, j: nat, m: real, side: Side)
    requires j < |b|
    ensures Count(b, m, side) == (if Beyond(b[j], m, side) then 1 else 0) + Count(b[..j] + b[j + 1..], m, side)
  {
    var tail := [b[j]] + b[j + 1..];
    assert b == b[..j] + tail;
    CountConcat(b[..j], tail, m, side);
    assert tail[1..] == b[j + 1..];
    CountConcat(b[..j], b[j + 1..], m, side);
  }

  /** Counting depends only on which elements occur, not on their order. */
  lemma {:induction false} CountPermutation(a: seq<int>, b: seq<int>, m: real, side: Side)
    requires multiset(a) == multiset(b)
    ensures Count(a, m, side) == Count(b, m, side)
    decreases |a|
  {
    if |a| > 0 {
      var x := a[0];
      assert x in multiset(b);
      var j :| 0 <= j < |b| && b[j] == x;
      var a', b' := a[1..], b[..j] + b[j + 1..];
      MultisetRemoveAt(b, j);
      assert multiset(a') == multiset(a) - multiset{x} by {
        assert a == [x] + a';
      }
      assert multiset(a') == multiset(b');
      CountPermutation(a', b', m, side);
      CountRemoveAt(b, j, m, side);
    } else {
      assert |b| == |multiset(b)| == 0;
    }
  }
}
