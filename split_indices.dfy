/**
 * The work partitioner of the unpacker: `split_indices_into_ranges` divides the
 * archive's entry indices [0, numEntries) into at most numRanges contiguous
 * half-open ranges of ceil(numEntries / numRanges) indices each, except that the
 * last range is cut off at numEntries and may be shorter; any range whose start
 * would reach numEntries is left out.
 */
module SplitIndices {

  /** A half-open range [start, end) of archive entry indices (the source's `(usize, usize)`). */
  datatype IndexRange = IndexRange(start: nat, end: nat)

  function Min(a: nat, b: nat): nat {
    if a <= b then a else b
  }

  /** Whether index x lies in range rg. */
  predicate Contains(rg: IndexRange, x: nat) {
    rg.start <= x < rg.end
  }

  /** Whether index x lies in one of the ranges rs. */
  predicate InSome(rs: seq<IndexRange>, x: nat) {
    exists k :: 0 <= k < |rs| && Contains(rs[k], x)
  }

  /** Ceiling division on naturals: the least q with q * b >= a. */
  function CeilDiv(a: nat, b: nat): (q: nat)
    requires b > 0
    ensures q * b >= a
    ensures q > 0 ==> (q - 1) * b < a
  {
    var q := (a + b - 1) / b;
    assert (a + b - 1) == q * b + (a + b - 1) % b;
    q
  }

  /**
   * The number of indices per range: ceil(numEntries / numRanges). The source
   * computes it in f64 and rounds up; this is the exact integer ceiling.
   */
  function ChunkSize(numEntries: nat, numRanges: nat): (c: nat)
    requires numRanges > 0
    ensures c * numRanges >= numEntries
    ensures numEntries > 0 ==> c >= 1
    ensures 0 < numEntries <= numRanges ==> c == 1
  {
    var c := CeilDiv(numEntries, numRanges);
    if 0 < numEntries <= numRanges && c >= 2 then
      MulMono(1, c - 1, numRanges);
      c
    else c
  }

  /** Multiplying by the same natural keeps the order. */
  lemma {:induction false} MulMono(a: nat, b: nat, c: nat)
    requires a <= b
    ensures a * c <= b * c
  {
    assert b * c == a * c + (b - a) * c;
  }

  /** The k-th candidate range for chunk size c: [k*c, min(n, k*c + c)). */
  function RangeAt(n: nat, c: nat, k: nat): IndexRange {
    IndexRange(k * c, Min(n, k * c + c))
  }

  /** How many candidate ranges start below n: ceil(n / c), and none when n is 0. */
  function RangeCount(n: nat, c: nat): nat {
    if n == 0 || c == 0 then 0 else CeilDiv(n, c)
  }

  /**
   * The ranges `split_indices_into_ranges(n, r)` returns, in closed form:
   * candidate k is kept exactly when its start k*c is below n.
   */
  function Split(n: nat, r: nat): seq<IndexRange> {
    if r == 0 then []
    else
      var c := ChunkSize(n, r);
      seq(RangeCount(n, c), k requires 0 <= k => RangeAt(n, c, k))
  }

  /** A candidate range is emitted exactly when its index is below RangeCount. */
  lemma StartBelowCount(n: nat, c: nat, i: nat)
    requires n > 0 ==> c > 0
    ensures i * c < n <==> i < RangeCount(n, c)
  {
    if n > 0 {
      var q := CeilDiv(n, c);
      if i < q {
        MulMono(i, q - 1, c);
      } else {
        MulMono(q, i, c);
      }
    }
  }

  /** Never more than numRanges ranges. */
  lemma CountAtMostRanges(n: nat, r: nat)
    requires r > 0
    ensures RangeCount(n, ChunkSize(n, r)) <= r
  {
    var c := ChunkSize(n, r);
    assert r * c >= n;
    StartBelowCount(n, c, r);
  }

  /**
   * split_indices_into_ranges: a loop over the candidate indices 0..numRanges that
   * pushes [i*c, min(n, i*c + c)) whenever i*c is below numEntries.
   */
  method SplitIndicesIntoRanges(numEntries: nat, numRanges: nat) returns (ranges: seq<IndexRange>)
    ensures ranges == Split(numEntries, numRanges)
  {
    // With no ranges the source divides by zero in f64 and gets NaN or infinity;
    // the loop below then runs zero times, so this value is never read.
    var chunk := if numRanges == 0 then 0 else ChunkSize(numEntries, numRanges);
    ranges := [];
    for i := 0 to numRanges
      invariant |ranges| == Min(i, RangeCount(numEntries, chunk))
      invariant forall k :: 0 <= k < |ranges| ==> ranges[k] == RangeAt(numEntries, chunk, k)
    {
      var start := i * chunk;
      StartBelowCount(numEntries, chunk, i);
      if start < numEntries {
        var end := Min(numEntries, start + chunk);
        ranges := ranges + [IndexRange(start, end)];
      }
    }
    if numRanges > 0 {
      CountAtMostRanges(numEntries, numRanges);
    }
  }

  /** Every range is non-empty and inside [0, n); there are none exactly when n or r is 0. */
  lemma SplitBounds(n: nat, r: nat)
    ensures Split(n, r) == [] <==> n == 0 || r == 0
    ensures forall k :: 0 <= k < |Split(n, r)| ==> Split(n, r)[k].start < Split(n, r)[k].end <= n
  {
    var rs := Split(n, r);
    if r > 0 {
      var c := ChunkSize(n, r);
      forall k | 0 <= k < |rs|
        ensures rs[k].start < rs[k].end <= n
      {
        StartBelowCount(n, c, k);
      }
      if n > 0 {
        StartBelowCount(n, c, 0);
      }
    }
  }

  /** At most r ranges, and range k starts at k * ChunkSize(n, r). */
  lemma SplitCount(n: nat, r: nat)
    requires r > 0
    ensures |Split(n, r)| <= r
    ensures forall k :: 0 <= k < |Split(n, r)| ==> Split(n, r)[k].start == k * ChunkSize(n, r)
  {
    CountAtMostRanges(n, r);
  }

  /** The first range starts at 0, each ends where the next starts, and the last ends at n. */
  lemma SplitContiguous(n: nat, r: nat)
    requires n > 0 && r > 0
    ensures |Split(n, r)| > 0
    ensures Split(n, r)[0].start == 0
    ensures Split(n, r)[|Split(n, r)| - 1].end == n
    ensures forall k :: 0 <= k < |Split(n, r)| - 1 ==> Split(n, r)[k].end == Split(n, r)[k + 1].start
  {
    var rs := Split(n, r);
    var c := ChunkSize(n, r);
    var q := RangeCount(n, c);
    SplitBounds(n, r);
    forall k | 0 <= k < q - 1
      ensures rs[k].end == rs[k + 1].start
    {
      StartBelowCount(n, c, k + 1);
      assert (k + 1) * c == k * c + c;
    }
    assert q * c >= n;
    assert q * c == (q - 1) * c + c;
  }

  /** Every range but the last holds exactly ChunkSize(n, r) indices; the last holds between 1 and that many. */
  lemma SplitBalanced(n: nat, r: nat)
    requires r > 0
    ensures forall k :: 0 <= k < |Split(n, r)| - 1 ==> Split(n, r)[k].end - Split(n, r)[k].start == ChunkSize(n, r)
    ensures |Split(n, r)| > 0 ==>
      1 <= Split(n, r)[|Split(n, r)| - 1].end - Split(n, r)[|Split(n, r)| - 1].start <= ChunkSize(n, r)
  {
    var rs := Split(n, r);
    var c := ChunkSize(n, r);
    forall k | 0 <= k < |rs| - 1
      ensures rs[k].end - rs[k].start == c
    {
      StartBelowCount(n, c, k + 1);
      assert (k + 1) * c == k * c + c;
    }
    SplitBounds(n, r);
  }

  /** Range k of Split(n, r) ends no later than any later range starts. */
  lemma SplitOrdered(n: nat, r: nat, k1: nat, k2: nat)
    requires r > 0 && k1 < k2 < |Split(n, r)|
    ensures Split(n, r)[k1].end <= Split(n, r)[k2].start
  {
    var c := ChunkSize(n, r);
    assert Split(n, r)[k1] == RangeAt(n, c, k1) && Split(n, r)[k2] == RangeAt(n, c, k2);
    MulMono(k1 + 1, k2, c);
    assert (k1 + 1) * c == k1 * c + c;
  }

  /** The range of Split(n, r) that holds index x < n is range x / ChunkSize(n, r). */
  lemma SplitFind(n: nat, r: nat, x: nat)
    requires r > 0 && x < n
    ensures x / ChunkSize(n, r) < |Split(n, r)|
    ensures Contains(Split(n, r)[x / ChunkSize(n, r)], x)
  {
    var c := ChunkSize(n, r);
    var k := x / c;
    assert k * c <= x < k * c + c by {
      assert x == k * c + x % c;
    }
    StartBelowCount(n, c, k);
  }

  /** Every index below n lies in some range, and no other index does. */
  lemma SplitCovers(n: nat, r: nat)
    requires r > 0
    ensures forall x: nat :: x < n <==> InSome(Split(n, r), x)
  {
    var rs := Split(n, r);
    forall x: nat | x < n
      ensures InSome(rs, x)
    {
      SplitFind(n, r, x);
    }
    forall x: nat | InSome(rs, x)
      ensures x < n
    {
      var k :| 0 <= k < |rs| && Contains(rs[k], x);
      SplitBounds(n, r);
    }
  }

  /** No index lies in two ranges. */
  lemma SplitDisjoint(n: nat, r: nat)
    requires r > 0
    ensures forall k1, k2, x: nat ::
      (0 <= k1 < |Split(n, r)| && 0 <= k2 < |Split(n, r)| &&
       Contains(Split(n, r)[k1], x) && Contains(Split(n, r)[k2], x)) ==> k1 == k2
  {
    var rs := Split(n, r);
    forall k1, k2, x: nat |
      0 <= k1 < |rs| && 0 <= k2 < |rs| && Contains(rs[k1], x) && Contains(rs[k2], x)
      ensures k1 == k2
    {
      if k1 < k2 {
        SplitOrdered(n, r, k1, k2);
      } else if k2 < k1 {
        SplitOrdered(n, r, k2, k1);
      }
    }
  }

  /** With no more indices than ranges, each index gets a range of its own. */
  lemma SplitUnitRanges(n: nat, r: nat)
    requires 0 < n <= r
    ensures Split(n, r) == seq(n, k requires 0 <= k => IndexRange(k, k + 1))
  {
    assert ChunkSize(n, r) == 1;
    assert RangeCount(n, 1) == n;
  }

  /** Unit test `single_range`. */
  lemma SplitSingleRange()
    ensures Split(100, 1) == [IndexRange(0, 100)]
  {
    var c := ChunkSize(100, 1);
    assert c == 100;
    var q := RangeCount(100, c);
    assert q == 1 by {
      assert q * 100 >= 100 && (q - 1) * 100 < 100;
    }
  }

  /** Unit test `more_ranges_than_indices`: ten unit ranges, six slots left unused. */
  lemma SplitMoreRangesThanIndices()
    ensures Split(10, 16) == [
      IndexRange(0, 1), IndexRange(1, 2), IndexRange(2, 3), IndexRange(3, 4), IndexRange(4, 5),
      IndexRange(5, 6), IndexRange(6, 7), IndexRange(7, 8), IndexRange(8, 9), IndexRange(9, 10)]
  {
    SplitUnitRanges(10, 16);
  }

  /** Unit test `typical_case`: sixteen ranges on multiples of 7717, the last one shorter. */
  lemma SplitTypicalCase()
    ensures Split(123460, 16) == [
      IndexRange(0, 7717), IndexRange(7717, 15434), IndexRange(15434, 23151),
      IndexRange(23151, 30868), IndexRange(30868, 38585), IndexRange(38585, 46302),
      IndexRange(46302, 54019), IndexRange(54019, 61736), IndexRange(61736, 69453),
      IndexRange(69453, 77170), IndexRange(77170, 84887), IndexRange(84887, 92604),
      IndexRange(92604, 100321), IndexRange(100321, 108038), IndexRange(108038, 115755),
      IndexRange(115755, 123460)]
  {
    assert ChunkSize(123460, 16) == 7717;
    assert RangeCount(123460, 7717) == 16;
  }

  /** The indices lo, lo+1, ..., hi-1 in increasing order. */
  function Indices(lo: nat, hi: nat): (s: seq<nat>)
    ensures |s| == if lo <= hi then hi - lo else 0
    ensures forall k :: 0 <= k < |s| ==> s[k] == lo + k
  {
    if hi <= lo then [] else seq(hi - lo, k => lo + k)
  }

  /** The indices of the ranges, visited range by range, each range in increasing order. */
  function Flatten(rs: seq<IndexRange>): seq<nat> {
    if rs == [] then [] else Indices(rs[0].start, rs[0].end) + Flatten(rs[1..])
  }

  /** rs is a chain of ranges going from lo to hi, each ending where the next begins. */
  predicate Chained(rs: seq<IndexRange>, lo: nat, hi: nat) {
    && (rs == [] ==> lo == hi)
    && (rs != [] ==> rs[0].start == lo && rs[|rs| - 1].end == hi)
    && (forall k :: 0 <= k < |rs| ==> rs[k].start <= rs[k].end)
    && (forall k :: 0 <= k < |rs| - 1 ==> rs[k].end == rs[k + 1].start)
  }

  lemma {:induction false} IndicesAppend(lo: nat, mid: nat, hi: nat)
    requires lo <= mid <= hi
    ensures Indices(lo, mid) + Indices(mid, hi) == Indices(lo, hi)
  {
  }

  /** Visiting a chain from lo to hi range by range visits lo..hi once each, in order. */
  lemma {:induction false} FlattenChained(rs: seq<IndexRange>, lo: nat, hi: nat)
    requires Chained(rs, lo, hi)
    ensures lo <= hi
    ensures Flatten(rs) == Indices(lo, hi)
  {
    if rs != [] {
      var mid := rs[0].end;
      assert Chained(rs[1..], mid, hi);
      FlattenChained(rs[1..], mid, hi);
      IndicesAppend(lo, mid, hi);
    }
  }

  /** Visiting the ranges of Split(n, r) in order visits 0, 1, ..., n-1 exactly once each. */
  lemma SplitFlatten(n: nat, r: nat)
    requires r > 0
    ensures Flatten(Split(n, r)) == Indices(0, n)
  {
    SplitBounds(n, r);
    if n > 0 {
      SplitContiguous(n, r);
    }
    FlattenChained(Split(n, r), 0, n);
  }
}
