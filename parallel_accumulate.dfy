/**
  accumulate_block and parallel_accumulate: the range is cut into
  2 * thread_count contiguous blocks; every block but the last is summed by a
  pool task, the last one inline, and the partial sums are added to `init`.
  Each future is replaced by its value, computed on the spot. Elements are
  mathematical integers.
*/
module Accumulate {
  import opened Wrappers

  /** std::accumulate: a left fold with +, starting from `init`. */
  function Accumulate(s: seq<int>, init: int): int
  {
    if s == [] then init else Accumulate(s[1..], init + s[0])
  }

  /** The sum of a sequence: the reference the folds are measured against. */
  function Sum(s: seq<int>): int
  {
    if s == [] then 0 else s[0] + Sum(s[1..])
  }

  lemma {:induction false} AccumulateIsSum(s: seq<int>, init: int)
    ensures Accumulate(s, init) == init + Sum(s)
  {
    if s != [] {
      AccumulateIsSum(s[1..], init + s[0]);
    }
  }

  lemma {:induction false} SumConcat(s: seq<int>, t: seq<int>)
    ensures Sum(s + t) == Sum(s) + Sum(t)
  {
    if s != [] {
      assert (s + t)[0] == s[0];
      assert (s + t)[1..] == s[1..] + t;
      SumConcat(s[1..], t);
    } else {
      assert s + t == t;
    }
  }

  /** accumulate_block: the sum of its range, starting from T() == 0. */
  function AccumulateBlock(block: seq<int>): (r: int)
    ensures r == Sum(block)
  {
    AccumulateIsSum(block, 0);
    Accumulate(block, 0)
  }

  /** The block count and block size exactly as the source computes them:
      2 * thread_count blocks of length / num_blocks elements. With
      thread_count == 0 the division is by zero (None). */
  function BlockLayoutAsWritten(length: nat, threadCount: nat): Option<(nat, nat)>
  {
    var numBlocks := 2 * threadCount;
    if numBlocks == 0 then None
    else
      DivBounds(length, numBlocks);
      Some((numBlocks, length / numBlocks))
  }

  lemma DivBounds(x: nat, d: nat)
    requires d > 0
    ensures 0 <= x / d && (x / d) * d <= x
  {
    assert x == (x / d) * d + x % d;
  }

  /** hardware_concurrency() may report 0, and then parallel_accumulate divides by zero. */
  lemma ZeroThreadsDivideByZero()
    ensures BlockLayoutAsWritten(100, 0) == None
  {
  }

  /** The block layout with the worker count taken as at least one. The first
      num_blocks - 1 blocks of block_size elements fit in the range and leave a
      last block at least as long. */
  function BlockLayout(length: nat, threadCount: nat): (r: (nat, nat))
    ensures r.0 >= 2
    ensures (r.0 - 1) * r.1 + r.1 <= length
    ensures threadCount >= 1 ==> BlockLayoutAsWritten(length, threadCount) == Some(r)
  {
    var numBlocks := 2 * (if threadCount == 0 then 1 else threadCount);
    DivBounds(length, numBlocks);
    var blockSize := length / numBlocks;
    assert (numBlocks - 1) * blockSize + blockSize == blockSize * numBlocks;
    (numBlocks, blockSize)
  }

  lemma MulMonotone(x: nat, y: nat, k: nat)
    requires x <= y
    ensures x * k <= y * k
  {
  }

  /** Block j of the layout: blocks before the last have block_size elements
      and start where the previous one ended; the last runs to the end. */
  function Block(a: seq<int>, numBlocks: nat, blockSize: nat, j: nat): (b: seq<int>)
    requires 1 <= numBlocks && (numBlocks - 1) * blockSize <= |a| && j < numBlocks
    ensures j < numBlocks - 1 ==> |b| == blockSize
  {
    if j < numBlocks - 1 then
      MulMonotone(j + 1, numBlocks - 1, blockSize);
      a[j * blockSize..(j + 1) * blockSize]
    else
      a[(numBlocks - 1) * blockSize..]
  }

  /** The first k blocks of the layout. */
  function Blocks(a: seq<int>, numBlocks: nat, blockSize: nat, k: nat): (bs: seq<seq<int>>)
    requires 1 <= numBlocks && (numBlocks - 1) * blockSize <= |a| && k <= numBlocks
    ensures |bs| == k
  {
    seq(k, j requires 0 <= j < k => Block(a, numBlocks, blockSize, j))
  }

  /** Concatenation of a list of blocks. */
  function Flatten(blocks: seq<seq<int>>): seq<int>
  {
    if blocks == [] then [] else Flatten(blocks[..|blocks| - 1]) + blocks[|blocks| - 1]
  }

  /** The first k blocks are exactly the first k * block_size elements. */
  lemma {:induction false} FirstBlocksArePrefix(a: seq<int>, numBlocks: nat, blockSize: nat, k: nat)
    requires 1 <= numBlocks && (numBlocks - 1) * blockSize <= |a| && k <= numBlocks - 1
    ensures k * blockSize <= |a|
    ensures Flatten(Blocks(a, numBlocks, blockSize, k)) == a[..k * blockSize]
  {
    MulMonotone(k, numBlocks - 1, blockSize);
    var blocks := Blocks(a, numBlocks, blockSize, k);
    if k > 0 {
      var lo, hi := (k - 1) * blockSize, k * blockSize;
      assert lo + blockSize == hi;
      FirstBlocksArePrefix(a, numBlocks, blockSize, k - 1);
      assert blocks[..k - 1] == Blocks(a, numBlocks, blockSize, k - 1);
      assert blocks[k - 1] == a[lo..hi];
      assert Flatten(blocks) == Flatten(blocks[..k - 1]) + blocks[k - 1];
      assert a[..hi] == a[..lo] + a[lo..hi];
    }
  }

  /** The blocks cover the range: their concatenation is the input. */
  lemma BlocksPartitionInput(a: seq<int>, numBlocks: nat, blockSize: nat)
    requires 1 <= numBlocks && (numBlocks - 1) * blockSize <= |a|
    ensures Flatten(Blocks(a, numBlocks, blockSize, numBlocks)) == a
  {
    var blocks := Blocks(a, numBlocks, blockSize, numBlocks);
    var start := (numBlocks - 1) * blockSize;
    FirstBlocksArePrefix(a, numBlocks, blockSize, numBlocks - 1);
    assert blocks[..numBlocks - 1] == Blocks(a, numBlocks, blockSize, numBlocks - 1);
    assert blocks[numBlocks - 1] == a[start..];
    assert a == a[..start] + a[start..];
  }

  /** The last block runs to the end of the range, so it is at least
      block_size long whenever all num_blocks blocks of that size fit. */
  lemma LastBlockIsLongest(a: seq<int>, numBlocks: nat, blockSize: nat)
    requires 1 <= numBlocks && numBlocks * blockSize <= |a|
    ensures (numBlocks - 1) * blockSize <= |a|
    ensures |Block(a, numBlocks, blockSize, numBlocks - 1)| == |a| - (numBlocks - 1) * blockSize >= blockSize
  {
    assert numBlocks * blockSize == (numBlocks - 1) * blockSize + blockSize;
  }

  lemma SumSnoc(xs: seq<int>, x: int)
    ensures Sum(xs + [x]) == Sum(xs) + x
  {
    SumConcat(xs, [x]);
  }

  lemma SumSplit(a: seq<int>, lo: nat, hi: nat)
    requires lo <= hi <= |a|
    ensures Sum(a[..hi]) == Sum(a[..lo]) + Sum(a[lo..hi])
  {
    assert a[..hi] == a[..lo] + a[lo..hi];
    SumConcat(a[..lo], a[lo..hi]);
  }

  /** parallel_accumulate: the result is what the sequential std::accumulate
      gives, whatever the worker count. */
  method ParallelAccumulate(a: seq<int>, init: int, threadCount: nat) returns (result: int)
    ensures result == Accumulate(a, init)
  {
    var length := |a|;
    if length == 0 {
      return init;
    }
    var layout := BlockLayout(length, threadCount);
    var numBlocks, blockSize := layout.0, layout.1;
    var futures: seq<int> := [];
    var blockStart := 0;
    var i := 0;
    while i < numBlocks - 1
      invariant 0 <= i <= numBlocks - 1
      invariant |futures| == i
      invariant blockStart == i * blockSize <= length
      invariant forall j :: 0 <= j < i ==> futures[j] == AccumulateBlock(Block(a, numBlocks, blockSize, j))
      invariant Sum(futures) == Sum(a[..blockStart])
    {
      MulMonotone(i + 1, numBlocks - 1, blockSize);
      var blockEnd := blockStart + blockSize;
      assert blockEnd == (i + 1) * blockSize;
      assert a[blockStart..blockEnd] == Block(a, numBlocks, blockSize, i);
      // submitted to the pool in the source; here the future's value itself
      var future := AccumulateBlock(a[blockStart..blockEnd]);
      SumSnoc(futures, future);
      SumSplit(a, blockStart, blockEnd);
      futures := futures + [future];
      blockStart := blockEnd;
      i := i + 1;
    }
    var lastResult := AccumulateBlock(a[blockStart..]);
    result := init;
    i := 0;
    while i < numBlocks - 1
      invariant 0 <= i <= numBlocks - 1
      invariant result == init + Sum(futures[..i])
    {
      SumSnoc(futures[..i], futures[i]);
      assert futures[..i] + [futures[i]] == futures[..i + 1];
      result := result + futures[i];
      i := i + 1;
    }
    result := result + lastResult;
    assert futures[..i] == futures;
    SumSplit(a, blockStart, length);
    assert a[..length] == a;
    AccumulateIsSum(a, init);
  }

  /** The integers lo .. hi-1. */
  function Range(lo: int, hi: int): seq<int>
    requires lo <= hi
  {
    seq(hi - lo, i requires 0 <= i < hi - lo => lo + i)
  }

  lemma {:induction false} SumRange(lo: int, hi: int)
    requires lo <= hi
    ensures 2 * Sum(Range(lo, hi)) == (hi - lo) * (lo + hi - 1)
    decreases hi - lo
  {
    if lo < hi {
      assert Range(lo, hi)[1..] == Range(lo + 1, hi);
      SumRange(lo + 1, hi);
      assert (hi - lo) * (lo + hi - 1) == 2 * lo + (hi - lo - 1) * (lo + hi);
    }
  }

  /** The end-to-end example: summing 1 .. 100 from 0 gives 5050. */
  method AccumulateExample(threadCount: nat) returns (r: int)
    ensures r == 5050
  {
    r := ParallelAccumulate(Range(1, 101), 0, threadCount);
    AccumulateIsSum(Range(1, 101), 0);
    SumRange(1, 101);
  }
}
