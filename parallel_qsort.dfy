/**
  sorter::do_sort and parallel_quick_sort: a quicksort on lists that takes the
  first element as pivot, partitions the rest into the elements below it and
  the others, sorts the lower part as a pool task and the upper part inline,
  and splices lower ++ [pivot] ++ upper. The future for the lower part is
  replaced by its value, computed on the spot. Elements are integers under <.
*/
module QuickSort {

  predicate Sorted(s: seq<int>)
  {
    forall i, j :: 0 <= i < j < |s| ==> s[i] <= s[j]
  }

  /** std::partition followed by the splice of the front part: `lower` gets
      every element below the pivot, `higher` keeps the rest. The order within
      each part is left open, as std::partition is not stable. */
  method Partition(chunk: seq<int>, pivot: int) returns (lower: seq<int>, higher: seq<int>)
    ensures forall x :: x in lower ==> x < pivot
    ensures forall x :: x in higher ==> x >= pivot
    ensures multiset(lower) + multiset(higher) == multiset(chunk)
  {
    lower, higher := [], [];
    var i := 0;
    while i < |chunk|
      invariant 0 <= i <= |chunk|
      invariant forall x :: x in lower ==> x < pivot
      invariant forall x :: x in higher ==> x >= pivot
      invariant multiset(lower) + multiset(higher) == multiset(chunk[..i])
    {
      assert chunk[..i + 1] == chunk[..i] + [chunk[i]];
      if chunk[i] < pivot {
        lower := lower + [chunk[i]];
      } else {
        higher := higher + [chunk[i]];
      }
      i := i + 1;
    }
    assert chunk[..i] == chunk;
  }

  /** do_sort: the result is sorted and is a permutation of the input. */
  method DoSort(chunkData: seq<int>) returns (result: seq<int>)
    ensures Sorted(result)
    ensures multiset(result) == multiset(chunkData)
    decreases |chunkData|
  {
    if chunkData == [] {
      return chunkData;
    }
    var pivot := chunkData[0];
    var rest := chunkData[1..];
    assert chunkData == [pivot] + rest;
    var newLowerChunk, higherChunk := Partition(rest, pivot);
    assert |multiset(newLowerChunk)| + |multiset(higherChunk)| == |multiset(rest)|;
    // submitted to the pool in the source; here the future's value itself
    var newLower := DoSort(newLowerChunk);
    var newHigher := DoSort(higherChunk);
    forall x | x in newLower ensures x < pivot {
      assert x in multiset(newLower);
      assert x in multiset(newLowerChunk);
      assert x in newLowerChunk;
    }
    forall x | x in newHigher ensures x >= pivot {
      assert x in multiset(newHigher);
      assert x in multiset(higherChunk);
      assert x in higherChunk;
    }
    result := newLower + [pivot] + newHigher;
    SortedAroundPivot(newLower, pivot, newHigher);
  }

  /** Two sorted parts on either side of the pivot splice into a sorted list. */
  lemma SortedAroundPivot(lower: seq<int>, pivot: int, higher: seq<int>)
    requires Sorted(lower) && Sorted(higher)
    requires forall x :: x in lower ==> x < pivot
    requires forall x :: x in higher ==> x >= pivot
    ensures Sorted(lower + [pivot] + higher)
  {
    var r := lower + [pivot] + higher;
    var n := |lower|;
    assert forall i :: 0 <= i < n ==> r[i] == lower[i] && r[i] in lower;
    assert r[n] == pivot;
    assert forall i :: n < i < |r| ==> r[i] == higher[i - n - 1] && r[i] in higher;
  }

  /** parallel_quick_sort: an empty list is returned as it is. */
  method ParallelQuickSort(input: seq<int>) returns (result: seq<int>)
    ensures Sorted(result)
    ensures multiset(result) == multiset(input)
    ensures input == [] ==> result == []
  {
    if input == [] {
      return input;
    }
    result := DoSort(input);
  }

  lemma HeadIsLeast(s: seq<int>, x: int)
    requires Sorted(s) && x in s
    ensures s[0] <= x
  {
    var k :| 0 <= k < |s| && s[k] == x;
  }

  /** A sorted permutation is unique, so the sort's result is fully determined. */
  lemma {:induction false} SortedPermutationUnique(a: seq<int>, b: seq<int>)
    requires Sorted(a) && Sorted(b) && multiset(a) == multiset(b)
    ensures a == b
  {
    assert |a| == |multiset(a)| == |multiset(b)| == |b|;
    if a != [] {
      assert a[0] in multiset(a) && b[0] in multiset(b);
      HeadIsLeast(a, b[0]);
      HeadIsLeast(b, a[0]);
      assert a[0] == b[0];
      MultisetOfTail(a);
      MultisetOfTail(b);
      assert multiset(a[1..]) == multiset(b[1..]);
      SortedTail(a);
      SortedTail(b);
      SortedPermutationUnique(a[1..], b[1..]);
      assert a == [a[0]] + a[1..];
      assert b == [b[0]] + b[1..];
    }
  }

  lemma SortedTail(s: seq<int>)
    requires s != [] && Sorted(s)
    ensures Sorted(s[1..])
  {
    forall i, j | 0 <= i < j < |s| - 1
      ensures s[1..][i] <= s[1..][j]
    {
      assert s[1..][i] == s[i + 1] && s[1..][j] == s[j + 1];
    }
  }

  lemma MultisetOfTail(s: seq<int>)
    requires s != []
    ensures multiset(s[1..]) == multiset(s) - multiset{s[0]}
  {
    assert s == [s[0]] + s[1..];
  }

  /** Sorting an already sorted list gives the list back. */
  method SortSortedIsIdentity(s: seq<int>) returns (r: seq<int>)
    requires Sorted(s)
    ensures r == s
  {
    r := ParallelQuickSort(s);
    SortedPermutationUnique(r, s);
  }

  /** The end-to-end example of a recursive sort. */
  method SortExample() returns (r: seq<int>)
    ensures r == [1, 2, 3]
  {
    var input := [3, 1, 2];
    var expected := [1, 2, 3];
    r := ParallelQuickSort(input);
    assert multiset(input) == multiset(expected);
    SortedPermutationUnique(r, expected);
  }
}
