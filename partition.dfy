/**
 * The keyspace partitioner of `bruteforce`: the alphabet is cut into numGoroutines
 * contiguous slices of len/numGoroutines symbols each, the last slice taking the rest.
 * The number of workers, runtime.NumCPU(), is the parameter n (at least 1).
 */
module Partition {
  import opened Arith
  import opened Combinations

  /** startIdx := i * chunkSize, with chunkSize := len / n. */
  function SliceStart(len: nat, n: nat, i: nat): nat
    requires n >= 1
  {
    i * (len / n)
  }

  /** endIdx := (i + 1) * chunkSize, except that the last worker's slice ends at len. */
  function SliceEnd(len: nat, n: nat, i: nat): nat
    requires n >= 1
  {
    if i == n - 1 then len else (i + 1) * (len / n)
  }

  /** Every slice is a well-formed range of the alphabet; all but the last hold len / n symbols. */
  lemma SliceBounds(len: nat, n: nat, i: nat)
    requires n >= 1 && i < n
    ensures SliceStart(len, n, i) <= SliceEnd(len, n, i) <= len
    ensures i < n - 1 ==> SliceEnd(len, n, i) - SliceStart(len, n, i) == len / n
  {
    MulMonotone(i, n - 1, len / n);
    MulMonotone(n - 1, n, len / n);
    MulDistrib(i, 1, len / n);
    if i < n - 1 {
      MulMonotone(i + 1, n, len / n);
    }
  }

  /** Slices are contiguous: the first starts at 0, each ends where the next starts, the last ends at len. */
  lemma SlicesContiguous(len: nat, n: nat, i: nat)
    requires n >= 1 && i < n
    ensures SliceStart(len, n, 0) == 0 && SliceEnd(len, n, n - 1) == len
    ensures i < n - 1 ==> SliceEnd(len, n, i) == SliceStart(len, n, i + 1)
  {
  }

  /** Earlier slices lie entirely before later ones, so no position of the alphabet is in two slices. */
  lemma SlicesDisjoint(len: nat, n: nat, i: nat, j: nat)
    requires n >= 1 && i < j < n
    ensures SliceEnd(len, n, i) <= SliceStart(len, n, j)
  {
    MulMonotone(i + 1, j, len / n);
  }

  /** With fewer symbols than workers every slice but the last is empty, and the last is everything. */
  lemma SmallAlphabet(len: nat, n: nat, i: nat)
    requires n >= 1 && len < n && i < n
    ensures i < n - 1 ==> SliceStart(len, n, i) == SliceEnd(len, n, i) == 0
    ensures i == n - 1 ==> SliceStart(len, n, i) == 0 && SliceEnd(len, n, i) == len
  {
    DivModUnique(len, n, 0, len);
  }

  /** alphabet[startIdx:endIdx], the symbols handed to worker i. */
  function Slice(alphabet: seq<string>, n: nat, i: nat): (s: seq<string>)
    requires n >= 1 && i < n
  {
    SliceBounds(|alphabet|, n, i);
    alphabet[SliceStart(|alphabet|, n, i)..SliceEnd(|alphabet|, n, i)]
  }

  /** The concatenation of a list of slices. */
  function Flatten(slices: seq<seq<string>>): seq<string>
  {
    if slices == [] then [] else Flatten(slices[..|slices| - 1]) + slices[|slices| - 1]
  }

  /** Over distinct symbols, no symbol is handed to two workers. */
  lemma SlicesShareNoSymbol(alphabet: seq<string>, n: nat, i: nat, j: nat, x: string)
    requires Distinct(alphabet) && n >= 1 && i < n && j < n && i != j
    requires x in Slice(alphabet, n, i)
    ensures x !in Slice(alphabet, n, j)
  {
    var len := |alphabet|;
    SliceBounds(len, n, i);
    SliceBounds(len, n, j);
    if i < j { SlicesDisjoint(len, n, i, j); } else { SlicesDisjoint(len, n, j, i); }
    var a :| 0 <= a < |Slice(alphabet, n, i)| && Slice(alphabet, n, i)[a] == x;
    var p := SliceStart(len, n, i) + a;
    assert alphabet[p] == x;
  }

  /**
   * The loop of `bruteforce` that hands out the slices: the result lists worker i's slice
   * at position i, and together the slices are exactly the alphabet, in order.
   */
  method Partition(alphabet: seq<string>, n: nat) returns (slices: seq<seq<string>>)
    requires n >= 1
    ensures |slices| == n
    ensures forall i :: 0 <= i < n ==> slices[i] == Slice(alphabet, n, i)
    ensures forall i :: 0 <= i < n - 1 ==> |slices[i]| == |alphabet| / n
    ensures Flatten(slices) == alphabet
  {
    var chunkSize := |alphabet| / n;
    slices := [];
    var i := 0;
    while i < n
      invariant 0 <= i <= n && |slices| == i
      invariant forall k :: 0 <= k < i ==> slices[k] == Slice(alphabet, n, k)
      invariant Flatten(slices) == alphabet[..if i == 0 then 0 else SliceEnd(|alphabet|, n, i - 1)]
    {
      var startIdx := i * chunkSize;
      var endIdx := (i + 1) * chunkSize;
      if i == n - 1 {
        endIdx := |alphabet|;
      }
      SliceBounds(|alphabet|, n, i);
      ghost var done := if i == 0 then 0 else SliceEnd(|alphabet|, n, i - 1);
      assert done == startIdx;
      assert alphabet[..done] + alphabet[startIdx..endIdx] == alphabet[..endIdx];
      assert (slices + [alphabet[startIdx..endIdx]])[..i] == slices;
      slices := slices + [alphabet[startIdx..endIdx]];
      i := i + 1;
    }
    forall k | 0 <= k < n - 1 ensures |slices[k]| == |alphabet| / n {
      SliceBounds(|alphabet|, n, k);
    }
  }

  /** Four symbols over two workers: [a, b] and [c, d]. */
  lemma TwoWorkersFourSymbols()
    ensures Slice(["a", "b", "c", "d"], 2, 0) == ["a", "b"]
    ensures Slice(["a", "b", "c", "d"], 2, 1) == ["c", "d"]
  {
  }
}
