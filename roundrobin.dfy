/**
 * The round-robin split of `processData`: line i of a block is appended to
 * dictionaries[i % numGoroutines]. The number of workers, runtime.NumCPU(), is the
 * parameter n (at least 1).
 */
module RoundRobin {
  import opened Arith

  /** The lines at index k or later whose index is congruent to j modulo n, in input order. */
  function ClassFrom(lines: seq<string>, n: nat, j: nat, k: nat): seq<string>
    requires n >= 1 && k <= |lines|
    decreases |lines| - k
  {
    if k == |lines| then []
    else (if k % n == j then [lines[k]] else []) + ClassFrom(lines, n, j, k + 1)
  }

  /** The lines whose index is congruent to j modulo n, in input order: what worker j receives. */
  function ResidueClass(lines: seq<string>, n: nat, j: nat): seq<string>
    requires n >= 1
  {
    ClassFrom(lines, n, j, 0)
  }

  /** The combined length of a list of lists. */
  function TotalSize(lists: seq<seq<string>>): nat
  {
    if lists == [] then 0 else TotalSize(lists[..|lists| - 1]) + |lists[|lists| - 1]|
  }

  /** A line appended to a block joins exactly the class of its own index. */
  lemma {:induction false} ClassFromAppend(lines: seq<string>, x: string, n: nat, j: nat, k: nat)
    requires n >= 1 && k <= |lines|
    ensures ClassFrom(lines + [x], n, j, k)
            == ClassFrom(lines, n, j, k) + (if |lines| % n == j then [x] else [])
    decreases |lines| - k
  {
    if k < |lines| {
      ClassFromAppend(lines, x, n, j, k + 1);
      assert (lines + [x])[k] == lines[k];
    } else {
      assert ClassFrom(lines + [x], n, j, k + 1) == [];
    }
  }

  /** Replacing one list changes the combined length by the difference of the two lengths. */
  lemma {:induction false} TotalSizeUpdate(lists: seq<seq<string>>, i: nat, v: seq<string>)
    requires i < |lists|
    ensures TotalSize(lists[i := v]) == TotalSize(lists) - |lists[i]| + |v|
  {
    var last := |lists| - 1;
    if i < last {
      TotalSizeUpdate(lists[..last], i, v);
      assert lists[i := v][..last] == lists[..last][i := v];
    } else {
      assert lists[i := v][..last] == lists[..last];
    }
  }

  /** Every line of a block is in the class of its index modulo n. */
  lemma {:induction false} LineInOwnClass(lines: seq<string>, n: nat, k: nat, from: nat)
    requires n >= 1 && from <= k < |lines|
    ensures lines[k] in ClassFrom(lines, n, k % n, from)
    decreases k - from
  {
    if from < k {
      LineInOwnClass(lines, n, k, from + 1);
    }
  }

  /** A class holds only lines of the block. */
  lemma {:induction false} ClassHoldsLines(lines: seq<string>, n: nat, j: nat, from: nat, x: string)
    requires n >= 1 && from <= |lines|
    requires x in ClassFrom(lines, n, j, from)
    ensures exists k :: from <= k < |lines| && k % n == j && lines[k] == x
    decreases |lines| - from
  {
    if x !in (if from % n == j then [lines[from]] else []) {
      ClassHoldsLines(lines, n, j, from + 1, x);
    }
  }

  /**
   * The splitting loop of processData: n lists, updated in place, where list j ends up
   * holding exactly the lines whose index is j modulo n, in input order, and the lists
   * together hold as many entries as the block has lines.
   */
  method Distribute(lines: seq<string>, n: nat) returns (dictionaries: seq<seq<string>>)
    requires n >= 1
    ensures |dictionaries| == n
    ensures forall j :: 0 <= j < n ==> dictionaries[j] == ResidueClass(lines, n, j)
    ensures TotalSize(dictionaries) == |lines|
  {
    var lists := new seq<string>[n];
    for j := 0 to n
      invariant forall k :: 0 <= k < j ==> lists[k] == []
    {
      lists[j] := [];
    }
    assert TotalSize(lists[..]) == 0 by {
      EmptyListsTotal(lists[..]);
    }
    var i := 0;
    while i < |lines|
      invariant 0 <= i <= |lines|
      invariant forall j :: 0 <= j < n ==> lists[j] == ResidueClass(lines[..i], n, j)
      invariant TotalSize(lists[..]) == i
    {
      assert lines[..i + 1] == lines[..i] + [lines[i]];
      forall j | 0 <= j < n {
        ClassFromAppend(lines[..i], lines[i], n, j, 0);
      }
      TotalSizeUpdate(lists[..], i % n, lists[i % n] + [lines[i]]);
      lists[i % n] := lists[i % n] + [lines[i]];
      i := i + 1;
    }
    assert lines[..i] == lines;
    dictionaries := lists[..];
  }

  /** Lists that are all empty hold nothing. */
  lemma {:induction false} EmptyListsTotal(lists: seq<seq<string>>)
    requires forall k :: 0 <= k < |lists| ==> lists[k] == []
    ensures TotalSize(lists) == 0
  {
    if lists != [] {
      EmptyListsTotal(lists[..|lists| - 1]);
    }
  }

  /** Indices that are not congruent to j contribute nothing to a class. */
  lemma {:induction false} SkipGap(lines: seq<string>, n: nat, j: nat, k: nat, e: nat)
    requires n >= 1 && k <= e <= |lines|
    requires forall t :: k <= t < e ==> t % n != j
    ensures ClassFrom(lines, n, j, k) == ClassFrom(lines, n, j, e)
    decreases e - k
  {
    if k < e {
      SkipGap(lines, n, j, k + 1, e);
    }
  }

  /** Starting at an index k of the class, the class steps through k, k + n, k + 2n, ... up to the end. */
  lemma {:induction false} ClassFromAligned(lines: seq<string>, n: nat, k: nat)
    requires n >= 1 && k <= |lines|
    ensures var c := ClassFrom(lines, n, k % n, k);
            && k + |c| * n >= |lines|
            && forall m :: 0 <= m < |c| ==> k + m * n < |lines| && c[m] == lines[k + m * n]
    decreases |lines| - k
  {
    var j := k % n;
    if k < |lines| {
      var next := if k + n <= |lines| then k + n else |lines|;
      forall t | k + 1 <= t < next ensures t % n != j {
        NoResidueWithin(k, t - k, n);
      }
      SkipGap(lines, n, j, k + 1, next);
      var c := ClassFrom(lines, n, j, k);
      var rest := ClassFrom(lines, n, j, next);
      assert c == [lines[k]] + rest;
      if next == k + n {
        NextResidue(k, n);
        ClassFromAligned(lines, n, k + n);
        ShiftByOne(lines, n, k, rest);
      } else {
        assert rest == [];
      }
    }
  }

  /** If rest steps through k + n, k + 2n, ..., then lines[k] followed by rest steps through k, k + n, .... */
  lemma ShiftByOne(lines: seq<string>, n: nat, k: nat, rest: seq<string>)
    requires n >= 1 && k < |lines|
    requires k + n + |rest| * n >= |lines|
    requires forall m :: 0 <= m < |rest| ==> k + n + m * n < |lines| && rest[m] == lines[k + n + m * n]
    ensures var c := [lines[k]] + rest;
            && k + |c| * n >= |lines|
            && forall m :: 0 <= m < |c| ==> k + m * n < |lines| && c[m] == lines[k + m * n]
  {
    var c := [lines[k]] + rest;
    forall m | 0 <= m < |c| ensures k + m * n < |lines| && c[m] == lines[k + m * n] {
      if m > 0 {
        assert c[m] == rest[m - 1];
        assert k + m * n == k + n + (m - 1) * n by { MulDistrib(m - 1, 1, n); }
      }
    }
    assert k + |c| * n == k + n + |rest| * n by { MulDistrib(|rest|, 1, n); }
  }

  /**
   * Worker j (j < n) receives lines j, j + n, j + 2n, ... in that order, and no line
   * with such an index is left out.
   */
  lemma ResidueClassAt(lines: seq<string>, n: nat, j: nat)
    requires n >= 1 && j < n
    ensures var c := ResidueClass(lines, n, j);
            && j + |c| * n >= |lines|
            && forall m :: 0 <= m < |c| ==> j + m * n < |lines| && c[m] == lines[j + m * n]
  {
    var start := if j <= |lines| then j else |lines|;
    forall t | 0 <= t < start ensures t % n != j {
      DivModUnique(t, n, 0, t);
    }
    SkipGap(lines, n, j, 0, start);
    DivModUnique(j, n, 0, j);
    if j <= |lines| {
      ClassFromAligned(lines, n, j);
    }
  }

  /** Eight lines over four workers: worker i receives p_i and p_(i+4). */
  lemma EightLinesFourWorkers()
    ensures ResidueClass(["p0", "p1", "p2", "p3", "p4", "p5", "p6", "p7"], 4, 1) == ["p1", "p5"]
  {
  }
}
