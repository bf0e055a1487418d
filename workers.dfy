/**
 * The two kinds of worker, run sequentially. The ZIP check `unzip(zipFile, password)` is
 * the parameter accept: a deterministic yes/no answer per candidate password.
 */
module Workers {
  import opened Arith
  import opened Combinations
  import opened Partition

  /** strings.Join(combo, ""): the symbols of a candidate written one after another. */
  function Join(combo: seq<string>): string
  {
    if combo == [] then "" else combo[0] + Join(combo[1..])
  }

  // ---------------------------------------------------------------------------
  // dictionaryAttackWorker

  /** Some entry of the list is accepted by the oracle. */
  predicate Accepted(accept: string -> bool, list: seq<string>)
  {
    exists k :: 0 <= k < |list| && accept(list[k])
  }

  /**
   * dictionaryAttackWorker: tests the entries of its list in order and stops at the first
   * one the oracle accepts. `tried` is the sequence of passwords submitted to the oracle:
   * a prefix of the list that ends at the first accepted entry, or the whole list when
   * none is accepted.
   */
  method DictionaryWorker(accept: string -> bool, dictionary: seq<string>)
    returns (found: bool, tried: seq<string>)
    ensures tried <= dictionary
    ensures forall k :: 0 <= k < |tried| - 1 ==> !accept(tried[k])
    ensures found ==> tried != [] && accept(tried[|tried| - 1])
    ensures !found ==> tried == dictionary && !Accepted(accept, dictionary)
    ensures found <==> Accepted(accept, dictionary)
  {
    tried := [];
    var k := 0;
    while k < |dictionary|
      invariant 0 <= k <= |dictionary|
      invariant tried == dictionary[..k]
      invariant forall i :: 0 <= i < k ==> !accept(dictionary[i])
    {
      var password := dictionary[k];
      tried := tried + [password];
      if accept(password) {
        return true, tried;
      }
      k := k + 1;
    }
    found := false;
  }

  // ---------------------------------------------------------------------------
  // bruteForceWorker

  /** How a brute-force worker stops. */
  datatype Outcome = Matched(password: string) | Cancelled | Exhausted

  /** Every candidate of lengths 1 to m, length by length, each length in generator order. */
  function Schedule(alphabet: seq<string>, m: nat): seq<seq<string>>
  {
    if m == 0 then [] else Schedule(alphabet, m - 1) + GenerateCombinations(alphabet, m)
  }

  /** 1 + ... + n^m without the 1: the number of candidates of lengths 1 to m. */
  function PowSum(n: nat, m: nat): nat
  {
    if m == 0 then 0 else PowSum(n, m - 1) + Pow(n, m)
  }

  /** A candidate is scheduled iff its length is between 1 and m and all its symbols are from the alphabet. */
  lemma {:induction false} ScheduleMembership(alphabet: seq<string>, m: nat, t: seq<string>)
    ensures t in Schedule(alphabet, m)
            <==> 1 <= |t| <= m && forall i :: 0 <= i < |t| ==> t[i] in alphabet
  {
    if m > 0 {
      ScheduleMembership(alphabet, m - 1, t);
      GenerateMembership(alphabet, m, t);
    }
  }

  /** Lengths never decrease along the schedule: all of length L come before any of length L + 1. */
  lemma {:induction false} ScheduleLengthsSorted(alphabet: seq<string>, m: nat, k1: nat, k2: nat)
    requires k1 <= k2 < |Schedule(alphabet, m)|
    ensures |Schedule(alphabet, m)[k1]| <= |Schedule(alphabet, m)[k2]|
  {
    var s := Schedule(alphabet, m);
    var prev := Schedule(alphabet, m - 1);
    var g := GenerateCombinations(alphabet, m);
    assert s == prev + g;
    if k2 < |prev| {
      ScheduleLengthsSorted(alphabet, m - 1, k1, k2);
    } else {
      assert s[k2] in g;
      GenerateMembership(alphabet, m, s[k2]);
      if k1 < |prev| {
        assert s[k1] in prev;
        ScheduleMembership(alphabet, m - 1, s[k1]);
      } else {
        assert s[k1] in g;
        GenerateMembership(alphabet, m, s[k1]);
      }
    }
  }

  /** There are |alphabet|^1 + ... + |alphabet|^m candidates of lengths 1 to m. */
  lemma {:induction false} ScheduleSize(alphabet: seq<string>, m: nat)
    ensures |Schedule(alphabet, m)| == PowSum(|alphabet|, m)
  {
    if m > 0 {
      ScheduleSize(alphabet, m - 1);
      GenerateIndexed(alphabet, m);
    }
  }

  /**
   * The inner `for combo := range GenerateCombinationsString(alphabet, i)` loop: submits the
   * joined candidates in stream order and stops at the first one the oracle accepts.
   */
  method TryAll(accept: string -> bool, combos: seq<seq<string>>)
    returns (found: bool, tried: seq<seq<string>>)
    ensures tried <= combos
    ensures forall k :: 0 <= k < |tried| - 1 ==> !accept(Join(tried[k]))
    ensures found ==> tried != [] && accept(Join(tried[|tried| - 1]))
    ensures !found ==> tried == combos && forall k :: 0 <= k < |combos| ==> !accept(Join(combos[k]))
  {
    tried := [];
    var c := 0;
    while c < |combos|
      invariant 0 <= c <= |combos|
      invariant tried == combos[..c]
      invariant forall k :: 0 <= k < c ==> !accept(Join(combos[k]))
    {
      var combo := combos[c];
      tried := tried + [combo];
      if accept(Join(combo)) {
        return true, tried;
      }
      c := c + 1;
    }
    found := false;
  }

  /**
   * bruteForceWorker with the endless `for i := 1; ; i++` cut off after maxLength.
   * quit(i) says whether the quit channel is closed when the worker reaches the length
   * boundary before length i; it is not looked at anywhere else. `tried` is the sequence
   * of candidates submitted to the oracle, `length` the last value of the loop counter.
   */
  method BruteForceWorker(accept: string -> bool, alphabet: seq<string>, quit: nat -> bool, maxLength: nat)
    returns (outcome: Outcome, length: nat, tried: seq<seq<string>>)
    ensures 1 <= length <= maxLength + 1
    ensures forall i :: 1 <= i < length ==> !quit(i)
    ensures Schedule(alphabet, length - 1) <= tried <= Schedule(alphabet, length)
    ensures forall k :: 0 <= k < |tried| - 1 ==> !accept(Join(tried[k]))
    ensures outcome.Matched? ==>
              length <= maxLength && !quit(length) && |tried| > |Schedule(alphabet, length - 1)|
              && outcome.password == Join(tried[|tried| - 1]) && accept(outcome.password)
    ensures outcome.Cancelled? ==>
              length <= maxLength && quit(length) && tried == Schedule(alphabet, length - 1)
              && (tried != [] ==> !accept(Join(tried[|tried| - 1])))
    ensures outcome.Exhausted? ==>
              length == maxLength + 1 && tried == Schedule(alphabet, maxLength)
              && (tried != [] ==> !accept(Join(tried[|tried| - 1])))
  {
    tried := [];
    length := 1;
    while length <= maxLength
      invariant 1 <= length <= maxLength + 1
      invariant tried == Schedule(alphabet, length - 1)
      invariant forall i :: 1 <= i < length ==> !quit(i)
      invariant forall k :: 0 <= k < |tried| ==> !accept(Join(tried[k]))
    {
      if quit(length) {
        outcome := Cancelled;
        ScheduleGrows(alphabet, length);
        return;
      }
      var combos := GenerateCombinations(alphabet, length);
      var found, triedNow := TryAll(accept, combos);
      ExtendSchedule(accept, alphabet, length, tried, triedNow);
      tried := tried + triedNow;
      if found {
        outcome := Matched(Join(tried[|tried| - 1]));
        return;
      }
      length := length + 1;
    }
    outcome := Exhausted;
    ScheduleGrows(alphabet, length);
  }

  /** The schedule up to L - 1 is a prefix of the schedule up to L. */
  lemma ScheduleGrows(alphabet: seq<string>, L: nat)
    requires L >= 1
    ensures Schedule(alphabet, L - 1) <= Schedule(alphabet, L)
  {
  }

  /** Appending the candidates tried at length L to those of the shorter lengths. */
  lemma ExtendSchedule(accept: string -> bool, alphabet: seq<string>, L: nat,
                       done: seq<seq<string>>, now: seq<seq<string>>)
    requires L >= 1 && done == Schedule(alphabet, L - 1)
    requires now <= GenerateCombinations(alphabet, L)
    requires forall k :: 0 <= k < |done| ==> !accept(Join(done[k]))
    requires forall k :: 0 <= k < |now| - 1 ==> !accept(Join(now[k]))
    ensures done <= done + now <= Schedule(alphabet, L)
    ensures now == GenerateCombinations(alphabet, L) ==> done + now == Schedule(alphabet, L)
    ensures |done + now| > |done| <==> now != []
    ensures forall k :: 0 <= k < |done + now| - 1 ==> !accept(Join((done + now)[k]))
    ensures now != [] ==> (done + now)[|done + now| - 1] == now[|now| - 1]
  {
  }

  /** Every candidate in a prefix of the schedule is built from alphabet symbols only. */
  lemma ScheduleOverAlphabet(alphabet: seq<string>, m: nat, tried: seq<seq<string>>)
    requires tried <= Schedule(alphabet, m)
    ensures forall k :: 0 <= k < |tried| ==> forall x :: x in tried[k] ==> x in alphabet
  {
    forall k | 0 <= k < |tried| ensures forall x :: x in tried[k] ==> x in alphabet {
      assert tried[k] == Schedule(alphabet, m)[k];
      ScheduleMembership(alphabet, m, tried[k]);
    }
  }

  /**
   * Over distinct symbols and n workers, a candidate that uses symbols from two different
   * workers' slices is never scheduled by any worker, whatever the length bound.
   */
  lemma MixedCandidateNeverTried(alphabet: seq<string>, n: nat, i: nat, j: nat, t: seq<string>, w: nat, m: nat)
    requires Distinct(alphabet) && n >= 1 && i < n && j < n && i != j && w < n
    requires exists a :: 0 <= a < |t| && t[a] in Slice(alphabet, n, i)
    requires exists b :: 0 <= b < |t| && t[b] in Slice(alphabet, n, j)
    ensures t !in Schedule(Slice(alphabet, n, w), m)
  {
    var a :| 0 <= a < |t| && t[a] in Slice(alphabet, n, i);
    var b :| 0 <= b < |t| && t[b] in Slice(alphabet, n, j);
    ScheduleMembership(Slice(alphabet, n, w), m, t);
    if t in Schedule(Slice(alphabet, n, w), m) {
      if w != i {
        SlicesShareNoSymbol(alphabet, n, i, w, t[a]);
      } else {
        SlicesShareNoSymbol(alphabet, n, j, w, t[b]);
      }
    }
  }

  /** An empty slice schedules nothing: such a worker only counts lengths upwards. */
  lemma {:induction false} EmptySliceSchedulesNothing(m: nat)
    ensures Schedule([], m) == []
  {
    if m > 0 {
      EmptySliceSchedulesNothing(m - 1);
      GenerateIndexed([], m);
    }
  }

  /** With four symbols over two workers, "ac" is never tried by either worker. */
  lemma FourSymbolsTwoWorkers(m: nat)
    ensures ["a", "c"] !in Schedule(Slice(["a", "b", "c", "d"], 2, 0), m)
    ensures ["a", "c"] !in Schedule(Slice(["a", "b", "c", "d"], 2, 1), m)
  {
    var alphabet := ["a", "b", "c", "d"];
    TwoWorkersFourSymbols();
    assert ["a", "c"][0] in Slice(alphabet, 2, 0);
    assert ["a", "c"][1] in Slice(alphabet, 2, 1);
    MixedCandidateNeverTried(alphabet, 2, 0, 1, ["a", "c"], 0, m);
    MixedCandidateNeverTried(alphabet, 2, 0, 1, ["a", "c"], 1, m);
  }

  /** Schedules grow with the length bound: the one up to m is a prefix of the one up to m'. */
  lemma {:induction false} ScheduleMonotone(alphabet: seq<string>, m: nat, m': nat)
    requires m <= m'
    ensures Schedule(alphabet, m) <= Schedule(alphabet, m')
    decreases m' - m
  {
    if m < m' {
      ScheduleMonotone(alphabet, m, m' - 1);
      ScheduleGrows(alphabet, m');
    }
  }

  /**
   * bruteforce with its workers run one after another, each up to maxLength: partition the
   * alphabet, start worker 0, 1, ... on its own slice, and stop at the first match (the
   * quit channel is only closed once a result arrives, so no worker sees it before then).
   * A reported password is accepted and is a candidate of one slice; when nothing is
   * reported, no candidate of length at most maxLength over any one slice is accepted.
   */
  method BruteForce(accept: string -> bool, alphabet: seq<string>, n: nat, maxLength: nat)
    returns (found: bool, password: string)
    requires n >= 1
    ensures found ==> accept(password)
    ensures found ==> exists w, t :: 0 <= w < n && t in Schedule(Slice(alphabet, n, w), maxLength)
                                     && password == Join(t)
    ensures !found ==> forall w, t :: 0 <= w < n && t in Schedule(Slice(alphabet, n, w), maxLength)
                                      ==> !accept(Join(t))
  {
    var slices := Partition.Partition(alphabet, n);
    var w := 0;
    while w < n
      invariant 0 <= w <= n
      invariant forall v, t :: 0 <= v < w && t in Schedule(Slice(alphabet, n, v), maxLength)
                               ==> !accept(Join(t))
    {
      var outcome, length, tried := BruteForceWorker(accept, slices[w], _ => false, maxLength);
      if outcome.Matched? {
        ScheduleMonotone(slices[w], length, maxLength);
        var t := tried[|tried| - 1];
        assert t in Schedule(Slice(alphabet, n, w), maxLength);
        return true, outcome.password;
      }
      assert tried == Schedule(slices[w], maxLength);
      w := w + 1;
    }
    return false, "";
  }
}
