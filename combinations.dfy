/**
 * The Cartesian-power generator used by brute force: GenerateCombinationsString and
 * combosString. The generator pushes every tuple onto a channel from a goroutine; here
 * the stream it produces is a sequence, in the order the channel delivers it.
 */
module Combinations {
  import opened Arith

  /**
   * combosString(combo, data, length): for each symbol of data in order, extend combo by
   * it, emit the extension when one position was left, and recurse with one position fewer.
   * A length of zero or below emits nothing.
   */
  function CombosFrom(combo: seq<string>, data: seq<string>, length: int): seq<seq<string>>
    decreases if length < 0 then 0 else length, |data| + 1, 0
  {
    if length <= 0 then [] else EachSymbol(combo, data, length, 0)
  }

  /** The `for _, ch := range data` loop of combosString, from position j of data on. */
  function EachSymbol(combo: seq<string>, data: seq<string>, length: int, j: nat): seq<seq<string>>
    requires length >= 1 && j <= |data|
    decreases length, |data| - j, 1
  {
    if j == |data| then []
    else SymbolStep(combo, data, length, j) + EachSymbol(combo, data, length, j + 1)
  }

  /** One iteration of that loop: what is emitted for the symbol data[j]. */
  function SymbolStep(combo: seq<string>, data: seq<string>, length: int, j: nat): seq<seq<string>>
    requires length >= 1 && j < |data|
    decreases length, |data| - j, 0
  {
    var newCombo := combo + [data[j]];
    (if length == 1 then [newCombo] else []) + CombosFrom(newCombo, data, length - 1)
  }

  /**
   * The L digits of k in base n, most significant first (k taken modulo n^L).
   * This is the reference order: the k-th tuple of the Cartesian power picks,
   * at every position, the symbol whose index is the corresponding digit of k.
   */
  function Digits(n: nat, L: nat, k: nat): (d: seq<nat>)
    requires n >= 1
    ensures |d| == L
    ensures forall i :: 0 <= i < L ==> d[i] < n
  {
    if L == 0 then [] else Digits(n, L - 1, k / n) + [k % n]
  }

  /** The tuple of symbols of data selected by the indices idx. */
  function Spell(data: seq<string>, idx: seq<nat>): (t: seq<string>)
    requires forall i :: 0 <= i < |idx| ==> idx[i] < |data|
    ensures |t| == |idx|
    ensures forall i :: 0 <= i < |idx| ==> t[i] == data[idx[i]]
  {
    if idx == [] then [] else [data[idx[0]]] + Spell(data, idx[1..])
  }

  /** The k-th length-L tuple over data in the reference order. */
  function Tuple(data: seq<string>, L: nat, k: nat): (t: seq<string>)
    requires |data| >= 1
  {
    Spell(data, Digits(|data|, L, k))
  }

  /** GenerateCombinationsString(data, length): the stream combosString(c, [], data, length) produces. */
  function GenerateCombinations(data: seq<string>, length: int): seq<seq<string>>
  {
    CombosFrom([], data, length)
  }

  /**
   * The stream holds nothing for length <= 0 (not even one empty tuple); otherwise it holds
   * |data|^length tuples, the k-th spelling the base-|data| digits of k, so the left-most
   * position varies slowest and the right-most fastest.
   */
  lemma GenerateIndexed(data: seq<string>, length: int)
    ensures length <= 0 ==> GenerateCombinations(data, length) == []
    ensures length >= 1 ==> |GenerateCombinations(data, length)| == Pow(|data|, length)
    ensures length >= 1 ==> forall k :: 0 <= k < |GenerateCombinations(data, length)| ==>
              |data| >= 1 && GenerateCombinations(data, length)[k] == Tuple(data, length, k)
  {
    if length >= 1 {
      CombosFromSize([], data, length);
      forall k | 0 <= k < |GenerateCombinations(data, length)|
        ensures |data| >= 1 && GenerateCombinations(data, length)[k] == Tuple(data, length, k)
      {
        CombosFromEntry([], data, length, k);
        assert [] + Tuple(data, length, k) == Tuple(data, length, k);
      }
    }
  }

  /** The first digit of j * n^(L-1) + m is j, and the others are the digits of m. */
  lemma {:induction false} LeadingDigit(n: nat, L: nat, j: nat, m: nat)
    requires n >= 1 && L >= 1 && j < n && m < Pow(n, L - 1)
    ensures Digits(n, L, j * Pow(n, L - 1) + m) == [j] + Digits(n, L - 1, m)
  {
    if L == 1 {
      DivModUnique(j, n, 0, j);
    } else {
      var p' := Pow(n, L - 2);
      var a := j * Pow(n, L - 1) + m;
      var q, r := m / n, m % n;
      assert Pow(n, L - 1) == n * p';
      assert j * (n * p') == (j * p') * n by { MulAssocComm(j, n, p'); }
      assert m == q * n + r;
      assert a == (j * p' + q) * n + r by { MulDistrib(j * p', q, n); }
      DivModUnique(a, n, j * p' + q, r);
      QuotientBelow(m, p', n);
      LeadingDigit(n, L - 1, j, m / n);
    }
  }

  /** combosString(combo, data, L) emits |data|^L tuples. */
  lemma {:induction false} CombosFromSize(combo: seq<string>, data: seq<string>, L: int)
    requires L >= 1
    ensures |CombosFrom(combo, data, L)| == Pow(|data|, L)
    decreases L, |data| + 1, 0
  {
    EachSymbolSize(combo, data, L, 0);
  }

  /** The loop from position j emits |data|^(L-1) tuples for each remaining symbol. */
  lemma {:induction false} EachSymbolSize(combo: seq<string>, data: seq<string>, L: int, j: nat)
    requires L >= 1 && j <= |data|
    ensures |EachSymbol(combo, data, L, j)| == (|data| - j) * Pow(|data|, L - 1)
    decreases L, |data| - j, 1
  {
    if j < |data| {
      SymbolStepSize(combo, data, L, j);
      EachSymbolSize(combo, data, L, j + 1);
      MulDistrib(1, |data| - (j + 1), Pow(|data|, L - 1));
    }
  }

  /** The iteration for data[j] emits |data|^(L-1) tuples. */
  lemma {:induction false} SymbolStepSize(combo: seq<string>, data: seq<string>, L: int, j: nat)
    requires L >= 1 && j < |data|
    ensures |SymbolStep(combo, data, L, j)| == Pow(|data|, L - 1)
    decreases L, |data| - j, 0
  {
    if L > 1 {
      CombosFromSize(combo + [data[j]], data, L - 1);
    } else {
      assert CombosFrom(combo + [data[j]], data, 0) == [];
    }
  }

  /** Entry k of combosString(combo, data, L) is combo followed by the k-th tuple. */
  lemma {:induction false} CombosFromEntry(combo: seq<string>, data: seq<string>, L: int, k: nat)
    requires L >= 1 && k < Pow(|data|, L)
    ensures |data| >= 1 && k < |CombosFrom(combo, data, L)|
    ensures CombosFrom(combo, data, L)[k] == combo + Tuple(data, L, k)
    decreases L, |data| + 1, 0
  {
    assert |data| >= 1;
    assert Pow(|data|, L) == (|data| - 0) * Pow(|data|, L - 1);
    EachSymbolEntry(combo, data, L, 0, k);
    assert 0 * Pow(|data|, L - 1) + k == k;
  }

  /** Entry m of the loop from position j: in the block of data[j], or in a later block. */
  lemma {:induction false} EachSymbolEntry(combo: seq<string>, data: seq<string>, L: int, j: nat, m: nat)
    requires L >= 1 && j < |data| && m < (|data| - j) * Pow(|data|, L - 1)
    ensures m < |EachSymbol(combo, data, L, j)|
    ensures EachSymbol(combo, data, L, j)[m] == combo + Tuple(data, L, j * Pow(|data|, L - 1) + m)
    decreases L, |data| - j, 1
  {
    var n, p := |data|, Pow(|data|, L - 1);
    var head := SymbolStep(combo, data, L, j);
    var rest := EachSymbol(combo, data, L, j + 1);
    assert EachSymbol(combo, data, L, j) == head + rest;
    EachSymbolSize(combo, data, L, j);
    MulDistrib(1, n - (j + 1), p);
    SymbolStepSize(combo, data, L, j);
    if m < p {
      SymbolStepEntry(combo, data, L, j, m);
      assert (head + rest)[m] == head[m];
    } else {
      PositiveFactor(n - (j + 1), p);
      EachSymbolEntry(combo, data, L, j + 1, m - p);
      assert (head + rest)[m] == rest[m - p];
      assert (j + 1) * p + (m - p) == j * p + m by { MulDistrib(j, 1, p); }
    }
  }

  /** Entry m of the iteration for data[j] is the tuple numbered j * |data|^(L-1) + m. */
  lemma {:induction false} SymbolStepEntry(combo: seq<string>, data: seq<string>, L: int, j: nat, m: nat)
    requires L >= 1 && j < |data| && m < Pow(|data|, L - 1)
    ensures m < |SymbolStep(combo, data, L, j)|
    ensures SymbolStep(combo, data, L, j)[m] == combo + Tuple(data, L, j * Pow(|data|, L - 1) + m)
    decreases L, |data| - j, 0
  {
    var newCombo := combo + [data[j]];
    if L == 1 {
      assert CombosFrom(newCombo, data, 0) == [];
      assert SymbolStep(combo, data, L, j) == [newCombo];
      LastPosition(data, j);
    } else {
      assert SymbolStep(combo, data, L, j) == CombosFrom(newCombo, data, L - 1);
      CombosFromEntry(newCombo, data, L - 1, m);
      PrefixedTuple(data, L, j, m);
      assert newCombo + Tuple(data, L - 1, m) == combo + ([data[j]] + Tuple(data, L - 1, m));
    }
  }

  /** With one position left, data[j] alone is the tuple numbered j. */
  lemma LastPosition(data: seq<string>, j: nat)
    requires j < |data|
    ensures Tuple(data, 1, j * Pow(|data|, 0) + 0) == [data[j]]
  {
    LeadingDigit(|data|, 1, j, 0);
  }

  /** The tuple numbered j * n^(L-1) + m is data[j] followed by the tuple numbered m. */
  lemma PrefixedTuple(data: seq<string>, L: nat, j: nat, m: nat)
    requires L >= 1 && j < |data| && m < Pow(|data|, L - 1)
    ensures Tuple(data, L, j * Pow(|data|, L - 1) + m) == [data[j]] + Tuple(data, L - 1, m)
  {
    LeadingDigit(|data|, L, j, m);
  }

  // ---------------------------------------------------------------------------
  // The reference order: digits, ranks and lexicographic comparison

  /** a comes before b when they agree up to some position where a has the smaller entry. */
  predicate LexLess(a: seq<nat>, b: seq<nat>)
  {
    exists i :: 0 <= i < |a| && i < |b| && a[..i] == b[..i] && a[i] < b[i]
  }

  /** No symbol occurs twice. */
  predicate Distinct(data: seq<string>)
  {
    forall i, j :: 0 <= i < j < |data| ==> data[i] != data[j]
  }

  /** The number whose L = |idx| base-n digits are idx, most significant first. */
  function FromDigits(n: nat, idx: seq<nat>): nat
  {
    if idx == [] then 0 else FromDigits(n, idx[..|idx| - 1]) * n + idx[|idx| - 1]
  }

  /** Position of the first occurrence of x in data, or |data| when x does not occur. */
  function IndexOf(data: seq<string>, x: string): (i: nat)
    ensures i <= |data|
    ensures i < |data| <==> x in data
    ensures i < |data| ==> data[i] == x
    ensures forall j :: 0 <= j < i ==> data[j] != x
  {
    if data == [] then 0 else if data[0] == x then 0 else 1 + IndexOf(data[1..], x)
  }

  /** The positions in data of the symbols of t. */
  function Indices(data: seq<string>, t: seq<string>): (idx: seq<nat>)
    ensures |idx| == |t|
    ensures forall i :: 0 <= i < |t| ==> idx[i] == IndexOf(data, t[i])
  {
    if t == [] then [] else [IndexOf(data, t[0])] + Indices(data, t[1..])
  }

  /** Counting in base n is lexicographic on the digit sequences. */
  lemma DigitsOrdered(n: nat, L: nat, k1: nat, k2: nat)
    requires n >= 1 && k1 < k2 < Pow(n, L)
    ensures LexLess(Digits(n, L, k1), Digits(n, L, k2))
  {
    var i := FirstDifference(n, L, k1, k2);
  }

  /** The first position where the base-n digits of k1 < k2 differ holds the smaller digit for k1. */
  lemma {:induction false} FirstDifference(n: nat, L: nat, k1: nat, k2: nat) returns (i: nat)
    requires n >= 1 && k1 < k2 < Pow(n, L)
    ensures i < L
    ensures Digits(n, L, k1)[..i] == Digits(n, L, k2)[..i]
    ensures Digits(n, L, k1)[i] < Digits(n, L, k2)[i]
    decreases L, 1
  {
    if L == 0 {
      assert false;
    } else {
      QuotientsOrdered(k1, k2, n, Pow(n, L - 1));
      if k1 / n < k2 / n {
        i := DeeperDifference(n, L, k1, k2);
      } else {
        LastDifference(n, L, k1, k2);
        i := L - 1;
      }
    }
  }

  /** When the quotients differ, the first difference lies among the leading L - 1 digits. */
  lemma {:induction false} DeeperDifference(n: nat, L: nat, k1: nat, k2: nat) returns (i: nat)
    requires n >= 1 && L >= 1 && k1 / n < k2 / n < Pow(n, L - 1)
    ensures i < L
    ensures Digits(n, L, k1)[..i] == Digits(n, L, k2)[..i]
    ensures Digits(n, L, k1)[i] < Digits(n, L, k2)[i]
    decreases L, 0
  {
    i := FirstDifference(n, L - 1, k1 / n, k2 / n);
    ExtendDifference(n, L, k1, k2, i);
  }

  /** A difference in the leading L - 1 digits stays the first difference of the L digits. */
  lemma ExtendDifference(n: nat, L: nat, k1: nat, k2: nat, j: nat)
    requires n >= 1 && L >= 1 && j < L - 1
    requires Digits(n, L - 1, k1 / n)[..j] == Digits(n, L - 1, k2 / n)[..j]
    requires Digits(n, L - 1, k1 / n)[j] < Digits(n, L - 1, k2 / n)[j]
    ensures Digits(n, L, k1)[..j] == Digits(n, L, k2)[..j]
    ensures Digits(n, L, k1)[j] < Digits(n, L, k2)[j]
  {
    var a1, a2 := Digits(n, L - 1, k1 / n), Digits(n, L - 1, k2 / n);
    assert Digits(n, L, k1)[..j] == a1[..j];
    assert Digits(n, L, k2)[..j] == a2[..j];
  }

  /** Numbers with equal quotients and a smaller remainder first differ in the last digit. */
  lemma LastDifference(n: nat, L: nat, k1: nat, k2: nat)
    requires n >= 1 && L >= 1 && k1 / n == k2 / n && k1 % n < k2 % n
    ensures Digits(n, L, k1)[..L - 1] == Digits(n, L, k2)[..L - 1]
    ensures Digits(n, L, k1)[L - 1] < Digits(n, L, k2)[L - 1]
  {
    var a := Digits(n, L - 1, k1 / n);
    assert Digits(n, L, k1)[..L - 1] == a == Digits(n, L, k2)[..L - 1];
  }

  /** A non-empty sequence is its front followed by its last entry. */
  lemma DropLast(a: seq<nat>)
    requires a != []
    ensures a[..|a| - 1] + [a[|a| - 1]] == a
  {
  }

  /** A sequence of L base-n digits stands for a number below n^L. */
  lemma {:induction false} FromDigitsBelow(n: nat, idx: seq<nat>)
    requires n >= 1 && forall i :: 0 <= i < |idx| ==> idx[i] < n
    ensures FromDigits(n, idx) < Pow(n, |idx|)
  {
    if idx != [] {
      var L := |idx|;
      FromDigitsBelow(n, idx[..L - 1]);
      AppendDigit(FromDigits(n, idx[..L - 1]), n, idx[L - 1], Pow(n, L - 1));
    }
  }

  /** Every digit sequence is the expansion of the number it stands for. */
  lemma {:induction false} DigitsOfFromDigits(n: nat, idx: seq<nat>)
    requires n >= 1 && forall i :: 0 <= i < |idx| ==> idx[i] < n
    ensures Digits(n, |idx|, FromDigits(n, idx)) == idx
  {
    if idx != [] {
      var L := |idx|;
      var front, last := idx[..L - 1], idx[L - 1];
      DigitsOfFromDigits(n, front);
      LowDigit(n, front, last);
      DropLast(idx);
    }
  }

  /** Appending a digit d below n to the digits of f gives the digits of f * n + d. */
  lemma LowDigit(n: nat, front: seq<nat>, d: nat)
    requires n >= 1 && d < n && Digits(n, |front|, FromDigits(n, front)) == front
    ensures Digits(n, |front| + 1, FromDigits(n, front) * n + d) == front + [d]
  {
    var f := FromDigits(n, front);
    ProductNat(f, n);
    var v := f * n + d;
    DivModUnique(v, n, f, d);
    assert Digits(n, |front| + 1, v) == Digits(n, |front|, v / n) + [v % n];
  }

  /** Spelling the positions of t gives back t. */
  lemma {:induction false} SpellIndices(data: seq<string>, t: seq<string>)
    requires forall i :: 0 <= i < |t| ==> t[i] in data
    ensures Spell(data, Indices(data, t)) == t
  {
  }

  /** Over distinct symbols, the positions of a spelled tuple are the ones it was spelled from. */
  lemma {:induction false} IndicesSpell(data: seq<string>, idx: seq<nat>)
    requires Distinct(data) && forall i :: 0 <= i < |idx| ==> idx[i] < |data|
    ensures Indices(data, Spell(data, idx)) == idx
  {
    var t := Spell(data, idx);
    forall i | 0 <= i < |idx| ensures IndexOf(data, t[i]) == idx[i] {
    }
  }

  // ---------------------------------------------------------------------------
  // What the generator promises

  /** A tuple is emitted for length L iff L >= 1, it has L positions, and every symbol is from data. */
  lemma GenerateMembership(data: seq<string>, L: int, t: seq<string>)
    ensures t in GenerateCombinations(data, L)
            <==> L >= 1 && |t| == L && forall i :: 0 <= i < |t| ==> t[i] in data
  {
    if t in GenerateCombinations(data, L) {
      GenerateSound(data, L, t);
    }
    if L >= 1 && |t| == L && forall i :: 0 <= i < |t| ==> t[i] in data {
      GenerateComplete(data, L, t);
    }
  }

  /** Every emitted tuple has L positions, all holding symbols of data. */
  lemma GenerateSound(data: seq<string>, L: int, t: seq<string>)
    requires t in GenerateCombinations(data, L)
    ensures L >= 1 && |t| == L && forall i :: 0 <= i < |t| ==> t[i] in data
  {
    var g := GenerateCombinations(data, L);
    var k :| 0 <= k < |g| && g[k] == t;
    assert L >= 1 && |data| >= 1 && t == Tuple(data, L, k) by {
      GenerateIndexed(data, L);
    }
  }

  /** Every tuple of L symbols of data is emitted for length L. */
  lemma GenerateComplete(data: seq<string>, L: int, t: seq<string>)
    requires L >= 1 && |t| == L && forall i :: 0 <= i < |t| ==> t[i] in data
    ensures t in GenerateCombinations(data, L)
  {
    var k := RankOf(data, t);
    CombosFromEntry([], data, L, k);
    assert GenerateCombinations(data, L)[k] == [] + t == t;
  }

  /** A non-empty tuple over data is the tuple numbered by the base-|data| value of its positions. */
  lemma RankOf(data: seq<string>, t: seq<string>) returns (k: nat)
    requires |t| >= 1 && forall i :: 0 <= i < |t| ==> t[i] in data
    ensures |data| >= 1 && k < Pow(|data|, |t|) && Tuple(data, |t|, k) == t
  {
    assert t[0] in data;
    var idx := Indices(data, t);
    k := FromDigits(|data|, idx);
    FromDigitsBelow(|data|, idx);
    DigitsOfFromDigits(|data|, idx);
    SpellIndices(data, t);
  }

  /** Over distinct symbols the generator never emits the same tuple twice. */
  lemma GenerateNoRepeats(data: seq<string>, L: int, k1: nat, k2: nat)
    requires Distinct(data)
    requires k1 < k2 < |GenerateCombinations(data, L)|
    ensures GenerateCombinations(data, L)[k1] != GenerateCombinations(data, L)[k2]
  {
    GenerateOrdered(data, L, k1, k2);
  }

  /**
   * Over distinct symbols the tuples come in strictly increasing lexicographic order of
   * their symbol positions: left-most position slowest, right-most fastest.
   */
  lemma GenerateOrdered(data: seq<string>, L: int, k1: nat, k2: nat)
    requires Distinct(data)
    requires k1 < k2 < |GenerateCombinations(data, L)|
    ensures LexLess(Indices(data, GenerateCombinations(data, L)[k1]),
                    Indices(data, GenerateCombinations(data, L)[k2]))
  {
    var n := |data|;
    GenerateIndexed(data, L);
    DigitsOrdered(n, L, k1, k2);
    IndicesSpell(data, Digits(n, L, k1));
    IndicesSpell(data, Digits(n, L, k2));
  }

  /** For [a, b] and length 2 the stream is aa, ab, ba, bb. */
  lemma TwoSymbolsLengthTwo()
    ensures GenerateCombinations(["a", "b"], 2) == [["a", "a"], ["a", "b"], ["b", "a"], ["b", "b"]]
  {
    var data := ["a", "b"];
    var g := GenerateCombinations(data, 2);
    CombosFromSize([], data, 2);
    assert g[0] == ["a", "a"] by { CombosFromEntry([], data, 2, 0); }
    assert g[1] == ["a", "b"] by { CombosFromEntry([], data, 2, 1); }
    assert g[2] == ["b", "a"] by { CombosFromEntry([], data, 2, 2); }
    assert g[3] == ["b", "b"] by { CombosFromEntry([], data, 2, 3); }
  }
}
