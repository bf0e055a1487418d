/**
 * Dictionary mode: `processData` splits one block's lines over the workers and reports
 * whether one of them matched; `crack` feeds the file's blocks to it in order and stops
 * at the first block that matched. Each block is given as the lines the scanner splits
 * it into.
 */
module Dictionary {
  import opened RoundRobin
  import opened Workers

  /**
   * processData, with the n workers run one after another: it answers true iff some line
   * of the block is accepted by the oracle.
   */
  method ProcessData(accept: string -> bool, lines: seq<string>, n: nat) returns (found: bool)
    requires n >= 1
    ensures found <==> Accepted(accept, lines)
  {
    var dictionaries := Distribute(lines, n);
    found := false;
    var w := 0;
    while w < n && !found
      invariant 0 <= w <= n
      invariant found ==> Accepted(accept, lines)
      invariant !found ==> forall v :: 0 <= v < w ==> !Accepted(accept, dictionaries[v])
    {
      var workerFound, _ := DictionaryWorker(accept, dictionaries[w]);
      if workerFound {
        var x :| x in dictionaries[w] && accept(x);
        ClassHoldsLines(lines, n, w, 0, x);
      }
      found := workerFound;
      w := w + 1;
    }
    if !found {
      forall k | 0 <= k < |lines| ensures !accept(lines[k]) {
        LineInOwnClass(lines, n, k, 0);
        assert lines[k] in dictionaries[k % n];
      }
    }
  }

  /**
   * crack over the blocks of the dictionary file: blocks are processed in file order and
   * the loop stops at the first block that matched. `processed` counts the blocks handed
   * to processData.
   */
  method Crack(accept: string -> bool, blocks: seq<seq<string>>, n: nat)
    returns (found: bool, processed: nat)
    requires n >= 1
    ensures processed <= |blocks|
    ensures forall b :: 0 <= b < processed - 1 ==> !Accepted(accept, blocks[b])
    ensures found ==> processed >= 1 && Accepted(accept, blocks[processed - 1])
    ensures !found ==> processed == |blocks| && forall b :: 0 <= b < |blocks| ==> !Accepted(accept, blocks[b])
  {
    processed := 0;
    while processed < |blocks|
      invariant 0 <= processed <= |blocks|
      invariant forall b :: 0 <= b < processed ==> !Accepted(accept, blocks[b])
    {
      var blockFound := ProcessData(accept, blocks[processed], n);
      processed := processed + 1;
      if blockFound {
        return true, processed;
      }
    }
    found := false;
  }

  /** A file whose second line is the password: one worker tests "apple", then "swordfish", and stops. */
  method SwordfishClient()
  {
    var accept := (s: string) => s == "swordfish";
    var list := ["apple", "swordfish", "zebra"];
    assert accept(list[1]);
    var found, tried := DictionaryWorker(accept, list);
    assert found;
    assert tried[1] == "swordfish";
    assert tried == ["apple", "swordfish"];
    var blocks := [["apple"], ["swordfish", "zebra"], ["late"]];
    assert accept(blocks[1][0]);
    assert !Accepted(accept, blocks[0]);
    var blockFound, processed := Crack(accept, blocks, 1);
    assert blockFound && processed == 2;
  }
}
