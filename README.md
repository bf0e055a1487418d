# ZipCrack core in Dafny

ZipCrack recovers the password of an encrypted ZIP archive in one of two ways.

- **Dictionary mode.** `crack` reads the word list block by block. `processData` splits each
  block's lines round-robin over `numGoroutines` workers, and each `dictionaryAttackWorker`
  tries its own list in order.
- **Brute-force mode.** `bruteforce` cuts the alphabet into `numGoroutines` contiguous
  slices. Each `bruteForceWorker` enumerates every word over its own slice, length 1, then
  length 2, and so on, using the generator `GenerateCombinationsString`/`combosString`.

The model covers this core:

- the candidate generator;
- the partition arithmetic;
- the round-robin split;
- the two workers;
- the block driver;
- the brute-force driver.

It makes these substitutions:

- The password test `unzip(zipFile, password)` is the parameter `accept: string -> bool`
  (the oracle).
- `numGoroutines` (`runtime.NumCPU()`) is the parameter `n`, at least 1.
- A block is given as the lines the scanner splits it into.
- Workers run one after another, and the first match stops the search.

Modules:

- `Arith`: powers and small facts about `*`, `/` and `%` on naturals.
- `Combinations`: the generator as the same mutual recursion as `combosString`, a reference
  order (the base-|data| digits of the index), and the generator's properties.
- `Partition`: `startIdx`/`endIdx`, the slicing loop, and the facts about the slices.
- `RoundRobin`: the splitting loop of `processData`, on an array of lists.
- `Workers`: the dictionary worker, the brute-force worker (with a length bound
  `maxLength`), and the brute-force driver.
- `Dictionary`: `processData` and `crack`.

The generator emits nothing when `length <= 0`, not even one empty tuple. That is what the
code does (ZipCrack.go:41-43), and the model follows it.

## Model

| member | source | states |
|---|---|---|
| Combinations.GenerateIndexed | ZipCrack.go:31-54 | For length <= 0 the stream is empty. Otherwise it holds \|data\|^length tuples, and tuple k spells the base-\|data\| digits of k: left-most position slowest, right-most fastest. |
| Combinations.CombosFromSize | ZipCrack.go:40-54 | From any prefix `combo`, the recursion emits \|data\|^L tuples for L >= 1. |
| Combinations.CombosFromEntry | ZipCrack.go:40-54 | Entry k of the recursion from prefix `combo` is `combo` followed by the reference tuple numbered k. |
| Combinations.EachSymbolEntry | ZipCrack.go:45-53 | Entry m of the `range data` loop from symbol j is the reference tuple numbered j * \|data\|^(L-1) + m: the block for data[j] first, then the later symbols' blocks. |
| Combinations.SymbolStepEntry | ZipCrack.go:46-52 | The iteration for data[j] emits the tuples that start with data[j], in index order. |
| Combinations.GenerateMembership | ZipCrack.go:45-50 | A tuple is emitted iff length >= 1, it has length positions, and all its symbols are from data (every such tuple appears). |
| Combinations.GenerateSound | ZipCrack.go:45-50 | Every emitted tuple has length positions, all holding symbols of data. |
| Combinations.GenerateComplete | ZipCrack.go:45-52 | Every tuple of length symbols of data is emitted. |
| Combinations.GenerateNoRepeats | ZipCrack.go:45-52 | Over distinct symbols, no tuple is emitted twice. |
| Combinations.GenerateOrdered | ZipCrack.go:45-52 | Over distinct symbols, the tuples come in strictly increasing lexicographic order of their symbol positions. |
| Combinations.TwoSymbolsLengthTwo | ZipCrack.go:40-54 | For [a, b] and length 2 the stream is aa, ab, ba, bb. |
| Partition.Partition | ZipCrack.go:85-92 | Worker i receives slice i. All slices but the last hold len/n symbols. Joined in order, the slices are exactly the alphabet. |
| Partition.SliceBounds | ZipCrack.go:85-91 | Each start <= end <= len. A non-last slice has len/n symbols. |
| Partition.SlicesContiguous | ZipCrack.go:87-91 | The first slice starts at 0, the last ends at len, and each slice ends where the next starts. |
| Partition.SlicesDisjoint | ZipCrack.go:87-91 | An earlier slice ends before a later one starts. |
| Partition.SmallAlphabet | ZipCrack.go:85-91 | With fewer symbols than workers, every slice but the last is empty and the last is the whole alphabet. |
| Partition.SlicesShareNoSymbol | ZipCrack.go:85-92 | Over distinct symbols, no symbol goes to two workers. |
| Partition.TwoWorkersFourSymbols | ZipCrack.go:85-92 | Four symbols over two workers give [a, b] and [c, d]. |
| RoundRobin.Distribute | ZipCrack.go:140-152 | There are n lists. List j holds exactly the lines whose index is j mod n, in input order. Together the lists hold as many entries as the block has lines. |
| RoundRobin.ResidueClassAt | ZipCrack.go:147-152 | Worker j receives lines j, j+n, j+2n, ... in that order, and none of them is left out. |
| RoundRobin.LineInOwnClass | ZipCrack.go:150 | Line k goes to the list of worker k mod n. |
| RoundRobin.ClassHoldsLines | ZipCrack.go:150 | A worker's list holds only lines of the block, each at an index congruent to the worker. |
| RoundRobin.ClassFromAppend | ZipCrack.go:148-151 | A newly scanned line joins exactly the list of its own index. |
| RoundRobin.TotalSizeUpdate | ZipCrack.go:150 | Appending to one list adds one to the total. |
| RoundRobin.EightLinesFourWorkers | ZipCrack.go:147-152 | Eight lines over four workers: worker 1 gets p1 and p5. |
| Workers.DictionaryWorker | ZipCrack.go:120-135 | Passwords are tried in list order and the worker stops at the first accepted one. It reports a match iff some entry is accepted. Without a match it tries the whole list. |
| Workers.TryAll | ZipCrack.go:107-115 | Joined candidates are tried in stream order, stopping at the first accepted one. The result is a match iff some candidate is accepted. |
| Workers.BruteForceWorker | ZipCrack.go:101-118 | Lengths are tried from 1 upwards, with quit checked before each length. What is tried lies between the schedule up to length-1 and the schedule up to length. Every tried candidate but the last is rejected. A match means the last candidate is accepted and quit was open. Cancelled means quit was closed at that length. Exhausted means everything up to maxLength was tried and rejected. |
| Workers.ScheduleMembership | ZipCrack.go:102-107 | A word is in the worker's schedule up to m iff its length is between 1 and m and all its symbols are from the worker's slice. |
| Workers.ScheduleLengthsSorted | ZipCrack.go:102-107 | Shorter candidates are tried before longer ones. |
| Workers.ScheduleSize | ZipCrack.go:102-107 | Up to length m a worker tries \|slice\|^1 + ... + \|slice\|^m candidates. |
| Workers.ScheduleOverAlphabet | ZipCrack.go:92-107 | Every candidate a worker tries is built from its own slice only. |
| Workers.MixedCandidateNeverTried | ZipCrack.go:85-107 | Over distinct symbols, a word that uses symbols from two different slices is never tried by any worker. |
| Workers.FourSymbolsTwoWorkers | ZipCrack.go:85-107 | Over [a, b, c, d] with two workers, "ac" is tried by neither worker. |
| Workers.EmptySliceSchedulesNothing | ZipCrack.go:102-107 | A worker with an empty slice tries nothing, at any length. |
| Workers.ScheduleMonotone | ZipCrack.go:102 | The schedule up to a smaller bound is a prefix of the schedule up to a larger one. |
| Workers.ExtendSchedule | ZipCrack.go:102-115 | Candidates tried at length L extend the schedule of the shorter lengths and keep the "all but the last rejected" fact. |
| Workers.BruteForce | ZipCrack.go:81-99 | A reported password is accepted and is a candidate of one worker's slice. With no report, no candidate of length at most maxLength over any single slice is accepted. |
| Dictionary.ProcessData | ZipCrack.go:137-172 | The block is reported as matched iff some line of it is accepted. |
| Dictionary.Crack | ZipCrack.go:174-195 | Blocks are processed in file order and the loop stops at the first matched block. Without a match, every block is processed and none is accepted. |

## Left out

- Goroutines, channels, `sync.WaitGroup` and `select` are left out. Workers run one after another in worker order, and the first match ends the search. Which of several matching candidates a concurrent run reports is not modelled.
- `unzip` is the oracle parameter `accept`, and the ZIP decryption it performs is not modelled. As written, `unzip` returns true for an archive without entries, whatever the password.
- `getBuffer` and memory sizing are left out. The file's blocks are a parameter, so a line cut in two by a block boundary is not modelled.
- `bufio.Scanner` line splitting and its line-length limit are left out. Each block is given as its list of lines.
- File I/O, `log.Fatal`, printing, `startTime` and `main`'s argument handling are left out. One detail of the printing: the "Combinations tried" line prints the current length, not a count.
- Workers.BruteForceWorker: the source's loop over lengths never ends. The model stops after `maxLength` and then reports `Exhausted`.
- Workers.BruteForceWorker: the quit channel is the parameter `quit`, read once before each length as the source's `select` does. Inside a length the source never checks it.
- Workers.BruteForce: the driver hands every worker a quit channel that is never closed, because the source closes it only after the first result. The second worker that finds a match blocks forever on the unbuffered result channel; that is not modelled.
- Dictionary.ProcessData: the source never closes the quit channel before all workers finish, and it returns at the first `true` it receives. The model runs the workers in order and stops at the first match.
