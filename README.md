# Verified model of the algorithm engines of the comparison-algorithms visualizer

The visualizer is a teaching web application. It animates several classic
algorithms step by step. Behind each animation is a small, synchronous engine.
The engine takes a discrete input and returns a trace of steps together with a
result. This project models seven of these engines in Dafny and proves what each
one promises:

- **Hamilton cycles** (`Hamilton`, hamilton.dfy).
  - building the adjacency list;
  - the backtracking search for Hamilton cycles, with its result cap and its de-duplication by key, proved both sound and exhaustive;
  - the path validator, which accumulates issues;
  - the completeness test and the graph statistics.
- **Graph editor** (`GraphEditor`, graph_editor.dfy): the editing handlers of the Hamilton page.
  - add and remove a node;
  - add and remove an edge;
  - find cycles;
  - parse and test a path typed as `A -> B -> C -> A`.
- **Fano coder** of the algorithm library (`Fano`, fano.dfy).
  - the recursive split at the first point where the running sum reaches half the total;
  - the shared step list and code record.
- **Fano visualizer** (`FanoVisualizer`, fano.dfy).
  - the same split, with a `split`/`assign` trace in pre-order;
  - a snapshot of the growing code map at every step;
  - the add-symbol handler.
- **Shannon-Fano-Elias coder** of the library (`ShannonFanoElias`, sfe.dfy).
  - code lengths L = ceil(-log2 p);
  - codes floor(F * 2^L) in binary, padded to L digits.
- **LZ77 sliding-window compressor** of the library (`Lz77`, lz77.dfy).
  - window 4096, lookahead 18;
  - the greedy longest match and its dictionary;
  - replay, which decompresses the steps.
- **Dictionary matcher** of the Lempel-Ziv visualizer (`LzDictionary`, lz_dictionary.dfy).
  - an append-only dictionary that starts as `[""]`;
  - the closed form of its trace;
  - replay.
- **Hamming(7,4)** encoder and decoder of the Hamming visualizer (`HammingCode`, hamming.dfy).
  - the encoder as written, whose parity formulas the decoder does not invert (see "## Findings");
  - the decoder's syndrome and single-bit correction;
  - the intended encoder, whose words the decoder inverts under any single flip.
- **Huffman** tree construction and code walk of the Huffman visualizer (`Huffman` in huffman.dfy, `HuffmanCodes` in huffman_codes.dfy).
  - flooring and normalisation;
  - the stable-sorted worklist of merges;
  - the depth-first code walk;
  - the code list ordered by character;
  - the add-symbol handler.

`Common` (common.dfy) holds what the engines share:
- the `Symbol` record and sums of reals over sequences;
- the stable sort by a real key that `Array.prototype.sort` performs;
- descending sorting by probability;
- ASCII upper-casing;
- `substring`, `split` and `join` on strings.

Code that updates state in place is modelled as imperative Dafny. Each of the following is proved equal to a pure specification function, whose properties are then proved as lemmas:
- loops;
- recursive helpers that push onto shared lists;
- the React state of the handlers, modelled as classes with fields.

Probabilities and weights are exact reals.

## Model

| member | source | states |
|---|---|---|
| Hamilton.BuildAdjacencyList | lib/hamilton-algorithm.ts:143-161 | The keys are exactly the node ids plus every edge source. The entry for `u` is the `to` of every edge leaving `u`, in edge order, including targets that are not nodes. |
| Hamilton.TargetsMeaning | lib/hamilton-algorithm.ts:155-158 | `b` is in the adjacency entry of `a` exactly when some edge goes from `a` to `b`. |
| Hamilton.LinkedMeaning | lib/hamilton-algorithm.ts:129 | The lookup `adjList[a]?.includes(b)` on the built list holds exactly when the graph has an edge from `a` to `b`, including when `a` has no entry. |
| Hamilton.CycleSearch.Backtrack | lib/hamilton-algorithm.ts:39-72 | Entered on a repeat-free walk from the start node, it keeps the found-cycle invariant and restores `visitedSet`. The invariant says: at most `maxCycles` cycles, each a valid Hamilton cycle marked valid, no two with the same path, and the key set equal to their keys. Cycles and keys only grow, and every cycle it adds extends the current path. Unless the cap is reached, every Hamilton cycle that begins with the current path has its key remembered. |
| Hamilton.CycleSearch.Visit | lib/hamilton-algorithm.ts:65-70 | Adding a neighbour, recursing and deleting the neighbour again leaves `visitedSet` unchanged and keeps the invariant. The cycles it adds extend the path with that neighbour. Unless the cap is reached, every cycle that goes on from the path to that neighbour has its key remembered, including when the neighbour is already on the path and no such cycle exists. |
| Hamilton.CycleSearch.RecordIfClosed | lib/hamilton-algorithm.ts:48-60 | When the last node links back to the start and the joined key is new, the closed path is appended as a valid cycle and the key is remembered. Otherwise cycles and keys are unchanged. It keeps the found-cycle invariant, and afterwards the one cycle the walk begins, if any, has its key remembered. |
| Hamilton.ClosedCycle | lib/hamilton-algorithm.ts:48-54 | A repeat-free walk through n names that links back to its start closes to a path of n + 1 entries. That path starts and ends at the start node and has an edge between every consecutive pair. Its key is the walk joined by '-'. |
| Hamilton.FoundSnoc | lib/hamilton-algorithm.ts:50-57 | Pushing a new-keyed cycle under the cap keeps the cycles distinct and capped, and keeps the key set equal to their keys. |
| Hamilton.ExtendsStep | lib/hamilton-algorithm.ts:65-70 | Cycles that extend the path with one more neighbour also extend the path itself. This carries `Extends` through the neighbour loop. |
| Hamilton.OnlyClosing | lib/hamilton-algorithm.ts:48-54 | A repeat-free walk through n names begins only one cycle: itself closed back to its start, which needs an edge from its last name to its start. |
| Hamilton.NextOnCycle | lib/hamilton-algorithm.ts:64-68 | A shorter walk that begins a cycle continues, in that cycle, along an edge to a name not yet visited. So the neighbour loop reaches that name. |
| Hamilton.BeyondNoCycle | lib/hamilton-algorithm.ts:48-68 | A walk through more names than there are nodes begins no cycle. Edges to names that are not nodes make such walks possible. |
| Hamilton.NoCycleThrough | lib/hamilton-algorithm.ts:66-70 | No cycle continues a walk with a name already visited, so skipping such a neighbour loses nothing. |
| Hamilton.CoveredViaStep | lib/hamilton-algorithm.ts:65-71 | After one more turn of the neighbour loop, the cycles through every neighbour tried so far have their keys remembered. |
| Hamilton.CoveredViaAll | lib/hamilton-algorithm.ts:64-71 | Once every neighbour of the last name, or none when it has no entry, has been covered, every cycle the walk begins is covered. |
| Hamilton.ClosingCovered | lib/hamilton-algorithm.ts:48-60 | For a walk through n names, remembering its joined key whenever its last name links back to the start covers every cycle the walk begins. |
| Hamilton.CoveredFromStep | lib/hamilton-algorithm.ts:75-79 | After the search from one more start node, every cycle starting at a node tried so far has its key remembered. |
| Hamilton.FoundComplete | lib/hamilton-algorithm.ts:75-81 | When every cycle starting at any node has its key among the found cycles' keys, each cycle has the key of a found one. A graph with a cycle then has a non-empty result. |
| Hamilton.FindHamiltonCycles | lib/hamilton-algorithm.ts:28-82 | Returns at most `maxCycles` cycles. Each is marked valid and is a Hamilton cycle of the graph: n + 1 entries, the first n pairwise different, closed, with an edge at every step. No two returned cycles have the same path. The search is exhaustive: with fewer than `maxCycles` returned, every Hamilton cycle of the graph has the key of a returned one. So a graph with a cycle yields at least one under a positive cap. |
| Hamilton.ValidateHamiltonCycle | lib/hamilton-algorithm.ts:85-140 | The issues are exactly those of the four checks, in source order. The path is valid iff there are no issues. The empty path gives exactly the one empty-path issue. |
| Hamilton.CheckNodes | lib/hamilton-algorithm.ts:119-123 | One unknown-node issue for each path entry that is not a node, in path order. |
| Hamilton.CheckEdges | lib/hamilton-algorithm.ts:126-132 | One missing-edge issue for each consecutive pair without an edge, in path order. |
| Hamilton.UnknownNodesNone | lib/hamilton-algorithm.ts:119-123 | There are no unknown-node issues iff every path entry is a node. |
| Hamilton.MissingEdgesNone | lib/hamilton-algorithm.ts:126-132 | There are no missing-edge issues iff every consecutive pair is an edge. |
| Hamilton.AcceptedMeaning | lib/hamilton-algorithm.ts:95-134 | A path is accepted iff all of these hold: it is non-empty and closed; it has as many different names before its last entry as there are nodes; every entry is a node; every step is an edge. |
| Hamilton.AcceptedCoversNodes | lib/hamilton-algorithm.ts:110-123 | With distinct node ids, an accepted path visits every node. |
| Hamilton.RevisitingWalkAccepted | lib/hamilton-algorithm.ts:104-132 | The path length is never checked. A closed walk that goes round the two-node cycle A, B twice is accepted. |
| Hamilton.FoundCycleAccepted | lib/hamilton-algorithm.ts:29-140 | Assume distinct node ids and edges whose endpoints are nodes. Then every cycle the search returns is accepted by the validator, and its first n entries are a permutation of the node ids. |
| Hamilton.PairsMeaning | lib/hamilton-algorithm.ts:164-166 | For distinct ids, the ordered pairs of different nodes are distinct and number n(n-1). |
| Hamilton.EdgeLowerBound | lib/hamilton-algorithm.ts:164-168 | With distinct ids, a graph in which every ordered pair of different nodes is linked has at least n(n-1) edges, so the early exit never changes the answer. |
| Hamilton.IsCompleteGraph | lib/hamilton-algorithm.ts:164-182 | A true answer means every ordered pair of different nodes has an edge. With distinct node ids the answer is exactly that. |
| Hamilton.GetGraphStats | lib/hamilton-algorithm.ts:185-197 | The node and edge counts are the lengths of the inputs. `isComplete` is the completeness test, with the same meaning as above. |
| GraphEditor.Editor.constructor | components/hamilton-visualizer.tsx:27-41 | Starts with nodes A to D and the six edges 1 to 6. The ids are unique and the edges have no self-loop and no repeated pair. |
| GraphEditor.InitialGraphValid | components/hamilton-visualizer.tsx:27-41 | The initial graph has unique node ids, no self-loops and no two edges with the same (from, to). |
| GraphEditor.InitialGraphHasCycle | components/hamilton-visualizer.tsx:27-41 | A, B, C, D, A is a Hamilton cycle of the initial graph. With the clause of `FindCycles` above, searching the initial graph shows at least one cycle. |
| GraphEditor.Editor.AddNode | components/hamilton-visualizer.tsx:58-71 | If the trimmed label is empty or the upper-cased id exists, nothing changes. Otherwise the node (id, id) is appended and the label is cleared. Ids stay unique. |
| GraphEditor.UniqueIdsSnoc | components/hamilton-visualizer.tsx:66-67 | Appending a node with a new id keeps the ids unique. |
| GraphEditor.Editor.AddEdge | components/hamilton-visualizer.tsx:73-88 | Acts only when both endpoints are set and different, and no edge has the same (from, to). It then appends the edge with the given id and clears both endpoints. Otherwise nothing changes. No self-loop or duplicate pair is ever introduced. |
| GraphEditor.Editor.RemoveNode | components/hamilton-visualizer.tsx:90-93 | The nodes become those without that id, and the edges those touching neither endpoint. The editor's invariant is kept. |
| GraphEditor.RemoveNodeMeaning | components/hamilton-visualizer.tsx:90-93 | Every other node and every edge not touching the id keeps its multiplicity, and the removed ones are gone. No surviving edge refers to the id. |
| GraphEditor.RemoveNodeKeepsOrder | components/hamilton-visualizer.tsx:91-92 | Removal distributes over concatenation, so survivors keep their relative order. |
| GraphEditor.Editor.RemoveEdge | components/hamilton-visualizer.tsx:95-97 | The edges become those whose id differs. The invariant is kept. |
| GraphEditor.RemoveEdgeMeaning | components/hamilton-visualizer.tsx:95-97 | Exactly the edges with that id are dropped. Others keep their multiplicity and relative order. |
| GraphEditor.Editor.FindCycles | components/hamilton-visualizer.tsx:99-103 | At most 5 cycles. Each is a valid Hamilton cycle of the current graph, with no two paths equal. With fewer than 5 shown, every Hamilton cycle of the graph has the key of one shown, and a graph with a cycle shows at least one. The selection is reset to 0. |
| GraphEditor.Editor.TestCycle | components/hamilton-visualizer.tsx:105-112 | The test result is the validator's verdict and issues for the parsed path. |
| GraphEditor.ParsePathEntries | components/hamilton-visualizer.tsx:105-109 | Every parsed entry is non-empty, already trimmed and already upper case. |
| GraphEditor.ParseJoinedPath | components/hamilton-visualizer.tsx:105-109 | Parsing names that are non-empty, trimmed, upper case and free of '-', once joined by "->", gives the names back. |
| GraphEditor.ParseEmpty | components/hamilton-visualizer.tsx:105-109 | The empty text parses to the empty path. |
| GraphEditor.FilterCount | components/hamilton-visualizer.tsx:91-96 | `filter` keeps every kept element with its multiplicity and drops the rest. |
| GraphEditor.FilterPairwise | components/hamilton-visualizer.tsx:91-96 | A property that holds for every ordered pair of a list holds for every pair of a filtered list. |
| GraphEditor.TrimIsSlice | components/hamilton-visualizer.tsx:108 | `trim` returns a slice of its input. |
| GraphEditor.TrimDrops | components/hamilton-visualizer.tsx:108 | Everything `trim` removes is white space. |
| GraphEditor.TrimEnds | components/hamilton-visualizer.tsx:108 | A non-empty trimmed string begins and ends with a non-space. |
| GraphEditor.TrimEmpty | components/hamilton-visualizer.tsx:59 | A label trims to empty iff it is all white space. |
| GraphEditor.TrimIdempotent | components/hamilton-visualizer.tsx:108 | Trimming twice is trimming once. |
| GraphEditor.UpperIdempotent | components/hamilton-visualizer.tsx:108 | Upper-casing twice is upper-casing once. |
| Common.JoinSplit | components/hamilton-visualizer.tsx:107 | Joining the pieces of a split with the same separator restores the text. |
| Common.SplitJoin | components/hamilton-visualizer.tsx:107 | Splitting a join of pieces that do not contain the separator's first character gives the pieces back. |
| Common.SplitPiecesClean | components/hamilton-visualizer.tsx:107 | No piece of a split contains the separator. |
| Common.FindFirst | components/hamilton-visualizer.tsx:107 | The first occurrence of the separator, or none, and no earlier occurrence. |
| Common.SortByKeyPermutes | lib/algorithms.ts:10 | The stable sort returns a permutation of its input. |
| Common.SortByKeySorted | lib/algorithms.ts:10 | The stable sort returns its input ordered by the key. |
| Common.SortByKeyStable | lib/algorithms.ts:10 | Elements with equal keys keep their original relative order. |
| Common.SortDescending | lib/algorithms.ts:10 | `[...symbols].sort((a, b) => b.prob - a.prob)` is a permutation, in descending probability, in which ties keep their input order. |
| Common.SumAppend | lib/algorithms.ts:31 | The sum of a concatenation is the sum of the sums. |
| Fano.SplitFromLeast | lib/algorithms.ts:35-41 | The split is the least prefix length whose running sum reaches half the total, and 0 when none does. |
| Fano.FindSplit | lib/algorithms.ts:31-41 | The split loop returns that least prefix length. |
| Fano.SplitInRange | lib/algorithms.ts:31-44 | For at least two non-negative probabilities in descending order, the split lies in 1..n-1, so both halves are non-empty. |
| Fano.FanoRun.Helper | lib/algorithms.ts:14-55 | `fanoHelper` appends exactly the pre-order trace of its group to the shared steps. It writes the group's leaf codes into the shared record. |
| Fano.FanoAlgorithm | lib/algorithms.ts:9-66 | The steps are the trace of the sorted symbols. The codes are their leaf codes. `results` lists every sorted symbol in sorted order with its probability and its code. |
| Fano.TraceLength | lib/algorithms.ts:19-57 | A group of n >= 1 symbols produces 2n - 1 steps: one split per internal group and one assignment per leaf. |
| Fano.TraceDepth | lib/algorithms.ts:20-54 | The code of every step extends the prefix by one digit per level, so its length is the recursion depth. |
| Fano.LeavesOrder | lib/algorithms.ts:20-57 | Leaves come out in the sorted order. Each leaf code extends the prefix. With two or more symbols every leaf code is longer than the prefix. |
| Fano.LeavesPrefixFree | lib/algorithms.ts:20-54 | No leaf code is a prefix of another. |
| Fano.CodesPrefixFree | lib/algorithms.ts:12-21 | With distinct characters, the codes in the record are pairwise prefix-free. |
| Fano.RepeatedCharOverwritten | lib/algorithms.ts:21 | A character given twice keeps only its last code. |
| FanoVisualizer.Divider.Divide | components/fano-visualizer.tsx:49-88 | `divide` appends exactly the split/assign trace of its group to the steps, with a snapshot of the map at each step. It adds the group's leaf codes to the map. |
| FanoVisualizer.FanoCodes | components/fano-visualizer.tsx:44-92 | The steps are the trace of the input sorted by descending probability. The map holds its leaf codes. |
| FanoVisualizer.VisTraceSplit | components/fano-visualizer.tsx:63-87 | A group of two or more pushes a split step, then the left trace with prefix + '0', then the right trace with prefix + '1', seen from the map after the left half. |
| FanoVisualizer.VisTraceLength | components/fano-visualizer.tsx:49-88 | A group of n >= 1 symbols gives 2n - 1 steps. |
| FanoVisualizer.SplitStepsHalve | components/fano-visualizer.tsx:75-83 | Every split step divides its group into two non-empty halves that concatenate to the group. |
| FanoVisualizer.AssignStepsInOrder | components/fano-visualizer.tsx:50-60 | The assign steps name the group's characters exactly once each, in sorted order. |
| FanoVisualizer.SnapshotsBounded | components/fano-visualizer.tsx:52-81 | Every snapshot contains the starting map's keys and is contained in the final map's keys. |
| FanoVisualizer.SnapshotsGrow | components/fano-visualizer.tsx:52-81 | The keys of the snapshots only grow from step to step. |
| FanoVisualizer.Visualizer.constructor | components/fano-visualizer.tsx:30-39 | Starts with the alphabet A 0.4, B 0.3, C 0.2, D 0.1, empty input fields and no steps. All probabilities are in (0, 1]. |
| FanoVisualizer.Visualizer.HandleAddSymbol | components/fano-visualizer.tsx:121-131 | With both fields filled in and 0 < p <= 1, the symbol is appended, the fields are cleared and the steps are reset. Otherwise nothing changes. All probabilities stay in (0, 1]. |
| FanoVisualizer.Visualizer.GenerateCodes | components/fano-visualizer.tsx:94-96 | Keeps the symbols and sets the steps to the trace of the sorted symbols. Returns their codes. |
| ShannonFanoElias.ShannonFanoEliasCodes | lib/algorithms.ts:77-104 | One step per symbol of the descending order. Each step has the symbol's character and probability, and the cumulative probability including it. Its L is the least L with p * 2^L >= 1, i.e. ceil(-log2 p). Its code is the binary form of floor((Fprev + p/2) * 2^L) padded to L digits. |
| ShannonFanoElias.CodeLengthLeast | lib/algorithms.ts:89 | L makes p * 2^L >= 1, no smaller L does, and L == 0 iff p >= 1. |
| ShannonFanoElias.CodeMeaning | lib/algorithms.ts:90-92 | The code consists of binary digits, has at least L of them, and its value is floor(F * 2^L). |
| ShannonFanoElias.CodeLengthExact | lib/algorithms.ts:90-92 | For 0 <= F < 1 the code has exactly L digits, or 1 when L is 0. |
| ShannonFanoElias.StepMeaning | lib/algorithms.ts:83-100 | A recorded step's midpoint is its cumulative probability minus p/2. Its code reads back to floor(F * 2^L). When the total is at most 1 the code has exactly L digits. |
| ShannonFanoElias.BinaryValue | lib/algorithms.ts:91 | `toString(2)` gives binary digits whose value is the number, with a leading 1 for positive numbers. |
| ShannonFanoElias.PadStartValue | lib/algorithms.ts:92 | `padStart(L, '0')` keeps the value and yields max(length, L) digits. |
| ShannonFanoElias.NotPrefixFree | lib/algorithms.ts:78-100 | The descending sort leaves the alphabet 0.3, 0.3, 0.3, 0.1 in place, and its third and fourth codes are "11" and "1111". So the codes the coder returns are not prefix-free. |
| ShannonFanoElias.ExampleSorted | lib/algorithms.ts:78 | The stable descending sort leaves the example alphabet 0.3, 0.3, 0.3, 0.1 unchanged. |
| Lz77.FindLongestMatch | lib/algorithms.ts:124-145 | The chosen match is genuine and lies inside the window and the lookahead. It is longest among window starts and the earliest among the longest. A zero length has offset 0. |
| Lz77.MeasureMatch | lib/algorithms.ts:132-138 | The inner loop measures exactly the longest agreement between the window start and the lookahead, stopping at the end of the window. |
| Lz77.CommonLenLongest | lib/algorithms.ts:133-138 | The measured length is a match, and no longer match exists from that start. |
| Lz77.ScanStep | lib/algorithms.ts:139-144 | The strict `>` keeps the first start among the longest matches seen. |
| Lz77.BestScanIsBest | lib/algorithms.ts:131-145 | A finished scan yields a longest match, earliest among the longest. |
| Lz77.LempelZivCompress | lib/algorithms.ts:116-166 | Every step is valid: a longest, earliest match, with `offset` in 1..position - windowStart when `length > 0` and 0 otherwise, `length <= 18`, and `nextChar` the following character or ''. Positions start at 0, advance by `length + 1` and reach the end. The dictionary holds the pushed entries, and each step records the dictionary size before it. Replaying the steps gives the text back. |
| Lz77.Advance | lib/algorithms.ts:147-163 | One round of the loop extends the valid, chained, indexed prefix of steps and its dictionary. |
| Lz77.Finished | lib/algorithms.ts:123-166 | When the loop stops, the steps are valid and chained to the text length, and the dictionary is theirs. |
| Lz77.ReplayOne | lib/algorithms.ts:139-163 | Decoding one step after the text before its position yields the text up to the end of the step. Copying `length` characters from `offset` back reproduces the matched text. |
| Lz77.ReplayRestoresText | lib/algorithms.ts:123-163 | Decoding a chained list of decodable steps from the empty output reconstructs the text exactly. |
| LzDictionary.LzCompress | components/lempel-ziv-visualizer.tsx:32-69 | The loop produces exactly the closed-form trace, one step per position, and the dictionary of the characters seen. |
| LzDictionary.MatchIsWholeRest | components/lempel-ziv-visualizer.tsx:41-47 | Whatever the backward scan finds gives the closed-form step's offset and length. The scan finds either the newest entry equal to `substring(position, position + len + 1)`, or nothing. A non-empty match occurs only when the entry is the whole rest of the text. |
| LzDictionary.StepCoversText | components/lempel-ziv-visualizer.tsx:41-52 | Each step's dictionary entry plus `nextChar` is `substring(position, position + length + 1)`. A non-empty match is only the last step, with `nextChar` ''. |
| LzDictionary.DictOfEntries | components/lempel-ziv-visualizer.tsx:33-63 | The dictionary has no duplicates. It starts with "", and its other entries are exactly the characters seen. |
| LzDictionary.DictAppendOnly | components/lempel-ziv-visualizer.tsx:61-63 | The dictionary at an earlier position is a prefix of the later one. |
| LzDictionary.LastIndexOf | components/lempel-ziv-visualizer.tsx:41-46 | The backward scan returns the newest index holding the entry. |
| LzDictionary.ReplayStep | components/lempel-ziv-visualizer.tsx:41-63 | Each step's piece is the character at its position, and replaying it grows the dictionary as the compressor did. |
| LzDictionary.ReplayRestoresText | components/lempel-ziv-visualizer.tsx:32-69 | Replaying the steps from `[""]` gives the text back. |
| LzDictionary.DefaultInput | components/lempel-ziv-visualizer.tsx:26-69 | On "ABABCABABC": 10 steps, the last with offset 3, length 1 and `nextChar` '', and the final dictionary ["", "A", "B", "C"]. |
| HammingCode.HammingEncode | components/hamming-code-visualizer.tsx:34-102 | Input not of 4 bits: a single error step and ''. Otherwise the 7-bit codeword and six steps: input, assign, three parity steps carrying p1, p2, p4, and complete. The last parity step and the complete step show the returned word. |
| HammingCode.CodewordLayout | components/hamming-code-visualizer.tsx:53-86 | Positions 3, 5, 6, 7 hold d1..d4. p1 = d1 xor d3, p2 = d1 xor d2, p4 = d2 xor d3 xor d4. |
| HammingCode.HammingDecode | components/hamming-code-visualizer.tsx:105-174 | Input not of 7 bits: a single error step, '' and 0. Otherwise errorPos = check1 + 2 check2 + 4 check4, over positions {1,3,5,7}, {2,3,6,7} and {4,5,6,7}. The corrected word flips that position, and the trace is received, three checks, then valid or error-found and corrected. |
| HammingCode.CorrectChangesOneBit | components/hamming-code-visualizer.tsx:150-171 | The corrected word is binary with 7 bits. It differs from the input exactly at position errorPos, and nowhere when errorPos is 0. |
| HammingCode.SingleFlipCorrected | components/hamming-code-visualizer.tsx:127-164 | For a word whose three checks are 0, flipping any position i makes the decoder report i and restore the word. |
| HammingCode.ExampleWordIsValid | components/hamming-code-visualizer.tsx:127-148 | 1011010 passes all checks, and flipping position 3 or 5 is reported at that position. |
| HammingCode.DecodeEncoded | components/hamming-code-visualizer.tsx:63-148 | The decoder's syndrome of a codeword is 3 (d2 xor d3 xor d4): check1 and check2 both equal d2 xor d3 xor d4 and check4 is 0. When that parity is 1, decoding flips d1, so encoder and decoder do not round-trip. |
| HammingCode.RoundTripExamples | components/hamming-code-visualizer.tsx:63-148 | 1011 encodes to 0110011 with errorPos 0. 0100 encodes to 0101100 with errorPos 3, whose data bits decode to 1100. |
| HammingCode.IntendedRoundTrip | components/hamming-code-visualizer.tsx:61-86 | With p1 = d1 xor d2 xor d4, p2 = d1 xor d3 xor d4 and p4 = d2 xor d3 xor d4, the code word passes all three checks, decodes to itself and carries the data bits at positions 3, 5, 6, 7. |
| HammingCode.IntendedSingleFlipCorrected | components/hamming-code-visualizer.tsx:127-171 | For the intended code word, flipping any one position i makes the decoder report i and return the original four data bits. |
| HammingCode.IntendedExample | components/hamming-code-visualizer.tsx:61-86 | The intended encoder takes 0100 to 1001100, which the decoder returns unchanged with data bits 0100. |
| Huffman.Floored | components/huffman-visualizer.tsx:64-67 | `Math.max(0.01, p)` keeps the character and yields p, or 0.01 when p is smaller. |
| Huffman.NormalizeMeaning | components/huffman-visualizer.tsx:64-73 | The normalised probabilities keep the characters, lie in (0, 1], are each floored value over the total, and sum to 1. |
| Huffman.SortByFreqSorted | components/huffman-visualizer.tsx:95 | The worklist sort orders by ascending frequency. |
| Huffman.SortByFreqStable | components/huffman-visualizer.tsx:95 | Nodes of equal frequency keep their order. |
| Huffman.TwoLightest | components/huffman-visualizer.tsx:95-98 | After sorting, left.freq <= right.freq <= the frequency of every remaining node. |
| Huffman.LeftTie | components/huffman-visualizer.tsx:95-97 | The left child is the first node, in worklist order, of the lowest frequency. |
| Huffman.RightTie | components/huffman-visualizer.tsx:95-98 | The right child is the next node of its frequency in worklist order, so ties go to the earlier node. |
| Huffman.MergeRound | components/huffman-visualizer.tsx:95-107 | One round merges the two lightest nodes into a parent whose frequency is their sum, with the next id, and pushes it. |
| Huffman.NextKeepsFolds | components/huffman-visualizer.tsx:95-107 | A round keeps the worklist well formed and its total weight and leaves. It adds exactly the new id. |
| Huffman.MergeLoop | components/huffman-visualizer.tsx:94-116 | The loop makes exactly n - 1 combine steps, one per parent in order, and ends with the last parent as the root. |
| Huffman.BuildTree | components/huffman-visualizer.tsx:75-116 | The trace is n initialize steps with ids init-i, followed by the n - 1 combine steps. The root is the last parent. |
| Huffman.MergeStepsMeaning | components/huffman-visualizer.tsx:100-105 | Each combined node is internal and well formed, so its frequency is left + right. Its id is node-(n + k). |
| Huffman.HuffmanRootMeaning | components/huffman-visualizer.tsx:79-116 | The root is well formed. Its frequency is the sum of the leaf frequencies, it holds every initial leaf exactly once, and ids 0..2n-2 each occur exactly once. |
| Huffman.WeightOfWellFormed | components/huffman-visualizer.tsx:100-101 | A well-formed tree's frequency is the sum of its leaves' frequencies. |
| HuffmanCodes.CodeCollector.Generate | components/huffman-visualizer.tsx:122-136 | The walk appends exactly the codes of the subtree's named leaves, left before right. |
| HuffmanCodes.CodesFollowLeaves | components/huffman-visualizer.tsx:123-136 | There is one code per leaf with a non-empty character, in walk order. It carries that leaf's character and the normalised probability of the first symbol with that character, as `find` looks it up. Following the code's digits from the node ('0' left, '1' right) reaches that leaf, so the code length is the leaf's depth. |
| HuffmanCodes.CodesPrefixFree | components/huffman-visualizer.tsx:123-136 | No code of the walk is a prefix of another. |
| HuffmanCodes.FindProbability | components/huffman-visualizer.tsx:126-130 | The probability of the first symbol with that character, or 0 when there is none. |
| HuffmanCodes.SortByCharSorted | components/huffman-visualizer.tsx:139 | The code list ends up ordered by character. |
| HuffmanCodes.SortByCharPermutes | components/huffman-visualizer.tsx:139 | Sorting neither adds nor drops codes. |
| HuffmanCodes.SortByCharStable | components/huffman-visualizer.tsx:139 | Codes of the same character keep their order. |
| HuffmanCodes.BuildAndCode | components/huffman-visualizer.tsx:64-139 | The steps and the code list are those of the built tree, with the code list ordered by character. |
| HuffmanCodes.BuiltCodesOrdered | components/huffman-visualizer.tsx:122-139 | The displayed codes are ordered by character, prefix-free, and exactly the walk's codes. |
| HuffmanCodes.BuiltCodesWalk | components/huffman-visualizer.tsx:122-138 | Every displayed code leads from the root to its leaf. It carries that leaf's character and the normalised probability of the first symbol with that character. |
| HuffmanCodes.RootNamedLeaves | components/huffman-visualizer.tsx:79-138 | Every symbol with a non-empty character gets exactly one leaf in the finished tree, hence exactly one code. |
| HuffmanCodes.Visualizer.AddSymbol | components/huffman-visualizer.tsx:142-157 | Empty fields, or a probability that is NaN or <= 0, change nothing. Otherwise the upper-cased character is appended and the fields are cleared. |
| HuffmanCodes.Visualizer.BuildHuffmanTree | components/huffman-visualizer.tsx:58-140 | With fewer than 2 symbols nothing changes. Otherwise the steps and codes are the built ones (`Built`), and playback restarts at step 0. |

## Findings

| source | as written | input that shows it | evidently intended | confidence | as-written member | corrected member |
|---|---|---|---|---|---|---|
| components/hamming-code-visualizer.tsx:63-86 | The encoder sets p1 = d1 xor d3 and p2 = d1 xor d2. These do not satisfy the decoder's checks over positions {1,3,5,7} and {2,3,6,7}. | Data 0100 encodes to 0101100. The decoder reports an error at position 3 and returns data 1100. | p1 = d1 xor d2 xor d4, p2 = d1 xor d3 xor d4 and p4 = d2 xor d3 xor d4, so that every code word passes the decoder's checks and any single flip is corrected. | not executed; follows from the formulas | HammingCode.DecodeEncoded | HammingCode.IntendedSingleFlipCorrected |

## Left out

- The animations are not modelled: message strings, playback timers (`useEffect`/`setTimeout`), canvas drawing, node dragging, `alert`, and the SVG tree layout.
- Floating point is not modelled. Probabilities, weights and sums are exact reals, and rounding is not modelled. `toFixed` formatting, the graph density, `calculateMetrics`, compression ratios and average bits per symbol are not modelled.
- `parseFloat` is a parameter (`None` for NaN) of the add-symbol handlers. `Date.now()` edge ids are the `edgeId` parameter of `GraphEditor.Editor.AddEdge`. `Math.random()` node coordinates are not modelled: a node is its id and label.
- Common.Upper: `toUpperCase` is modelled on ASCII letters only; other characters are kept.
- HuffmanCodes.SortByCharSorted: `localeCompare` is modelled as the lexicographic order of Unicode scalar values, not a locale collation. That order differs from the UTF-16 code-unit order between U+E000-U+FFFF and characters outside the Basic Multilingual Plane.
- Strings are sequences of Unicode scalar values. Text outside the Basic Multilingual Plane, which JavaScript splits into UTF-16 surrogate pairs, is not modelled.
- Lz77.LempelZivCompress: positions, lengths, offsets and `nextChar` count characters, not UTF-16 code units. They agree with the source only for text within the Basic Multilingual Plane. For other text the source can emit a lone surrogate as `nextChar`.
- LzDictionary.LzCompress: dictionary entries and `nextChar` are made of characters, not UTF-16 code units. They agree with the source only for text within the Basic Multilingual Plane.
- Common.Split: modelled only for a non-empty separator, the only kind the source passes ("->").
- GraphEditor.ParseJoinedPath: states the round trip only for names free of '-', since a name ending in '-' would glue to the separator.
- Hamilton.BuildAdjacencyList: the adjacency record is a map keyed by id, so keys that collide with JavaScript object-prototype members (such as "constructor") are not modelled.
- Hamilton.ValidateHamiltonCycle: a null path (`!path`) cannot be written in the model; only the empty path is.
- Hamilton.FindHamiltonCycles: does not state the exact order in which cycles are found. It states only that the cycles found below a prefix extend it (`Extends`). Completeness is stated up to the de-duplication key: every cycle has the key of a found one, which names the cycle itself only when no name contains '-'.
- HammingCode.HammingEncode: the shown words of the assign step and of the first two parity steps are not stated in its ensures. Only the parity values and the final word are.
- ShannonFanoElias.ShannonFanoEliasCodes: prefix-freeness is not claimed; NotPrefixFree shows a counterexample.
- The Shannon-Fano-Elias visualizer component is not part of this model: its codes come from floating-point string formatting.
- The algorithm-comparison library is not part of this model: it has wall-clock timing, random test data and a static table.
- The remove-symbol handlers, the page components, translations, language switcher, selector and dashboard are UI only and not part of this model.
- HuffmanCodes.CodesFollowLeaves: a code's probability is that of the first symbol with its character, not necessarily of its own leaf. The add-symbol handler accepts a repeated character, so with A 0.3 and A 0.5 the second A's code shows the first A's share. This is how the source behaves.
- HuffmanCodes.CodeCollector.Generate: the `!node` guard is not modelled, because a tree node of the model always has both children.
