/**
 * The code extraction of the Huffman visualizer: the recursive walk
 * `generateCodes` over the finished tree, the ordering of the code list by
 * character, and the component state that `addSymbol` and
 * `buildHuffmanTree` read and write.
 */
module HuffmanCodes {
  import opened Common
  import opened Huffman

  datatype CodeResult = CodeResult(ch: string, code: string, probability: real)

  /* ---------- The walk ---------- */

  /**
   * `normalized.find(s => s.char === c)?.probability || 0`: the
   * probability of the first symbol with character `c`, or 0 when there is
   * none.
   */
  function FindProbability(normalized: seq<Symbol>, c: string): (r: real)
    ensures forall i :: (0 <= i < |normalized| && normalized[i].ch == c &&
                         forall k :: 0 <= k < i ==> normalized[k].ch != c) ==> r == normalized[i].prob
    ensures (forall i :: 0 <= i < |normalized| ==> normalized[i].ch != c) ==> r == 0.0
  {
    if normalized == [] then 0.0
    else if normalized[0].ch == c then normalized[0].prob
    else FindProbability(normalized[1..], c)
  }

  /**
   * The codes `generateCodes(t, code)` pushes, in order: a leaf with a
   * character gets `code || '0'`; a leaf without one has no children to
   * visit; an internal node visits its left child with `code + '0'` and
   * then its right child with `code + '1'`.
   */
  function CodesOf(t: HuffmanNode, code: string, normalized: seq<Symbol>): (r: seq<CodeResult>)
  {
    match t
    case Leaf(ch, _, _) => if ch != "" then [CodeResult(ch, OrZero(code), FindProbability(normalized, ch))] else []
    case Internal(_, l, r, _) => CodesOf(l, code + "0", normalized) + CodesOf(r, code + "1", normalized)
  }

  /** The shared `generatedCodes` array the closure appends to. */
  class CodeCollector {
    const normalized: seq<Symbol>
    var generatedCodes: seq<CodeResult>

    constructor(normalized: seq<Symbol>)
      ensures this.normalized == normalized && generatedCodes == []
    {
      this.normalized := normalized;
      generatedCodes := [];
    }

    /** `generateCodes(node, code)`. */
    method Generate(node: HuffmanNode, code: string)
      modifies this
      ensures generatedCodes == old(generatedCodes) + CodesOf(node, code, normalized)
      decreases node
    {
      match node
      case Leaf(ch, _, _) =>
        if ch != "" {
          generatedCodes := generatedCodes + [CodeResult(ch, OrZero(code), FindProbability(normalized, ch))];
        }
      case Internal(_, left, right, _) =>
        ghost var before := generatedCodes;
        Generate(left, code + "0");
        Generate(right, code + "1");
        ConcatAssoc(before, CodesOf(left, code + "0", normalized), CodesOf(right, code + "1", normalized));
    }
  }

  /** The leaves with a character, from left to right. */
  function NamedLeaves(t: HuffmanNode): (r: seq<HuffmanNode>)
    ensures forall i :: 0 <= i < |r| ==> r[i].Leaf? && r[i].ch != ""
  {
    match t
    case Leaf(ch, _, _) => if ch != "" then [t] else []
    case Internal(_, l, r, _) => NamedLeaves(l) + NamedLeaves(r)
  }

  /**
   * Where the bits `bits` lead from `t` when '0' goes to the left child and
   * '1' to the right one; None when they run past a leaf or hold another
   * character.
   */
  function Follow(t: HuffmanNode, bits: string): (r: Option<HuffmanNode>)
  {
    if bits == [] then Some(t)
    else match t
      case Leaf(_, _, _) => None
      case Internal(_, l, r, _) =>
        if bits[0] == '0' then Follow(l, bits[1..])
        else if bits[0] == '1' then Follow(r, bits[1..])
        else None
  }

  /**
   * Below a non-empty prefix (or from an internal root) the i-th code is
   * the prefix followed by the path to the i-th leaf with a character, so
   * every such leaf gets exactly one code and its length past the prefix is
   * the leaf's depth; each code carries its character's probability.
   */
  lemma {:induction false} CodesFollowLeaves(t: HuffmanNode, code: string, normalized: seq<Symbol>)
    requires code != "" || t.Internal?
    ensures |CodesOf(t, code, normalized)| == |NamedLeaves(t)|
    ensures forall i :: 0 <= i < |CodesOf(t, code, normalized)| ==>
      var c := CodesOf(t, code, normalized)[i];
      c.ch == NamedLeaves(t)[i].ch && c.probability == FindProbability(normalized, c.ch) &&
      code <= c.code && Follow(t, c.code[|code|..]) == Some(NamedLeaves(t)[i])
  {
    match t
    case Leaf(ch, _, _) =>
      if ch != "" {
        assert CodesOf(t, code, normalized)[0].code[|code|..] == [];
      }
    case Internal(_, l, r, _) =>
      var left: seq<CodeResult>, right: seq<CodeResult> := CodesOf(l, code + "0", normalized), CodesOf(r, code + "1", normalized);
      CodesFollowLeaves(l, code + "0", normalized);
      CodesFollowLeaves(r, code + "1", normalized);
      forall i | 0 <= i < |left| + |right|
        ensures var c: CodeResult := (left + right)[i];
          c.ch == NamedLeaves(t)[i].ch && c.probability == FindProbability(normalized, c.ch) &&
          code <= c.code && Follow(t, c.code[|code|..]) == Some(NamedLeaves(t)[i])
      {
        if i < |left| {
          StepDown(t, code, '0', left[i].code);
        } else {
          StepDown(t, code, '1', right[i - |left|].code);
        }
      }
  }

  /** No entry's code is a prefix of another entry's code. */
  predicate PrefixFree(s: seq<CodeResult>)
  {
    forall i, j :: 0 <= i < |s| && 0 <= j < |s| && i != j ==> !(s[i].code <= s[j].code)
  }

  /** A code below `code + [b]` leads from `t` first to the child `b` names. */
  lemma StepDown(t: HuffmanNode, code: string, b: char, c: string)
    requires t.Internal? && (b == '0' || b == '1') && code + [b] <= c
    ensures code <= c
    ensures Follow(t, c[|code|..]) == Follow(if b == '0' then t.left else t.right, c[|code| + 1..])
  {
    assert c[|code|..][0] == b;
    assert c[|code|..][1..] == c[|code| + 1..];
  }

  /**
   * Below a non-empty prefix (or from an internal root) no code is a prefix
   * of another, so a stream of codes decodes one way only.
   */
  lemma {:induction false} CodesPrefixFree(t: HuffmanNode, code: string, normalized: seq<Symbol>)
    requires code != "" || t.Internal?
    ensures PrefixFree(CodesOf(t, code, normalized))
  {
    if t.Internal? {
      var left, right := CodesOf(t.left, code + "0", normalized), CodesOf(t.right, code + "1", normalized);
      var all := left + right;
      CodesPrefixFree(t.left, code + "0", normalized);
      CodesPrefixFree(t.right, code + "1", normalized);
      CodesFollowLeaves(t.left, code + "0", normalized);
      CodesFollowLeaves(t.right, code + "1", normalized);
      forall i, j | 0 <= i < |all| && 0 <= j < |all| && i != j
        ensures !(all[i].code <= all[j].code)
      {
        if i < |left| && j >= |left| {
          assert all[i] == left[i] && all[j] == right[j - |left|];
          Diverge(all[i].code, all[j].code, code, '0', '1');
        } else if i >= |left| && j < |left| {
          assert all[i] == right[i - |left|] && all[j] == left[j];
          Diverge(all[i].code, all[j].code, code, '1', '0');
        } else if i < |left| {
          assert all[i] == left[i] && all[j] == left[j];
        } else {
          assert all[i] == right[i - |left|] && all[j] == right[j - |left|];
        }
      }
    }
  }

  /* ---------- Ordering the codes ---------- */

  /**
   * `a.localeCompare(b) <= 0`, taken as the lexicographic order of the
   * strings' characters, that is, of their Unicode scalar values.
   */
  predicate StrLe(a: string, b: string)
  {
    a == [] || (b != [] && (a[0] < b[0] || (a[0] == b[0] && StrLe(a[1..], b[1..]))))
  }

  lemma {:induction false} StrLeReflexive(a: string)
    ensures StrLe(a, a)
  {
    if a != [] {
      StrLeReflexive(a[1..]);
    }
  }

  lemma {:induction false} StrLeTotal(a: string, b: string)
    ensures StrLe(a, b) || StrLe(b, a)
  {
    if a != [] && b != [] && a[0] == b[0] {
      StrLeTotal(a[1..], b[1..]);
    }
  }

  lemma {:induction false} StrLeAntisymmetric(a: string, b: string)
    requires StrLe(a, b) && StrLe(b, a)
    ensures a == b
  {
    if a != [] && b != [] {
      StrLeAntisymmetric(a[1..], b[1..]);
      assert a == [a[0]] + a[1..] && b == [b[0]] + b[1..];
    }
  }

  lemma {:induction false} StrLeTransitive(a: string, b: string, c: string)
    requires StrLe(a, b) && StrLe(b, c)
    ensures StrLe(a, c)
  {
    if a != [] && a[0] == b[0] && b[0] == c[0] {
      StrLeTransitive(a[1..], b[1..], c[1..]);
    }
  }

  /** Each code's character is not after the next one's. */
  predicate SortedByChar(s: seq<CodeResult>)
  {
    forall i :: 0 < i < |s| ==> StrLe(s[i - 1].ch, s[i].ch)
  }

  /** The codes of character `v`, in order. */
  function WithChar(s: seq<CodeResult>, v: string): (r: seq<CodeResult>)
  {
    if s == [] then [] else WithChar(s[..|s| - 1], v) + (if s[|s| - 1].ch == v then [s[|s| - 1]] else [])
  }

  /** `x` moved in from the back past every code with a later character. */
  function InsertByChar(sorted: seq<CodeResult>, x: CodeResult): (r: seq<CodeResult>)
    ensures |r| == |sorted| + 1
    decreases |sorted|
  {
    if sorted == [] || StrLe(sorted[|sorted| - 1].ch, x.ch) then sorted + [x]
    else InsertByChar(sorted[..|sorted| - 1], x) + [sorted[|sorted| - 1]]
  }

  /** `generatedCodes.sort((a, b) => a.char.localeCompare(b.char))`, a stable sort. */
  function SortByChar(codes: seq<CodeResult>): (r: seq<CodeResult>)
    ensures |r| == |codes|
  {
    if codes == [] then [] else InsertByChar(SortByChar(codes[..|codes| - 1]), codes[|codes| - 1])
  }

  /** An ordered list stays ordered when a code not before its last one is appended. */
  lemma SortedSnoc(s: seq<CodeResult>, y: CodeResult)
    requires SortedByChar(s)
    requires s != [] ==> StrLe(s[|s| - 1].ch, y.ch)
    ensures SortedByChar(s + [y])
  {
    var r := s + [y];
    forall i | 0 < i < |r|
      ensures StrLe(r[i - 1].ch, r[i].ch)
    {
      if i < |s| {
        assert r[i - 1] == s[i - 1] && r[i] == s[i];
      }
    }
  }

  /** Inserting into an ordered list keeps it ordered ... */
  lemma {:induction false} InsertByCharSorted(sorted: seq<CodeResult>, x: CodeResult)
    requires SortedByChar(sorted)
    ensures SortedByChar(InsertByChar(sorted, x))
    ensures sorted != [] ==> InsertByChar(sorted, x)[|sorted|] in {x, sorted[|sorted| - 1]}
    decreases |sorted|
  {
    if sorted == [] || StrLe(sorted[|sorted| - 1].ch, x.ch) {
      SortedSnoc(sorted, x);
    } else {
      var init, last := sorted[..|sorted| - 1], sorted[|sorted| - 1];
      StrLeTotal(last.ch, x.ch);
      assert SortedByChar(init) by {
        forall i | 0 < i < |init|
          ensures StrLe(init[i - 1].ch, init[i].ch)
        {
          assert init[i - 1] == sorted[i - 1] && init[i] == sorted[i];
        }
      }
      InsertByCharSorted(init, x);
      var front := InsertByChar(init, x);
      if init != [] {
        assert StrLe(sorted[|init| - 1].ch, sorted[|init|].ch);
        assert front[|init|] in {x, init[|init| - 1]};
      }
      SortedSnoc(front, last);
    }
  }

  /** ... adds `x` to it and nothing else ... */
  lemma {:induction false} InsertByCharPermutes(sorted: seq<CodeResult>, x: CodeResult)
    ensures multiset(InsertByChar(sorted, x)) == multiset(sorted) + multiset{x}
    decreases |sorted|
  {
    if sorted != [] && !StrLe(sorted[|sorted| - 1].ch, x.ch) {
      var init := sorted[..|sorted| - 1];
      assert sorted == init + [sorted[|sorted| - 1]];
      InsertByCharPermutes(init, x);
    }
  }

  /** ... and keeps the order of the codes of each character. */
  lemma {:induction false} InsertByCharStable(sorted: seq<CodeResult>, x: CodeResult, v: string)
    ensures WithChar(InsertByChar(sorted, x), v) == WithChar(sorted, v) + (if x.ch == v then [x] else [])
    decreases |sorted|
  {
    if sorted == [] || StrLe(sorted[|sorted| - 1].ch, x.ch) {
      var r := sorted + [x];
      assert r[..|r| - 1] == sorted;
    } else {
      var init, last := sorted[..|sorted| - 1], sorted[|sorted| - 1];
      StrLeReflexive(x.ch);
      assert last.ch != x.ch;
      InsertByCharStable(init, x, v);
      var front := InsertByChar(init, x);
      var r := front + [last];
      assert r[..|r| - 1] == front;
    }
  }

  /** The code list as shown is ordered by character ... */
  lemma {:induction false} SortByCharSorted(codes: seq<CodeResult>)
    ensures SortedByChar(SortByChar(codes))
  {
    if codes != [] {
      SortByCharSorted(codes[..|codes| - 1]);
      InsertByCharSorted(SortByChar(codes[..|codes| - 1]), codes[|codes| - 1]);
    }
  }

  /** ... holds the same codes ... */
  lemma {:induction false} SortByCharPermutes(codes: seq<CodeResult>)
    ensures multiset(SortByChar(codes)) == multiset(codes)
  {
    if codes != [] {
      var init := codes[..|codes| - 1];
      SortByCharPermutes(init);
      InsertByCharPermutes(SortByChar(init), codes[|codes| - 1]);
      assert codes == init + [codes[|codes| - 1]];
    }
  }

  /** ... and lists codes of the same character in the order the walk produced them. */
  lemma {:induction false} SortByCharStable(codes: seq<CodeResult>, v: string)
    ensures WithChar(SortByChar(codes), v) == WithChar(codes, v)
  {
    if codes != [] {
      var init := codes[..|codes| - 1];
      SortByCharStable(init, v);
      InsertByCharStable(SortByChar(init), codes[|codes| - 1], v);
    }
  }

  /** A prefix-free list repeats no entry ... */
  lemma {:induction false} PrefixFreeOnce(s: seq<CodeResult>, x: CodeResult)
    requires PrefixFree(s)
    ensures multiset(s)[x] <= 1
  {
    if s != [] {
      var init, last := s[..|s| - 1], s[|s| - 1];
      assert s == init + [last];
      assert PrefixFree(init) by {
        forall i, j | 0 <= i < |init| && 0 <= j < |init| && i != j
          ensures !(init[i].code <= init[j].code)
        {
          assert init[i] == s[i] && init[j] == s[j];
        }
      }
      PrefixFreeOnce(init, x);
      forall k | 0 <= k < |init|
        ensures init[k] != last
      {
        assert s[k] == init[k];
      }
    }
  }

  /** ... so every reordering of it is prefix-free too. */
  lemma PrefixFreePermutes(a: seq<CodeResult>, b: seq<CodeResult>)
    requires PrefixFree(a) && multiset(a) == multiset(b)
    ensures PrefixFree(b)
  {
    forall i, j | 0 <= i < |b| && 0 <= j < |b| && i != j
      ensures !(b[i].code <= b[j].code)
    {
      if b[i] == b[j] {
        var lo, hi := Min(i, j), if i < j then j else i;
        assert b == b[..hi] + [b[hi]] + b[hi + 1..];
        assert b[lo] in b[..hi];
        assert multiset(b)[b[i]] >= 2;
        PrefixFreeOnce(a, b[i]);
      } else {
        assert b[i] in multiset(a) && b[j] in multiset(a);
        var p :| 0 <= p < |a| && a[p] == b[i];
        var q :| 0 <= q < |a| && a[q] == b[j];
        assert p != q;
      }
    }
  }

  /** The leaves with a character are the tree's leaves that have one, each as often as it occurs. */
  lemma {:induction false} NamedLeavesCount(t: HuffmanNode, x: HuffmanNode)
    ensures multiset(NamedLeaves(t))[x] == if x.Leaf? && x.ch != "" then LeafCount(t, x) else 0
  {
    if t.Internal? {
      NamedLeavesCount(t.left, x);
      NamedLeavesCount(t.right, x);
    }
  }

  /** The component state that `addSymbol` and `buildHuffmanTree` read and write. */
  class Visualizer {
    var symbols: seq<Symbol>
    var newChar: string
    var newProb: string
    var steps: seq<HuffmanStep>
    var currentStep: nat
    var isPlaying: bool
    var codes: seq<CodeResult>

    /** The initial alphabet A 0.3, B 0.1, C 0.1, D 0.5, with nothing built yet. */
    constructor()
      ensures symbols == [Symbol("A", 0.3), Symbol("B", 0.1), Symbol("C", 0.1), Symbol("D", 0.5)]
      ensures newChar == "" && newProb == "" && steps == [] && currentStep == 0 && !isPlaying && codes == []
    {
      symbols := [Symbol("A", 0.3), Symbol("B", 0.1), Symbol("C", 0.1), Symbol("D", 0.5)];
      newChar := "";
      newProb := "";
      steps := [];
      currentStep := 0;
      isPlaying := false;
      codes := [];
    }

    /**
     * `addSymbol`, where `parsed` is `parseFloat(newProb)` (None for NaN):
     * with both fields filled in and a positive probability the upper-cased
     * character is appended and the fields are cleared; otherwise nothing
     * changes.
     */
    method AddSymbol(parsed: Option<real>)
      modifies this
      ensures var accepted := old(newChar) != "" && old(newProb) != "" && parsed.Some? && parsed.value > 0.0;
        if accepted then
          symbols == old(symbols) + [Symbol(Upper(old(newChar)), parsed.value)] && newChar == "" && newProb == ""
        else
          symbols == old(symbols) && newChar == old(newChar) && newProb == old(newProb)
      ensures steps == old(steps) && currentStep == old(currentStep) && isPlaying == old(isPlaying) && codes == old(codes)
    {
      if newChar == "" || newProb == "" {
        return;
      }
      if parsed.None? || parsed.value <= 0.0 {
        return;
      }
      symbols := symbols + [Symbol(Upper(newChar), parsed.value)];
      newChar := "";
      newProb := "";
    }

    /**
     * `buildHuffmanTree`: with fewer than two symbols nothing changes;
     * otherwise the steps are the n initializations followed by the n - 1
     * merges, playback is rewound, and the codes are the walk's codes from
     * the root ordered by character.
     */
    method BuildHuffmanTree()
      modifies this
      ensures symbols == old(symbols) && newChar == old(newChar) && newProb == old(newProb)
      ensures |symbols| < 2 ==>
        steps == old(steps) && currentStep == old(currentStep) && isPlaying == old(isPlaying) && codes == old(codes)
      ensures |symbols| >= 2 ==> Built(symbols, steps, codes) && currentStep == 0 && !isPlaying
    {
      if |symbols| < 2 {
        return;
      }
      var newSteps, newCodes := BuildAndCode(symbols);
      steps, codes := newSteps, newCodes;
      currentStep := 0;
      isPlaying := false;
    }
  }

  /**
   * The body of `buildHuffmanTree` past its guard: normalise, build the
   * tree with its steps, collect the codes from the root and order them by
   * character.
   */
  method BuildAndCode(symbols: seq<Symbol>) returns (steps: seq<HuffmanStep>, codes: seq<CodeResult>)
    requires |symbols| >= 2
    ensures Built(symbols, steps, codes)
  {
    var normalized := Normalize(symbols);
    var root;
    steps, root := BuildTree(normalized);
    var collector := new CodeCollector(normalized);
    collector.Generate(root, "");
    assert collector.generatedCodes == CodesOf(root, "", normalized);
    codes := SortByChar(collector.generatedCodes);
  }

  /**
   * What `buildHuffmanTree` shows for at least two symbols: the n
   * initializations followed by the n - 1 merges of the worklist, and the
   * walk's codes from the root ordered by character.
   */
  ghost predicate Built(symbols: seq<Symbol>, steps: seq<HuffmanStep>, codes: seq<CodeResult>)
    requires |symbols| >= 2
  {
    var normalized := Normalize(symbols);
    var parents := MergeRun(InitialLeaves(normalized), |symbols|);
    |parents| == |symbols| - 1 &&
    |steps| == 2 * |symbols| - 1 &&
    (forall i :: 0 <= i < |symbols| ==>
      steps[i] == HuffmanStep(Leaf(normalized[i].ch, normalized[i].prob, InitNum(i)), Initialize)) &&
    steps[|symbols|..] == CombineSteps(parents) &&
    codes == SortByChar(CodesOf(parents[|symbols| - 2], "", normalized))
  }

  /**
   * The code list `buildHuffmanTree` shows for at least two symbols is
   * ordered by character, prefix-free, and holds the walk's codes and
   * nothing else.
   */
  lemma BuiltCodesOrdered(symbols: seq<Symbol>)
    requires |symbols| >= 2
    ensures var normalized := Normalize(symbols);
      var parents := MergeRun(InitialLeaves(normalized), |symbols|);
      |parents| == |symbols| - 1 &&
      var walk := CodesOf(parents[|symbols| - 2], "", normalized);
      SortedByChar(SortByChar(walk)) && PrefixFree(SortByChar(walk)) && multiset(SortByChar(walk)) == multiset(walk)
  {
    var normalized := Normalize(symbols);
    MergeStepsMeaning(normalized);
    var root := MergeRun(InitialLeaves(normalized), |symbols|)[|symbols| - 2];
    var walk := CodesOf(root, "", normalized);
    CodesPrefixFree(root, "", normalized);
    SortByCharSorted(walk);
    SortByCharPermutes(walk);
    PrefixFreePermutes(walk, SortByChar(walk));
  }

  /**
   * The walk from the root gives the i-th leaf with a character the code
   * that leads to it from the root, with its character's normalised
   * probability.
   */
  lemma BuiltCodesWalk(symbols: seq<Symbol>)
    requires |symbols| >= 2
    ensures var normalized := Normalize(symbols);
      var parents := MergeRun(InitialLeaves(normalized), |symbols|);
      |parents| == |symbols| - 1 &&
      var root := parents[|symbols| - 2];
      var walk := CodesOf(root, "", normalized);
      |walk| == |NamedLeaves(root)| &&
      forall i :: 0 <= i < |walk| ==>
        walk[i].ch == NamedLeaves(root)[i].ch && walk[i].probability == FindProbability(normalized, walk[i].ch) &&
        Follow(root, walk[i].code) == Some(NamedLeaves(root)[i])
  {
    var normalized := Normalize(symbols);
    MergeStepsMeaning(normalized);
    var root := MergeRun(InitialLeaves(normalized), |symbols|)[|symbols| - 2];
    CodesFollowLeaves(root, "", normalized);
    var walk := CodesOf(root, "", normalized);
    forall i | 0 <= i < |walk|
      ensures walk[i].code[0..] == walk[i].code
    {
    }
  }

  /** Each initial leaf with a character occurs once among the root's leaves with a character; nothing else does. */
  lemma RootNamedLeaves(symbols: seq<Symbol>, x: HuffmanNode)
    requires |symbols| >= 2
    ensures var normalized := Normalize(symbols);
      var parents := MergeRun(InitialLeaves(normalized), |symbols|);
      |parents| == |symbols| - 1 &&
      multiset(NamedLeaves(parents[|symbols| - 2]))[x] == if x in InitialLeaves(normalized) && x.ch != "" then 1 else 0
  {
    var normalized := Normalize(symbols);
    HuffmanRootMeaning(normalized);
    var root := MergeRun(InitialLeaves(normalized), |symbols|)[|symbols| - 2];
    NamedLeavesCount(root, x);
  }
}
