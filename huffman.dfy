/**
 * The Huffman coder of the Huffman visualizer: probabilities are floored
 * and normalised, leaves are merged two at a time in a worklist kept in
 * ascending order of frequency, and the codes are read off the finished
 * tree by a recursive walk.
 */
module Huffman {
  import opened Common

  /* ---------- Normalisation ---------- */

  /** `Math.max(0.01, p)`. */
  function Floored(s: Symbol): (r: Symbol)
    ensures r.ch == s.ch && r.prob >= 0.01
    ensures r.prob == s.prob || (s.prob < 0.01 && r.prob == 0.01)
  {
    Symbol(s.ch, if s.prob >= 0.01 then s.prob else 0.01)
  }

  function FlooredAll(symbols: seq<Symbol>): (r: seq<Symbol>)
    ensures |r| == |symbols|
    ensures forall i :: 0 <= i < |r| ==> r[i] == Floored(symbols[i])
  {
    seq(|symbols|, i requires 0 <= i < |symbols| => Floored(symbols[i]))
  }

  /** Each probability divided by `total`. */
  function Scaled(s: seq<Symbol>, total: real): (r: seq<Symbol>)
    requires total > 0.0
    ensures |r| == |s|
    ensures forall i :: 0 <= i < |r| ==> r[i] == Symbol(s[i].ch, s[i].prob / total)
  {
    seq(|s|, i requires 0 <= i < |s| => Symbol(s[i].ch, s[i].prob / total))
  }

  lemma {:induction false} FlooredTotal(s: seq<Symbol>)
    requires forall i :: 0 <= i < |s| ==> s[i].prob >= 0.01
    ensures Sum(s, Prob) >= 0.01 * |s| as real
  {
    if s != [] {
      FlooredTotal(s[..|s| - 1]);
    }
  }

  /**
   * The floored probabilities divided by their total. For no symbols the
   * result is empty and no division takes place.
   */
  function Normalize(symbols: seq<Symbol>): (r: seq<Symbol>)
    ensures |r| == |symbols|
  {
    var floored := FlooredAll(symbols);
    FlooredTotal(floored);
    if symbols == [] then [] else Scaled(floored, Sum(floored, Prob))
  }

  lemma DivAdd(a: real, b: real, t: real)
    requires t > 0.0
    ensures (a + b) / t == a / t + b / t
  {
  }

  lemma {:induction false} SumScaled(s: seq<Symbol>, total: real)
    requires total > 0.0
    ensures Sum(Scaled(s, total), Prob) == Sum(s, Prob) / total
  {
    if s != [] {
      var init := s[..|s| - 1];
      SumScaled(init, total);
      assert Scaled(s, total)[..|s| - 1] == Scaled(init, total);
      DivAdd(Sum(init, Prob), s[|s| - 1].prob, total);
    }
  }

  /**
   * The normalised probabilities keep the symbols' characters and order,
   * are positive, and sum to 1; each is its floored probability's share of
   * the floored total.
   */
  lemma NormalizeMeaning(symbols: seq<Symbol>)
    requires symbols != []
    ensures var r := Normalize(symbols); var total := Sum(FlooredAll(symbols), Prob);
      total > 0.0 &&
      Sum(r, Prob) == 1.0 &&
      forall i :: 0 <= i < |r| ==>
        r[i].ch == symbols[i].ch && 0.0 < r[i].prob <= 1.0 && r[i].prob == Floored(symbols[i]).prob / total
  {
    var floored := FlooredAll(symbols);
    FlooredTotal(floored);
    var total := Sum(floored, Prob);
    SumScaled(floored, total);
    var r := Normalize(symbols);
    assert r == Scaled(floored, total);
    SelfShare(total);
    forall i | 0 <= i < |r|
      ensures r[i].ch == symbols[i].ch && 0.0 < r[i].prob <= 1.0 && r[i].prob == Floored(symbols[i]).prob / total
    {
      SumMember(floored, i);
      Share(floored[i].prob, total);
    }
  }

  lemma SelfShare(t: real)
    requires t > 0.0
    ensures t / t == 1.0
  {
  }

  lemma Share(x: real, t: real)
    requires 0.0 < x <= t
    ensures 0.0 < x / t <= 1.0
  {
  }

  /** One positive term of a sum of positive terms is at most the sum. */
  lemma {:induction false} SumMember(s: seq<Symbol>, i: nat)
    requires i < |s|
    requires forall k :: 0 <= k < |s| ==> s[k].prob >= 0.01
    ensures s[i].prob <= Sum(s, Prob)
  {
    var init := s[..|s| - 1];
    SumNonNegative(init, Prob);
    if i < |s| - 1 {
      SumMember(init, i);
    }
  }

  /* ---------- Trees ---------- */

  /** A node's `id`: `node-<n>` from the counter, or `init-<i>` in an initial step. */
  datatype NodeId = NodeNum(n: nat) | InitNum(i: nat)

  datatype HuffmanNode =
    | Leaf(ch: string, freq: real, id: NodeId)
    | Internal(freq: real, left: HuffmanNode, right: HuffmanNode, id: NodeId)

  datatype Action = Initialize | Combine

  /** A step of the animation; its message text is not modelled. */
  datatype HuffmanStep = HuffmanStep(tree: HuffmanNode, action: Action)

  function Freq(t: HuffmanNode): (r: real) { t.freq }

  /**
   * `nodes.sort((a, b) => a.freq - b.freq)`: Common's stable insertion sort
   * with the frequency written in rather than passed as a key (the two are
   * the same function, as SortByFreqIsSortByKey shows).
   */
  function SortByFreq(nodes: seq<HuffmanNode>): (r: seq<HuffmanNode>)
    ensures |r| == |nodes|
  {
    if nodes == [] then [] else InsertByFreq(SortByFreq(nodes[..|nodes| - 1]), nodes[|nodes| - 1])
  }

  function InsertByFreq(sorted: seq<HuffmanNode>, x: HuffmanNode): (r: seq<HuffmanNode>)
    ensures |r| == |sorted| + 1
    decreases |sorted|
  {
    if sorted == [] || sorted[|sorted| - 1].freq <= x.freq then sorted + [x]
    else InsertByFreq(sorted[..|sorted| - 1], x) + [sorted[|sorted| - 1]]
  }

  lemma {:induction false} InsertByFreqIsInsert(sorted: seq<HuffmanNode>, x: HuffmanNode)
    ensures InsertByFreq(sorted, x) == Insert(sorted, x, Freq)
    decreases |sorted|
  {
    if !(sorted == [] || sorted[|sorted| - 1].freq <= x.freq) {
      InsertByFreqIsInsert(sorted[..|sorted| - 1], x);
    }
  }

  lemma {:induction false} SortByFreqIsSortByKey(nodes: seq<HuffmanNode>)
    ensures SortByFreq(nodes) == SortByKey(nodes, Freq)
  {
    if nodes != [] {
      var init := nodes[..|nodes| - 1];
      SortByFreqIsSortByKey(init);
      InsertByFreqIsInsert(SortByKey(init, Freq), nodes[|nodes| - 1]);
    }
  }

  /** The leaves `normalized.map(...)` creates, numbered by the counter from 0. */
  function InitialLeaves(normalized: seq<Symbol>): (r: seq<HuffmanNode>)
    ensures |r| == |normalized|
    ensures forall k :: 0 <= k < |r| ==> r[k] == Leaf(normalized[k].ch, normalized[k].prob, NodeNum(k))
  {
    seq(|normalized|, k requires 0 <= k < |normalized| => Leaf(normalized[k].ch, normalized[k].prob, NodeNum(k)))
  }

  /**
   * Every internal node weighs what its children weigh together, and its
   * left child is not heavier than its right one.
   */
  predicate WellFormed(t: HuffmanNode)
  {
    match t
    case Leaf(_, _, _) => true
    case Internal(f, l, r, _) => f == l.freq + r.freq && l.freq <= r.freq && WellFormed(l) && WellFormed(r)
  }

  /** The sum of the leaves' frequencies. */
  function LeafWeight(t: HuffmanNode): (r: real)
  {
    match t
    case Leaf(_, f, _) => f
    case Internal(_, l, r, _) => LeafWeight(l) + LeafWeight(r)
  }

  /** How often the leaf `x` occurs in a tree. */
  function LeafCount(t: HuffmanNode, x: HuffmanNode): (r: nat)
  {
    match t
    case Leaf(_, _, _) => if t == x then 1 else 0
    case Internal(_, l, r, _) => LeafCount(l, x) + LeafCount(r, x)
  }

  /** How often `id` occurs among a tree's nodes. */
  function IdCount(t: HuffmanNode, id: NodeId): (r: nat)
  {
    match t
    case Leaf(_, _, i) => if i == id then 1 else 0
    case Internal(_, l, r, i) => (if i == id then 1 else 0) + IdCount(l, id) + IdCount(r, id)
  }

  /** A node's frequency is the weight of its leaves. */
  lemma {:induction false} WeightOfWellFormed(t: HuffmanNode)
    requires WellFormed(t)
    ensures t.freq == LeafWeight(t)
  {
    if t.Internal? {
      WeightOfWellFormed(t.left);
      WeightOfWellFormed(t.right);
    }
  }

  /* ---------- The worklist ---------- */

  /** Every tree of the worklist is well formed. */
  predicate AllWellFormed(nodes: seq<HuffmanNode>)
  {
    nodes == [] || (AllWellFormed(nodes[..|nodes| - 1]) && WellFormed(nodes[|nodes| - 1]))
  }

  /** The worklist's total weight. */
  function Weight(nodes: seq<HuffmanNode>): (r: real)
  {
    if nodes == [] then 0.0 else Weight(nodes[..|nodes| - 1]) + nodes[|nodes| - 1].freq
  }

  /** How often the leaf `x` occurs in the worklist's trees. */
  function LeavesCount(nodes: seq<HuffmanNode>, x: HuffmanNode): (r: nat)
  {
    if nodes == [] then 0 else LeavesCount(nodes[..|nodes| - 1], x) + LeafCount(nodes[|nodes| - 1], x)
  }

  /** How often `id` occurs in the worklist's trees. */
  function IdsCount(nodes: seq<HuffmanNode>, id: NodeId): (r: nat)
  {
    if nodes == [] then 0 else IdsCount(nodes[..|nodes| - 1], id) + IdCount(nodes[|nodes| - 1], id)
  }

  /** The worklist measures split over a concatenation ... */
  lemma {:induction false} FoldsAppend(a: seq<HuffmanNode>, b: seq<HuffmanNode>, x: HuffmanNode, id: NodeId)
    ensures AllWellFormed(a + b) <==> AllWellFormed(a) && AllWellFormed(b)
    ensures Weight(a + b) == Weight(a) + Weight(b)
    ensures LeavesCount(a + b, x) == LeavesCount(a, x) + LeavesCount(b, x)
    ensures IdsCount(a + b, id) == IdsCount(a, id) + IdsCount(b, id)
  {
    if b == [] {
      assert a + b == a;
    } else {
      FoldsAppend(a, b[..|b| - 1], x, id);
      assert (a + b)[..|a + b| - 1] == a + b[..|b| - 1];
    }
  }

  /** ... and of a single tree are the tree's own. */
  lemma FoldsOne(t: HuffmanNode, x: HuffmanNode, id: NodeId)
    ensures AllWellFormed([t]) == WellFormed(t)
    ensures Weight([t]) == t.freq
    ensures LeavesCount([t], x) == LeafCount(t, x)
    ensures IdsCount([t], id) == IdCount(t, id)
  {
    assert [t][..0] == [];
  }

  /** Inserting a tree into the worklist adds its measures to the worklist's. */
  lemma {:induction false} InsertKeepsFolds(sorted: seq<HuffmanNode>, y: HuffmanNode, x: HuffmanNode, id: NodeId)
    ensures AllWellFormed(InsertByFreq(sorted, y)) <==> AllWellFormed(sorted) && WellFormed(y)
    ensures Weight(InsertByFreq(sorted, y)) == Weight(sorted) + y.freq
    ensures LeavesCount(InsertByFreq(sorted, y), x) == LeavesCount(sorted, x) + LeafCount(y, x)
    ensures IdsCount(InsertByFreq(sorted, y), id) == IdsCount(sorted, id) + IdCount(y, id)
    decreases |sorted|
  {
    if sorted == [] || sorted[|sorted| - 1].freq <= y.freq {
      assert (sorted + [y])[..|sorted|] == sorted;
    } else {
      var init := sorted[..|sorted| - 1];
      var ins := InsertByFreq(init, y);
      InsertKeepsFolds(init, y, x, id);
      assert (ins + [sorted[|sorted| - 1]])[..|ins|] == ins;
    }
  }

  /** Sorting the worklist keeps its measures. */
  lemma {:induction false} SortKeepsFolds(nodes: seq<HuffmanNode>, x: HuffmanNode, id: NodeId)
    ensures AllWellFormed(SortByFreq(nodes)) <==> AllWellFormed(nodes)
    ensures Weight(SortByFreq(nodes)) == Weight(nodes)
    ensures LeavesCount(SortByFreq(nodes), x) == LeavesCount(nodes, x)
    ensures IdsCount(SortByFreq(nodes), id) == IdsCount(nodes, id)
  {
    if nodes != [] {
      var init := nodes[..|nodes| - 1];
      SortKeepsFolds(init, x, id);
      InsertKeepsFolds(SortByFreq(init), nodes[|nodes| - 1], x, id);
    }
  }

  /** The initial leaves are well formed and weigh what the symbols weigh ... */
  lemma {:induction false} InitialWeight(normalized: seq<Symbol>)
    ensures AllWellFormed(InitialLeaves(normalized))
    ensures Weight(InitialLeaves(normalized)) == Sum(normalized, Prob)
  {
    if normalized != [] {
      var init := normalized[..|normalized| - 1];
      InitialWeight(init);
      assert InitialLeaves(normalized)[..|normalized| - 1] == InitialLeaves(init);
    }
  }

  /** ... each is the only copy of itself ... */
  lemma {:induction false} InitialLeavesOnce(normalized: seq<Symbol>, x: HuffmanNode)
    ensures LeavesCount(InitialLeaves(normalized), x) == if x in InitialLeaves(normalized) then 1 else 0
  {
    if normalized != [] {
      var n := |normalized|;
      var init := normalized[..n - 1];
      var ls := InitialLeaves(normalized);
      InitialLeavesOnce(init, x);
      assert ls[..n - 1] == InitialLeaves(init);
      assert ls == InitialLeaves(init) + [ls[n - 1]];
      if x in InitialLeaves(init) {
        var k :| 0 <= k < n - 1 && InitialLeaves(init)[k] == x;
        assert x.id == NodeNum(k);
      }
    }
  }

  /** ... and they hold the ids `node-0` ... `node-<n-1>`, each once. */
  lemma {:induction false} InitialIdsOnce(normalized: seq<Symbol>, id: NodeId)
    ensures IdsCount(InitialLeaves(normalized), id) == if id.NodeNum? && id.n < |normalized| then 1 else 0
  {
    if normalized != [] {
      var init := normalized[..|normalized| - 1];
      InitialIdsOnce(init, id);
      assert InitialLeaves(normalized)[..|normalized| - 1] == InitialLeaves(init);
    }
  }

  /** The parent the loop builds from the two lightest trees. */
  function Parent(left: HuffmanNode, right: HuffmanNode, nodeId: nat): (r: HuffmanNode)
  {
    Internal(left.freq + right.freq, left, right, NodeNum(nodeId))
  }

  /** The sort puts the worklist in ascending order of frequency ... */
  lemma SortByFreqSorted(nodes: seq<HuffmanNode>)
    ensures SortedBy(SortByFreq(nodes), Freq)
  {
    SortByFreqIsSortByKey(nodes);
    SortByKeySorted(nodes, Freq);
  }

  /** ... and keeps the order of the trees of each frequency. */
  lemma SortByFreqStable(nodes: seq<HuffmanNode>, v: real)
    ensures WithKey(SortByFreq(nodes), Freq, v) == WithKey(nodes, Freq, v)
  {
    SortByFreqIsSortByKey(nodes);
    SortByKeyStable(nodes, Freq, v);
  }

  /**
   * What `nodes.sort((a, b) => a.freq - b.freq)` followed by two `shift`s
   * takes off: the left tree is not heavier than the right one, and the
   * right one is not heavier than any that remain.
   */
  lemma TwoLightest(nodes: seq<HuffmanNode>, sorted: seq<HuffmanNode>)
    requires |nodes| >= 2 && sorted == SortByFreq(nodes)
    ensures sorted[0].freq <= sorted[1].freq
    ensures forall i :: 2 <= i < |sorted| ==> sorted[1].freq <= sorted[i].freq
  {
    SortByFreqSorted(nodes);
    assert Freq(sorted[0]) <= Freq(sorted[1]);
    forall i | 2 <= i < |sorted|
      ensures sorted[1].freq <= sorted[i].freq
    {
      assert Freq(sorted[1]) <= Freq(sorted[i]);
    }
  }

  /**
   * Ties go to the tree that came first in the worklist, since the sort is
   * stable: the left tree is the first of its frequency ...
   */
  lemma LeftTie(nodes: seq<HuffmanNode>, sorted: seq<HuffmanNode>)
    requires |nodes| >= 2 && sorted == SortByFreq(nodes)
    ensures |WithKey(nodes, Freq, sorted[0].freq)| >= 1 && WithKey(nodes, Freq, sorted[0].freq)[0] == sorted[0]
  {
    SortByFreqStable(nodes, sorted[0].freq);
    TiesInFront(sorted, sorted[0].freq);
  }

  /** ... and the right tree is the second of that frequency or the first of its own. */
  lemma RightTie(nodes: seq<HuffmanNode>, sorted: seq<HuffmanNode>)
    requires |nodes| >= 2 && sorted == SortByFreq(nodes)
    ensures sorted[1].freq == sorted[0].freq ==>
      |WithKey(nodes, Freq, sorted[0].freq)| >= 2 && WithKey(nodes, Freq, sorted[0].freq)[1] == sorted[1]
    ensures sorted[1].freq != sorted[0].freq ==>
      |WithKey(nodes, Freq, sorted[1].freq)| >= 1 && WithKey(nodes, Freq, sorted[1].freq)[0] == sorted[1]
  {
    SortByFreqStable(nodes, sorted[1].freq);
    if sorted[1].freq == sorted[0].freq {
      BothInFront(sorted);
    } else {
      SecondInFront(sorted);
    }
  }

  /** Two trees of equal frequency at the front are the first two of that frequency. */
  lemma BothInFront(sorted: seq<HuffmanNode>)
    requires |sorted| >= 2 && sorted[0].freq == sorted[1].freq
    ensures [sorted[0], sorted[1]] <= WithKey(sorted, Freq, sorted[1].freq)
  {
    TiesInFront(sorted, sorted[1].freq);
  }

  /** A second tree lighter or heavier than the first is the first of its frequency. */
  lemma SecondInFront(sorted: seq<HuffmanNode>)
    requires |sorted| >= 2 && sorted[0].freq != sorted[1].freq
    ensures [sorted[1]] <= WithKey(sorted, Freq, sorted[1].freq)
  {
    TiesInFront(sorted, sorted[1].freq);
  }

  /** Which of the two lightest trees come first among those of frequency `v`. */
  lemma TiesInFront(sorted: seq<HuffmanNode>, v: real)
    requires |sorted| >= 2
    ensures (if sorted[0].freq == v then [sorted[0]] else []) + (if sorted[1].freq == v then [sorted[1]] else [])
      <= WithKey(sorted, Freq, v)
  {
    var two := sorted[..2];
    assert two[..1] == [sorted[0]] && two[..1][..0] == [];
    assert WithKey(two[..1], Freq, v) == (if sorted[0].freq == v then [sorted[0]] else []);
    assert WithKey(two, Freq, v) == (if sorted[0].freq == v then [sorted[0]] else []) + (if sorted[1].freq == v then [sorted[1]] else []);
    WithKeyPrefix(sorted, Freq, v, 2);
  }

  /** The parent of the first two trees of the sorted worklist `s`. */
  function ParentOf(s: seq<HuffmanNode>, nodeId: nat): (r: HuffmanNode)
    requires |s| >= 2
  {
    Parent(s[0], s[1], nodeId)
  }

  /** The worklist after a round: the sorted one without its first two trees, and their parent. */
  function NextWorklist(nodes: seq<HuffmanNode>, nodeId: nat): (r: seq<HuffmanNode>)
    requires |nodes| >= 2
    ensures |r| == |nodes| - 1
  {
    SortByFreq(nodes)[2..] + [ParentOf(SortByFreq(nodes), nodeId)]
  }

  /**
   * The parents the merge loop creates from the worklist `nodes` with the
   * counter at `nodeId`, in order: each round sorts the worklist, takes the
   * first two trees off it and pushes their parent.
   */
  function MergeRun(nodes: seq<HuffmanNode>, nodeId: nat): (r: seq<HuffmanNode>)
    decreases |nodes|
  {
    if |nodes| <= 1 then []
    else [ParentOf(SortByFreq(nodes), nodeId)] + MergeRun(NextWorklist(nodes, nodeId), nodeId + 1)
  }

  /** The merges create |nodes| - 1 well-formed parents, numbered by the counter. */
  lemma {:induction false} MergeRunShape(nodes: seq<HuffmanNode>, nodeId: nat)
    requires |nodes| >= 1 && AllWellFormed(nodes)
    ensures |MergeRun(nodes, nodeId)| == |nodes| - 1
    ensures forall k :: 0 <= k < |MergeRun(nodes, nodeId)| ==>
      MergeRun(nodes, nodeId)[k].Internal? && MergeRun(nodes, nodeId)[k].id == NodeNum(nodeId + k) &&
      WellFormed(MergeRun(nodes, nodeId)[k])
    decreases |nodes|
  {
    if |nodes| >= 2 {
      var s := SortByFreq(nodes);
      var next := NextWorklist(nodes, nodeId);
      assert next == s[2..] + [Parent(s[0], s[1], nodeId)];
      NextKeepsFolds(nodes, nodeId, nodes[0], NodeNum(0));
      MergeRunShape(next, nodeId + 1);
      assert WellFormed(next[|next| - 1]);
    }
  }

  /**
   * The worklist the merge loop stops with: a single tree once it started
   * with at least one.
   */
  function FinalWorklist(nodes: seq<HuffmanNode>, nodeId: nat): (r: seq<HuffmanNode>)
    ensures |nodes| >= 1 ==> |r| == 1
    decreases |nodes|
  {
    if |nodes| <= 1 then nodes else FinalWorklist(NextWorklist(nodes, nodeId), nodeId + 1)
  }

  /**
   * One round (sort, take the two lightest trees off, push their parent)
   * keeps the worklist well formed, its weight and its leaves, and adds the
   * counter's id to its ids, and no other.
   */
  lemma NextKeepsFolds(nodes: seq<HuffmanNode>, nodeId: nat, x: HuffmanNode, id: NodeId)
    requires |nodes| >= 2
    ensures AllWellFormed(nodes) ==> AllWellFormed(NextWorklist(nodes, nodeId))
    ensures Weight(NextWorklist(nodes, nodeId)) == Weight(nodes)
    ensures LeavesCount(NextWorklist(nodes, nodeId), x) == LeavesCount(nodes, x)
    ensures IdsCount(NextWorklist(nodes, nodeId), id) == IdsCount(nodes, id) + if id == NodeNum(nodeId) then 1 else 0
  {
    var s := SortByFreq(nodes);
    var p := Parent(s[0], s[1], nodeId);
    assert NextWorklist(nodes, nodeId) == s[2..] + [p];
    assert s == [s[0]] + [s[1]] + s[2..];
    SortKeepsFolds(nodes, x, id);
    TwoLightest(nodes, s);
    FoldsAppend([s[0]] + [s[1]], s[2..], x, id);
    FoldsAppend([s[0]], [s[1]], x, id);
    FoldsAppend(s[2..], [p], x, id);
    FoldsOne(s[0], x, id);
    FoldsOne(s[1], x, id);
    FoldsOne(p, x, id);
  }

  /**
   * The merges keep the worklist well formed, its weight and its leaves,
   * and add the ids `node-<nodeId>` ... `node-<nodeId + |nodes| - 2>`, each
   * once.
   */
  lemma {:induction false} FinalKeepsFolds(nodes: seq<HuffmanNode>, nodeId: nat, x: HuffmanNode, id: NodeId)
    requires |nodes| >= 1
    ensures AllWellFormed(nodes) ==> AllWellFormed(FinalWorklist(nodes, nodeId))
    ensures Weight(FinalWorklist(nodes, nodeId)) == Weight(nodes)
    ensures LeavesCount(FinalWorklist(nodes, nodeId), x) == LeavesCount(nodes, x)
    ensures IdsCount(FinalWorklist(nodes, nodeId), id) ==
      IdsCount(nodes, id) + if id.NodeNum? && nodeId <= id.n < nodeId + |nodes| - 1 then 1 else 0
    decreases |nodes|
  {
    if |nodes| >= 2 {
      NextKeepsFolds(nodes, nodeId, x, id);
      FinalKeepsFolds(NextWorklist(nodes, nodeId), nodeId + 1, x, id);
    }
  }

  /** The tree the merges end with is the last parent they create. */
  lemma {:induction false} FinalIsLastParent(nodes: seq<HuffmanNode>, nodeId: nat)
    requires |nodes| >= 2
    ensures |MergeRun(nodes, nodeId)| == |nodes| - 1
    ensures FinalWorklist(nodes, nodeId)[0] == MergeRun(nodes, nodeId)[|nodes| - 2]
    decreases |nodes|
  {
    var next := NextWorklist(nodes, nodeId);
    var run := MergeRun(next, nodeId + 1);
    assert MergeRun(nodes, nodeId) == [ParentOf(SortByFreq(nodes), nodeId)] + run;
    if |next| == 1 {
      assert next[0] == ParentOf(SortByFreq(nodes), nodeId);
    } else {
      FinalIsLastParent(next, nodeId + 1);
    }
  }

  /** `nodes.forEach(...)`: one `initialize` step per leaf, showing it with the id `init-<i>`. */
  method InitialSteps(leaves: seq<HuffmanNode>) returns (steps: seq<HuffmanStep>)
    requires forall i :: 0 <= i < |leaves| ==> leaves[i].Leaf?
    ensures |steps| == |leaves|
    ensures forall i :: 0 <= i < |leaves| ==>
      steps[i] == HuffmanStep(Leaf(leaves[i].ch, leaves[i].freq, InitNum(i)), Initialize)
  {
    steps := [];
    for i := 0 to |leaves|
      invariant |steps| == i
      invariant forall k :: 0 <= k < i ==> steps[k] == HuffmanStep(Leaf(leaves[k].ch, leaves[k].freq, InitNum(k)), Initialize)
    {
      steps := steps + [HuffmanStep(Leaf(leaves[i].ch, leaves[i].freq, InitNum(i)), Initialize)];
    }
  }

  /**
   * One round of the merge loop: sort the worklist by frequency, `shift`
   * the two lightest trees off it and `push` their parent.
   */
  method MergeRound(nodes: seq<HuffmanNode>, nodeId: nat) returns (next: seq<HuffmanNode>, parent: HuffmanNode)
    requires |nodes| >= 2
    ensures parent == ParentOf(SortByFreq(nodes), nodeId)
    ensures next == NextWorklist(nodes, nodeId)
  {
    next := SortByFreq(nodes);
    ghost var sorted := next;
    var left := next[0];
    next := next[1..];
    var right := next[0];
    next := next[1..];
    assert left == sorted[0] && right == sorted[1] && next == sorted[2..];
    parent := Internal(left.freq + right.freq, left, right, NodeNum(nodeId));
    next := next + [parent];
  }

  /**
   * The leaves, their initial steps and the merge loop of
   * `buildHuffmanTree` on the normalised symbols: n initial steps, then the
   * n - 1 merge steps, each showing the parent it creates, numbered by the
   * counter. The last parent is the root.
   */
  method BuildTree(normalized: seq<Symbol>) returns (steps: seq<HuffmanStep>, root: HuffmanNode)
    requires |normalized| >= 2
    ensures |MergeRun(InitialLeaves(normalized), |normalized|)| == |normalized| - 1
    ensures |steps| == 2 * |normalized| - 1
    ensures forall i :: 0 <= i < |normalized| ==>
      steps[i] == HuffmanStep(Leaf(normalized[i].ch, normalized[i].prob, InitNum(i)), Initialize)
    ensures steps[|normalized|..] == CombineSteps(MergeRun(InitialLeaves(normalized), |normalized|))
    ensures root == MergeRun(InitialLeaves(normalized), |normalized|)[|normalized| - 2]
  {
    var n := |normalized|;
    var nodeId := 0;
    var nodes := InitialLeaves(normalized);
    nodeId := n;
    var initial := InitialSteps(nodes);
    var combined;
    combined, root := MergeLoop(nodes, nodeId);
    CombineStepsMeaning(MergeRun(nodes, n));
    steps := initial + combined;
    assert steps[n..] == combined;
  }

  /** The `combine` steps showing the parents `parents`, in order. */
  function CombineSteps(parents: seq<HuffmanNode>): (r: seq<HuffmanStep>)
  {
    if parents == [] then []
    else CombineSteps(parents[..|parents| - 1]) + [HuffmanStep(parents[|parents| - 1], Combine)]
  }

  /** The k-th `combine` step shows the k-th parent. */
  lemma {:induction false} CombineStepsMeaning(parents: seq<HuffmanNode>)
    ensures |CombineSteps(parents)| == |parents|
    ensures forall k :: 0 <= k < |parents| ==> CombineSteps(parents)[k] == HuffmanStep(parents[k], Combine)
  {
    if parents != [] {
      CombineStepsMeaning(parents[..|parents| - 1]);
    }
  }

  lemma CombineStepsAppend(parents: seq<HuffmanNode>, p: HuffmanNode)
    ensures CombineSteps(parents + [p]) == CombineSteps(parents) + [HuffmanStep(p, Combine)]
  {
    assert (parents + [p])[..|parents|] == parents;
  }

  /**
   * The state of the merge loop started from `leaves` with the counter at
   * `firstId`, after the rounds that created `parents`: the merges still to
   * come create the rest, and the last tree of the worklist is the last
   * parent created.
   */
  ghost predicate LoopState(leaves: seq<HuffmanNode>, firstId: nat, nodes: seq<HuffmanNode>, nodeId: nat, parents: seq<HuffmanNode>)
  {
    |nodes| >= 1 && |nodes| + |parents| == |leaves| && nodeId == firstId + |parents| &&
    MergeRun(leaves, firstId) == parents + MergeRun(nodes, nodeId) &&
    (parents != [] ==> nodes[|nodes| - 1] == parents[|parents| - 1])
  }

  /** A round of the loop moves the parent it creates from the merges to come to those done. */
  lemma RoundKeepsLoopState(leaves: seq<HuffmanNode>, firstId: nat, nodes: seq<HuffmanNode>, nodeId: nat, parents: seq<HuffmanNode>)
    requires LoopState(leaves, firstId, nodes, nodeId, parents) && |nodes| >= 2
    ensures LoopState(leaves, firstId, NextWorklist(nodes, nodeId), nodeId + 1, parents + [ParentOf(SortByFreq(nodes), nodeId)])
  {
    var p := ParentOf(SortByFreq(nodes), nodeId);
    var next := NextWorklist(nodes, nodeId);
    assert next[|next| - 1] == p;
    ConcatAssoc(parents, [p], MergeRun(next, nodeId + 1));
  }

  /**
   * The `while (nodes.length > 1)` loop from the worklist `leaves` with the
   * counter at `firstId`: it records a `combine` step for each parent the
   * merges create, and the tree left at the end is the last of them.
   */
  method MergeLoop(leaves: seq<HuffmanNode>, firstId: nat) returns (combined: seq<HuffmanStep>, root: HuffmanNode)
    requires |leaves| >= 2
    ensures |MergeRun(leaves, firstId)| == |leaves| - 1
    ensures combined == CombineSteps(MergeRun(leaves, firstId))
    ensures root == MergeRun(leaves, firstId)[|leaves| - 2]
  {
    var nodes := leaves;
    var nodeId := firstId;
    combined := [];
    ghost var parents: seq<HuffmanNode> := [];
    while |nodes| > 1
      invariant LoopState(leaves, firstId, nodes, nodeId, parents)
      invariant combined == CombineSteps(parents)
      decreases |nodes|
    {
      ghost var before := nodes;
      var parent;
      nodes, parent := MergeRound(nodes, nodeId);
      RoundKeepsLoopState(leaves, firstId, before, nodeId, parents);
      CombineStepsAppend(parents, parent);
      parents := parents + [parent];
      nodeId := nodeId + 1;
      combined := combined + [HuffmanStep(parent, Combine)];
    }
    assert MergeRun(nodes, nodeId) == [];
    assert parents + [] == parents;
    root := nodes[0];
    assert |nodes| == 1 && root == parents[|parents| - 1];
  }

  /**
   * Every merge step of `buildHuffmanTree` on at least two normalised
   * symbols shows a well-formed parent, and the k-th of them is `node-<n+k>`.
   */
  lemma MergeStepsMeaning(normalized: seq<Symbol>)
    requires |normalized| >= 2
    ensures |MergeRun(InitialLeaves(normalized), |normalized|)| == |normalized| - 1
    ensures forall k :: 0 <= k < |normalized| - 1 ==>
      MergeRun(InitialLeaves(normalized), |normalized|)[k].Internal? &&
      MergeRun(InitialLeaves(normalized), |normalized|)[k].id == NodeNum(|normalized| + k) &&
      WellFormed(MergeRun(InitialLeaves(normalized), |normalized|)[k])
  {
    InitialWeight(normalized);
    MergeRunShape(InitialLeaves(normalized), |normalized|);
  }

  /**
   * The root `buildHuffmanTree` returns is the last merge step's tree: it
   * is well formed, weighs what the symbols weigh, holds each initial leaf
   * once and no other leaf, and the 2n - 1 ids in it are `node-0` ...
   * `node-<2n-2>`, each once.
   */
  lemma HuffmanRootMeaning(normalized: seq<Symbol>)
    requires |normalized| >= 2
    ensures |MergeRun(InitialLeaves(normalized), |normalized|)| == |normalized| - 1
    ensures WellFormed(MergeRun(InitialLeaves(normalized), |normalized|)[|normalized| - 2])
    ensures LeafWeight(MergeRun(InitialLeaves(normalized), |normalized|)[|normalized| - 2]) == Sum(normalized, Prob)
    ensures forall x :: LeafCount(MergeRun(InitialLeaves(normalized), |normalized|)[|normalized| - 2], x) ==
                        if x in InitialLeaves(normalized) then 1 else 0
    ensures forall id :: IdCount(MergeRun(InitialLeaves(normalized), |normalized|)[|normalized| - 2], id) ==
                         if id.NodeNum? && id.n < 2 * |normalized| - 1 then 1 else 0
  {
    var n := |normalized|;
    var leaves := InitialLeaves(normalized);
    var last := FinalWorklist(leaves, n);
    FinalIsLastParent(leaves, n);
    var root := last[0];
    assert last == [root];
    InitialWeight(normalized);
    FinalKeepsFolds(leaves, n, root, NodeNum(0));
    FoldsOne(root, root, NodeNum(0));
    forall x
      ensures LeafCount(root, x) == if x in leaves then 1 else 0
    {
      InitialLeavesOnce(normalized, x);
      FinalKeepsFolds(leaves, n, x, NodeNum(0));
      FoldsOne(root, x, NodeNum(0));
    }
    forall id
      ensures IdCount(root, id) == if id.NodeNum? && id.n < 2 * n - 1 then 1 else 0
    {
      InitialIdsOnce(normalized, id);
      FinalKeepsFolds(leaves, n, root, id);
      FoldsOne(root, root, id);
    }
    WeightOfWellFormed(root);
  }
}
