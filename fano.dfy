/**
 * Recursive Fano splitting of the algorithm library (`fanoAlgorithm`).
 *
 * The symbols are sorted by descending probability; a group of two or more
 * is split after the first position where the running sum reaches half of
 * the group's total; the left part extends the prefix with '0', the right
 * part with '1'; a single symbol is assigned its prefix, or "0" when the
 * prefix is empty. The helper writes into a shared step list and a shared
 * code record, which is modelled as an object with those two fields.
 */
module Fano {
  import opened Common

  predicate NonNegative(s: seq<Symbol>)
  {
    forall i :: 0 <= i < |s| ==> s[i].prob >= 0.0
  }

  // ---------------------------------------------------------------- the split

  /** The running sum of the first k probabilities of a group. */
  function PrefixSum(g: seq<Symbol>, k: nat): (r: real)
    requires k <= |g|
  {
    Sum(g[..k], Prob)
  }

  /**
   * One past the first index j >= i whose running sum reaches `half`, or 0
   * when none does.
   */
  function SplitFrom(g: seq<Symbol>, i: nat, half: real): (r: nat)
    requires i <= |g|
    decreases |g| - i
  {
    if i == |g| then 0
    else if PrefixSum(g, i + 1) >= half then i + 1
    else SplitFrom(g, i + 1, half)
  }

  /**
   * The split is the least prefix length beyond i whose sum reaches `half`,
   * and 0 exactly when no such prefix exists.
   */
  lemma {:induction false} SplitFromLeast(g: seq<Symbol>, i: nat, half: real)
    requires i <= |g|
    ensures var r := SplitFrom(g, i, half);
      && (r == 0 || i < r <= |g|)
      && (r == 0 ==> forall k :: i < k <= |g| ==> PrefixSum(g, k) < half)
      && (r > 0 ==> PrefixSum(g, r) >= half)
      && (r > 0 ==> forall k :: i < k < r ==> PrefixSum(g, k) < half)
    decreases |g| - i
  {
    if i < |g| && PrefixSum(g, i + 1) < half {
      SplitFromLeast(g, i + 1, half);
    }
  }

  /** The index at which a group is cut: `group.slice(0, split)` is the left part. */
  function SplitIndex(g: seq<Symbol>): (r: nat)
  {
    SplitFrom(g, 0, Sum(g, Prob) / 2.0)
  }

  lemma {:induction false} FirstAtMostSum(s: seq<Symbol>)
    requires |s| >= 1 && NonNegative(s)
    ensures s[0].prob <= Sum(s, Prob)
  {
    if |s| > 1 {
      FirstAtMostSum(s[..|s| - 1]);
    }
  }

  /**
   * For a sorted group of at least two non-negative probabilities both parts
   * of the split are non-empty, so the recursion makes progress.
   */
  lemma SplitInRange(g: seq<Symbol>)
    requires |g| >= 2 && NonNegative(g) && Descending(g)
    ensures 1 <= SplitIndex(g) <= |g| - 1
  {
    var n := |g|;
    SplitFromLeast(g, 0, Sum(g, Prob) / 2.0);
    SumPrefix(g, n - 1, Prob);
    assert g[..n] == g;
    FirstAtMostSum(g[..n - 1]);
    assert PrefixSum(g, n - 1) >= Sum(g, Prob) / 2.0;
  }

  /** The split search loop with its running sum. */
  method FindSplit(group: seq<Symbol>) returns (splitIndex: nat)
    ensures splitIndex == SplitIndex(group)
  {
    var sum := 0.0;
    splitIndex := 0;
    var totalSum := Sum(group, Prob);
    for i := 0 to |group|
      invariant sum == PrefixSum(group, i)
      invariant SplitFrom(group, i, totalSum / 2.0) == SplitIndex(group)
    {
      sum := sum + group[i].prob;
      SumPrefix(group, i, Prob);
      if sum >= totalSum / 2.0 {
        splitIndex := i + 1;
        return;
      }
    }
  }

  predicate Splittable(g: seq<Symbol>)
  {
    NonNegative(g) && Descending(g)
  }

  lemma PartsSplittable(g: seq<Symbol>)
    requires |g| >= 2 && Splittable(g)
    ensures 1 <= SplitIndex(g) <= |g| - 1
    ensures Splittable(g[..SplitIndex(g)]) && Splittable(g[SplitIndex(g)..])
  {
    SplitInRange(g);
  }

  // ---------------------------------------------------------------- trace and codes

  datatype FanoStep = FanoStep(symbols: seq<Symbol>, code: string, depth: nat)

  /** A symbol's character with the code given to it. */
  datatype Leaf = Leaf(ch: string, code: string)

  /**
   * The steps the helper pushes for group `g` at prefix `code`, in pre-order.
   * A split leaving one side empty cannot occur for a sorted non-negative
   * group (SplitInRange); such a group is given no children here.
   */
  function Trace(g: seq<Symbol>, code: string, depth: nat): (r: seq<FanoStep>)
    decreases |g|
  {
    if |g| == 0 then []
    else
      var s := SplitIndex(g);
      if |g| == 1 || !(1 <= s < |g|) then [FanoStep(g, code, depth)]
      else [FanoStep(g, code, depth)] + Trace(g[..s], code + "0", depth + 1) + Trace(g[s..], code + "1", depth + 1)
  }

  /** The code assignments the helper makes for group `g`, in order. */
  function Leaves(g: seq<Symbol>, code: string): (r: seq<Leaf>)
    decreases |g|
  {
    if |g| == 0 then []
    else
      var s := SplitIndex(g);
      if |g| == 1 || !(1 <= s < |g|) then [Leaf(g[0].ch, OrZero(code))]
      else Leaves(g[..s], code + "0") + Leaves(g[s..], code + "1")
  }

  /** A record after the assignments `ls`, in order: a later one overwrites an earlier one. */
  function Assign(m: map<string, string>, ls: seq<Leaf>): (r: map<string, string>)
  {
    if ls == [] then m else Assign(m, ls[..|ls| - 1])[ls[|ls| - 1].ch := ls[|ls| - 1].code]
  }

  lemma TraceSplit(g: seq<Symbol>, code: string, depth: nat)
    requires |g| >= 2 && Splittable(g)
    ensures 1 <= SplitIndex(g) <= |g| - 1
    ensures Splittable(g[..SplitIndex(g)]) && Splittable(g[SplitIndex(g)..])
    ensures Trace(g, code, depth) == [FanoStep(g, code, depth)]
      + Trace(g[..SplitIndex(g)], code + "0", depth + 1) + Trace(g[SplitIndex(g)..], code + "1", depth + 1)
  {
    PartsSplittable(g);
  }

  lemma LeavesSplit(g: seq<Symbol>, code: string)
    requires |g| >= 2 && Splittable(g)
    ensures 1 <= SplitIndex(g) <= |g| - 1
    ensures Splittable(g[..SplitIndex(g)]) && Splittable(g[SplitIndex(g)..])
    ensures Leaves(g, code) == Leaves(g[..SplitIndex(g)], code + "0") + Leaves(g[SplitIndex(g)..], code + "1")
  {
    PartsSplittable(g);
  }

  lemma {:induction false} AssignAppend(m: map<string, string>, a: seq<Leaf>, b: seq<Leaf>)
    ensures Assign(m, a + b) == Assign(Assign(m, a), b)
    decreases |b|
  {
    if b == [] {
      assert a + b == a;
    } else {
      assert (a + b)[..|a + b| - 1] == a + b[..|b| - 1];
      AssignAppend(m, a, b[..|b| - 1]);
    }
  }

  /** The library's shared `steps` and `codes`. */
  class FanoRun {
    var steps: seq<FanoStep>
    var codes: map<string, string>

    constructor()
      ensures steps == [] && codes == map[]
    {
      steps := [];
      codes := map[];
    }

    /** `fanoHelper`. */
    method Helper(syms: seq<Symbol>, code: string, depth: nat)
      requires Splittable(syms)
      modifies this
      ensures steps == old(steps) + Trace(syms, code, depth)
      ensures codes == Assign(old(codes), Leaves(syms, code))
      decreases |syms|
    {
      if |syms| == 0 {
        return;
      }
      if |syms| == 1 {
        codes := codes[syms[0].ch := OrZero(code)];
        steps := steps + [FanoStep(syms, code, depth)];
        return;
      }
      var split := FindSplit(syms);
      TraceSplit(syms, code, depth);
      LeavesSplit(syms, code);
      var left := syms[..split];
      var right := syms[split..];
      ghost var steps0, codes0 := steps, codes;
      var st := FanoStep(syms, code, depth);
      steps := steps + [st];
      Helper(left, code + "0", depth + 1);
      Helper(right, code + "1", depth + 1);
      ConcatAssoc(steps0, [st], Trace(left, code + "0", depth + 1));
      ConcatAssoc(steps0, [st] + Trace(left, code + "0", depth + 1), Trace(right, code + "1", depth + 1));
      AssignAppend(codes0, Leaves(left, code + "0"), Leaves(right, code + "1"));
    }
  }

  datatype FanoResult = FanoResult(ch: string, prob: real, code: string)

  /** `codes[c] || ''`. */
  function CodeOf(codes: map<string, string>, c: string): (r: string)
  {
    if c in codes then codes[c] else ""
  }

  /** The library's `fanoAlgorithm`. */
  method FanoAlgorithm(symbols: seq<Symbol>) returns (steps: seq<FanoStep>, codes: map<string, string>, results: seq<FanoResult>)
    requires NonNegative(symbols)
    ensures Splittable(SortDescending(symbols))
    ensures steps == Trace(SortDescending(symbols), "", 0)
    ensures codes == Assign(map[], Leaves(SortDescending(symbols), ""))
    ensures var sorted := SortDescending(symbols);
      && |results| == |sorted|
      && forall i :: 0 <= i < |results| ==>
        && results[i].ch == sorted[i].ch && results[i].prob == sorted[i].prob
        && sorted[i].ch in codes && results[i].code == codes[sorted[i].ch]
  {
    var sorted := SortDescending(symbols);
    assert forall i :: 0 <= i < |sorted| ==> sorted[i] in multiset(symbols);
    var run := new FanoRun();
    run.Helper(sorted, "", 0);
    steps := run.steps;
    codes := run.codes;
    LeavesOrder(sorted, "");
    AssignKeys(map[], Leaves(sorted, ""));
    results := seq(|sorted|, i requires 0 <= i < |sorted| => FanoResult(sorted[i].ch, sorted[i].prob, CodeOf(codes, sorted[i].ch)));
    forall i | 0 <= i < |sorted| ensures sorted[i].ch in codes {
      CharsOfHas(Leaves(sorted, ""), i);
    }
  }

  // ---------------------------------------------------------------- properties

  /** One step per split group and one per symbol: 2n - 1 steps for n symbols. */
  lemma {:induction false} TraceLength(g: seq<Symbol>, code: string, depth: nat)
    requires Splittable(g)
    ensures |Trace(g, code, depth)| == if |g| == 0 then 0 else 2 * |g| - 1
    decreases |g|
  {
    if |g| >= 2 {
      PartsSplittable(g);
      var s := SplitIndex(g);
      TraceLength(g[..s], code + "0", depth + 1);
      TraceLength(g[s..], code + "1", depth + 1);
    }
  }

  /** Every step's code grows by one character per level of recursion. */
  lemma {:induction false} TraceDepth(g: seq<Symbol>, code: string, depth: nat)
    requires Splittable(g)
    ensures forall k :: 0 <= k < |Trace(g, code, depth)| ==>
      var st := Trace(g, code, depth)[k];
      st.depth >= depth && |st.code| == |code| + (st.depth - depth) && code <= st.code
    decreases |g|
  {
    if |g| >= 2 {
      PartsSplittable(g);
      var s := SplitIndex(g);
      TraceDepth(g[..s], code + "0", depth + 1);
      TraceDepth(g[s..], code + "1", depth + 1);
      var left := Trace(g[..s], code + "0", depth + 1);
      var right := Trace(g[s..], code + "1", depth + 1);
      var t := Trace(g, code, depth);
      forall k | 0 <= k < |t|
        ensures t[k].depth >= depth && |t[k].code| == |code| + (t[k].depth - depth) && code <= t[k].code
      {
        if 1 <= k < 1 + |left| {
          assert t[k] == left[k - 1];
          assert code <= code + "0" <= t[k].code;
        } else if k >= 1 + |left| {
          assert t[k] == right[k - 1 - |left|];
          assert code <= code + "1" <= t[k].code;
        }
      }
    }
  }

  /**
   * The assignments follow the symbols in order, each gets a code extending
   * the prefix, and below a split every code is strictly longer than the prefix.
   */
  lemma {:induction false} LeavesOrder(g: seq<Symbol>, code: string)
    requires Splittable(g)
    ensures |Leaves(g, code)| == |g|
    ensures forall i :: 0 <= i < |g| ==> Leaves(g, code)[i].ch == g[i].ch
    ensures forall i :: 0 <= i < |g| ==> code <= Leaves(g, code)[i].code
    ensures |g| >= 2 || code != "" ==> forall i :: 0 <= i < |g| ==> code < Leaves(g, code)[i].code || Leaves(g, code)[i].code == code
    ensures |g| >= 2 ==> forall i :: 0 <= i < |g| ==> |code| < |Leaves(g, code)[i].code|
    decreases |g|
  {
    if |g| >= 2 {
      PartsSplittable(g);
      var s := SplitIndex(g);
      LeavesOrder(g[..s], code + "0");
      LeavesOrder(g[s..], code + "1");
      var l := Leaves(g[..s], code + "0");
      var r := Leaves(g[s..], code + "1");
      var all := l + r;
      forall i | 0 <= i < |g|
        ensures all[i].ch == g[i].ch && code <= all[i].code && |code| < |all[i].code|
      {
        if i < s {
          assert code <= code + "0" <= all[i].code;
        } else {
          assert all[i] == r[i - s];
          assert code <= code + "1" <= all[i].code;
        }
      }
    }
  }

  /** Neither of two distinct assignments' codes is a prefix of the other. */
  lemma {:induction false} LeavesPrefixFree(g: seq<Symbol>, code: string)
    requires Splittable(g)
    ensures forall i, j :: 0 <= i < |Leaves(g, code)| && 0 <= j < |Leaves(g, code)| && i != j ==>
      !(Leaves(g, code)[i].code <= Leaves(g, code)[j].code)
    decreases |g|
  {
    if |g| >= 2 {
      PartsSplittable(g);
      var s := SplitIndex(g);
      LeavesPrefixFree(g[..s], code + "0");
      LeavesPrefixFree(g[s..], code + "1");
      LeavesOrder(g[..s], code + "0");
      LeavesOrder(g[s..], code + "1");
      var l := Leaves(g[..s], code + "0");
      var r := Leaves(g[s..], code + "1");
      var all := l + r;
      forall i, j | 0 <= i < |all| && 0 <= j < |all| && i != j
        ensures !(all[i].code <= all[j].code)
      {
        if i < |l| && j >= |l| {
          Diverge(all[i].code, all[j].code, code, '0', '1');
        } else if i >= |l| && j < |l| {
          Diverge(all[i].code, all[j].code, code, '1', '0');
        } else if i >= |l| {
          assert all[i] == r[i - |l|] && all[j] == r[j - |l|];
        }
      }
    }
  }

  /** The characters the assignments `ls` give codes to. */
  function CharsOf(ls: seq<Leaf>): (r: set<string>)
  {
    if ls == [] then {} else CharsOf(ls[..|ls| - 1]) + {ls[|ls| - 1].ch}
  }

  lemma {:induction false} CharsOfIndex(ls: seq<Leaf>, c: string) returns (i: nat)
    requires c in CharsOf(ls)
    ensures i < |ls| && ls[i].ch == c
  {
    if ls[|ls| - 1].ch == c {
      i := |ls| - 1;
    } else {
      i := CharsOfIndex(ls[..|ls| - 1], c);
    }
  }

  lemma {:induction false} CharsOfHas(ls: seq<Leaf>, i: nat)
    requires i < |ls|
    ensures ls[i].ch in CharsOf(ls)
  {
    if i < |ls| - 1 {
      CharsOfHas(ls[..|ls| - 1], i);
    }
  }

  /** The record gains exactly the assigned characters as keys. */
  lemma {:induction false} AssignKeys(m: map<string, string>, ls: seq<Leaf>)
    ensures Assign(m, ls).Keys == m.Keys + CharsOf(ls)
  {
    if ls != [] {
      AssignKeys(m, ls[..|ls| - 1]);
    }
  }

  /**
   * A character ends up with the code of its last assignment; in particular,
   * with distinct characters every character keeps its own code.
   */
  lemma {:induction false} AssignLast(m: map<string, string>, ls: seq<Leaf>, i: nat)
    requires i < |ls|
    requires forall j :: i < j < |ls| ==> ls[j].ch != ls[i].ch
    ensures ls[i].ch in Assign(m, ls) && Assign(m, ls)[ls[i].ch] == ls[i].code
  {
    if i < |ls| - 1 {
      AssignLast(m, ls[..|ls| - 1], i);
    }
  }

  predicate DistinctChars(s: seq<Symbol>)
  {
    forall i, j :: 0 <= i < j < |s| ==> s[i].ch != s[j].ch
  }

  /**
   * With distinct characters the final codes are pairwise prefix-free:
   * neither of two different characters' codes is a prefix of the other.
   */
  lemma CodesPrefixFree(g: seq<Symbol>, a: string, b: string)
    requires Splittable(g) && DistinctChars(g)
    requires a in Assign(map[], Leaves(g, "")) && b in Assign(map[], Leaves(g, "")) && a != b
    ensures !(Assign(map[], Leaves(g, ""))[a] <= Assign(map[], Leaves(g, ""))[b])
  {
    var ls := Leaves(g, "");
    LeavesOrder(g, "");
    LeavesPrefixFree(g, "");
    AssignKeys(map[], ls);
    var i := CharsOfIndex(ls, a);
    var j := CharsOfIndex(ls, b);
    AssignLast(map[], ls, i);
    AssignLast(map[], ls, j);
  }

  /** Two symbols with the same character "A" and probability 0.5 each. */
  function Twice(): (r: seq<Symbol>)
  {
    [Symbol("A", 0.5), Symbol("A", 0.5)]
  }

  lemma TwiceSplit()
    ensures Splittable(Twice()) && SplitIndex(Twice()) == 1
  {
    var g := Twice();
    assert g[..1] == [g[0]];
    assert PrefixSum(g, 1) == 0.5;
    assert Sum(g, Prob) == 1.0 by {
      assert g[..|g| - 1] == g[..1];
    }
  }

  lemma TwiceLeaves()
    ensures Leaves(Twice(), "") == [Leaf("A", "0"), Leaf("A", "1")]
  {
    var g := Twice();
    TwiceSplit();
    LeavesSplit(g, "");
    assert g[..1] == [g[0]] && g[1..] == [g[1]];
    assert "" + "0" == "0" && "" + "1" == "1";
  }

  /** A repeated character keeps only the code of its later occurrence. */
  lemma RepeatedCharOverwritten()
    ensures Splittable(Twice())
    ensures Assign(map[], Leaves(Twice(), "")) == map["A" := "1"]
  {
    TwiceSplit();
    TwiceLeaves();
    var ls := Leaves(Twice(), "");
    assert ls[..1] == [Leaf("A", "0")] && ls[..1][..0] == [];
  }
}

/**
 * The Fano coder of the visualizer component (`fanoAlgorithm` with its inner
 * `divide`): the same split and code rule as the library, but each step
 * records an action, a snapshot of the code map, the current group and the
 * two halves; plus the guard of `handleAddSymbol`.
 */
module FanoVisualizer {
  import opened Common
  import Fano

  datatype Action = AssignAction | SplitAction

  datatype VisStep = VisStep(action: Action, codes: map<string, string>, currentGroup: seq<string>,
                             group1: seq<string>, group2: seq<string>)

  function Chars(g: seq<Symbol>): (r: seq<string>)
    ensures |r| == |g| && forall i :: 0 <= i < |g| ==> r[i] == g[i].ch
  {
    if g == [] then [] else Chars(g[..|g| - 1]) + [g[|g| - 1].ch]
  }

  lemma {:induction false} CharsAppend(a: seq<Symbol>, b: seq<Symbol>)
    ensures Chars(a + b) == Chars(a) + Chars(b)
  {
    assert |Chars(a + b)| == |Chars(a) + Chars(b)|;
    forall i | 0 <= i < |a + b| ensures Chars(a + b)[i] == (Chars(a) + Chars(b))[i] {
      if i >= |a| {
        assert (a + b)[i] == b[i - |a|];
      }
    }
  }

  /**
   * The steps `divide` pushes for group `g` at prefix `prefix` when the map
   * starts as `m`. As in the library's trace, a degenerate split (impossible
   * for sorted non-negative groups) is given no children.
   */
  function VisTrace(m: map<string, string>, g: seq<Symbol>, prefix: string): (r: seq<VisStep>)
    decreases |g|
  {
    if |g| == 0 then []
    else
      var s := Fano.SplitIndex(g);
      if |g| == 1 || !(1 <= s < |g|) then [VisStep(AssignAction, m[g[0].ch := OrZero(prefix)], Chars(g), [], [])]
      else
        [VisStep(SplitAction, m, Chars(g), Chars(g[..s]), Chars(g[s..]))]
          + VisTrace(m, g[..s], prefix + "0")
          + VisTrace(Fano.Assign(m, Fano.Leaves(g[..s], prefix + "0")), g[s..], prefix + "1")
  }

  lemma VisTraceSplit(m: map<string, string>, g: seq<Symbol>, prefix: string)
    requires |g| >= 2 && Fano.Splittable(g)
    ensures 1 <= Fano.SplitIndex(g) <= |g| - 1
    ensures Fano.Splittable(g[..Fano.SplitIndex(g)]) && Fano.Splittable(g[Fano.SplitIndex(g)..])
    ensures var s := Fano.SplitIndex(g);
      VisTrace(m, g, prefix) == [VisStep(SplitAction, m, Chars(g), Chars(g[..s]), Chars(g[s..]))]
        + VisTrace(m, g[..s], prefix + "0")
        + VisTrace(Fano.Assign(m, Fano.Leaves(g[..s], prefix + "0")), g[s..], prefix + "1")
  {
    Fano.PartsSplittable(g);
  }

  /** The shared `newSteps` and `codeMap` of the component's coder. */
  class Divider {
    var newSteps: seq<VisStep>
    var codeMap: map<string, string>

    constructor()
      ensures newSteps == [] && codeMap == map[]
    {
      newSteps := [];
      codeMap := map[];
    }

    /** `divide`. */
    method Divide(group: seq<Symbol>, prefix: string)
      requires Fano.Splittable(group)
      modifies this
      ensures newSteps == old(newSteps) + VisTrace(old(codeMap), group, prefix)
      ensures codeMap == Fano.Assign(old(codeMap), Fano.Leaves(group, prefix))
      decreases |group|
    {
      if |group| == 0 {
        return;
      }
      if |group| == 1 {
        codeMap := codeMap[group[0].ch := OrZero(prefix)];
        newSteps := newSteps + [VisStep(AssignAction, codeMap, Chars(group), [], [])];
        return;
      }
      var splitIndex := Fano.FindSplit(group);
      VisTraceSplit(codeMap, group, prefix);
      Fano.LeavesSplit(group, prefix);
      var group1 := group[..splitIndex];
      var group2 := group[splitIndex..];
      ghost var steps0, codes0 := newSteps, codeMap;
      var st := VisStep(SplitAction, codeMap, Chars(group), Chars(group1), Chars(group2));
      newSteps := newSteps + [st];
      Divide(group1, prefix + "0");
      ghost var mid := codeMap;
      Divide(group2, prefix + "1");
      ConcatAssoc(steps0, [st], VisTrace(codes0, group1, prefix + "0"));
      ConcatAssoc(steps0, [st] + VisTrace(codes0, group1, prefix + "0"), VisTrace(mid, group2, prefix + "1"));
      Fano.AssignAppend(codes0, Fano.Leaves(group1, prefix + "0"), Fano.Leaves(group2, prefix + "1"));
    }
  }

  /**
   * The component's `fanoAlgorithm`: its steps, and a code map equal to the
   * library's codes for the same symbols.
   */
  method FanoCodes(items: seq<Symbol>) returns (steps: seq<VisStep>, codes: map<string, string>)
    requires Fano.NonNegative(items)
    ensures Fano.Splittable(SortDescending(items))
    ensures steps == VisTrace(map[], SortDescending(items), "")
    ensures codes == Fano.Assign(map[], Fano.Leaves(SortDescending(items), ""))
  {
    var sorted := SortDescending(items);
    assert forall i :: 0 <= i < |sorted| ==> sorted[i] in multiset(items);
    var divider := new Divider();
    divider.Divide(sorted, "");
    steps := divider.newSteps;
    codes := divider.codeMap;
  }

  // ---------------------------------------------------------------- properties

  /**
   * Every snapshot holds at least the keys of the starting map and at most
   * those of the map after the whole group.
   */
  lemma {:induction false} SnapshotsBounded(m: map<string, string>, g: seq<Symbol>, prefix: string)
    requires Fano.Splittable(g)
    ensures forall i :: 0 <= i < |VisTrace(m, g, prefix)| ==>
      m.Keys <= VisTrace(m, g, prefix)[i].codes.Keys <= Fano.Assign(m, Fano.Leaves(g, prefix)).Keys
    decreases |g|
  {
    if |g| == 1 {
      var ls := Fano.Leaves(g, prefix);
      assert ls == [Fano.Leaf(g[0].ch, OrZero(prefix))];
      assert ls[..0] == [];
    } else if |g| >= 2 {
      VisTraceSplit(m, g, prefix);
      Fano.LeavesSplit(g, prefix);
      var s := Fano.SplitIndex(g);
      var l0 := Fano.Leaves(g[..s], prefix + "0");
      var r0 := Fano.Leaves(g[s..], prefix + "1");
      var mid := Fano.Assign(m, l0);
      SnapshotsBounded(m, g[..s], prefix + "0");
      SnapshotsBounded(mid, g[s..], prefix + "1");
      Fano.AssignAppend(m, l0, r0);
      Fano.AssignKeys(m, l0);
      Fano.AssignKeys(mid, r0);
      var t := VisTrace(m, g, prefix);
      var left := VisTrace(m, g[..s], prefix + "0");
      var right := VisTrace(mid, g[s..], prefix + "1");
      forall i | 0 <= i < |t| ensures m.Keys <= t[i].codes.Keys <= Fano.Assign(m, Fano.Leaves(g, prefix)).Keys {
        Concat3Index(t[0], left, right, i);
      }
    }
  }

  /** The snapshots only grow: a later step's map has every key of an earlier one. */
  lemma {:induction false} SnapshotsGrow(m: map<string, string>, g: seq<Symbol>, prefix: string)
    requires Fano.Splittable(g)
    ensures forall i, j :: 0 <= i < j < |VisTrace(m, g, prefix)| ==>
      VisTrace(m, g, prefix)[i].codes.Keys <= VisTrace(m, g, prefix)[j].codes.Keys
    decreases |g|
  {
    if |g| >= 2 {
      VisTraceSplit(m, g, prefix);
      var s := Fano.SplitIndex(g);
      var l0 := Fano.Leaves(g[..s], prefix + "0");
      var mid := Fano.Assign(m, l0);
      SnapshotsGrow(m, g[..s], prefix + "0");
      SnapshotsGrow(mid, g[s..], prefix + "1");
      SnapshotsBounded(m, g[..s], prefix + "0");
      SnapshotsBounded(mid, g[s..], prefix + "1");
      var t := VisTrace(m, g, prefix);
      var left := VisTrace(m, g[..s], prefix + "0");
      var right := VisTrace(mid, g[s..], prefix + "1");
      Fano.AssignKeys(m, l0);
      assert m.Keys <= mid.Keys;
      forall i, j | 0 <= i < j < |t| ensures t[i].codes.Keys <= t[j].codes.Keys {
        Concat3Index(t[0], left, right, i);
        Concat3Index(t[0], left, right, j);
        if j < 1 + |left| {
          if i > 0 {
            assert left[i - 1].codes.Keys <= left[j - 1].codes.Keys;
          }
        } else if i == 0 {
          assert m.Keys <= right[j - 1 - |left|].codes.Keys;
        } else if i < 1 + |left| {
          assert left[i - 1].codes.Keys <= mid.Keys <= right[j - 1 - |left|].codes.Keys;
        } else {
          assert right[i - 1 - |left|].codes.Keys <= right[j - 1 - |left|].codes.Keys;
        }
      }
    }
  }

  /** One split step per group of two or more and one assign step per symbol: 2n - 1 steps. */
  lemma {:induction false} VisTraceLength(m: map<string, string>, g: seq<Symbol>, prefix: string)
    requires Fano.Splittable(g)
    ensures |VisTrace(m, g, prefix)| == if |g| == 0 then 0 else 2 * |g| - 1
    decreases |g|
  {
    if |g| >= 2 {
      VisTraceSplit(m, g, prefix);
      var s := Fano.SplitIndex(g);
      VisTraceLength(m, g[..s], prefix + "0");
      VisTraceLength(Fano.Assign(m, Fano.Leaves(g[..s], prefix + "0")), g[s..], prefix + "1");
    }
  }

  /** A split step cuts its group into two non-empty halves, left then right. */
  predicate Halves(st: VisStep)
  {
    st.action == SplitAction ==> st.group1 != [] && st.group2 != [] && st.group1 + st.group2 == st.currentGroup
  }

  /** Every split step cuts its group into two non-empty halves, left then right. */
  lemma {:induction false} SplitStepsHalve(m: map<string, string>, g: seq<Symbol>, prefix: string)
    requires Fano.Splittable(g)
    ensures forall k :: 0 <= k < |VisTrace(m, g, prefix)| ==> Halves(VisTrace(m, g, prefix)[k])
    decreases |g|
  {
    if |g| >= 2 {
      VisTraceSplit(m, g, prefix);
      var s := Fano.SplitIndex(g);
      var mid := Fano.Assign(m, Fano.Leaves(g[..s], prefix + "0"));
      SplitStepsHalve(m, g[..s], prefix + "0");
      SplitStepsHalve(mid, g[s..], prefix + "1");
      CharsAppend(g[..s], g[s..]);
      TakeDrop(g, s);
      HalvesConcat(VisStep(SplitAction, m, Chars(g), Chars(g[..s]), Chars(g[s..])),
        VisTrace(m, g[..s], prefix + "0"), VisTrace(mid, g[s..], prefix + "1"));
    }
  }

  lemma HalvesConcat(x: VisStep, a: seq<VisStep>, b: seq<VisStep>)
    requires Halves(x)
    requires forall k :: 0 <= k < |a| ==> Halves(a[k])
    requires forall k :: 0 <= k < |b| ==> Halves(b[k])
    ensures forall k :: 0 <= k < |[x] + a + b| ==> Halves(([x] + a + b)[k])
  {
    forall k | 0 <= k < |[x] + a + b|
      ensures Halves(([x] + a + b)[k])
    {
      Concat3Index(x, a, b, k);
    }
  }

  /** The characters of the assign steps, in trace order. */
  function Assigned(t: seq<VisStep>): (r: seq<string>)
  {
    if t == [] then []
    else Assigned(t[..|t| - 1]) + (if t[|t| - 1].action == AssignAction then t[|t| - 1].currentGroup else [])
  }

  lemma {:induction false} AssignedAppend(a: seq<VisStep>, b: seq<VisStep>)
    ensures Assigned(a + b) == Assigned(a) + Assigned(b)
    decreases |b|
  {
    if b == [] {
      assert a + b == a;
    } else {
      assert (a + b)[..|a + b| - 1] == a + b[..|b| - 1];
      AssignedAppend(a, b[..|b| - 1]);
    }
  }

  /** The assign steps visit the symbols one by one in sorted order. */
  lemma {:induction false} AssignStepsInOrder(m: map<string, string>, g: seq<Symbol>, prefix: string)
    requires Fano.Splittable(g)
    ensures Assigned(VisTrace(m, g, prefix)) == Chars(g)
    decreases |g|
  {
    var t := VisTrace(m, g, prefix);
    if |g| == 1 {
      assert t[..0] == [];
    } else if |g| >= 2 {
      VisTraceSplit(m, g, prefix);
      var s := Fano.SplitIndex(g);
      var mid := Fano.Assign(m, Fano.Leaves(g[..s], prefix + "0"));
      AssignStepsInOrder(m, g[..s], prefix + "0");
      AssignStepsInOrder(mid, g[s..], prefix + "1");
      var left := VisTrace(m, g[..s], prefix + "0");
      var right := VisTrace(mid, g[s..], prefix + "1");
      var st := VisStep(SplitAction, m, Chars(g), Chars(g[..s]), Chars(g[s..]));
      AssignedSplit(st, left, right, g[..s], g[s..]);
      TakeDrop(g, s);
    }
  }

  lemma AssignedSplit(st: VisStep, left: seq<VisStep>, right: seq<VisStep>, a: seq<Symbol>, b: seq<Symbol>)
    requires st.action == SplitAction && Assigned(left) == Chars(a) && Assigned(right) == Chars(b)
    ensures Assigned([st] + left + right) == Chars(a + b)
  {
    assert [st][..0] == [];
    assert Assigned([st]) == [];
    AssignedAppend([st] + left, right);
    AssignedAppend([st], left);
    assert [] + Chars(a) == Chars(a);
    CharsAppend(a, b);
  }

  /** The component's state that `handleAddSymbol` reads and writes. */
  class Visualizer {
    var symbols: seq<Symbol>
    var newChar: string
    var newProb: string
    var steps: seq<VisStep>

    /** Every symbol's probability is in (0, 1]. */
    predicate Valid()
      reads this
    {
      forall i :: 0 <= i < |symbols| ==> 0.0 < symbols[i].prob <= 1.0
    }

    /** The initial alphabet A 0.4, B 0.3, C 0.2, D 0.1. */
    constructor()
      ensures symbols == [Symbol("A", 0.4), Symbol("B", 0.3), Symbol("C", 0.2), Symbol("D", 0.1)]
      ensures Valid() && steps == [] && newChar == "" && newProb == ""
    {
      symbols := [Symbol("A", 0.4), Symbol("B", 0.3), Symbol("C", 0.2), Symbol("D", 0.1)];
      newChar := "";
      newProb := "";
      steps := [];
    }

    /**
     * `handleAddSymbol`, where `parsed` is `parseFloat(newProb)` (None for
     * NaN): with both fields filled in and 0 < p <= 1 the symbol is appended,
     * the fields are cleared and the steps are reset; otherwise nothing changes.
     */
    method HandleAddSymbol(parsed: Option<real>)
      requires Valid()
      modifies this
      ensures Valid()
      ensures var accepted := old(newChar) != "" && old(newProb) != "" && parsed.Some? && 0.0 < parsed.value <= 1.0;
        if accepted then
          symbols == old(symbols) + [Symbol(old(newChar), parsed.value)] && newChar == "" && newProb == "" && steps == []
        else
          symbols == old(symbols) && newChar == old(newChar) && newProb == old(newProb) && steps == old(steps)
    {
      if newChar != "" && newProb != "" {
        if parsed.Some? && parsed.value > 0.0 && parsed.value <= 1.0 {
          symbols := symbols + [Symbol(newChar, parsed.value)];
          newChar := "";
          newProb := "";
          steps := [];
        }
      }
    }

    /** `generateCodes`: runs the coder on the current symbols and keeps its steps. */
    method GenerateCodes() returns (codes: map<string, string>)
      requires Valid()
      modifies this
      ensures Valid() && symbols == old(symbols)
      ensures Fano.Splittable(SortDescending(symbols))
      ensures steps == VisTrace(map[], SortDescending(symbols), "")
      ensures codes == Fano.Assign(map[], Fano.Leaves(SortDescending(symbols), ""))
    {
      steps, codes := FanoCodes(symbols);
    }
  }
}
