/**
 * The graph editor of the Hamilton page: the handlers that add and remove
 * nodes and edges, run the cycle search with a cap of five, and parse and
 * validate a typed test path such as "A -> B -> C -> A".
 */
module GraphEditor {
  import opened Common
  import opened Hamilton

  /* ---------- Strings ---------- */

  /** The characters JavaScript's `String.prototype.trim` removes: white space and line terminators. */
  predicate IsSpace(c: char)
  {
    c == '\t' || c == '\n' || c == '\U{000B}' || c == '\U{000C}' || c == '\r' || c == ' ' ||
    c == '\U{00A0}' || c == '\U{1680}' || ('\U{2000}' <= c <= '\U{200A}') ||
    c == '\U{2028}' || c == '\U{2029}' || c == '\U{202F}' || c == '\U{205F}' ||
    c == '\U{3000}' || c == '\U{FEFF}'
  }

  /** `s` without its leading white space. */
  function TrimStart(s: string): (r: string)
    ensures |r| <= |s| && r == s[|s| - |r|..]
    ensures r == [] || !IsSpace(r[0])
  {
    if s != [] && IsSpace(s[0]) then TrimStart(s[1..]) else s
  }

  /** `s` without its trailing white space. */
  function TrimEnd(s: string): (r: string)
    ensures |r| <= |s| && r == s[..|r|]
    ensures r == [] || !IsSpace(r[|r| - 1])
  {
    if s != [] && IsSpace(s[|s| - 1]) then TrimEnd(s[..|s| - 1]) else s
  }

  /** `s.trim()`. */
  function Trim(s: string): (r: string)
  {
    TrimEnd(TrimStart(s))
  }

  /** What `TrimStart` drops is white space. */
  lemma {:induction false} TrimStartDrops(s: string)
    ensures forall i :: 0 <= i < |s| - |TrimStart(s)| ==> IsSpace(s[i])
  {
    if s != [] && IsSpace(s[0]) {
      TrimStartDrops(s[1..]);
      forall i | 1 <= i < |s| - |TrimStart(s)|
        ensures IsSpace(s[i])
      {
        assert s[1..][i - 1] == s[i];
      }
    }
  }

  /** What `TrimEnd` drops is white space. */
  lemma {:induction false} TrimEndDrops(s: string)
    ensures forall i :: |TrimEnd(s)| <= i < |s| ==> IsSpace(s[i])
  {
    if s != [] && IsSpace(s[|s| - 1]) {
      TrimEndDrops(s[..|s| - 1]);
    }
  }

  /** The trimmed string is the part of `s` after the leading white space, as long as `Trim(s)`. */
  lemma TrimIsSlice(s: string)
    ensures var a := |s| - |TrimStart(s)|; a + |Trim(s)| <= |s| && Trim(s) == s[a..a + |Trim(s)|]
  {
    var t := TrimStart(s);
    DropTake(s, |s| - |t|, |TrimEnd(t)|);
  }

  /** What trimming drops on either side is white space. */
  lemma TrimDrops(s: string)
    ensures var a := |s| - |TrimStart(s)|;
      (forall i :: 0 <= i < a ==> IsSpace(s[i])) &&
      (forall i :: a + |Trim(s)| <= i < |s| ==> IsSpace(s[i]))
  {
    var t := TrimStart(s);
    var a := |s| - |t|;
    TrimStartDrops(s);
    TrimEndDrops(t);
    forall i | a + |Trim(s)| <= i < |s|
      ensures IsSpace(s[i])
    {
      assert s[i] == t[i - a];
    }
  }

  /** The trimmed string neither starts nor ends with white space. */
  lemma TrimEnds(s: string)
    ensures Trim(s) != [] ==> !IsSpace(Trim(s)[0]) && !IsSpace(Trim(s)[|Trim(s)| - 1])
  {
    var t := TrimStart(s);
    if Trim(s) != [] {
      assert Trim(s)[0] == t[0];
    }
  }

  /** A label is blank, so ignored, exactly when all of it is white space. */
  lemma TrimEmpty(s: string)
    ensures Trim(s) == [] <==> forall i :: 0 <= i < |s| ==> IsSpace(s[i])
  {
    TrimIsSlice(s);
    TrimDrops(s);
    TrimEnds(s);
    if Trim(s) != [] {
      var a := |s| - |TrimStart(s)|;
      assert Trim(s)[0] == s[a];
    }
  }

  /** A string that neither starts nor ends with white space is its own trim. */
  lemma TrimNoop(s: string)
    requires s == [] || (!IsSpace(s[0]) && !IsSpace(s[|s| - 1]))
    ensures Trim(s) == s
  {
  }

  /** Trimming twice is trimming once. */
  lemma TrimIdempotent(s: string)
    ensures Trim(Trim(s)) == Trim(s)
  {
    TrimEnds(s);
    TrimNoop(Trim(s));
  }

  /** Upper-casing a character keeps it white space or not. */
  lemma UpperCharSpace(c: char)
    ensures IsSpace(UpperChar(c)) == IsSpace(c)
  {
    if 'a' <= c <= 'z' {
      assert 'A' <= UpperChar(c) <= 'Z';
    }
  }

  /** Upper-casing a trimmed string leaves it trimmed. */
  lemma UpperKeepsTrim(s: string)
    requires Trim(s) == s
    ensures Trim(Upper(s)) == Upper(s)
  {
    if s != [] {
      TrimEnds(s);
      UpperCharSpace(s[0]);
      UpperCharSpace(s[|s| - 1]);
    }
    TrimNoop(Upper(s));
  }

  /** Upper-casing twice is upper-casing once. */
  lemma UpperIdempotent(s: string)
    ensures Upper(Upper(s)) == Upper(s)
  {
  }

  /* ---------- Filtering ---------- */

  /** `s.filter(keep)`. */
  function Filter<T>(s: seq<T>, keep: T -> bool): (r: seq<T>)
    ensures |r| <= |s|
  {
    if s == [] then []
    else (if keep(s[0]) then [s[0]] else []) + Filter(s[1..], keep)
  }

  /** Filtering distributes over concatenation, so the kept entries stay in their order. */
  lemma {:induction false} FilterConcat<T>(a: seq<T>, b: seq<T>, keep: T -> bool)
    ensures Filter(a + b, keep) == Filter(a, keep) + Filter(b, keep)
  {
    if a != [] {
      var head := if keep(a[0]) then [a[0]] else [];
      assert (a + b)[0] == a[0] && (a + b)[1..] == a[1..] + b;
      assert Filter(a + b, keep) == head + Filter(a[1..] + b, keep);
      assert Filter(a, keep) == head + Filter(a[1..], keep);
      FilterConcat(a[1..], b, keep);
      ConcatAssoc(head, Filter(a[1..], keep), Filter(b, keep));
    } else {
      assert a + b == b;
    }
  }

  /** Each kept value occurs as often as before, every other value not at all. */
  lemma {:induction false} FilterCount<T>(s: seq<T>, keep: T -> bool, x: T)
    ensures multiset(Filter(s, keep))[x] == if keep(x) then multiset(s)[x] else 0
  {
    if s != [] {
      var head := if keep(s[0]) then [s[0]] else [];
      FilterCount(s[1..], keep, x);
      assert multiset(Filter(s, keep)) == multiset(head) + multiset(Filter(s[1..], keep));
      assert s == [s[0]] + s[1..];
      assert multiset(s) == multiset([s[0]]) + multiset(s[1..]);
    }
  }

  /** The kept entries are exactly the entries that pass the test. */
  lemma FilterMembers<T>(s: seq<T>, keep: T -> bool)
    ensures forall x :: x in Filter(s, keep) <==> x in s && keep(x)
  {
    forall x
      ensures x in Filter(s, keep) <==> x in s && keep(x)
    {
      FilterCount(s, keep, x);
    }
  }

  /** Where a kept entry came from: a position of the input holding it, which passes the test. */
  lemma {:induction false} FilterSource<T>(s: seq<T>, keep: T -> bool, x: T) returns (i: nat)
    requires x in Filter(s, keep)
    ensures i < |s| && s[i] == x && keep(x)
  {
    var head := if keep(s[0]) then [s[0]] else [];
    assert Filter(s, keep) == head + Filter(s[1..], keep);
    if x in head {
      i := 0;
    } else {
      var j := FilterSource(s[1..], keep, x);
      i := j + 1;
    }
  }

  /** A relation that holds between every earlier and later entry still holds after filtering. */
  lemma {:induction false} FilterPairwise<T>(s: seq<T>, keep: T -> bool, apart: (T, T) -> bool)
    requires forall i, j :: 0 <= i < j < |s| ==> apart(s[i], s[j])
    ensures forall i, j :: 0 <= i < j < |Filter(s, keep)| ==> apart(Filter(s, keep)[i], Filter(s, keep)[j])
  {
    if s != [] {
      var rest := Filter(s[1..], keep);
      FilterPairwise(s[1..], keep, apart);
      forall y | y in rest
        ensures apart(s[0], y)
      {
        var j := FilterSource(s[1..], keep, y);
        assert s[1..][j] == s[j + 1];
      }
      if keep(s[0]) {
        assert Filter(s, keep) == [s[0]] + rest;
        ConsPairwise(s[0], rest, apart);
      } else {
        assert Filter(s, keep) == rest;
      }
    }
  }

  lemma ConsPairwise<T>(x: T, rest: seq<T>, apart: (T, T) -> bool)
    requires forall y :: y in rest ==> apart(x, y)
    requires forall i, j :: 0 <= i < j < |rest| ==> apart(rest[i], rest[j])
    ensures forall i, j :: 0 <= i < j < |[x] + rest| ==> apart(([x] + rest)[i], ([x] + rest)[j])
  {
    forall i, j | 0 <= i < j < |[x] + rest|
      ensures apart(([x] + rest)[i], ([x] + rest)[j])
    {
      assert ([x] + rest)[j] == rest[j - 1];
      if i > 0 {
        assert ([x] + rest)[i] == rest[i - 1];
      }
    }
  }

  /* ---------- Editor state ---------- */

  /** No two nodes share an id. */
  predicate UniqueIds(nodes: seq<Node>)
  {
    forall i, j :: 0 <= i < j < |nodes| ==> nodes[i].id != nodes[j].id
  }

  function DifferentIds(m: Node, n: Node): (r: bool) { m.id != n.id }

  /** Two edges that do not join the same ordered pair of nodes. */
  function DifferentEnds(e: Edge, f: Edge): (r: bool) { e.from != f.from || e.to != f.to }

  /** No edge is a self-loop and no two edges join the same ordered pair. */
  predicate SimpleEdges(edges: seq<Edge>)
  {
    (forall e :: e in edges ==> e.from != e.to) &&
    forall i, j :: 0 <= i < j < |edges| ==> DifferentEnds(edges[i], edges[j])
  }

  /** Appending a node whose id is new keeps the ids unique. */
  lemma UniqueIdsSnoc(nodes: seq<Node>, n: Node)
    requires UniqueIds(nodes) && forall k :: 0 <= k < |nodes| ==> nodes[k].id != n.id
    ensures UniqueIds(nodes + [n])
  {
  }

  lemma UniqueIdsDistinct(nodes: seq<Node>)
    ensures UniqueIds(nodes) <==> Distinct(Ids(nodes))
  {
  }

  /** The nodes left after removing the node `id`. */
  function NodesWithout(nodes: seq<Node>, id: string): (r: seq<Node>)
  {
    Filter(nodes, (n: Node) => n.id != id)
  }

  /** The edges left after removing the node `id`: those touching neither end. */
  function EdgesDetached(edges: seq<Edge>, id: string): (r: seq<Edge>)
  {
    Filter(edges, (e: Edge) => e.from != id && e.to != id)
  }

  /** The edges left after removing the edge `id`. */
  function EdgesWithout(edges: seq<Edge>, id: string): (r: seq<Edge>)
  {
    Filter(edges, (e: Edge) => e.id != id)
  }

  /**
   * Removing a node drops exactly the nodes with that id and the edges
   * touching it; every other node and edge stays, as often as before, and
   * no surviving edge refers to the removed id.
   */
  lemma RemoveNodeMeaning(nodes: seq<Node>, edges: seq<Edge>, id: string, n: Node, e: Edge)
    ensures multiset(NodesWithout(nodes, id))[n] == if n.id != id then multiset(nodes)[n] else 0
    ensures multiset(EdgesDetached(edges, id))[e] == if e.from != id && e.to != id then multiset(edges)[e] else 0
    ensures forall f :: f in EdgesDetached(edges, id) ==> f in edges && f.from != id && f.to != id
  {
    FilterCount(nodes, (m: Node) => m.id != id, n);
    FilterCount(edges, (f: Edge) => f.from != id && f.to != id, e);
    FilterMembers(edges, (f: Edge) => f.from != id && f.to != id);
  }

  /** Removing a node removes it from the front and the back part independently, so order is kept. */
  lemma RemoveNodeKeepsOrder(a: seq<Node>, b: seq<Node>, c: seq<Edge>, d: seq<Edge>, id: string)
    ensures NodesWithout(a + b, id) == NodesWithout(a, id) + NodesWithout(b, id)
    ensures EdgesDetached(c + d, id) == EdgesDetached(c, id) + EdgesDetached(d, id)
  {
    FilterConcat(a, b, (n: Node) => n.id != id);
    FilterConcat(c, d, (e: Edge) => e.from != id && e.to != id);
  }

  /** Removing an edge drops exactly the edges carrying that id, in order, and nothing else. */
  lemma RemoveEdgeMeaning(a: seq<Edge>, b: seq<Edge>, id: string, e: Edge)
    ensures multiset(EdgesWithout(a, id))[e] == if e.id != id then multiset(a)[e] else 0
    ensures EdgesWithout(a + b, id) == EdgesWithout(a, id) + EdgesWithout(b, id)
  {
    FilterCount(a, (f: Edge) => f.id != id, e);
    FilterConcat(a, b, (f: Edge) => f.id != id);
  }

  /* ---------- Test path ---------- */

  predicate NonEmpty(p: string) { p != "" }

  /** Each part trimmed and upper-cased. */
  function Cleaned(parts: seq<string>): (r: seq<string>)
    ensures |r| == |parts|
  {
    seq(|parts|, i requires 0 <= i < |parts| => Upper(Trim(parts[i])))
  }

  /**
   * The path typed into the test box: split on "->", each part trimmed
   * and upper-cased, empty parts dropped.
   */
  function ParsePath(text: string): (r: seq<string>)
  {
    Filter(Cleaned(Split(text, "->")), NonEmpty)
  }

  /** Every parsed entry is non-empty, trimmed and upper-case. */
  lemma ParsePathEntries(text: string, name: string)
    requires name in ParsePath(text)
    ensures name != "" && Trim(name) == name && Upper(name) == name
  {
    var parts := Split(text, "->");
    var i := KeptCleanedEntry(parts, name);
    CleanedPartFixed(parts[i]);
  }

  /** An entry kept by the parser is a non-empty cleaned part. */
  lemma KeptCleanedEntry(parts: seq<string>, name: string) returns (i: nat)
    requires name in Filter(Cleaned(parts), NonEmpty)
    ensures i < |parts| && name == Upper(Trim(parts[i])) && name != ""
  {
    i := FilterSource(Cleaned(parts), NonEmpty, name);
  }

  /** A trimmed, upper-cased part is left alone by trimming and upper-casing again. */
  lemma CleanedPartFixed(part: string)
    ensures Trim(Upper(Trim(part))) == Upper(Trim(part)) && Upper(Upper(Trim(part))) == Upper(Trim(part))
  {
    TrimIdempotent(part);
    UpperKeepsTrim(Trim(part));
    UpperIdempotent(Trim(part));
  }

  /** Names already trimmed and upper-case come through cleaning unchanged. */
  lemma CleanedFixed(names: seq<string>)
    requires forall k :: 0 <= k < |names| ==> Trim(names[k]) == names[k] && Upper(names[k]) == names[k]
    ensures Cleaned(names) == names
  {
  }

  /**
   * Typing names that are non-empty, trimmed, upper-case and free of '-'
   * joined by "->" gives back exactly those names.
   */
  lemma ParseJoinedPath(names: seq<string>)
    requires forall k :: 0 <= k < |names| ==>
      names[k] != "" && Trim(names[k]) == names[k] && Upper(names[k]) == names[k] && '-' !in names[k]
    ensures ParsePath(Join(names, "->")) == names
  {
    if names == [] {
      ParseEmpty();
    } else {
      assert "->"[0] == '-';
      SplitJoin(names, "->");
      CleanedFixed(names);
      KeepAll(names, NonEmpty);
    }
  }

  /** An empty text is an empty path. */
  lemma ParseEmpty()
    ensures ParsePath("") == []
  {
    assert Split("", "->") == [""];
    var c := Cleaned([""]);
    assert Trim("") == "";
    assert |c| == 1 && c[0] == Upper(Trim(""));
    assert Filter(c, NonEmpty) == [];
  }

  lemma {:induction false} KeepAll<T>(s: seq<T>, keep: T -> bool)
    requires forall k :: 0 <= k < |s| ==> keep(s[k])
    ensures Filter(s, keep) == s
  {
    if s != [] {
      KeepAll(s[1..], keep);
    }
  }

  /* ---------- The editor ---------- */

  /** The graph the page starts with: the square A, B, C, D with its sides and both diagonals in one direction. */
  const InitialNodes: seq<Node> := [Node("A", "A"), Node("B", "B"), Node("C", "C"), Node("D", "D")]
  const InitialEdges: seq<Edge> := [Edge("A", "B", "1"), Edge("B", "C", "2"), Edge("C", "D", "3"),
                                    Edge("D", "A", "4"), Edge("A", "C", "5"), Edge("B", "D", "6")]

  lemma InitialGraphValid()
    ensures UniqueIds(InitialNodes) && SimpleEdges(InitialEdges)
  {
    InitialIdsUnique();
    InitialEdgesApart();
    forall e | e in InitialEdges
      ensures e.from != e.to
    {
      assert e.from[0] != e.to[0];
    }
  }

  /** The page's starting graph has the Hamilton cycle A, B, C, D, A, so searching it finds at least one cycle. */
  lemma InitialGraphHasCycle()
    ensures IsCycle(Ids(InitialNodes), InitialEdges, ["A", "B", "C", "D", "A"])
  {
    var p := ["A", "B", "C", "D", "A"];
    var e := InitialEdges;
    assert e[0].from == p[0] && e[0].to == p[1];
    assert e[1].from == p[1] && e[1].to == p[2];
    assert e[2].from == p[2] && e[2].to == p[3];
    assert e[3].from == p[3] && e[3].to == p[4];
    assert Ids(InitialNodes)[0] == p[0];
    forall i, j | 0 <= i < j < 4
      ensures p[..4][i] != p[..4][j]
    {
      assert p[i][0] != p[j][0];
    }
  }

  lemma InitialIdsUnique()
    ensures UniqueIds(InitialNodes)
  {
    forall i, j | 0 <= i < j < |InitialNodes|
      ensures InitialNodes[i].id != InitialNodes[j].id
    {
      assert InitialNodes[i].id[0] != InitialNodes[j].id[0];
    }
  }

  lemma InitialEdgesApart()
    ensures forall i, j :: 0 <= i < j < |InitialEdges| ==> DifferentEnds(InitialEdges[i], InitialEdges[j])
  {
    var e := InitialEdges;
    var rest := [e[5]];
    ConsPairwise(e[4], rest, DifferentEnds);
    rest := [e[4]] + rest;
    ConsPairwise(e[3], rest, DifferentEnds);
    rest := [e[3]] + rest;
    ConsPairwise(e[2], rest, DifferentEnds);
    rest := [e[2]] + rest;
    ConsPairwise(e[1], rest, DifferentEnds);
    rest := [e[1]] + rest;
    ConsPairwise(e[0], rest, DifferentEnds);
    assert [e[0]] + rest == e;
  }

  /** What the test box shows after a check: the verdict and the issues. */
  datatype TestResult = TestResult(isValid: bool, issues: seq<Issue>)

  /** The state of the editor's handlers: the graph and the form fields. */
  class Editor {
    var nodes: seq<Node>
    var edges: seq<Edge>
    var newNodeLabel: string
    var fromNode: string
    var toNode: string
    var cycles: seq<HamiltonCycle>
    var selectedCycle: nat
    var testPath: string
    var testResult: Option<TestResult>

    /** Node ids stay unique; no edge is a self-loop or joins the same pair as another. */
    ghost predicate Valid()
      reads this`nodes, this`edges
    {
      UniqueIds(nodes) && SimpleEdges(edges)
    }

    /** The initial graph, empty form fields, no cycles and no test result. */
    constructor()
      ensures Valid()
      ensures nodes == InitialNodes && edges == InitialEdges
      ensures newNodeLabel == "" && fromNode == "" && toNode == "" && testPath == ""
      ensures cycles == [] && selectedCycle == 0 && testResult == None
    {
      InitialGraphValid();
      nodes, edges := InitialNodes, InitialEdges;
      newNodeLabel, fromNode, toNode, testPath := "", "", "", "";
      cycles, selectedCycle, testResult := [], 0, None;
    }

    /**
     * `handleAddNode`: a label that is not blank becomes a node whose id
     * and label are the upper-cased label (untrimmed); it is appended
     * and the field cleared unless a node with that id already exists.
     * Otherwise nothing changes.
     */
    method AddNode()
      requires Valid()
      modifies this`nodes, this`newNodeLabel
      ensures Valid()
      ensures var id := Upper(old(newNodeLabel));
        if Trim(old(newNodeLabel)) != "" && forall k :: 0 <= k < |old(nodes)| ==> old(nodes)[k].id != id then
          nodes == old(nodes) + [Node(id, id)] && newNodeLabel == ""
        else
          nodes == old(nodes) && newNodeLabel == old(newNodeLabel)
    {
      if Trim(newNodeLabel) != "" {
        var newNode := Node(Upper(newNodeLabel), Upper(newNodeLabel));
        var k := 0;
        while k < |nodes| && nodes[k].id != newNode.id
          invariant 0 <= k <= |nodes|
          invariant forall i :: 0 <= i < k ==> nodes[i].id != newNode.id
        {
          k := k + 1;
        }
        if k == |nodes| {
          UniqueIdsSnoc(nodes, newNode);
          nodes := nodes + [newNode];
          newNodeLabel := "";
        }
      }
    }

    /**
     * `handleAddEdge`: with both ends chosen and different, and no edge
     * yet from `fromNode` to `toNode`, appends that edge under `edgeId`
     * (the page derives it from the clock) and clears both fields.
     * Otherwise nothing changes.
     */
    method AddEdge(edgeId: string)
      requires Valid()
      modifies this`edges, this`fromNode, this`toNode
      ensures Valid()
      ensures var from, to := old(fromNode), old(toNode);
        if from != "" && to != "" && from != to &&
           forall k :: 0 <= k < |old(edges)| ==> !(old(edges)[k].from == from && old(edges)[k].to == to) then
          edges == old(edges) + [Edge(from, to, edgeId)] && fromNode == "" && toNode == ""
        else
          edges == old(edges) && fromNode == from && toNode == to
    {
      if fromNode != "" && toNode != "" && fromNode != toNode {
        var k := 0;
        while k < |edges| && !(edges[k].from == fromNode && edges[k].to == toNode)
          invariant 0 <= k <= |edges|
          invariant forall i :: 0 <= i < k ==> !(edges[i].from == fromNode && edges[i].to == toNode)
        {
          k := k + 1;
        }
        if k == |edges| {
          edges := edges + [Edge(fromNode, toNode, edgeId)];
          fromNode, toNode := "", "";
        }
      }
    }

    /** `handleRemoveNode(id)`: drops the node and every edge touching it. */
    method RemoveNode(id: string)
      requires Valid()
      modifies this`nodes, this`edges
      ensures Valid()
      ensures nodes == NodesWithout(old(nodes), id) && edges == EdgesDetached(old(edges), id)
    {
      FilterPairwise(nodes, (n: Node) => n.id != id, DifferentIds);
      FilterPairwise(edges, (e: Edge) => e.from != id && e.to != id, DifferentEnds);
      FilterMembers(edges, (e: Edge) => e.from != id && e.to != id);
      nodes := NodesWithout(nodes, id);
      edges := EdgesDetached(edges, id);
    }

    /** `handleRemoveEdge(id)`: drops the edges carrying that id. */
    method RemoveEdge(id: string)
      requires Valid()
      modifies this`edges
      ensures Valid()
      ensures edges == EdgesWithout(old(edges), id)
    {
      FilterPairwise(edges, (e: Edge) => e.id != id, DifferentEnds);
      FilterMembers(edges, (e: Edge) => e.id != id);
      edges := EdgesWithout(edges, id);
    }

    /**
     * `handleFindCycles`: searches with a cap of five and selects the
     * first; every cycle shown is a valid one and there are at most five.
     * Fewer than five are shown only when every cycle of the graph has the
     * key of one shown, so a graph with a cycle shows at least one.
     */
    method FindCycles()
      modifies this`cycles, this`selectedCycle
      ensures |cycles| <= 5 && selectedCycle == 0
      ensures forall i :: 0 <= i < |cycles| ==> cycles[i].isValid && IsCycle(Ids(nodes), edges, cycles[i].path)
      ensures forall i, j :: 0 <= i < j < |cycles| ==> cycles[i].path != cycles[j].path
      ensures |cycles| < 5 ==>
        forall p :: IsCycle(Ids(nodes), edges, p) ==> exists i :: 0 <= i < |cycles| && Key(cycles[i].path) == Key(p)
      ensures (exists p :: IsCycle(Ids(nodes), edges, p)) ==> cycles != []
    {
      cycles := FindHamiltonCycles(nodes, edges, 5);
      selectedCycle := 0;
    }

    /** `handleTestCycle`: parses the typed path and shows the validator's verdict and issues. */
    method TestCycle()
      modifies this`testResult
      ensures var issues := Issues(ParsePath(testPath), Ids(nodes), edges);
        testResult == Some(TestResult(issues == [], issues))
    {
      var path := ParsePath(testPath);
      var isValid, issues := ValidateHamiltonCycle(path, nodes, edges);
      testResult := Some(TestResult(isValid, issues));
    }
  }
}
