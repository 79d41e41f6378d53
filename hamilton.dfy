/**
 * Hamilton cycles in a directed graph given as a node list and an edge
 * list: the adjacency list, the exhaustive backtracking search with its
 * result cap and de-duplication, the issue-collecting path validator, the
 * completeness test and the graph counts.
 */
module Hamilton {
  import opened Common

  /** A node and the label drawn on it; its canvas coordinates play no part in the algorithms. */
  datatype Node = Node(id: string, caption: string)

  datatype Edge = Edge(from: string, to: string, id: string)

  datatype HamiltonCycle = HamiltonCycle(path: seq<string>, isValid: bool)

  function Ids(nodes: seq<Node>): (r: seq<string>)
    ensures |r| == |nodes| && forall i :: 0 <= i < |nodes| ==> r[i] == nodes[i].id
  {
    seq(|nodes|, i requires 0 <= i < |nodes| => nodes[i].id)
  }

  /* ---------- Adjacency ---------- */

  /** There is an edge from `a` to `b`. */
  predicate Adjacent(edges: seq<Edge>, a: string, b: string)
  {
    exists k :: 0 <= k < |edges| && edges[k].from == a && edges[k].to == b
  }

  /** The `to` of every edge leaving `u`, in edge order. */
  function Targets(edges: seq<Edge>, u: string): (r: seq<string>)
  {
    if edges == [] then []
    else Targets(edges[..|edges| - 1], u) + (if edges[|edges| - 1].from == u then [edges[|edges| - 1].to] else [])
  }

  /** Some edge leaves `u`. */
  predicate HasSource(edges: seq<Edge>, u: string)
  {
    exists k :: 0 <= k < |edges| && edges[k].from == u
  }

  /** `b` is among the targets of `a` exactly when some edge goes from `a` to `b`. */
  lemma {:induction false} TargetsMeaning(edges: seq<Edge>, a: string, b: string)
    ensures b in Targets(edges, a) <==> Adjacent(edges, a, b)
  {
    if edges != [] {
      var init := edges[..|edges| - 1];
      TargetsMeaning(init, a, b);
      if b in Targets(init, a) {
        var k :| 0 <= k < |init| && init[k].from == a && init[k].to == b;
        assert edges[k] == init[k];
      }
      if Adjacent(edges, a, b) {
        var k :| 0 <= k < |edges| && edges[k].from == a && edges[k].to == b;
        if k < |init| {
          assert init[k] == edges[k];
        }
      }
    }
  }

  /** A node with targets is the source of some edge. */
  lemma {:induction false} TargetsHaveSource(edges: seq<Edge>, u: string)
    ensures Targets(edges, u) != [] ==> HasSource(edges, u)
  {
    if edges != [] {
      var init := edges[..|edges| - 1];
      TargetsHaveSource(init, u);
      if HasSource(init, u) {
        var k :| 0 <= k < |init| && init[k].from == u;
        assert edges[k] == init[k];
      }
    }
  }

  /**
   * `buildAdjacencyList`: every node id gets an entry, possibly empty, and
   * so does the source of every edge; each entry lists the targets of its
   * key's edges in edge order, whether or not they are nodes.
   */
  method BuildAdjacencyList(nodeIds: seq<string>, edges: seq<Edge>) returns (adj: map<string, seq<string>>)
    ensures forall u :: u in adj <==> u in nodeIds || HasSource(edges, u)
    ensures forall u :: u in adj ==> adj[u] == Targets(edges, u)
  {
    adj := map[];
    for i := 0 to |nodeIds|
      invariant forall u :: u in adj <==> u in nodeIds[..i]
      invariant forall u :: u in adj ==> adj[u] == []
    {
      adj := adj[nodeIds[i] := []];
    }
    assert nodeIds[..|nodeIds|] == nodeIds;
    for k := 0 to |edges|
      invariant forall u :: u in adj <==> u in nodeIds || HasSource(edges[..k], u)
      invariant forall u :: u in adj ==> adj[u] == Targets(edges[..k], u)
    {
      var e := edges[k];
      forall u
        ensures HasSource(edges[..k + 1], u) <==> HasSource(edges[..k], u) || u == e.from
        ensures Targets(edges[..k + 1], u) == Targets(edges[..k], u) + (if e.from == u then [e.to] else [])
      {
        PrefixStep(edges, k, u);
      }
      if e.from !in adj {
        TargetsHaveSource(edges[..k], e.from);
        adj := adj[e.from := []];
      }
      adj := adj[e.from := adj[e.from] + [e.to]];
    }
    assert edges[..|edges|] == edges;
  }

  lemma PrefixStep(edges: seq<Edge>, k: nat, u: string)
    requires k < |edges|
    ensures HasSource(edges[..k + 1], u) <==> HasSource(edges[..k], u) || u == edges[k].from
    ensures Targets(edges[..k + 1], u) == Targets(edges[..k], u) + (if edges[k].from == u then [edges[k].to] else [])
  {
    assert edges[..k + 1][..k] == edges[..k];
    assert edges[..k + 1][k] == edges[k];
    if HasSource(edges[..k], u) {
      var j :| 0 <= j < k && edges[..k][j].from == u;
      assert edges[..k + 1][j] == edges[..k][j];
    }
    if HasSource(edges[..k + 1], u) && u != edges[k].from {
      var j :| 0 <= j < k + 1 && edges[..k + 1][j].from == u;
      assert edges[..k][j] == edges[..k + 1][j];
    }
  }

  /** `adjList[a]?.includes(b)` on the adjacency list of the graph. */
  function Linked(adj: map<string, seq<string>>, a: string, b: string): (r: bool)
  {
    a in adj && b in adj[a]
  }

  /** On the graph's adjacency list, `a` links to `b` exactly when `b` is among the targets of `a`. */
  lemma LinkedMeaning(adj: map<string, seq<string>>, nodeIds: seq<string>, edges: seq<Edge>, a: string, b: string)
    requires forall u :: u in adj <==> u in nodeIds || HasSource(edges, u)
    requires forall u :: u in adj ==> adj[u] == Targets(edges, u)
    ensures Linked(adj, a, b) <==> Adjacent(edges, a, b)
  {
    TargetsHaveSource(edges, a);
    TargetsMeaning(edges, a, b);
  }

  /* ---------- The search ---------- */

  /**
   * What every cycle the search returns satisfies: n + 1 entries that start
   * and end at a node, the first n of them pairwise different, with an
   * edge between every consecutive pair.
   */
  predicate IsCycle(nodeIds: seq<string>, edges: seq<Edge>, p: seq<string>)
  {
    |p| == |nodeIds| + 1 && p[0] in nodeIds && p[|p| - 1] == p[0] && Distinct(p[..|p| - 1]) &&
    forall i :: 0 <= i < |p| - 1 ==> Adjacent(edges, p[i], p[i + 1])
  }

  /** The de-duplication key of a cycle: its entries without the closing one, joined by '-'. */
  function Key(path: seq<string>): (r: string)
  {
    if path == [] then "" else Join(path[..|path| - 1], "-")
  }

  /** Every ordered pair of different nodes is linked. */
  predicate AllPairsLinked(nodeIds: seq<string>, edges: seq<Edge>)
  {
    forall i, j :: 0 <= i < |nodeIds| && 0 <= j < |nodeIds| && nodeIds[i] != nodeIds[j] ==>
      Adjacent(edges, nodeIds[i], nodeIds[j])
  }

  /**
   * The cycles found so far: at most `maxCycles`, each a valid cycle marked
   * valid, no two with the same path, and `keys` holds exactly their keys.
   */
  ghost predicate Found(nodeIds: seq<string>, edges: seq<Edge>, maxCycles: nat, cycles: seq<HamiltonCycle>, keys: set<string>)
  {
    |cycles| <= maxCycles &&
    (forall i {:trigger IsCycle(nodeIds, edges, cycles[i].path)} ::
      0 <= i < |cycles| ==> cycles[i].isValid && IsCycle(nodeIds, edges, cycles[i].path)) &&
    (forall i, j :: 0 <= i < j < |cycles| ==> cycles[i].path != cycles[j].path) &&
    keys == (set i | 0 <= i < |cycles| :: Key(cycles[i].path))
  }

  /** Recording a cycle under the cap whose key is new keeps the found cycles as described. */
  lemma FoundSnoc(nodeIds: seq<string>, edges: seq<Edge>, maxCycles: nat, cycles: seq<HamiltonCycle>, keys: set<string>,
                  p: seq<string>)
    requires Found(nodeIds, edges, maxCycles, cycles, keys)
    requires |cycles| < maxCycles && IsCycle(nodeIds, edges, p) && Key(p) !in keys
    ensures Found(nodeIds, edges, maxCycles, cycles + [HamiltonCycle(p, true)], keys + {Key(p)})
  {
    var c := cycles + [HamiltonCycle(p, true)];
    forall i | 0 <= i < |c|
      ensures c[i].isValid && IsCycle(nodeIds, edges, c[i].path)
    {
      if i < |cycles| {
        assert c[i] == cycles[i] && IsCycle(nodeIds, edges, cycles[i].path);
      }
    }
    forall i, j | 0 <= i < j < |c|
      ensures c[i].path != c[j].path
    {
      assert c[i] == cycles[i];
      if j < |cycles| {
        assert c[j] == cycles[j];
      } else {
        assert Key(cycles[i].path) in keys;
      }
    }
    forall x | x in keys + {Key(p)}
      ensures x in (set i | 0 <= i < |c| :: Key(c[i].path))
    {
      if x in keys {
        var i :| 0 <= i < |cycles| && Key(cycles[i].path) == x;
        assert c[i] == cycles[i];
      } else {
        assert Key(c[|cycles|].path) == x;
      }
    }
    forall i | 0 <= i < |c|
      ensures Key(c[i].path) in keys + {Key(p)}
    {
      if i < |cycles| {
        assert c[i] == cycles[i];
      }
    }
  }

  /**
   * `q` is a path from a node without repeats along edges, and `visitedSet`
   * is the set of its names, all of them within `names`.
   */
  ghost predicate Walk(nodeIds: seq<string>, edges: seq<Edge>, names: set<string>, visitedSet: set<string>, q: seq<string>)
  {
    |q| >= 1 && q[0] in nodeIds && visitedSet == (set x | x in q) && visitedSet <= names && Distinct(q) &&
    forall i :: 0 <= i < |q| - 1 ==> Adjacent(edges, q[i], q[i + 1])
  }

  /** Stepping along an edge to a name not yet on the path extends the walk. */
  lemma WalkStep(nodeIds: seq<string>, edges: seq<Edge>, names: set<string>, visitedSet: set<string>,
                 startNode: string, path: seq<string>, next: string)
    requires Walk(nodeIds, edges, names, visitedSet, [startNode] + path)
    requires next !in visitedSet && next in names && Adjacent(edges, ([startNode] + path)[|path|], next)
    ensures Walk(nodeIds, edges, names, visitedSet + {next}, [startNode] + (path + [next]))
    ensures |names - (visitedSet + {next})| < |names - visitedSet|
  {
    ConcatAssoc([startNode], path, [next]);
    WalkSnoc(nodeIds, edges, names, visitedSet, [startNode] + path, next);
  }

  lemma WalkSnoc(nodeIds: seq<string>, edges: seq<Edge>, names: set<string>, visitedSet: set<string>, q: seq<string>,
                 next: string)
    requires Walk(nodeIds, edges, names, visitedSet, q)
    requires next !in visitedSet && next in names && Adjacent(edges, q[|q| - 1], next)
    ensures Walk(nodeIds, edges, names, visitedSet + {next}, q + [next])
    ensures |names - (visitedSet + {next})| < |names - visitedSet|
  {
    var q' := q + [next];
    assert (set x | x in q') == (set x | x in q) + {next};
    forall i, j | 0 <= i < j < |q'|
      ensures q'[i] != q'[j]
    {
      assert q'[i] == q[i];
      if j < |q| {
        assert q'[j] == q[j];
      } else {
        assert q[i] in visitedSet;
      }
    }
    forall i | 0 <= i < |q'| - 1
      ensures Adjacent(edges, q'[i], q'[i + 1])
    {
      if i < |q| - 1 {
        assert q'[i] == q[i] && q'[i + 1] == q[i + 1];
      }
    }
    assert names - (visitedSet + {next}) == (names - visitedSet) - {next};
  }

  /**
   * A walk through as many names as the graph has nodes that links back to
   * its start closes to a valid cycle, whose key is the walk joined by '-'.
   */
  lemma ClosedCycle(nodeIds: seq<string>, edges: seq<Edge>, names: set<string>, visitedSet: set<string>, q: seq<string>)
    requires Walk(nodeIds, edges, names, visitedSet, q)
    requires |visitedSet| == |nodeIds| && Adjacent(edges, q[|q| - 1], q[0])
    ensures IsCycle(nodeIds, edges, q + [q[0]]) && Key(q + [q[0]]) == Join(q, "-")
  {
    var p := q + [q[0]];
    assert p[..|p| - 1] == q;
    DistinctCard(q);
    forall i | 0 <= i < |p| - 1
      ensures Adjacent(edges, p[i], p[i + 1])
    {
      if i < |q| - 1 {
        assert p[i] == q[i] && p[i + 1] == q[i + 1];
      }
    }
  }

  /** Every cycle from index `from` on extends `q`. */
  predicate Extends(cycles: seq<HamiltonCycle>, from: nat, q: seq<string>)
  {
    forall i :: from <= i < |cycles| ==> q <= cycles[i].path
  }

  lemma ExtendsStep(before: seq<HamiltonCycle>, cycles: seq<HamiltonCycle>, from: nat,
                    startNode: string, path: seq<string>, next: string)
    requires before <= cycles && Extends(before, from, [startNode] + path)
    requires Extends(cycles, |before|, [startNode] + (path + [next]))
    ensures Extends(cycles, from, [startNode] + path)
  {
    var q := [startNode] + path;
    ConcatAssoc([startNode], path, [next]);
    forall i | from <= i < |cycles|
      ensures q <= cycles[i].path
    {
      if i < |before| {
        assert cycles[i] == before[i];
      }
    }
  }

  /** Every cycle that begins with `q` has its key among `keys`. */
  ghost predicate Covered(nodeIds: seq<string>, edges: seq<Edge>, q: seq<string>, keys: set<string>)
  {
    forall p :: IsCycle(nodeIds, edges, p) && q <= p ==> Key(p) in keys
  }

  /** Every cycle that begins with `q` and goes on to one of `next` has its key among `keys`. */
  ghost predicate CoveredVia(nodeIds: seq<string>, edges: seq<Edge>, q: seq<string>, next: seq<string>, keys: set<string>)
  {
    forall p :: IsCycle(nodeIds, edges, p) && q <= p && |q| < |p| && p[|q|] in next ==> Key(p) in keys
  }

  /** Every cycle that begins at one of `starts` has its key among `keys`. */
  ghost predicate CoveredFrom(nodeIds: seq<string>, edges: seq<Edge>, starts: seq<string>, keys: set<string>)
  {
    forall p :: IsCycle(nodeIds, edges, p) && p[0] in starts ==> Key(p) in keys
  }

  /**
   * A walk through as many names as the graph has nodes begins only one
   * cycle: the walk closed back to its start, which needs an edge back.
   */
  lemma OnlyClosing(nodeIds: seq<string>, edges: seq<Edge>, names: set<string>, visitedSet: set<string>,
                    q: seq<string>, p: seq<string>)
    requires Walk(nodeIds, edges, names, visitedSet, q) && |visitedSet| == |nodeIds|
    requires IsCycle(nodeIds, edges, p) && q <= p
    ensures p == q + [q[0]] && Adjacent(edges, q[|q| - 1], q[0])
  {
    DistinctCard(q);
    assert p[|q| - 1] == q[|q| - 1];
    forall i | 0 <= i < |p|
      ensures p[i] == (q + [q[0]])[i]
    {
      if i < |q| {
        assert p[..|q|][i] == p[i];
      } else {
        assert p[..|q|][0] == p[0];
      }
    }
  }

  /**
   * A walk through fewer names than the graph has nodes that begins a cycle
   * goes on, in that cycle, along an edge to a name not on the walk.
   */
  lemma NextOnCycle(nodeIds: seq<string>, edges: seq<Edge>, names: set<string>, visitedSet: set<string>,
                    q: seq<string>, p: seq<string>)
    requires Walk(nodeIds, edges, names, visitedSet, q) && |visitedSet| < |nodeIds|
    requires IsCycle(nodeIds, edges, p) && q <= p
    ensures |q| < |p| && p[|q|] !in visitedSet && Adjacent(edges, q[|q| - 1], p[|q|]) && q + [p[|q|]] <= p
  {
    DistinctCard(q);
    assert p[|q| - 1] == q[|q| - 1];
    forall i | 0 <= i < |q|
      ensures q[i] != p[|q|]
    {
      assert q[i] == p[i];
      assert p[..|p| - 1][i] == p[i] && p[..|p| - 1][|q|] == p[|q|];
    }
    assert p[..|q| + 1] == q + [p[|q|]];
  }

  /**
   * A walk through more names than the graph has nodes, which edges to
   * names that are not nodes make possible, begins no cycle.
   */
  lemma BeyondNoCycle(nodeIds: seq<string>, edges: seq<Edge>, names: set<string>, visitedSet: set<string>,
                      q: seq<string>, p: seq<string>)
    requires Walk(nodeIds, edges, names, visitedSet, q) && |visitedSet| > |nodeIds|
    requires IsCycle(nodeIds, edges, p)
    ensures !(q <= p)
  {
    DistinctCard(q);
    assert |q| >= |p| && q[0] != q[|q| - 1];
  }

  /** No cycle begins with a walk through other than as many names as nodes followed by a name already on it. */
  lemma NoCycleThrough(nodeIds: seq<string>, edges: seq<Edge>, names: set<string>, visitedSet: set<string>,
                       q: seq<string>, next: string, keys: set<string>)
    requires Walk(nodeIds, edges, names, visitedSet, q) && |visitedSet| != |nodeIds| && next in visitedSet
    ensures Covered(nodeIds, edges, q + [next], keys)
  {
    forall p | IsCycle(nodeIds, edges, p) && q + [next] <= p
      ensures false
    {
      assert q <= p && p[|q|] == next by {
        assert p[..|q|] == (q + [next])[..|q|] == q;
        assert p[|q|] == (q + [next])[|q|];
      }
      if |visitedSet| > |nodeIds| {
        BeyondNoCycle(nodeIds, edges, names, visitedSet, q, p);
      } else {
        NextOnCycle(nodeIds, edges, names, visitedSet, q, p);
      }
    }
  }

  /** Covering the cycles through one more neighbour, with the keys grown meanwhile. */
  lemma CoveredViaStep(nodeIds: seq<string>, edges: seq<Edge>, q: seq<string>, next: seq<string>, k: nat,
                       before: set<string>, keys: set<string>)
    requires k < |next| && before <= keys
    requires CoveredVia(nodeIds, edges, q, next[..k], before) && Covered(nodeIds, edges, q + [next[k]], keys)
    ensures CoveredVia(nodeIds, edges, q, next[..k + 1], keys)
  {
    forall p | IsCycle(nodeIds, edges, p) && q <= p && |q| < |p| && p[|q|] in next[..k + 1]
      ensures Key(p) in keys
    {
      var j :| 0 <= j < k + 1 && next[..k + 1][j] == p[|q|];
      if j < k {
        assert next[..k][j] == p[|q|];
      } else {
        assert p[..|q| + 1] == q + [next[k]];
      }
    }
  }

  /**
   * Covering the cycles through every neighbour `adjList[current] || []`
   * of the walk's last name covers every cycle the walk begins.
   */
  lemma CoveredViaAll(nodeIds: seq<string>, edges: seq<Edge>, adj: map<string, seq<string>>, names: set<string>,
                      visitedSet: set<string>, q: seq<string>, keys: set<string>)
    requires forall u :: HasSource(edges, u) ==> u in adj
    requires forall u :: u in adj ==> adj[u] == Targets(edges, u)
    requires Walk(nodeIds, edges, names, visitedSet, q) && |visitedSet| != |nodeIds|
    requires CoveredVia(nodeIds, edges, q, if q[|q| - 1] in adj then adj[q[|q| - 1]] else [], keys)
    ensures Covered(nodeIds, edges, q, keys)
  {
    forall p | IsCycle(nodeIds, edges, p) && q <= p
      ensures Key(p) in keys
    {
      if |visitedSet| > |nodeIds| {
        BeyondNoCycle(nodeIds, edges, names, visitedSet, q, p);
      }
      NextOnCycle(nodeIds, edges, names, visitedSet, q, p);
      TargetsMeaning(edges, q[|q| - 1], p[|q|]);
      TargetsHaveSource(edges, q[|q| - 1]);
    }
  }

  /**
   * A walk through as many names as the graph has nodes begins a cycle only
   * when its last name links back to the start, and then the cycle's key is
   * the walk joined by '-'; so remembering that key covers the walk.
   */
  lemma ClosingCovered(nodeIds: seq<string>, edges: seq<Edge>, adj: map<string, seq<string>>, names: set<string>,
                       visitedSet: set<string>, q: seq<string>, keys: set<string>)
    requires forall u :: HasSource(edges, u) ==> u in adj
    requires forall u :: u in adj ==> adj[u] == Targets(edges, u)
    requires Walk(nodeIds, edges, names, visitedSet, q) && |visitedSet| == |nodeIds|
    requires q[|q| - 1] in adj && q[0] in adj[q[|q| - 1]] ==> Join(q, "-") in keys
    ensures Covered(nodeIds, edges, q, keys)
  {
    forall p | IsCycle(nodeIds, edges, p) && q <= p
      ensures Key(p) in keys
    {
      OnlyClosing(nodeIds, edges, names, visitedSet, q, p);
      TargetsMeaning(edges, q[|q| - 1], q[0]);
      TargetsHaveSource(edges, q[|q| - 1]);
      assert p[..|p| - 1] == q;
    }
  }

  /** Covering the cycles that begin with one more start node, with the keys grown meanwhile. */
  lemma CoveredFromStep(nodeIds: seq<string>, edges: seq<Edge>, k: nat, before: set<string>, keys: set<string>)
    requires k < |nodeIds| && before <= keys
    requires CoveredFrom(nodeIds, edges, nodeIds[..k], before) && Covered(nodeIds, edges, [nodeIds[k]], keys)
    ensures CoveredFrom(nodeIds, edges, nodeIds[..k + 1], keys)
  {
    forall p | IsCycle(nodeIds, edges, p) && p[0] in nodeIds[..k + 1]
      ensures Key(p) in keys
    {
      var j :| 0 <= j < k + 1 && nodeIds[..k + 1][j] == p[0];
      if j < k {
        assert nodeIds[..k][j] == p[0];
      } else {
        assert [nodeIds[k]] <= p;
      }
    }
  }

  /** The state the nested `backtrack` closure of `findHamiltonCycles` shares. */
  class CycleSearch {
    const nodeIds: seq<string>
    const edges: seq<Edge>
    const adj: map<string, seq<string>>
    const maxCycles: nat
    /** Every name the search can step on: the nodes and the edge targets. */
    ghost const names: set<string>
    var cycles: seq<HamiltonCycle>
    /** The keys of the cycles found so far. */
    var visited: set<string>
    /** The names on the current path. */
    var visitedSet: set<string>

    /** The adjacency list is the graph's, and `names` holds the nodes and the edge targets. */
    ghost predicate Graph()
    {
      (forall u :: HasSource(edges, u) ==> u in adj) &&
      (forall u :: u in adj ==> adj[u] == Targets(edges, u)) &&
      names == (set u | u in nodeIds) + (set k | 0 <= k < |edges| :: edges[k].to)
    }

    ghost predicate Valid()
      reads this`cycles, this`visited
    {
      Graph() && Found(nodeIds, edges, maxCycles, cycles, visited)
    }

    constructor(nodeIds: seq<string>, edges: seq<Edge>, adj: map<string, seq<string>>, maxCycles: nat)
      requires forall u :: HasSource(edges, u) ==> u in adj
      requires forall u :: u in adj ==> adj[u] == Targets(edges, u)
      ensures Valid() && cycles == []
      ensures this.nodeIds == nodeIds && this.edges == edges && this.adj == adj && this.maxCycles == maxCycles
    {
      this.nodeIds := nodeIds;
      this.edges := edges;
      this.adj := adj;
      this.maxCycles := maxCycles;
      names := (set u | u in nodeIds) + (set k | 0 <= k < |edges| :: edges[k].to);
      cycles := [];
      visited := {};
      visitedSet := {};
    }

    /** A target of an edge is a name the search knows. */
    lemma TargetNamed(current: string, next: string)
      requires Graph() && next in Targets(edges, current)
      ensures next in names && Adjacent(edges, current, next)
    {
      TargetsMeaning(edges, current, next);
    }

    /**
     * The branch of `backtrack` taken once the path holds as many names as
     * the graph has nodes: if `current` links back to the start and the
     * path's key is new, the key is remembered and the closed path is
     * recorded as a valid cycle; otherwise nothing changes. Either way the
     * one cycle the path begins, if there is one, has its key remembered.
     */
    method RecordIfClosed(current: string, q: seq<string>)
      requires Valid() && Walk(nodeIds, edges, names, visitedSet, q) && current == q[|q| - 1]
      requires |visitedSet| == |nodeIds| && |cycles| < maxCycles
      modifies this
      ensures Valid() && visitedSet == old(visitedSet)
      ensures if current in adj && q[0] in adj[current] && Join(q, "-") !in old(visited)
        then cycles == old(cycles) + [HamiltonCycle(q + [q[0]], true)] && visited == old(visited) + {Join(q, "-")}
        else cycles == old(cycles) && visited == old(visited)
      ensures Covered(nodeIds, edges, q, visited)
    {
      var startNode := q[0];
      if current in adj && startNode in adj[current] {
        var cycleStr := Join(q, "-");
        if cycleStr !in visited {
          TargetNamed(current, startNode);
          ClosedCycle(nodeIds, edges, names, visitedSet, q);
          FoundSnoc(nodeIds, edges, maxCycles, cycles, visited, q + [startNode]);
          visited := visited + {cycleStr};
          cycles := cycles + [HamiltonCycle(q + [startNode], true)];
        }
      }
      ClosingCovered(nodeIds, edges, adj, names, visitedSet, q, visited);
    }

    /**
     * `backtrack(current, path, visitedSet, startNode)`: stops once the cap
     * is reached; when the path holds as many names as the graph has nodes
     * it records the closed cycle if `current` links back to the start and
     * its key is new; otherwise it tries each unvisited neighbour in edge
     * order. Cycles are only appended, each one extends the current path,
     * and `visitedSet` is as it was on return. Unless the cap has been
     * reached, every cycle the path begins has its key remembered.
     */
    method Backtrack(current: string, path: seq<string>, startNode: string)
      requires Valid() && Walk(nodeIds, edges, names, visitedSet, [startNode] + path)
      requires current == ([startNode] + path)[|path|]
      modifies this
      ensures Valid() && visitedSet == old(visitedSet)
      ensures old(cycles) <= cycles && old(visited) <= visited && Extends(cycles, |old(cycles)|, [startNode] + path)
      ensures |cycles| < maxCycles ==> Covered(nodeIds, edges, [startNode] + path, visited)
      decreases |names - visitedSet|, 1
    {
      if |cycles| >= maxCycles {
        return;
      }
      var q := [startNode] + path;
      if |visitedSet| == |nodeIds| {
        RecordIfClosed(current, q);
        return;
      }
      var neighbors := if current in adj then adj[current] else [];
      for k := 0 to |neighbors|
        invariant Valid() && visitedSet == old(visitedSet)
        invariant old(cycles) <= cycles && old(visited) <= visited && Extends(cycles, |old(cycles)|, q)
        invariant |cycles| < maxCycles ==> CoveredVia(nodeIds, edges, q, neighbors[..k], visited)
      {
        ghost var before := cycles;
        ghost var keys := visited;
        Visit(current, path, startNode, neighbors[k]);
        ExtendsStep(before, cycles, |old(cycles)|, startNode, path, neighbors[k]);
        if |cycles| < maxCycles {
          CoveredViaStep(nodeIds, edges, q, neighbors, k, keys, visited);
        }
      }
      if |cycles| < maxCycles {
        assert neighbors[..|neighbors|] == neighbors;
        CoveredViaAll(nodeIds, edges, adj, names, visitedSet, q, visited);
      }
    }

    /**
     * One turn of the neighbour loop of `backtrack`: an unvisited neighbour
     * is added to `visitedSet`, searched from with the path extended by it,
     * and deleted again. Unless the cap has been reached, every cycle that
     * goes on from the path to the neighbour has its key remembered.
     */
    method Visit(current: string, path: seq<string>, startNode: string, neighbor: string)
      requires Valid() && Walk(nodeIds, edges, names, visitedSet, [startNode] + path) && |visitedSet| != |nodeIds|
      requires current == ([startNode] + path)[|path|] && current in adj && neighbor in adj[current]
      modifies this
      ensures Valid() && visitedSet == old(visitedSet)
      ensures old(cycles) <= cycles && old(visited) <= visited
      ensures Extends(cycles, |old(cycles)|, [startNode] + (path + [neighbor]))
      ensures |cycles| < maxCycles ==> Covered(nodeIds, edges, [startNode] + path + [neighbor], visited)
      decreases |names - visitedSet|, 0
    {
      ConcatAssoc([startNode], path, [neighbor]);
      if neighbor !in visitedSet {
        ghost var outer := visitedSet;
        TargetNamed(current, neighbor);
        WalkStep(nodeIds, edges, names, outer, startNode, path, neighbor);
        visitedSet := visitedSet + {neighbor};
        Backtrack(neighbor, path + [neighbor], startNode);
        assert visitedSet == outer + {neighbor};
        visitedSet := visitedSet - {neighbor};
        assert visitedSet == outer;
      } else {
        NoCycleThrough(nodeIds, edges, names, visitedSet, [startNode] + path, neighbor, visited);
      }
    }
  }

  /** A path without repeats has as many names as entries. */
  lemma {:induction false} DistinctCard<T>(q: seq<T>)
    requires Distinct(q)
    ensures |set x | x in q| == |q|
  {
    if q != [] {
      var init := q[..|q| - 1];
      assert q == init + [q[|q| - 1]];
      DistinctInit(q);
      DistinctCard(init);
      assert (set x | x in q) == (set x | x in init) + {q[|q| - 1]};
    }
  }

  /**
   * `findHamiltonCycles(nodes, edges, maxCycles)`: backtracking from each
   * node in turn, stopping once the cap is reached. At most `maxCycles`
   * cycles come back, each a valid cycle and marked valid, and no two have
   * the same path. The search is exhaustive: unless the cap was reached,
   * every cycle of the graph has its key among those of the cycles found,
   * so a graph with a cycle yields at least one under a positive cap.
   */
  method FindHamiltonCycles(nodes: seq<Node>, edges: seq<Edge>, maxCycles: nat) returns (cycles: seq<HamiltonCycle>)
    ensures |cycles| <= maxCycles
    ensures forall i :: 0 <= i < |cycles| ==> cycles[i].isValid && IsCycle(Ids(nodes), edges, cycles[i].path)
    ensures forall i, j :: 0 <= i < j < |cycles| ==> cycles[i].path != cycles[j].path
    ensures |cycles| < maxCycles ==>
      forall p :: IsCycle(Ids(nodes), edges, p) ==> exists i :: 0 <= i < |cycles| && Key(cycles[i].path) == Key(p)
    ensures maxCycles > 0 && (exists p :: IsCycle(Ids(nodes), edges, p)) ==> cycles != []
  {
    var nodeIds := Ids(nodes);
    var adj := BuildAdjacencyList(nodeIds, edges);
    var search := new CycleSearch(nodeIds, edges, adj, maxCycles);
    for k := 0 to |nodeIds|
      invariant search.Valid()
      invariant search.nodeIds == nodeIds && search.edges == edges && search.maxCycles == maxCycles
      invariant |search.cycles| < maxCycles ==> CoveredFrom(nodeIds, edges, nodeIds[..k], search.visited)
    {
      var startNode := nodeIds[k];
      ghost var keys := search.visited;
      search.visitedSet := {startNode};
      assert (set x | x in [startNode] + []) == {startNode};
      assert Walk(nodeIds, edges, search.names, {startNode}, [startNode] + []);
      search.Backtrack(startNode, [], startNode);
      if |search.cycles| < maxCycles {
        CoveredFromStep(nodeIds, edges, k, keys, search.visited);
      }
      if |search.cycles| >= maxCycles {
        break;
      }
    }
    cycles := search.cycles;
    forall i | 0 <= i < |cycles|
      ensures cycles[i].isValid && IsCycle(nodeIds, edges, cycles[i].path)
    {
      assert IsCycle(search.nodeIds, search.edges, search.cycles[i].path);
    }
    if |cycles| < maxCycles {
      assert nodeIds[..|nodeIds|] == nodeIds;
      FoundComplete(nodeIds, edges, cycles, search.visited);
    }
  }

  /** When the keys of the found cycles cover every start node, every cycle's key is that of a found one. */
  lemma FoundComplete(nodeIds: seq<string>, edges: seq<Edge>, cycles: seq<HamiltonCycle>, keys: set<string>)
    requires keys == (set i | 0 <= i < |cycles| :: Key(cycles[i].path))
    requires CoveredFrom(nodeIds, edges, nodeIds, keys)
    ensures forall p :: IsCycle(nodeIds, edges, p) ==> exists i :: 0 <= i < |cycles| && Key(cycles[i].path) == Key(p)
    ensures (exists p :: IsCycle(nodeIds, edges, p)) ==> cycles != []
  {
    forall p | IsCycle(nodeIds, edges, p)
      ensures exists i :: 0 <= i < |cycles| && Key(cycles[i].path) == Key(p)
    {
      assert Key(p) in keys;
    }
  }

  /* ---------- Validation ---------- */

  datatype Issue =
    | EmptyPath
    | NotClosed(first: string, last: string)
    | UniqueCount(unique: nat, total: nat)
    | UnknownNode(node: string)
    | MissingEdge(from: string, to: string)

  function Names(s: seq<string>): (r: set<string>)
  {
    set x | x in s
  }

  /** An issue for each entry of `path` that is not a node, in path order. */
  function UnknownNodes(path: seq<string>, nodeIds: seq<string>): (r: seq<Issue>)
  {
    if path == [] then []
    else
      var last := path[|path| - 1];
      UnknownNodes(path[..|path| - 1], nodeIds) + (if last !in nodeIds then [UnknownNode(last)] else [])
  }

  /** An issue for each of the first `n` consecutive pairs of `path` without an edge, in path order. */
  function MissingEdges(path: seq<string>, edges: seq<Edge>, n: nat): (r: seq<Issue>)
    requires n < |path|
  {
    if n == 0 then []
    else
      var step := if !Adjacent(edges, path[n - 1], path[n]) then [MissingEdge(path[n - 1], path[n])] else [];
      MissingEdges(path, edges, n - 1) + step
  }

  /**
   * The issues `validateHamiltonCycle` reports, in order: a lone issue for
   * the empty path; otherwise one when the path does not end where it
   * starts, one when the number of different names before the last entry
   * is not the number of nodes, one per entry that is not a node and one
   * per consecutive pair without an edge.
   */
  function Issues(path: seq<string>, nodeIds: seq<string>, edges: seq<Edge>): (r: seq<Issue>)
  {
    if path == [] then [EmptyPath]
    else
      var unique := |Names(path[..|path| - 1])|;
      (if path[0] != path[|path| - 1] then [NotClosed(path[0], path[|path| - 1])] else []) +
      (if unique != |nodeIds| then [UniqueCount(unique, |nodeIds|)] else []) +
      UnknownNodes(path, nodeIds) + MissingEdges(path, edges, |path| - 1)
  }

  /**
   * `validateHamiltonCycle(path, nodes, edges)`: runs every check and
   * collects the issues; the path is valid exactly when there are none,
   * and the empty path gets the one issue that it is empty.
   */
  method ValidateHamiltonCycle(path: seq<string>, nodes: seq<Node>, edges: seq<Edge>)
    returns (isValid: bool, issues: seq<Issue>)
    ensures issues == Issues(path, Ids(nodes), edges)
    ensures isValid <==> issues == []
    ensures path == [] ==> !isValid && issues == [EmptyPath]
  {
    var nodeIds := Ids(nodes);
    var adj := BuildAdjacencyList(nodeIds, edges);
    if path == [] {
      return false, [EmptyPath];
    }
    var notClosed := if path[0] != path[|path| - 1] then [NotClosed(path[0], path[|path| - 1])] else [];
    var uniqueNodes := Names(path[..|path| - 1]);
    var wrongCount := if |uniqueNodes| != |nodeIds| then [UniqueCount(|uniqueNodes|, |nodeIds|)] else [];
    var unknown := CheckNodes(path, nodeIds);
    var missing := CheckEdges(path, nodeIds, edges, adj);
    issues := notClosed + wrongCount + unknown + missing;
    isValid := |issues| == 0;
  }

  /** The node-existence loop of `validateHamiltonCycle`: an issue per entry that is not a node. */
  method CheckNodes(path: seq<string>, nodeIds: seq<string>) returns (found: seq<Issue>)
    ensures found == UnknownNodes(path, nodeIds)
    ensures |found| <= |path|
  {
    found := [];
    for i := 0 to |path|
      invariant found == UnknownNodes(path[..i], nodeIds) && |found| <= i
    {
      assert path[..i + 1][..i] == path[..i];
      if path[i] !in nodeIds {
        found := found + [UnknownNode(path[i])];
      }
    }
    assert path[..|path|] == path;
  }

  /**
   * The edge-existence loop of `validateHamiltonCycle`: an issue per
   * consecutive pair of `path` that the adjacency list does not link.
   */
  method CheckEdges(path: seq<string>, ghost nodeIds: seq<string>, ghost edges: seq<Edge>,
                    adj: map<string, seq<string>>) returns (found: seq<Issue>)
    requires |path| >= 1
    requires forall u :: u in adj <==> u in nodeIds || HasSource(edges, u)
    requires forall u :: u in adj ==> adj[u] == Targets(edges, u)
    ensures found == MissingEdges(path, edges, |path| - 1)
    ensures |found| < |path|
  {
    found := [];
    for i := 0 to |path| - 1
      invariant found == MissingEdges(path, edges, i) && |found| <= i
    {
      LinkedMeaning(adj, nodeIds, edges, path[i], path[i + 1]);
      if !Linked(adj, path[i], path[i + 1]) {
        found := found + [MissingEdge(path[i], path[i + 1])];
      }
    }
  }

  lemma {:induction false} UnknownNodesNone(path: seq<string>, nodeIds: seq<string>)
    ensures |UnknownNodes(path, nodeIds)| == 0 <==> forall i :: 0 <= i < |path| ==> path[i] in nodeIds
  {
    if path != [] {
      var init := path[..|path| - 1];
      UnknownNodesNone(init, nodeIds);
      assert forall i :: 0 <= i < |init| ==> init[i] == path[i];
    }
  }

  lemma {:induction false} MissingEdgesNone(path: seq<string>, edges: seq<Edge>, n: nat)
    requires n < |path|
    ensures |MissingEdges(path, edges, n)| == 0 <==> forall i :: 0 <= i < n ==> Adjacent(edges, path[i], path[i + 1])
  {
    if n > 0 {
      MissingEdgesNone(path, edges, n - 1);
      assert |MissingEdges(path, edges, n)| ==
        |MissingEdges(path, edges, n - 1)| + if Adjacent(edges, path[n - 1], path[n]) then 0 else 1;
    }
  }

  /**
   * The validator accepts a path exactly when it is non-empty and closed,
   * has as many different names before its last entry as the graph has
   * nodes, every entry is a node and every consecutive pair is an edge.
   */
  lemma AcceptedMeaning(path: seq<string>, nodeIds: seq<string>, edges: seq<Edge>)
    ensures Issues(path, nodeIds, edges) == [] <==>
      path != [] && path[0] == path[|path| - 1] && |Names(path[..|path| - 1])| == |nodeIds| &&
      (forall i :: 0 <= i < |path| ==> path[i] in nodeIds) &&
      (forall i :: 0 <= i < |path| - 1 ==> Adjacent(edges, path[i], path[i + 1]))
  {
    if path != [] {
      UnknownNodesNone(path, nodeIds);
      MissingEdgesNone(path, edges, |path| - 1);
    }
  }

  /** With distinct node ids an accepted path goes through every node. */
  lemma AcceptedCoversNodes(path: seq<string>, nodeIds: seq<string>, edges: seq<Edge>)
    requires Distinct(nodeIds) && Issues(path, nodeIds, edges) == []
    ensures Names(path[..|path| - 1]) == Names(nodeIds)
  {
    AcceptedMeaning(path, nodeIds, edges);
    DistinctCard(nodeIds);
    var seen, all := Names(path[..|path| - 1]), Names(nodeIds);
    assert seen <= all by {
      forall x | x in seen
        ensures x in all
      {
        var i :| 0 <= i < |path| - 1 && path[..|path| - 1][i] == x;
        assert path[i] == x;
      }
    }
    assert all == seen + (all - seen);
    assert |all - seen| == 0;
  }

  /**
   * Path length is never checked: on the two-node cycle A -> B -> A, the
   * walk that goes round twice is accepted.
   */
  lemma RevisitingWalkAccepted()
    ensures Issues(["A", "B", "A", "B", "A"], ["A", "B"], [Edge("A", "B", "1"), Edge("B", "A", "2")]) == []
  {
    var path, nodeIds, edges := ["A", "B", "A", "B", "A"], ["A", "B"], [Edge("A", "B", "1"), Edge("B", "A", "2")];
    assert Names(path[..4]) == {"A", "B"} by {
      assert path[..4] == ["A", "B", "A", "B"];
    }
    assert "A" != "B";
    assert Adjacent(edges, "A", "B") && Adjacent(edges, "B", "A") by {
      assert edges[0].from == "A" && edges[0].to == "B";
      assert edges[1].from == "B" && edges[1].to == "A";
    }
    AcceptedMeaning(path, nodeIds, edges);
  }

  /** Every edge starts and ends at a node. */
  predicate EndpointsAreNodes(nodeIds: seq<string>, edges: seq<Edge>)
  {
    forall k :: 0 <= k < |edges| ==> edges[k].from in nodeIds && edges[k].to in nodeIds
  }

  /**
   * With distinct node ids and every edge between nodes, each cycle the
   * search returns visits every node exactly once before closing, and the
   * validator accepts it.
   */
  lemma FoundCycleAccepted(nodeIds: seq<string>, edges: seq<Edge>, p: seq<string>)
    requires Distinct(nodeIds) && EndpointsAreNodes(nodeIds, edges) && IsCycle(nodeIds, edges, p)
    ensures multiset(p[..|p| - 1]) == multiset(nodeIds)
    ensures Issues(p, nodeIds, edges) == []
  {
    var body := p[..|p| - 1];
    forall i | 0 <= i < |p|
      ensures p[i] in nodeIds
    {
      if i > 0 {
        assert Adjacent(edges, p[i - 1], p[i]);
      }
    }
    DistinctCard(body);
    assert |Names(body)| == |nodeIds|;
    AcceptedMeaning(p, nodeIds, edges);
    SameNamesSameMultiset(body, nodeIds);
  }

  /** Two sequences without repeats made of the same names, equally long, are permutations of each other. */
  lemma SameNamesSameMultiset(a: seq<string>, b: seq<string>)
    requires Distinct(a) && Distinct(b) && |a| == |b|
    requires forall i :: 0 <= i < |a| ==> a[i] in b
    ensures multiset(a) == multiset(b)
  {
    DistinctCard(a);
    DistinctCard(b);
    var sa, sb := Names(a), Names(b);
    assert sa <= sb;
    assert sb == sa + (sb - sa);
    assert |sb - sa| == 0;
    assert sa == sb;
    forall x
      ensures multiset(a)[x] == multiset(b)[x]
    {
      assert x in a <==> x in sa;
      assert x in b <==> x in sb;
      DistinctOnce(a, x);
      DistinctOnce(b, x);
    }
  }

  lemma {:induction false} DistinctOnce(s: seq<string>, x: string)
    requires Distinct(s)
    ensures multiset(s)[x] == if x in s then 1 else 0
  {
    if s != [] {
      var init := s[..|s| - 1];
      assert s == init + [s[|s| - 1]];
      DistinctInit(s);
      DistinctOnce(init, x);
    }
  }

  /* ---------- Completeness and counts ---------- */

  /** `[(x, y) for y in s]` and `[(y, x) for y in s]`. */
  function Row(x: string, s: seq<string>): (r: seq<(string, string)>)
    ensures |r| == |s| && forall i :: 0 <= i < |s| ==> r[i] == (x, s[i])
  {
    seq(|s|, i requires 0 <= i < |s| => (x, s[i]))
  }

  function Column(x: string, s: seq<string>): (r: seq<(string, string)>)
    ensures |r| == |s| && forall i :: 0 <= i < |s| ==> r[i] == (s[i], x)
  {
    seq(|s|, i requires 0 <= i < |s| => (s[i], x))
  }

  /** All ordered pairs of different entries of `ids`. */
  function Pairs(ids: seq<string>): (r: seq<(string, string)>)
  {
    if ids == [] then []
    else var init := ids[..|ids| - 1]; var x := ids[|ids| - 1];
      Pairs(init) + Row(x, init) + Column(x, init)
  }

  /** With distinct ids every pair is of two different ids. */
  lemma {:induction false} PairsMembers(ids: seq<string>)
    requires Distinct(ids)
    ensures forall k :: 0 <= k < |Pairs(ids)| ==>
      Pairs(ids)[k].0 in ids && Pairs(ids)[k].1 in ids && Pairs(ids)[k].0 != Pairs(ids)[k].1
  {
    if ids != [] {
      var init, x := ids[..|ids| - 1], ids[|ids| - 1];
      DistinctInit(ids);
      PairsMembers(init);
      var earlier, row, col := Pairs(init), Row(x, init), Column(x, init);
      forall k | 0 <= k < |Pairs(ids)|
        ensures Pairs(ids)[k].0 in ids && Pairs(ids)[k].1 in ids && Pairs(ids)[k].0 != Pairs(ids)[k].1
      {
        if k < |earlier| {
          assert Pairs(ids)[k] == earlier[k];
        } else if k < |earlier| + |row| {
          assert Pairs(ids)[k] == (x, init[k - |earlier|]);
        } else {
          assert Pairs(ids)[k] == (init[k - |earlier| - |row|], x);
        }
      }
    }
  }

  /** With distinct ids there are n(n-1) pairs, all different. */
  lemma {:induction false} PairsMeaning(ids: seq<string>)
    requires Distinct(ids)
    ensures |Pairs(ids)| == |ids| * (|ids| - 1)
    ensures Distinct(Pairs(ids))
  {
    if ids != [] {
      var init, x := ids[..|ids| - 1], ids[|ids| - 1];
      DistinctInit(ids);
      PairsMeaning(init);
      PairsMembers(init);
      var earlier, row, col := Pairs(init), Row(x, init), Column(x, init);
      var n := |init|;
      assert |earlier + row + col| == n * (n - 1) + 2 * n == (n + 1) * n;
      DistinctConcat(row, col);
      DistinctConcat(earlier, row + col);
      ConcatAssoc(earlier, row, col);
    }
  }

  lemma DistinctConcat<T>(a: seq<T>, b: seq<T>)
    requires Distinct(a) && Distinct(b) && forall i, j :: 0 <= i < |a| && 0 <= j < |b| ==> a[i] != b[j]
    ensures Distinct(a + b)
  {
    forall i, j | 0 <= i < j < |a + b|
      ensures (a + b)[i] != (a + b)[j]
    {
      if j < |a| {
        assert (a + b)[i] == a[i] && (a + b)[j] == a[j];
      } else if i < |a| {
        assert (a + b)[i] == a[i] && (a + b)[j] == b[j - |a|];
      } else {
        assert (a + b)[i] == b[i - |a|] && (a + b)[j] == b[j - |a|];
      }
    }
  }

  /** A sequence without repeats whose entries all occur in `s` is no longer than `s`. */
  lemma {:induction false} DistinctWithin<T>(q: seq<T>, s: seq<T>)
    requires Distinct(q) && forall i :: 0 <= i < |q| ==> q[i] in s
    ensures |q| <= |s|
  {
    if q != [] {
      var init, x := q[..|q| - 1], q[|q| - 1];
      var k :| 0 <= k < |s| && s[k] == x;
      var rest := s[..k] + s[k + 1..];
      forall i | 0 <= i < |init|
        ensures init[i] in rest
      {
        assert init[i] == q[i] && q[i] != x;
        var m :| 0 <= m < |s| && s[m] == q[i];
        if m < k {
          assert rest[m] == s[m];
        } else {
          assert rest[m - 1] == s[m];
        }
      }
      DistinctInit(q);
      DistinctWithin(init, rest);
    }
  }

  /** `(from, to)` of every edge. */
  function EdgePairs(edges: seq<Edge>): (r: seq<(string, string)>)
    ensures |r| == |edges| && forall k :: 0 <= k < |edges| ==> r[k] == (edges[k].from, edges[k].to)
  {
    seq(|edges|, k requires 0 <= k < |edges| => (edges[k].from, edges[k].to))
  }

  /**
   * With distinct node ids, a graph whose every ordered pair of different
   * nodes is linked has at least n(n-1) edges, so the early exit of
   * `isCompleteGraph` never changes its answer.
   */
  lemma EdgeLowerBound(nodeIds: seq<string>, edges: seq<Edge>)
    ensures Distinct(nodeIds) && AllPairsLinked(nodeIds, edges) ==> |edges| >= |nodeIds| * (|nodeIds| - 1)
  {
    if Distinct(nodeIds) && AllPairsLinked(nodeIds, edges) {
      PairsMeaning(nodeIds);
      PairsMembers(nodeIds);
      var pairs := Pairs(nodeIds);
      forall k | 0 <= k < |pairs|
        ensures pairs[k] in EdgePairs(edges)
      {
        var (a, b) := pairs[k];
        var i :| 0 <= i < |nodeIds| && nodeIds[i] == a;
        var j :| 0 <= j < |nodeIds| && nodeIds[j] == b;
        var e :| 0 <= e < |edges| && edges[e].from == a && edges[e].to == b;
        assert EdgePairs(edges)[e] == (a, b);
      }
      DistinctWithin(pairs, EdgePairs(edges));
    }
  }

  /** The adjacency list links node `i` to every other node. */
  predicate RowLinked(adj: map<string, seq<string>>, nodeIds: seq<string>, i: nat)
    requires i < |nodeIds|
  {
    forall j :: 0 <= j < |nodeIds| && nodeIds[i] != nodeIds[j] ==> Linked(adj, nodeIds[i], nodeIds[j])
  }

  /**
   * `isCompleteGraph(nodes, edges)`: false straight away with fewer than
   * n(n-1) edges, otherwise whether every ordered pair of different nodes
   * is linked. A true answer always means every such pair is linked; with
   * distinct node ids the answer is exactly that.
   */
  method IsCompleteGraph(nodes: seq<Node>, edges: seq<Edge>) returns (complete: bool)
    ensures complete ==> AllPairsLinked(Ids(nodes), edges)
    ensures Distinct(Ids(nodes)) ==> (complete <==> AllPairsLinked(Ids(nodes), edges))
  {
    var n := |nodes|;
    var expectedEdges := n * (n - 1);
    if |edges| < expectedEdges {
      EdgeLowerBound(Ids(nodes), edges);
      return false;
    }
    var nodeIds := Ids(nodes);
    var adj := BuildAdjacencyList(nodeIds, edges);
    for a := 0 to n
      invariant forall i :: 0 <= i < a ==> RowLinked(adj, nodeIds, i)
    {
      for b := 0 to n
        invariant forall j :: 0 <= j < b && nodeIds[a] != nodeIds[j] ==> Linked(adj, nodeIds[a], nodeIds[j])
      {
        if nodeIds[a] != nodeIds[b] && !Linked(adj, nodeIds[a], nodeIds[b]) {
          LinkedMeaning(adj, nodeIds, edges, nodeIds[a], nodeIds[b]);
          return false;
        }
      }
    }
    forall i, j | 0 <= i < n && 0 <= j < n && nodeIds[i] != nodeIds[j]
      ensures Adjacent(edges, nodeIds[i], nodeIds[j])
    {
      assert RowLinked(adj, nodeIds, i);
      LinkedMeaning(adj, nodeIds, edges, nodeIds[i], nodeIds[j]);
    }
    return true;
  }

  /** The counts of `getGraphStats`; the density is a formatted float and is not modelled. */
  datatype GraphStats = GraphStats(nodes: nat, edges: nat, isComplete: bool)

  /** `getGraphStats(nodes, edges)`: the node and edge counts and the completeness test. */
  method GetGraphStats(nodes: seq<Node>, edges: seq<Edge>) returns (stats: GraphStats)
    ensures stats.nodes == |nodes| && stats.edges == |edges|
    ensures stats.isComplete ==> AllPairsLinked(Ids(nodes), edges)
    ensures Distinct(Ids(nodes)) ==> (stats.isComplete <==> AllPairsLinked(Ids(nodes), edges))
  {
    var complete := IsCompleteGraph(nodes, edges);
    stats := GraphStats(|nodes|, |edges|, complete);
  }
}
