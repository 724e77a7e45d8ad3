/** The airport graph: airport names interned to dense indices on first sight,
    and an adjacency list holding one (neighbour, weight) arc per direction of
    every added edge. Parallel edges are kept. */
module AirportGraph {

  /** One adjacency entry: the neighbour's index and the edge weight. */
  datatype Arc = Arc(to: nat, weight: int)

  type AdjList = seq<seq<Arc>>

  datatype Graph = Graph(
    airportIndex: map<string, nat>,
    indexToAirport: seq<string>,
    adj: AdjList)

  /** Every arc points at an existing node. */
  ghost predicate ArcsInRange(adj: AdjList)
  {
    forall u, j :: 0 <= u < |adj| && 0 <= j < |adj[u]| ==> adj[u][j].to < |adj|
  }

  /** The three containers are kept in parallel: the name map and the name
      vector are inverse to each other over the indices `[0, |adj|)`. */
  ghost predicate Valid(g: Graph)
  {
    && |g.indexToAirport| == |g.adj|
    && ArcsInRange(g.adj)
    && (forall name :: name in g.airportIndex ==>
          g.airportIndex[name] < |g.adj| && g.indexToAirport[g.airportIndex[name]] == name)
    && (forall i :: 0 <= i < |g.indexToAirport| ==>
          g.indexToAirport[i] in g.airportIndex && g.airportIndex[g.indexToAirport[i]] == i)
  }

  /** The graph a fresh catalogue starts with. */
  function Empty(): (g: Graph)
    ensures Valid(g) && |g.adj| == 0 && g.airportIndex == map[]
  {
    Graph(map[], [], [])
  }

  /** getAirportIndex: the index of `name`, minting the next free index (and an
      empty adjacency list) the first time the name is seen. */
  function GetAirportIndex(g: Graph, name: string): (r: (Graph, nat))
    ensures name in g.airportIndex ==> r == (g, g.airportIndex[name])
    ensures name !in g.airportIndex ==>
      && r.1 == |g.indexToAirport|
      && r.0.airportIndex == g.airportIndex[name := r.1]
      && r.0.indexToAirport == g.indexToAirport + [name]
      && r.0.adj == g.adj + [[]]
    ensures Valid(g) ==> Valid(r.0) && r.1 < |r.0.adj|
    ensures Valid(g) ==> r.0.airportIndex[name] == r.1 && r.0.indexToAirport[r.1] == name
    ensures forall n :: n in r.0.airportIndex <==> n in g.airportIndex || n == name
    ensures forall n :: n in g.airportIndex ==> r.0.airportIndex[n] == g.airportIndex[n]
    ensures |g.adj| <= |r.0.adj|
  {
    if name in g.airportIndex then (g, g.airportIndex[name])
    else
      var idx := |g.indexToAirport|;
      (Graph(g.airportIndex[name := idx], g.indexToAirport + [name], g.adj + [[]]), idx)
  }

  /** Asking for the same name twice gives the same index and mints nothing
      the second time. */
  lemma GetAirportIndexIdempotent(g: Graph, name: string)
    requires Valid(g)
    ensures var (g1, i1) := GetAirportIndex(g, name);
      GetAirportIndex(g1, name) == (g1, i1)
  {
  }

  /** Adjacency list of node `i` before an edge is added, empty for a node the
      edge itself creates. */
  function ArcsOf(adj: AdjList, i: nat): seq<Arc>
  {
    if i < |adj| then adj[i] else []
  }

  /** addEdge: interns both endpoints, then appends `(v, w)` to `u`'s list and
      `(u, w)` to `v`'s list. */
  function AddEdge(g: Graph, src: string, dest: string, w: int): (r: Graph)
    requires Valid(g)
    ensures Valid(r)
    ensures forall name :: name in r.airportIndex <==> name in g.airportIndex || name == src || name == dest
    ensures forall name :: name in g.airportIndex ==> r.airportIndex[name] == g.airportIndex[name]
  {
    var (g1, u) := GetAirportIndex(g, src);
    var (g2, v) := GetAirportIndex(g1, dest);
    Link(g2, u, v, w)
  }

  /** The two `push_back`s of addEdge on already interned endpoints. */
  function Link(g: Graph, u: nat, v: nat, w: int): (r: Graph)
    requires Valid(g) && u < |g.adj| && v < |g.adj|
    ensures Valid(r)
    ensures r.airportIndex == g.airportIndex && r.indexToAirport == g.indexToAirport
    ensures r.adj == AppendArc(AppendArc(g.adj, u, Arc(v, w)), v, Arc(u, w))
  {
    var adj1 := AppendArc(g.adj, u, Arc(v, w));
    Graph(g.airportIndex, g.indexToAirport, AppendArc(adj1, v, Arc(u, w)))
  }

  /** What addEdge does to the adjacency lists: one arc appended on each side
      (both on the same list for a self-loop), every other list unchanged, and
      an edge already present is added again rather than merged. */
  lemma AddEdgeArcs(g: Graph, src: string, dest: string, w: int)
    requires Valid(g)
    ensures var r := AddEdge(g, src, dest, w);
      var u := r.airportIndex[src]; var v := r.airportIndex[dest];
      && (forall i :: 0 <= i < |r.adj| && i != u && i != v ==> i < |g.adj| && r.adj[i] == g.adj[i])
      && (u != v ==> r.adj[u] == ArcsOf(g.adj, u) + [Arc(v, w)] && r.adj[v] == ArcsOf(g.adj, v) + [Arc(u, w)])
      && (u == v ==> r.adj[u] == ArcsOf(g.adj, u) + [Arc(v, w), Arc(u, w)])
  {
    var (g1, u) := GetAirportIndex(g, src);
    var (g2, v) := GetAirportIndex(g1, dest);
    InternKeepsArcs(g, src);
    InternKeepsArcs(g1, dest);
    var a1 := AppendArc(g2.adj, u, Arc(v, w));
    var r := AddEdge(g, src, dest, w);
    assert r.adj == AppendArc(a1, v, Arc(u, w));
    assert r.airportIndex[src] == u && r.airportIndex[dest] == v;
    forall i | 0 <= i < |r.adj| && i != u && i != v
      ensures i < |g.adj| && r.adj[i] == g.adj[i]
    {
      assert r.adj[i] == a1[i] == g2.adj[i];
    }
  }

  /** Interning a name leaves every existing list as it was and adds at most
      one empty list, at the name's new index. */
  lemma InternKeepsArcs(g: Graph, name: string)
    requires Valid(g)
    ensures var (g1, k) := GetAirportIndex(g, name);
      && (forall i :: 0 <= i < |g1.adj| ==> g1.adj[i] == ArcsOf(g.adj, i))
      && |g1.adj| <= |g.adj| + 1 && (|g1.adj| > |g.adj| ==> k == |g.adj|)
  {
  }

  /** `push_back` of one arc onto the list of node `u`. */
  function AppendArc(adj: AdjList, u: nat, a: Arc): (r: AdjList)
    requires u < |adj|
    ensures |r| == |adj| && r[u] == adj[u] + [a]
    ensures forall i :: 0 <= i < |r| && i != u ==> r[i] == adj[i]
    ensures ArcsInRange(adj) && a.to < |adj| ==> ArcsInRange(r)
  {
    var r := adj[u := adj[u] + [a]];
    assert ArcsInRange(adj) && a.to < |adj| ==> ArcsInRange(r) by {
      if ArcsInRange(adj) && a.to < |adj| {
        forall i, j | 0 <= i < |r| && 0 <= j < |r[i]| ensures r[i][j].to < |r| {
          if i == u && j == |adj[u]| {
          } else {
            assert r[i][j] == adj[i][j];
          }
        }
      }
    }
    r
  }

  /* ---------- walks and reachability ---------- */

  /** The node a walk starting at `from` ends on. */
  function WalkEnd(from: nat, arcs: seq<Arc>): nat
  {
    if |arcs| == 0 then from else arcs[|arcs| - 1].to
  }

  /** Sum of the weights along a walk. */
  function WalkWeight(arcs: seq<Arc>): int
  {
    if |arcs| == 0 then 0 else WalkWeight(arcs[..|arcs| - 1]) + arcs[|arcs| - 1].weight
  }

  /** The nodes a walk passes through, its start included. */
  function WalkNodes(from: nat, arcs: seq<Arc>): (r: seq<nat>)
    ensures |r| == |arcs| + 1 && r[0] == from && r[|arcs|] == WalkEnd(from, arcs)
  {
    [from] + seq(|arcs|, i requires 0 <= i < |arcs| => arcs[i].to)
  }

  /** `arcs` can be followed from `from`: each arc is in the adjacency list of
      the node the walk has reached. */
  ghost predicate IsWalk(adj: AdjList, from: nat, arcs: seq<Arc>)
    decreases |arcs|
  {
    && from < |adj|
    && (|arcs| == 0 ||
        (var pre := arcs[..|arcs| - 1];
         && IsWalk(adj, from, pre)
         && WalkEnd(from, pre) < |adj|
         && arcs[|arcs| - 1] in adj[WalkEnd(from, pre)]))
  }

  ghost predicate Reachable(adj: AdjList, s: nat, t: nat)
  {
    exists arcs :: IsWalk(adj, s, arcs) && WalkEnd(s, arcs) == t
  }

  lemma ReachableSelf(adj: AdjList, s: nat)
    requires s < |adj|
    ensures Reachable(adj, s, s)
  {
    assert IsWalk(adj, s, []) && WalkEnd(s, []) == s;
  }

  /** A walk extended by an arc out of its end is a walk. */
  lemma ReachableStep(adj: AdjList, s: nat, u: nat, a: Arc)
    requires Reachable(adj, s, u) && u < |adj| && a in adj[u]
    ensures Reachable(adj, s, a.to)
  {
    var arcs :| IsWalk(adj, s, arcs) && WalkEnd(s, arcs) == u;
    var ext := arcs + [a];
    assert ext[..|ext| - 1] == arcs;
    assert IsWalk(adj, s, ext) && WalkEnd(s, ext) == a.to;
  }

  /** A walk from `to` preceded by an arc into `to` is a walk, one arc longer,
      with the same end and the arc's weight added. */
  lemma {:induction false} WalkPrepend(adj: AdjList, p: nat, a: Arc, arcs: seq<Arc>)
    requires p < |adj| && a in adj[p] && IsWalk(adj, a.to, arcs)
    ensures IsWalk(adj, p, [a] + arcs)
    ensures WalkEnd(p, [a] + arcs) == WalkEnd(a.to, arcs)
    ensures WalkWeight([a] + arcs) == a.weight + WalkWeight(arcs)
    ensures WalkNodes(p, [a] + arcs) == [p] + WalkNodes(a.to, arcs)
    decreases |arcs|
  {
    if |arcs| == 0 {
      assert [a] + arcs == [a] && [a][..0] == [];
      assert IsWalk(adj, p, []);
    } else {
      var pre := arcs[..|arcs| - 1];
      WalkPrepend(adj, p, a, pre);
      assert ([a] + arcs)[..|arcs|] == [a] + pre;
    }
  }

  /** The node list of a walk ends at the walk's end and stays inside the graph. */
  lemma {:induction false} WalkNodesInRange(adj: AdjList, from: nat, arcs: seq<Arc>)
    requires ArcsInRange(adj) && IsWalk(adj, from, arcs)
    ensures WalkNodes(from, arcs)[|arcs|] == WalkEnd(from, arcs)
    ensures forall i :: 0 <= i < |arcs| + 1 ==> WalkNodes(from, arcs)[i] < |adj|
    decreases |arcs|
  {
    if |arcs| > 0 {
      var pre := arcs[..|arcs| - 1];
      WalkNodesInRange(adj, from, pre);
      var u := WalkEnd(from, pre);
      var j :| 0 <= j < |adj[u]| && adj[u][j] == arcs[|arcs| - 1];
      forall i | 0 <= i < |arcs| + 1
        ensures WalkNodes(from, arcs)[i] < |adj|
      {
        if 0 < i < |arcs| {
          assert WalkNodes(from, arcs)[i] == WalkNodes(from, pre)[i];
        }
      }
    }
  }

  /** A set of nodes every arc of which stays inside the set. */
  ghost predicate Closed(adj: AdjList, nodes: set<nat>)
  {
    forall u, j :: u in nodes && 0 <= u < |adj| && 0 <= j < |adj[u]| ==> adj[u][j].to in nodes
  }

  /** A closed set that holds the start of a walk holds its end. */
  lemma {:induction false} ClosedWalk(adj: AdjList, nodes: set<nat>, s: nat, arcs: seq<Arc>)
    requires Closed(adj, nodes) && s in nodes && IsWalk(adj, s, arcs)
    ensures WalkEnd(s, arcs) in nodes
    decreases |arcs|
  {
    if |arcs| > 0 {
      var pre := arcs[..|arcs| - 1];
      ClosedWalk(adj, nodes, s, pre);
      var u := WalkEnd(s, pre);
      var j :| 0 <= j < |adj[u]| && adj[u][j] == arcs[|arcs| - 1];
    }
  }

  /** Every node reachable from a member of a closed set is in it. */
  lemma ClosedHoldsReachable(adj: AdjList, nodes: set<nat>, s: nat, t: nat)
    requires Closed(adj, nodes) && s in nodes && Reachable(adj, s, t)
    ensures t in nodes
  {
    var arcs :| IsWalk(adj, s, arcs) && WalkEnd(s, arcs) == t;
    ClosedWalk(adj, nodes, s, arcs);
  }

  /** The index set `[0, n)`. */
  function AllNodes(n: nat): (r: set<nat>)
    ensures forall i: nat :: i in r <==> i < n
  {
    if n == 0 then {} else AllNodes(n - 1) + {n - 1}
  }

  /* ---------- tree edges ---------- */

  /** An undirected edge as the spanning-tree routines report it. */
  datatype Edge = Edge(u: nat, v: nat, w: int)

  /** Sum of the weights of a list of edges (the routines' `total`). */
  function TotalWeight(es: seq<Edge>): int
  {
    if |es| == 0 then 0 else TotalWeight(es[..|es| - 1]) + es[|es| - 1].w
  }

}
