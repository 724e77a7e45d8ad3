/** Depth-first and breadth-first traversal of the airport graph from a named
    start airport. The program prints the airports as it visits them; the model
    returns the visit order instead. */
module Traversal {
  import opened Wrappers
  import opened AirportGraph

  /** The elements of a sequence. */
  function Elems(s: seq<nat>): (r: set<nat>)
    ensures forall x :: x in r <==> x in s
  {
    set x | x in s
  }

  /** No node appears twice. */
  ghost predicate Distinct(s: seq<nat>)
  {
    forall i, j :: 0 <= i < j < |s| ==> s[i] != s[j]
  }

  /** Every arc out of a node of `order` leads into `visited`. */
  ghost predicate Expanded(adj: AdjList, order: seq<nat>, visited: set<nat>)
  {
    forall i, j :: 0 <= i < |order| && order[i] < |adj| && 0 <= j < |adj[order[i]]| ==>
      adj[order[i]][j].to in visited
  }

  /** A visit order whose nodes all have their arcs expanded covers a closed set. */
  lemma ExpandedIsClosed(adj: AdjList, order: seq<nat>)
    requires Expanded(adj, order, Elems(order))
    ensures Closed(adj, Elems(order))
  {
    forall u, j | u in Elems(order) && 0 <= u < |adj| && 0 <= j < |adj[u]|
      ensures adj[u][j].to in Elems(order)
    {
      var i :| 0 <= i < |order| && order[i] == u;
    }
  }

  /** The names of a sequence of node indices (an index without a name, which
      a valid graph never holds, reads as the empty name). */
  function Names(g: Graph, order: seq<nat>): (r: seq<string>)
    ensures |r| == |order|
    ensures forall i :: 0 <= i < |order| && order[i] < |g.indexToAirport| ==>
      r[i] == g.indexToAirport[order[i]]
  {
    seq(|order|, i requires 0 <= i < |order| =>
      if order[i] < |g.indexToAirport| then g.indexToAirport[order[i]] else "")
  }

  /** Distinct indices have distinct names, and a name is listed exactly when
      its index is. */
  lemma NamesOfOrder(g: Graph, order: seq<nat>)
    requires Valid(g)
    requires forall i :: 0 <= i < |order| ==> order[i] < |g.adj|
    requires Distinct(order)
    ensures forall i, j :: 0 <= i < j < |order| ==> Names(g, order)[i] != Names(g, order)[j]
    ensures forall name :: name in Names(g, order) <==>
      name in g.airportIndex && g.airportIndex[name] in order
  {
    var r := Names(g, order);
    forall name | name in g.airportIndex && g.airportIndex[name] in order
      ensures name in r
    {
      var i :| 0 <= i < |order| && order[i] == g.airportIndex[name];
      assert r[i] == name;
    }
  }

  /** Depth-first preorder as a reference definition: visiting `u` marks it,
      lists it, then visits each neighbour that is still unmarked, in adjacency
      order, threading the marked set through. Returns the listing and the
      marked set after the visit. */
  ghost function Visit(adj: AdjList, u: nat, visited: set<nat>): (r: (seq<nat>, set<nat>))
    requires ArcsInRange(adj) && u < |adj| && u !in visited
    requires forall x :: x in visited ==> x < |adj|
    ensures visited + {u} <= r.1
    ensures forall x :: x in r.1 ==> x < |adj|
    decreases AllNodes(|adj|) - visited, 0, 0
  {
    var rest := VisitArcs(adj, adj[u], visited + {u});
    ([u] + rest.0, rest.1)
  }

  /** The part of `Visit` that walks one adjacency list. */
  ghost function VisitArcs(adj: AdjList, arcs: seq<Arc>, visited: set<nat>): (r: (seq<nat>, set<nat>))
    requires ArcsInRange(adj)
    requires forall k :: 0 <= k < |arcs| ==> arcs[k].to < |adj|
    requires forall x :: x in visited ==> x < |adj|
    ensures visited <= r.1
    ensures forall x :: x in r.1 ==> x < |adj|
    decreases AllNodes(|adj|) - visited, 1, |arcs|
  {
    if |arcs| == 0 then ([], visited)
    else if arcs[0].to in visited then VisitArcs(adj, arcs[1..], visited)
    else
      var first := Visit(adj, arcs[0].to, visited);
      var rest := VisitArcs(adj, arcs[1..], first.1);
      (first.0 + rest.0, rest.1)
  }

  /** A visit lists exactly the nodes it newly marks, each once, starting
      with `u`, and every arc out of a listed node ends at a marked node. */
  lemma {:induction false} VisitFacts(adj: AdjList, u: nat, visited: set<nat>)
    requires ArcsInRange(adj) && u < |adj| && u !in visited
    requires forall x :: x in visited ==> x < |adj|
    ensures Visit(adj, u, visited).1 == visited + Elems(Visit(adj, u, visited).0)
    ensures Visit(adj, u, visited).0[0] == u
    ensures Distinct(Visit(adj, u, visited).0)
    ensures forall i :: 0 <= i < |Visit(adj, u, visited).0| ==> Visit(adj, u, visited).0[i] !in visited
    ensures Expanded(adj, Visit(adj, u, visited).0, Visit(adj, u, visited).1)
    decreases AllNodes(|adj|) - visited, 0, 0
  {
    var rest := VisitArcs(adj, adj[u], visited + {u});
    VisitArcsFacts(adj, adj[u], visited + {u});
    ExpandedPrepend(adj, u, rest.0, rest.1);
  }

  /** The same for a walk over one adjacency list; its arcs all end at
      marked nodes afterwards. */
  lemma {:induction false} VisitArcsFacts(adj: AdjList, arcs: seq<Arc>, visited: set<nat>)
    requires ArcsInRange(adj)
    requires forall k :: 0 <= k < |arcs| ==> arcs[k].to < |adj|
    requires forall x :: x in visited ==> x < |adj|
    ensures VisitArcs(adj, arcs, visited).1 == visited + Elems(VisitArcs(adj, arcs, visited).0)
    ensures Distinct(VisitArcs(adj, arcs, visited).0)
    ensures forall i :: 0 <= i < |VisitArcs(adj, arcs, visited).0| ==> VisitArcs(adj, arcs, visited).0[i] !in visited
    ensures Expanded(adj, VisitArcs(adj, arcs, visited).0, VisitArcs(adj, arcs, visited).1)
    ensures forall k :: 0 <= k < |arcs| ==> arcs[k].to in VisitArcs(adj, arcs, visited).1
    decreases AllNodes(|adj|) - visited, 1, |arcs|
  {
    if |arcs| == 0 {
    } else if arcs[0].to in visited {
      VisitArcsFacts(adj, arcs[1..], visited);
    } else {
      var first := Visit(adj, arcs[0].to, visited);
      var rest := VisitArcs(adj, arcs[1..], first.1);
      VisitFacts(adj, arcs[0].to, visited);
      VisitArcsFacts(adj, arcs[1..], first.1);
      ExpandedConcat(adj, first.0, rest.0, first.1, rest.1);
    }
  }

  /** Listing `u` ahead of an expanded listing keeps it expanded once the arcs
      of `u` end at marked nodes. */
  lemma ExpandedPrepend(adj: AdjList, u: nat, order: seq<nat>, visited: set<nat>)
    requires Expanded(adj, order, visited)
    requires u < |adj| ==> forall k :: 0 <= k < |adj[u]| ==> adj[u][k].to in visited
    ensures Expanded(adj, [u] + order, visited)
  {
    var o := [u] + order;
    forall i, k | 0 <= i < |o| && o[i] < |adj| && 0 <= k < |adj[o[i]]|
      ensures adj[o[i]][k].to in visited
    {
      if i > 0 {
        assert o[i] == order[i - 1];
      }
    }
  }

  /** Two expanded listings, the second marking more, concatenate. */
  lemma ExpandedConcat(adj: AdjList, a: seq<nat>, b: seq<nat>, va: set<nat>, vb: set<nat>)
    requires Expanded(adj, a, va) && Expanded(adj, b, vb) && va <= vb
    ensures Expanded(adj, a + b, vb)
  {
    var o := a + b;
    forall i, k | 0 <= i < |o| && o[i] < |adj| && 0 <= k < |adj[o[i]]|
      ensures adj[o[i]][k].to in vb
    {
      if i < |a| {
        assert o[i] == a[i];
      } else {
        assert o[i] == b[i - |a|];
      }
    }
  }

  /** Every node a visit lists is reachable from `s` when the visited node is. */
  lemma {:induction false} VisitReachable(adj: AdjList, s: nat, u: nat, visited: set<nat>)
    requires ArcsInRange(adj) && u < |adj| && u !in visited
    requires forall x :: x in visited ==> x < |adj|
    requires Reachable(adj, s, u)
    ensures forall i :: 0 <= i < |Visit(adj, u, visited).0| ==> Reachable(adj, s, Visit(adj, u, visited).0[i])
    decreases AllNodes(|adj|) - visited, 0, 0
  {
    forall k | 0 <= k < |adj[u]|
      ensures Reachable(adj, s, adj[u][k].to)
    {
      ReachableStep(adj, s, u, adj[u][k]);
    }
    VisitArcsReachable(adj, s, adj[u], visited + {u});
  }

  /** The same for a walk over arcs that all end at nodes reachable from `s`. */
  lemma {:induction false} VisitArcsReachable(adj: AdjList, s: nat, arcs: seq<Arc>, visited: set<nat>)
    requires ArcsInRange(adj)
    requires forall k :: 0 <= k < |arcs| ==> arcs[k].to < |adj| && Reachable(adj, s, arcs[k].to)
    requires forall x :: x in visited ==> x < |adj|
    ensures forall i :: 0 <= i < |VisitArcs(adj, arcs, visited).0| ==>
      Reachable(adj, s, VisitArcs(adj, arcs, visited).0[i])
    decreases AllNodes(|adj|) - visited, 1, |arcs|
  {
    if |arcs| == 0 {
    } else if arcs[0].to in visited {
      VisitArcsReachable(adj, s, arcs[1..], visited);
    } else {
      var first := Visit(adj, arcs[0].to, visited);
      VisitReachable(adj, s, arcs[0].to, visited);
      VisitArcsReachable(adj, s, arcs[1..], first.1);
    }
  }

  /** dfsUtil: marks `u`, then recurses into each unmarked neighbour in
      adjacency order. Returns the enlarged marked set and the nodes this call
      visited, in depth-first preorder. */
  method DfsUtil(adj: AdjList, u: nat, visited: set<nat>)
    returns (visitedOut: set<nat>, order: seq<nat>)
    requires ArcsInRange(adj) && u < |adj| && u !in visited
    requires forall x :: x in visited ==> x < |adj|
    ensures (order, visitedOut) == Visit(adj, u, visited)
    decreases AllNodes(|adj|) - visited
  {
    visitedOut := visited + {u};
    order := [u];
    var j := 0;
    assert adj[u][0..] == adj[u];
    while j < |adj[u]|
      invariant 0 <= j <= |adj[u]|
      invariant forall x :: x in visitedOut ==> x < |adj|
      invariant visited + {u} <= visitedOut
      invariant Visit(adj, u, visited).0 == order + VisitArcs(adj, adj[u][j..], visitedOut).0
      invariant Visit(adj, u, visited).1 == VisitArcs(adj, adj[u][j..], visitedOut).1
    {
      var v := adj[u][j].to;
      ghost var arcs := adj[u][j..];
      assert arcs[0] == adj[u][j] && arcs[1..] == adj[u][j + 1..];
      if v !in visitedOut {
        var more, sub := DfsUtil(adj, v, visitedOut);
        ghost var tail := VisitArcs(adj, adj[u][j + 1..], more).0;
        assert order + (sub + tail) == (order + sub) + tail;
        order := order + sub;
        visitedOut := more;
      }
      j := j + 1;
    }
    assert order + [] == order;
  }

  /** DFS: None for an unregistered start; otherwise the airports reachable
      from the start, each once, in depth-first preorder from the start. */
  method Dfs(g: Graph, start: string) returns (r: Option<seq<string>>)
    requires Valid(g)
    ensures r.None? <==> start !in g.airportIndex
    ensures r.Some? ==> |r.value| > 0 && r.value[0] == start
    ensures r.Some? ==> forall i, j :: 0 <= i < j < |r.value| ==> r.value[i] != r.value[j]
    ensures r.Some? ==> forall name :: name in r.value <==>
      name in g.airportIndex && Reachable(g.adj, g.airportIndex[start], g.airportIndex[name])
    ensures r.Some? ==> r.value == Names(g, Visit(g.adj, g.airportIndex[start], {}).0)
  {
    if start !in g.airportIndex {
      return None;
    }
    var s := g.airportIndex[start];
    ReachableSelf(g.adj, s);
    var visited, order := DfsUtil(g.adj, s, {});
    VisitFacts(g.adj, s, {});
    VisitReachable(g.adj, s, s, {});
    ExpandedIsClosed(g.adj, order);
    forall t: nat | t < |g.adj| && Reachable(g.adj, s, t)
      ensures t in order
    {
      ClosedHoldsReachable(g.adj, Elems(order), s, t);
    }
    NamesOfOrder(g, order);
    r := Some(Names(g, order));
  }

  /** The position of the first arc of `arcs` that ends at `v`, or `|arcs|`
      when none does. */
  function FirstArc(arcs: seq<Arc>, v: nat): (k: nat)
    ensures k <= |arcs|
    ensures k < |arcs| ==> arcs[k].to == v
    ensures forall i :: 0 <= i < k ==> arcs[i].to != v
  {
    if |arcs| == 0 then 0
    else if arcs[0].to == v then 0
    else 1 + FirstArc(arcs[1..], v)
  }

  /** The ends of `arcs` outside `visited`, each once, in the order of their
      first arc: the nodes one expansion enqueues. */
  ghost function Fresh(arcs: seq<Arc>, visited: set<nat>): seq<nat>
  {
    if |arcs| == 0 then []
    else if arcs[0].to in visited then Fresh(arcs[1..], visited)
    else [arcs[0].to] + Fresh(arcs[1..], visited + {arcs[0].to})
  }

  /** The nodes one expansion enqueues were unmarked, each is the end of an
      arc, and they come in the order of their first arcs. */
  lemma {:induction false} FreshInArcOrder(arcs: seq<Arc>, visited: set<nat>)
    ensures forall i :: 0 <= i < |Fresh(arcs, visited)| ==>
      Fresh(arcs, visited)[i] !in visited && FirstArc(arcs, Fresh(arcs, visited)[i]) < |arcs|
    ensures forall i, k :: 0 <= i < k < |Fresh(arcs, visited)| ==>
      FirstArc(arcs, Fresh(arcs, visited)[i]) < FirstArc(arcs, Fresh(arcs, visited)[k])
    decreases |arcs|
  {
    if |arcs| > 0 {
      var v := arcs[0].to;
      if v in visited {
        var r := Fresh(arcs[1..], visited);
        FreshInArcOrder(arcs[1..], visited);
        forall i | 0 <= i < |r|
          ensures FirstArc(arcs, r[i]) == 1 + FirstArc(arcs[1..], r[i])
        {
        }
      } else {
        var r := Fresh(arcs[1..], visited + {v});
        FreshInArcOrder(arcs[1..], visited + {v});
        assert Fresh(arcs, visited) == [v] + r;
        forall i | 0 <= i < |r|
          ensures FirstArc(arcs, r[i]) == 1 + FirstArc(arcs[1..], r[i])
        {
        }
      }
    }
  }

  /** Every listed node is a node of the graph. */
  ghost predicate InRange(adj: AdjList, all: seq<nat>)
  {
    forall i :: 0 <= i < |all| ==> all[i] < |adj|
  }

  /** Where the node at position `i` comes in the arcs of the node at
      position `p`: the index of its first arc there. */
  ghost function ArcRank(adj: AdjList, all: seq<nat>, p: nat, i: nat): nat
  {
    if p < |all| && i < |all| && all[p] < |adj| then FirstArc(adj[all[p]], all[i]) else 0
  }

  /** The node at position `p` has an arc to the node at position `i`. */
  ghost predicate LinksTo(adj: AdjList, all: seq<nat>, p: nat, i: nat)
  {
    p < |all| && i < |all| && all[p] < |adj| && ArcRank(adj, all, p, i) < |adj[all[p]]|
  }

  /** Every node after the first was discovered by an earlier node, one of
      the first `done`, that has an arc to it. */
  ghost predicate HasDiscoverer(adj: AdjList, all: seq<nat>, par: seq<nat>, done: nat)
  {
    forall i :: 0 < i < |all| ==> i < |par| && par[i] < i && par[i] < done && LinksTo(adj, all, par[i], i)
  }

  /** No node listed before a discoverer has an arc to what it discovered. */
  ghost predicate FirstDiscoverer(adj: AdjList, all: seq<nat>, par: seq<nat>)
  {
    forall i, j :: 0 < i < |all| && i < |par| && 0 <= j < par[i] ==> !LinksTo(adj, all, j, i)
  }

  /** Discoverers never move backwards along the listing. */
  ghost predicate Monotone(par: seq<nat>)
  {
    forall i, k :: 0 < i < k < |par| ==> par[i] <= par[k]
  }

  /** The finds of one discoverer follow the order of its arcs. */
  ghost predicate ArcOrder(adj: AdjList, all: seq<nat>, par: seq<nat>)
  {
    forall i, k :: 0 < i < k < |all| && k < |par| && par[i] == par[k] ==>
      ArcRank(adj, all, par[i], i) < ArcRank(adj, all, par[k], k)
  }

  /** Breadth-first discovery of the listing `all`: `par[i]` is the position
      of the node that discovered `all[i]`, and the first `done` nodes are the
      expanded ones. */
  ghost predicate Discovered(adj: AdjList, all: seq<nat>, par: seq<nat>, done: nat)
  {
    && |par| == |all|
    && InRange(adj, all)
    && HasDiscoverer(adj, all, par, done)
    && FirstDiscoverer(adj, all, par)
    && Monotone(par)
    && ArcOrder(adj, all, par)
  }

  /** `order` is a breadth-first listing: some choice of discoverers fits it. */
  ghost predicate BreadthFirst(adj: AdjList, order: seq<nat>)
  {
    exists par :: Discovered(adj, order, par, |order|)
  }

  /** BFS: the queue discipline; nodes are marked when enqueued and listed when
      dequeued. */
  method BfsFrom(adj: AdjList, s: nat) returns (order: seq<nat>)
    requires ArcsInRange(adj) && s < |adj|
    ensures |order| > 0 && order[0] == s
    ensures Distinct(order)
    ensures forall i :: 0 <= i < |order| ==> order[i] < |adj|
    ensures forall x: nat :: x in order <==> x < |adj| && Reachable(adj, s, x)
    ensures BreadthFirst(adj, order)
  {
    ReachableSelf(adj, s);
    var visited: set<nat> := {s};
    var q: seq<nat> := [s];
    order := [];
    ghost var par: seq<nat> := [0];
    while |q| > 0
      invariant visited == Elems(order) + Elems(q)
      invariant Distinct(order + q)
      invariant forall x :: x in visited ==> x < |adj| && Reachable(adj, s, x)
      invariant Expanded(adj, order, visited)
      invariant |order| > 0 ==> order[0] == s
      invariant |order| == 0 ==> q == [s]
      invariant Discovered(adj, order + q, par, |order|)
      decreases AllNodes(|adj|) - visited, |q|
    {
      ghost var order0, q0, visited0 := order, q, visited;
      assert q[0] in Elems(q);
      order, q, visited := Expand(adj, s, order, q, visited);
      par := DiscoverRound(adj, order0, q0, visited0, par);
    }
    assert order + q == order;
    assert Discovered(adj, order, par, |order|);
    assert forall i :: 0 <= i < |order| ==> order[i] in visited;
    ExpandedIsClosed(adj, order);
    forall t: nat | t < |adj| && Reachable(adj, s, t)
      ensures t in order
    {
      ClosedHoldsReachable(adj, Elems(order), s, t);
    }
  }

  /** One round of the bfs loop: the head of the queue is listed and its
      unmarked neighbours are enqueued. */
  method Expand(adj: AdjList, ghost s: nat, order0: seq<nat>, q0: seq<nat>, visited0: set<nat>)
    returns (order: seq<nat>, q: seq<nat>, visited: set<nat>)
    requires ArcsInRange(adj) && s < |adj| && |q0| > 0 && q0[0] < |adj|
    requires visited0 == Elems(order0) + Elems(q0)
    requires Distinct(order0 + q0)
    requires forall x :: x in visited0 ==> x < |adj| && Reachable(adj, s, x)
    requires Expanded(adj, order0, visited0)
    requires |order0| > 0 ==> order0[0] == s
    requires |order0| == 0 ==> q0 == [s]
    ensures visited == Elems(order) + Elems(q)
    ensures Distinct(order + q)
    ensures forall x :: x in visited ==> x < |adj| && Reachable(adj, s, x)
    ensures Expanded(adj, order, visited)
    ensures |order| > 0 && order[0] == s
    ensures visited0 <= visited && (visited == visited0 ==> |q| < |q0|)
    ensures order == order0 + [q0[0]] && q == q0[1..] + Fresh(adj[q0[0]], visited0)
  {
    var u := q0[0];
    assert u in Elems(q0);
    assert order0 + q0 == (order0 + [u]) + q0[1..];
    order := order0 + [u];
    visited, q := EnqueueUnvisited(adj, s, u, order, visited0, q0[1..]);
    ExpandedStep(adj, order0, u, visited0, visited);
  }

  /** The listing after one round of the bfs loop is still a breadth-first
      discovery, with the head of the queue as the new discoverer. */
  lemma DiscoverRound(adj: AdjList, order0: seq<nat>, q0: seq<nat>, visited0: set<nat>, par0: seq<nat>)
    returns (par: seq<nat>)
    requires ArcsInRange(adj) && |q0| > 0 && q0[0] < |adj|
    requires Discovered(adj, order0 + q0, par0, |order0|)
    requires Expanded(adj, order0, visited0)
    ensures Discovered(adj, (order0 + [q0[0]]) + (q0[1..] + Fresh(adj[q0[0]], visited0)), par, |order0| + 1)
  {
    var all0 := order0 + q0;
    assert all0[..|order0|] == order0 && all0[|order0|] == q0[0];
    DiscoverStep(adj, all0, par0, |order0|, visited0);
    var added := Fresh(adj[q0[0]], visited0);
    assert (order0 + [q0[0]]) + (q0[1..] + added) == all0 + added;
    par := par0 + seq(|added|, _ => |order0|);
  }

  /** The inner loop of bfs: every unmarked neighbour of `u` is marked and
      joins the back of the queue, in the order of its first arc. */
  method EnqueueUnvisited(adj: AdjList, ghost s: nat, u: nat, ghost order: seq<nat>, visited0: set<nat>, q0: seq<nat>)
    returns (visited: set<nat>, q: seq<nat>)
    requires ArcsInRange(adj) && u < |adj|
    requires visited0 == Elems(order) + Elems(q0) && Distinct(order + q0)
    requires forall x :: x in visited0 ==> x < |adj| && Reachable(adj, s, x)
    requires u in visited0
    ensures visited == Elems(order) + Elems(q) && Distinct(order + q)
    ensures forall x :: x in visited ==> x < |adj| && Reachable(adj, s, x)
    ensures forall k :: 0 <= k < |adj[u]| ==> adj[u][k].to in visited
    ensures visited0 <= visited
    ensures visited == visited0 ==> q == q0
    ensures q == q0 + Fresh(adj[u], visited0)
  {
    visited, q := visited0, q0;
    var j := 0;
    assert adj[u][0..] == adj[u];
    while j < |adj[u]|
      invariant 0 <= j <= |adj[u]|
      invariant visited == Elems(order) + Elems(q) && Distinct(order + q)
      invariant forall x :: x in visited ==> x < |adj| && Reachable(adj, s, x)
      invariant forall k :: 0 <= k < j ==> adj[u][k].to in visited
      invariant q0 + Fresh(adj[u], visited0) == q + Fresh(adj[u][j..], visited)
    {
      var v := adj[u][j].to;
      ghost var arcs := adj[u][j..];
      assert arcs[0] == adj[u][j] && arcs[1..] == adj[u][j + 1..];
      if v !in visited {
        ReachableStep(adj, s, u, adj[u][j]);
        assert order + q + [v] == order + (q + [v]);
        ghost var tail := Fresh(adj[u][j + 1..], visited + {v});
        assert q + ([v] + tail) == (q + [v]) + tail;
        visited := visited + {v};
        q := q + [v];
      }
      j := j + 1;
    }
    assert q + [] == q;
    ghost var added := Fresh(adj[u], visited0);
    FreshInArcOrder(adj[u], visited0);
    assert forall i :: 0 <= i < |added| ==> q[|q0| + i] == added[i];
    if |added| > 0 {
      assert q[|q0|] in visited && added[0] !in visited0;
    }
  }

  /** Expanding the node at position `m`, once the nodes before it are
      expanded, extends a breadth-first discovery by the nodes that
      expansion enqueues, all discovered by it. */
  lemma DiscoverStep(adj: AdjList, all: seq<nat>, par: seq<nat>, m: nat, visited0: set<nat>)
    requires ArcsInRange(adj)
    requires Discovered(adj, all, par, m) && m < |all|
    requires Expanded(adj, all[..m], visited0)
    ensures Discovered(adj, all + Fresh(adj[all[m]], visited0),
      par + seq(|Fresh(adj[all[m]], visited0)|, _ => m), m + 1)
  {
    var added := Fresh(adj[all[m]], visited0);
    FreshInArcOrder(adj[all[m]], visited0);
    var ext := seq(|added|, _ => m);
    forall i | 0 <= i < |added|
      ensures added[i] < |adj|
    {
      assert adj[all[m]][FirstArc(adj[all[m]], added[i])].to == added[i];
    }
    InRangeStep(adj, all, added);
    HasDiscovererStep(adj, all, par, m, added);
    FirstDiscovererStep(adj, all, par, m, added, visited0);
    MonotoneStep(par, m, |added|);
    ArcOrderStep(adj, all, par, m, added);
  }

  /** Appending graph nodes keeps a listing inside the graph. */
  lemma InRangeStep(adj: AdjList, all: seq<nat>, added: seq<nat>)
    requires InRange(adj, all)
    requires forall i :: 0 <= i < |added| ==> added[i] < |adj|
    ensures InRange(adj, all + added)
  {
  }

  /** Nodes appended with discoverer `m`, each the end of an arc of node
      `m`, keep every node discovered. */
  lemma HasDiscovererStep(adj: AdjList, all: seq<nat>, par: seq<nat>, m: nat, added: seq<nat>)
    requires |par| == |all| && m < |all| && all[m] < |adj|
    requires HasDiscoverer(adj, all, par, m)
    requires forall i :: 0 <= i < |added| ==> FirstArc(adj[all[m]], added[i]) < |adj[all[m]]|
    ensures HasDiscoverer(adj, all + added, par + seq(|added|, _ => m), m + 1)
  {
    var all', par' := all + added, par + seq(|added|, _ => m);
    forall i | 0 < i < |all'|
      ensures i < |par'| && par'[i] < i && par'[i] < m + 1 && LinksTo(adj, all', par'[i], i)
    {
      if i < |all| {
        assert all'[i] == all[i] && par'[i] == par[i] && all'[par[i]] == all[par[i]];
        assert LinksTo(adj, all, par[i], i);
      } else {
        assert all'[i] == added[i - |all|] && par'[i] == m && all'[m] == all[m];
      }
    }
  }

  /** Nodes appended unmarked have no arc from an expanded node before `m`. */
  lemma FirstDiscovererStep(adj: AdjList, all: seq<nat>, par: seq<nat>, m: nat, added: seq<nat>, visited0: set<nat>)
    requires |par| == |all| && m < |all|
    requires FirstDiscoverer(adj, all, par)
    requires forall i :: 0 < i < |par| ==> par[i] < m
    requires Expanded(adj, all[..m], visited0)
    requires forall i :: 0 <= i < |added| ==> added[i] !in visited0
    ensures FirstDiscoverer(adj, all + added, par + seq(|added|, _ => m))
  {
    var all', par' := all + added, par + seq(|added|, _ => m);
    forall i, j | 0 < i < |all'| && i < |par'| && 0 <= j < par'[i]
      ensures !LinksTo(adj, all', j, i)
    {
      if i < |all| {
        assert all'[i] == all[i] && par'[i] == par[i] && all'[j] == all[j];
        assert !LinksTo(adj, all, j, i);
      } else {
        assert all'[i] == added[i - |all|] && par'[i] == m && all'[j] == all[..m][j];
        assert all'[i] !in visited0;
      }
    }
  }

  /** Appending the newest discoverer keeps discoverers in order. */
  lemma MonotoneStep(par: seq<nat>, m: nat, n: nat)
    requires Monotone(par)
    requires forall i :: 0 < i < |par| ==> par[i] < m
    ensures Monotone(par + seq(n, _ => m))
  {
  }

  /** Nodes appended in the order of their first arcs keep each
      discoverer's finds in arc order. */
  lemma ArcOrderStep(adj: AdjList, all: seq<nat>, par: seq<nat>, m: nat, added: seq<nat>)
    requires |par| == |all| && m < |all| && all[m] < |adj|
    requires ArcOrder(adj, all, par)
    requires forall i :: 0 < i < |par| ==> par[i] < m
    requires forall i, k :: 0 <= i < k < |added| ==>
      FirstArc(adj[all[m]], added[i]) < FirstArc(adj[all[m]], added[k])
    ensures ArcOrder(adj, all + added, par + seq(|added|, _ => m))
  {
    var all', par' := all + added, par + seq(|added|, _ => m);
    forall i, k | 0 < i < k < |all'| && k < |par'| && par'[i] == par'[k]
      ensures ArcRank(adj, all', par'[i], i) < ArcRank(adj, all', par'[k], k)
    {
      if k < |all| {
        assert all'[i] == all[i] && par'[i] == par[i] && all'[k] == all[k] && par'[k] == par[k];
        assert all'[par[i]] == all[par[i]];
        assert ArcRank(adj, all, par[i], i) < ArcRank(adj, all, par[k], k);
      } else if i < |all| {
      } else {
        assert all'[i] == added[i - |all|] && all'[k] == added[k - |all|];
        assert par'[i] == m && par'[k] == m && all'[m] == all[m];
      }
    }
  }

  /** Expanding one more node keeps the expanded prefix expanded. */
  lemma ExpandedStep(adj: AdjList, order: seq<nat>, u: nat, visited0: set<nat>, visited: set<nat>)
    requires Expanded(adj, order, visited0) && visited0 <= visited
    requires u < |adj| ==> forall k :: 0 <= k < |adj[u]| ==> adj[u][k].to in visited
    ensures Expanded(adj, order + [u], visited)
  {
    var o := order + [u];
    forall i, k | 0 <= i < |o| && o[i] < |adj| && 0 <= k < |adj[o[i]]|
      ensures adj[o[i]][k].to in visited
    {
      if i < |order| {
        assert o[i] == order[i];
      }
    }
  }

  /** BFS by airport name: None for an unregistered start; otherwise the
      reachable airports, each once, in a breadth-first listing. */
  method Bfs(g: Graph, start: string) returns (r: Option<seq<string>>)
    requires Valid(g)
    ensures r.None? <==> start !in g.airportIndex
    ensures r.Some? ==> |r.value| > 0 && r.value[0] == start
    ensures r.Some? ==> forall i, j :: 0 <= i < j < |r.value| ==> r.value[i] != r.value[j]
    ensures r.Some? ==> forall name :: name in r.value <==>
      name in g.airportIndex && Reachable(g.adj, g.airportIndex[start], g.airportIndex[name])
    ensures r.Some? ==> exists order :: r.value == Names(g, order) && BreadthFirst(g.adj, order)
  {
    if start !in g.airportIndex {
      return None;
    }
    var s := g.airportIndex[start];
    var order := BfsFrom(g.adj, s);
    NamesOfOrder(g, order);
    assert Names(g, order) == Names(g, order) && BreadthFirst(g.adj, order);
    r := Some(Names(g, order));
  }

}
