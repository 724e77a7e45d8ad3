/** kruskalMST: collect the `u < v` copy of every undirected edge, sort by
    weight, and accept an edge exactly when union-find reports its ends in
    different sets. The program uses std::sort, whose order among equal
    weights is unspecified; the facts proved about the accepting loop hold
    for any input order, so they hold for every tie order. */
module KruskalMst {
  import opened AirportGraph
  import opened UnionFind

  /* ---------- connectivity through a list of edges ---------- */

  /** `x` and `y` are the two ends of some edge in `es`. */
  ghost predicate Step(es: seq<Edge>, x: nat, y: nat)
  {
    exists e :: e in es && ((e.u == x && e.v == y) || (e.u == y && e.v == x))
  }

  /** A node sequence every consecutive pair of which is joined by an edge. */
  ghost predicate IsPath(es: seq<Edge>, p: seq<nat>)
  {
    |p| > 0 && forall i :: 0 <= i < |p| - 1 ==> Step(es, p[i], p[i + 1])
  }

  ghost predicate Connected(es: seq<Edge>, x: nat, y: nat)
  {
    exists p :: IsPath(es, p) && p[0] == x && p[|p| - 1] == y
  }

  lemma ConnectedRefl(es: seq<Edge>, x: nat)
    ensures Connected(es, x, x)
  {
    assert IsPath(es, [x]);
  }

  lemma ConnectedEdge(es: seq<Edge>, e: Edge)
    requires e in es
    ensures Connected(es, e.u, e.v) && Connected(es, e.v, e.u)
  {
    assert Step(es, e.u, e.v) && Step(es, e.v, e.u);
    assert IsPath(es, [e.u, e.v]);
    assert IsPath(es, [e.v, e.u]);
  }

  lemma ConnectedSym(es: seq<Edge>, x: nat, y: nat)
    requires Connected(es, x, y)
    ensures Connected(es, y, x)
  {
    var p :| IsPath(es, p) && p[0] == x && p[|p| - 1] == y;
    var q := seq(|p|, i requires 0 <= i < |p| => p[|p| - 1 - i]);
    forall i | 0 <= i < |q| - 1
      ensures Step(es, q[i], q[i + 1])
    {
      var j := |p| - 2 - i;
      assert Step(es, p[j], p[j + 1]);
    }
    assert IsPath(es, q);
  }

  lemma ConnectedTrans(es: seq<Edge>, x: nat, y: nat, z: nat)
    requires Connected(es, x, y) && Connected(es, y, z)
    ensures Connected(es, x, z)
  {
    var p :| IsPath(es, p) && p[0] == x && p[|p| - 1] == y;
    var q :| IsPath(es, q) && q[0] == y && q[|q| - 1] == z;
    var r := p + q[1..];
    forall i | 0 <= i < |r| - 1
      ensures Step(es, r[i], r[i + 1])
    {
      if i < |p| - 1 {
        assert r[i] == p[i] && r[i + 1] == p[i + 1];
      } else {
        var j := i - (|p| - 1);
        assert r[i] == q[j] && r[i + 1] == q[j + 1];
      }
    }
    assert IsPath(es, r);
  }

  /** Adding edges keeps every connection. */
  lemma ConnectedGrow(es: seq<Edge>, e: Edge, x: nat, y: nat)
    requires Connected(es, x, y)
    ensures Connected(es + [e], x, y)
  {
    var p :| IsPath(es, p) && p[0] == x && p[|p| - 1] == y;
    forall i | 0 <= i < |p| - 1
      ensures Step(es + [e], p[i], p[i + 1])
    {
      assert Step(es, p[i], p[i + 1]);
      var f :| f in es && ((f.u == p[i] && f.v == p[i + 1]) || (f.u == p[i + 1] && f.v == p[i]));
      assert f in es + [e];
    }
    assert IsPath(es + [e], p);
  }

  /** If every edge's ends share a root, every connected pair does. */
  lemma {:induction false} PathSameRoot(d: Dsu, es: seq<Edge>, p: seq<nat>)
    requires UnionFind.Valid(d) && IsPath(es, p)
    requires forall e :: e in es ==> e.u < |d.parent| && e.v < |d.parent| && Root(d, e.u) == Root(d, e.v)
    requires p[0] < |d.parent|
    ensures p[|p| - 1] < |d.parent| && Root(d, p[0]) == Root(d, p[|p| - 1])
    decreases |p|
  {
    if |p| > 1 {
      var q := p[..|p| - 1];
      assert IsPath(es, q) by {
        forall i | 0 <= i < |q| - 1
          ensures Step(es, q[i], q[i + 1])
        {
          assert Step(es, p[i], p[i + 1]);
        }
      }
      PathSameRoot(d, es, q);
      assert Step(es, p[|p| - 2], p[|p| - 1]);
    }
  }

  lemma ConnectedSameRoot(d: Dsu, es: seq<Edge>, x: nat, y: nat)
    requires UnionFind.Valid(d) && x < |d.parent|
    requires forall e :: e in es ==> e.u < |d.parent| && e.v < |d.parent| && Root(d, e.u) == Root(d, e.v)
    requires Connected(es, x, y)
    ensures y < |d.parent| && Root(d, x) == Root(d, y)
  {
    var p :| IsPath(es, p) && p[0] == x && p[|p| - 1] == y;
    PathSameRoot(d, es, p);
  }

  /* ---------- candidate edges and their order ---------- */

  /** The `u < v` arcs of one adjacency list, as edges out of `u`. */
  function UpperArcs(u: nat, arcs: seq<Arc>): (r: seq<Edge>)
    ensures forall e :: e in r <==> e.u == u && u < e.v && Arc(e.v, e.w) in arcs
  {
    if |arcs| == 0 then []
    else
      var rest := UpperArcs(u, arcs[1..]);
      assert forall a :: a in arcs <==> a == arcs[0] || a in arcs[1..];
      if u < arcs[0].to then [Edge(u, arcs[0].to, arcs[0].weight)] + rest else rest
  }

  /** The first loop of kruskalMST over nodes `0..n`: every arc `u -> v` with
      `u < v`, as many times as the arc occurs (see `CandidatesCount`), so
      parallel edges are all kept. */
  function Candidates(adj: AdjList, n: nat): (r: seq<Edge>)
    requires n <= |adj|
    ensures forall e :: e in r <==> e.u < n && e.u < e.v && Arc(e.v, e.w) in adj[e.u]
  {
    if n == 0 then [] else Candidates(adj, n - 1) + UpperArcs(n - 1, adj[n - 1])
  }

  /** Each `u < v` arc of the list yields its edge once: an edge occurs as
      often as its arc. */
  lemma {:induction false} UpperArcsCount(u: nat, arcs: seq<Arc>, e: Edge)
    ensures multiset(UpperArcs(u, arcs))[e] == if e.u == u && u < e.v then multiset(arcs)[Arc(e.v, e.w)] else 0
  {
    if |arcs| > 0 {
      UpperArcsCount(u, arcs[1..], e);
      assert arcs == [arcs[0]] + arcs[1..];
    }
  }

  /** The candidate list holds each edge exactly as often as its `u < v` arc
      occurs in the adjacency list of `u`. */
  lemma {:induction false} CandidatesCount(adj: AdjList, n: nat, e: Edge)
    requires n <= |adj|
    ensures multiset(Candidates(adj, n))[e] ==
      if e.u < n && e.u < e.v then multiset(adj[e.u])[Arc(e.v, e.w)] else 0
  {
    if n > 0 {
      CandidatesCount(adj, n - 1, e);
      UpperArcsCount(n - 1, adj[n - 1], e);
    }
  }

  ghost predicate SortedByWeight(s: seq<Edge>)
  {
    forall i, j :: 0 <= i < j < |s| ==> s[i].w <= s[j].w
  }

  /** Inserts `e` before the first edge that is not lighter. */
  function InsertByWeight(e: Edge, s: seq<Edge>): (r: seq<Edge>)
    requires SortedByWeight(s)
    ensures SortedByWeight(r) && multiset(r) == multiset(s) + multiset{e}
    ensures |r| == |s| + 1 && (r[0] == e || (|s| > 0 && r[0] == s[0]))
  {
    if |s| == 0 then [e]
    else if e.w <= s[0].w then [e] + s
    else
      var rest := InsertByWeight(e, s[1..]);
      assert s == [s[0]] + s[1..];
      assert s[0].w <= rest[0].w;
      assert forall j :: 0 <= j < |rest| ==> rest[0].w <= rest[j].w;
      [s[0]] + rest
  }

  /** The sort step: a permutation of the input ordered by weight. */
  function SortByWeight(s: seq<Edge>): (r: seq<Edge>)
    ensures SortedByWeight(r) && multiset(r) == multiset(s)
  {
    if |s| == 0 then []
    else
      assert s == s[..|s| - 1] + [s[|s| - 1]];
      InsertByWeight(s[|s| - 1], SortByWeight(s[..|s| - 1]))
  }

  /* ---------- the accepting loop ---------- */

  /** Each edge joins two nodes the edges before it had not connected, so the
      edges form a forest. */
  ghost predicate Forest(es: seq<Edge>)
  {
    forall k :: 0 <= k < |es| ==> !Connected(es[..k], es[k].u, es[k].v)
  }

  /** The union-find sets are exactly the components of the accepted edges. */
  ghost predicate Tracks(d: Dsu, accepted: seq<Edge>)
    requires UnionFind.Valid(d)
  {
    && (forall e :: e in accepted ==> e.u < |d.parent| && e.v < |d.parent|)
    && forall x, y :: 0 <= x < |d.parent| && 0 <= y < |d.parent| ==>
         (Root(d, x) == Root(d, y) <==> Connected(accepted, x, y))
  }

  /** Accepting an edge whose ends are in different sets keeps the sets equal
      to the components. */
  lemma AcceptTracks(d: Dsu, accepted: seq<Edge>, e: Edge)
    requires UnionFind.Valid(d) && Tracks(d, accepted) && e.u < |d.parent| && e.v < |d.parent|
    requires Root(d, e.u) != Root(d, e.v)
    ensures Tracks(Unite(d, e.u, e.v).0, accepted + [e])
  {
    var d' := Unite(d, e.u, e.v).0;
    AcceptEdgesJoined(d, accepted, e);
    forall x, y | 0 <= x < |d'.parent| && 0 <= y < |d'.parent|
      ensures Root(d', x) == Root(d', y) <==> Connected(accepted + [e], x, y)
    {
      AcceptPair(d, accepted, e, x, y);
    }
  }

  /** After the union every accepted edge, the new one included, has both
      ends in one set. */
  lemma AcceptEdgesJoined(d: Dsu, accepted: seq<Edge>, e: Edge)
    requires UnionFind.Valid(d) && Tracks(d, accepted) && e.u < |d.parent| && e.v < |d.parent|
    ensures var d' := Unite(d, e.u, e.v).0;
      forall f :: f in accepted + [e] ==>
        f.u < |d'.parent| && f.v < |d'.parent| && Root(d', f.u) == Root(d', f.v)
  {
    var d' := Unite(d, e.u, e.v).0;
    forall f | f in accepted + [e]
      ensures f.u < |d'.parent| && f.v < |d'.parent| && Root(d', f.u) == Root(d', f.v)
    {
      if f in accepted {
        ConnectedEdge(accepted, f);
        assert Root(d, f.u) == Root(d, f.v);
      }
    }
  }

  /** One pair of nodes: same set after the union iff connected by the
      accepted edges plus the new one. */
  lemma AcceptPair(d: Dsu, accepted: seq<Edge>, e: Edge, x: nat, y: nat)
    requires UnionFind.Valid(d) && Tracks(d, accepted) && e.u < |d.parent| && e.v < |d.parent|
    requires Root(d, e.u) != Root(d, e.v)
    requires x < |d.parent| && y < |d.parent|
    requires var d' := Unite(d, e.u, e.v).0;
      forall f :: f in accepted + [e] ==>
        f.u < |d'.parent| && f.v < |d'.parent| && Root(d', f.u) == Root(d', f.v)
    ensures var d' := Unite(d, e.u, e.v).0;
      Root(d', x) == Root(d', y) <==> Connected(accepted + [e], x, y)
  {
    var d' := Unite(d, e.u, e.v).0;
    var acc := accepted + [e];
    if Connected(acc, x, y) {
      ConnectedSameRoot(d', acc, x, y);
    }
    if Root(d', x) == Root(d', y) {
      ConnectedEdge(acc, e);
      if Root(d, x) == Root(d, y) {
        ConnectedGrow(accepted, e, x, y);
      } else if Root(d, x) == Root(d, e.u) {
        assert Root(d, y) == Root(d, e.v);
        ConnectedGrow(accepted, e, x, e.u);
        ConnectedGrow(accepted, e, e.v, y);
        ConnectedTrans(acc, x, e.u, e.v);
        ConnectedTrans(acc, x, e.v, y);
      } else {
        assert Root(d, x) == Root(d, e.v) && Root(d, y) == Root(d, e.u);
        ConnectedGrow(accepted, e, x, e.v);
        ConnectedGrow(accepted, e, e.u, y);
        ConnectedTrans(acc, x, e.v, e.u);
        ConnectedTrans(acc, x, e.u, y);
      }
    }
  }

  /** Rejecting an edge (ends already in one set) changes no set. */
  lemma RejectTracks(d: Dsu, accepted: seq<Edge>, e: Edge)
    requires UnionFind.Valid(d) && Tracks(d, accepted) && e.u < |d.parent| && e.v < |d.parent|
    requires Root(d, e.u) == Root(d, e.v)
    ensures Tracks(Unite(d, e.u, e.v).0, accepted)
  {
  }

  lemma AcceptForest(accepted: seq<Edge>, e: Edge)
    requires Forest(accepted) && !Connected(accepted, e.u, e.v)
    ensures Forest(accepted + [e])
  {
    var acc := accepted + [e];
    forall k | 0 <= k < |acc|
      ensures !Connected(acc[..k], acc[k].u, acc[k].v)
    {
      if k < |accepted| {
        assert acc[..k] == accepted[..k];
      } else {
        assert acc[..k] == accepted;
      }
    }
  }

  /** What the accepting loop keeps after examining `es[..i]`. */
  ghost predicate Accepting(n: nat, es: seq<Edge>, i: nat, d: Dsu, accepted: seq<Edge>)
  {
    && i <= |es| && UnionFind.Valid(d) && |d.parent| == n
    && Tracks(d, accepted) && Forest(accepted)
    && |accepted| + |Roots(d)| == n
    && (forall e :: e in accepted ==> e in es[..i])
    && (forall k :: 0 <= k < i ==> Connected(accepted, es[k].u, es[k].v))
  }

  lemma InitAccepting(n: nat, es: seq<Edge>)
    ensures Accepting(n, es, 0, Init(n), [])
  {
    var d := Init(n);
    forall x, y | 0 <= x < n && 0 <= y < n && Connected([], x, y)
      ensures x == y
    {
      ConnectedSameRoot(d, [], x, y);
    }
    forall x | 0 <= x < n
      ensures Connected([], x, x)
    {
      ConnectedRefl([], x);
    }
    assert Roots(d) == AllNodes(n);
    AllNodesSize(n);
  }

  lemma AcceptCount(d: Dsu, a: nat, b: nat, k: nat, n: nat)
    requires UnionFind.Valid(d) && a < |d.parent| && b < |d.parent| && Root(d, a) != Root(d, b)
    requires k + |Roots(d)| == n
    ensures k + 1 + |Roots(Unite(d, a, b).0)| == n
  {
    var d' := Unite(d, a, b).0;
    if Roots(d') == Roots(d) - {Root(d, a)} {
      assert |Roots(d')| == |Roots(d)| - 1;
    } else {
      assert |Roots(d')| == |Roots(d)| - 1;
    }
  }

  lemma AcceptCovers(es: seq<Edge>, i: nat, accepted: seq<Edge>)
    requires i < |es|
    requires forall e :: e in accepted ==> e in es[..i]
    requires forall k :: 0 <= k < i ==> Connected(accepted, es[k].u, es[k].v)
    ensures forall e :: e in accepted + [es[i]] ==> e in es[..i + 1]
    ensures forall k :: 0 <= k < i + 1 ==> Connected(accepted + [es[i]], es[k].u, es[k].v)
  {
    var e := es[i];
    var acc := accepted + [e];
    assert es[..i + 1] == es[..i] + [e];
    ConnectedEdge(acc, e);
    forall k | 0 <= k < i
      ensures Connected(acc, es[k].u, es[k].v)
    {
      ConnectedGrow(accepted, e, es[k].u, es[k].v);
    }
  }

  lemma AcceptStep(n: nat, es: seq<Edge>, i: nat, d: Dsu, accepted: seq<Edge>)
    requires Accepting(n, es, i, d, accepted) && i < |es| && es[i].u < n && es[i].v < n
    requires Root(d, es[i].u) != Root(d, es[i].v)
    ensures Accepting(n, es, i + 1, Unite(d, es[i].u, es[i].v).0, accepted + [es[i]])
  {
    AcceptTracks(d, accepted, es[i]);
    AcceptForest(accepted, es[i]);
    AcceptCount(d, es[i].u, es[i].v, |accepted|, n);
    AcceptCovers(es, i, accepted);
  }

  lemma RejectStep(n: nat, es: seq<Edge>, i: nat, d: Dsu, accepted: seq<Edge>)
    requires Accepting(n, es, i, d, accepted) && i < |es| && es[i].u < n && es[i].v < n
    requires Root(d, es[i].u) == Root(d, es[i].v)
    ensures Accepting(n, es, i + 1, Unite(d, es[i].u, es[i].v).0, accepted)
  {
    var d' := Unite(d, es[i].u, es[i].v).0;
    RejectTracks(d, accepted, es[i]);
    assert Roots(d') == Roots(d);
    assert Connected(accepted, es[i].u, es[i].v);
    RejectCovers(es, i, accepted);
  }

  lemma RejectCovers(es: seq<Edge>, i: nat, accepted: seq<Edge>)
    requires i < |es|
    requires forall e :: e in accepted ==> e in es[..i]
    requires forall k :: 0 <= k < i ==> Connected(accepted, es[k].u, es[k].v)
    requires Connected(accepted, es[i].u, es[i].v)
    ensures forall e :: e in accepted ==> e in es[..i + 1]
    ensures forall k :: 0 <= k < i + 1 ==> Connected(accepted, es[k].u, es[k].v)
  {
    assert es[..i + 1] == es[..i] + [es[i]];
  }

  lemma SortedAppend(s: seq<Edge>, e: Edge)
    requires SortedByWeight(s) && (|s| > 0 ==> s[|s| - 1].w <= e.w)
    ensures SortedByWeight(s + [e])
  {
  }

  lemma TotalAppend(s: seq<Edge>, e: Edge)
    ensures TotalWeight(s + [e]) == TotalWeight(s) + e.w
  {
    assert (s + [e])[..|s|] == s;
  }

  /** After the last edge: every examined edge's ends are connected, and the
      accepted edges number `n` minus the sets left, at least one set when
      there are nodes at all. */
  lemma AcceptDone(n: nat, es: seq<Edge>, d: Dsu, accepted: seq<Edge>)
    requires Accepting(n, es, |es|, d, accepted)
    ensures forall e :: e in accepted ==> e in es
    ensures forall e :: e in es ==> Connected(accepted, e.u, e.v)
    ensures n > 0 ==> |accepted| <= n - 1
    ensures n == 0 ==> accepted == []
  {
    assert es[..|es|] == es;
    forall e | e in es
      ensures Connected(accepted, e.u, e.v)
    {
      var k :| 0 <= k < |es| && es[k] == e;
    }
    if n > 0 {
      assert Root(d, 0) in Roots(d);
    } else {
      assert Roots(d) == {};
    }
  }

  /** The loop state beyond the union-find: the running total, and the
      accepted edges in non-decreasing weight when the input is sorted. */
  ghost predicate Running(es: seq<Edge>, i: nat, accepted: seq<Edge>, total: int, last: int)
  {
    && total == TotalWeight(accepted)
    && -1 <= last < i <= |es|
    && (|accepted| > 0 ==> 0 <= last && accepted[|accepted| - 1] == es[last])
    && (SortedByWeight(es) ==> SortedByWeight(accepted))
  }

  lemma RunningAccept(es: seq<Edge>, i: nat, accepted: seq<Edge>, total: int, last: int)
    requires Running(es, i, accepted, total, last) && i < |es|
    ensures Running(es, i + 1, accepted + [es[i]], total + es[i].w, i)
  {
    TotalAppend(accepted, es[i]);
    if SortedByWeight(es) {
      SortedAppend(accepted, es[i]);
    }
  }

  lemma Take(n: nat, es: seq<Edge>, i: nat, d: Dsu, accepted: seq<Edge>, total: int, last: int)
    requires Accepting(n, es, i, d, accepted) && Running(es, i, accepted, total, last)
    requires i < |es| && es[i].u < n && es[i].v < n && Unite(d, es[i].u, es[i].v).1
    ensures Accepting(n, es, i + 1, Unite(d, es[i].u, es[i].v).0, accepted + [es[i]])
    ensures Running(es, i + 1, accepted + [es[i]], total + es[i].w, i)
  {
    AcceptStep(n, es, i, d, accepted);
    RunningAccept(es, i, accepted, total, last);
  }

  lemma Skip(n: nat, es: seq<Edge>, i: nat, d: Dsu, accepted: seq<Edge>, total: int, last: int)
    requires Accepting(n, es, i, d, accepted) && Running(es, i, accepted, total, last)
    requires i < |es| && es[i].u < n && es[i].v < n && !Unite(d, es[i].u, es[i].v).1
    ensures Accepting(n, es, i + 1, Unite(d, es[i].u, es[i].v).0, accepted)
    ensures Running(es, i + 1, accepted, total, last)
  {
    RejectStep(n, es, i, d, accepted);
  }

  /** One pass of the accepting loop: `unite` decides whether `es[i]` is
      taken, and the total grows by its weight when it is. */
  method AcceptOne(n: nat, es: seq<Edge>, i: nat, d0: Dsu, accepted0: seq<Edge>, total0: int, ghost last0: int)
    returns (d: Dsu, accepted: seq<Edge>, total: int, ghost last: int)
    requires Accepting(n, es, i, d0, accepted0) && Running(es, i, accepted0, total0, last0)
    requires i < |es| && es[i].u < n && es[i].v < n
    ensures Accepting(n, es, i + 1, d, accepted) && Running(es, i + 1, accepted, total, last)
  {
    var r := Unite(d0, es[i].u, es[i].v);
    d := r.0;
    if r.1 {
      Take(n, es, i, d0, accepted0, total0, last0);
      accepted := accepted0 + [es[i]];
      total := total0 + es[i].w;
      last := i;
    } else {
      Skip(n, es, i, d0, accepted0, total0, last0);
      accepted, total, last := accepted0, total0, last0;
    }
  }

  /** The program's second loop over a list of edges: the accepted edges form
      a forest that connects the ends of every edge examined, with one edge
      fewer than there are nodes at most, and `total` is their weight. */
  method AcceptAll(n: nat, es: seq<Edge>) returns (accepted: seq<Edge>, total: int)
    requires forall e :: e in es ==> e.u < n && e.v < n
    ensures forall e :: e in accepted ==> e in es
    ensures Forest(accepted)
    ensures forall e :: e in es ==> Connected(accepted, e.u, e.v)
    ensures n > 0 ==> |accepted| <= n - 1
    ensures n == 0 ==> accepted == []
    ensures total == TotalWeight(accepted)
    ensures SortedByWeight(es) ==> SortedByWeight(accepted)
  {
    var d := Init(n);
    accepted := [];
    total := 0;
    var i := 0;
    ghost var last := -1;
    InitAccepting(n, es);
    while i < |es|
      invariant Accepting(n, es, i, d, accepted) && Running(es, i, accepted, total, last)
    {
      assert es[i] in es;
      d, accepted, total, last := AcceptOne(n, es, i, d, accepted, total, last);
      i := i + 1;
    }
    AcceptDone(n, es, d, accepted);
  }

  lemma {:induction false} AllNodesSize(n: nat)
    ensures |AllNodes(n)| == n
  {
    if n > 0 {
      var a := AllNodes(n - 1);
      AllNodesSize(n - 1);
      assert n - 1 !in a;
      assert AllNodes(n) == a + {n - 1};
    }
  }

  /** kruskalMST: the edges it reports are real `u < v` edges of the graph
      taken in non-decreasing weight order, each joins two airports the
      earlier ones had not connected, together they connect the two ends of
      every edge of the graph, there are at most n - 1 of them, and the
      reported total is their weight. */
  method Kruskal(g: Graph) returns (accepted: seq<Edge>, total: int)
    requires AirportGraph.Valid(g)
    ensures forall e :: e in accepted ==> e.u < e.v < |g.adj| && Arc(e.v, e.w) in g.adj[e.u]
    ensures SortedByWeight(accepted) && Forest(accepted)
    ensures forall u, k :: 0 <= u < |g.adj| && 0 <= k < |g.adj[u]| && u < g.adj[u][k].to ==>
      Connected(accepted, u, g.adj[u][k].to)
    ensures |g.adj| > 0 ==> |accepted| <= |g.adj| - 1
    ensures total == TotalWeight(accepted)
  {
    var n := |g.adj|;
    var cands := Candidates(g.adj, n);
    var sorted := SortByWeight(cands);
    forall e | e in sorted
      ensures e.u < n && e.v < n
    {
      assert e in multiset(cands);
    }
    accepted, total := AcceptAll(n, sorted);
    forall e | e in accepted
      ensures e.u < e.v < n && Arc(e.v, e.w) in g.adj[e.u]
    {
      assert e in multiset(cands);
    }
    forall u, k | 0 <= u < n && 0 <= k < |g.adj[u]| && u < g.adj[u][k].to
      ensures Connected(accepted, u, g.adj[u][k].to)
    {
      var e := Edge(u, g.adj[u][k].to, g.adj[u][k].weight);
      assert e in cands;
      assert e in multiset(sorted);
    }
  }

}
