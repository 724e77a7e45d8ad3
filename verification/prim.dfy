/** primMST: Prim's algorithm grown from one airport with a lazily pruned
    priority queue of (key, node) pairs. As for Dijkstra, the heap is the set
    of pairs pushed and not yet popped and a pop takes any pair of least key;
    a node's key strictly drops each time a pair for it is pushed, so no pair
    is pushed twice. The program prints the chosen edges and their total; here
    they are returned. */
module PrimMst {
  import opened Wrappers
  import opened AirportGraph
  import opened ShortestPath

  /** Keys (None stands for the program's INT_MAX), parent pointers (-1 for
      none), the `inMST` flags and the pending queue entries. */
  datatype PrimState = PrimState(key: seq<Option<int>>, parent: seq<int>, inMst: seq<bool>, pq: set<(int, nat)>)

  /** Proof bookkeeping: when each node joined the tree. */
  datatype Order = Order(rank: map<nat, nat>, clock: nat)

  ghost predicate Shape(adj: AdjList, s: nat, st: PrimState, o: Order)
  {
    && ArcsInRange(adj) && s < |adj|
    && |st.key| == |adj| && |st.parent| == |adj| && |st.inMst| == |adj|
    && (forall v :: v in o.rank ==> v < |adj| && o.rank[v] < o.clock)
    && (forall v :: 0 <= v < |adj| ==> (st.inMst[v] <==> v in o.rank))
    && (forall v :: v in o.rank ==> st.key[v].Some?)
    && st.key[s] == Some(0) && st.parent[s] == -1
  }

  /** Queue entries name keyed nodes, and every keyed node outside the tree
      has its current key queued. Before the first pop the queue holds only
      the start; after it the start is in the tree. */
  ghost predicate Queue(adj: AdjList, s: nat, st: PrimState, o: Order)
    requires Shape(adj, s, st, o)
  {
    && (forall p :: p in st.pq ==> p.1 < |adj| && st.key[p.1].Some?)
    && (forall v :: 0 <= v < |adj| && st.key[v].Some? && !st.inMst[v] ==> (st.key[v].value, v) in st.pq)
    && (o.rank == map[] ==> st.pq == {(0, s)})
    && (o.rank != map[] ==> s in o.rank)
  }

  /** Only nodes reachable from the start get a key. */
  ghost predicate KeysReachable(adj: AdjList, s: nat, key: seq<Option<int>>)
  {
    forall v :: 0 <= v < |key| && key[v].Some? ==> Reachable(adj, s, v)
  }

  /** `v`'s parent joined the tree before `v` did, and `v`'s key is the weight
      of an edge from its parent to `v`. */
  ghost predicate TreeLink(adj: AdjList, st: PrimState, o: Order, v: nat)
    requires |st.key| == |adj| && |st.parent| == |adj| && v < |adj|
  {
    var p := st.parent[v];
    && 0 <= p < |adj| && p in o.rank && st.key[v].Some?
    && (v in o.rank ==> o.rank[p] < o.rank[v])
    && Arc(v, st.key[v].value) in adj[p]
  }

  ghost predicate Parents(adj: AdjList, s: nat, st: PrimState, o: Order)
    requires Shape(adj, s, st, o)
  {
    && (forall v :: 0 <= v < |adj| && v != s ==> (st.parent[v] != -1 <==> st.key[v].Some?))
    && (forall v :: 0 <= v < |adj| && st.parent[v] != -1 ==> TreeLink(adj, st, o, v))
  }

  ghost predicate Core(adj: AdjList, s: nat, st: PrimState, o: Order)
  {
    && Shape(adj, s, st, o) && Queue(adj, s, st, o)
    && KeysReachable(adj, s, st.key) && Parents(adj, s, st, o)
  }

  /** Arc `k` of tree node `x` has been scanned: if its far end joined the
      tree later than `x`, or has not joined yet, that end's key is at most
      the arc's weight. */
  ghost predicate Light(adj: AdjList, st: PrimState, o: Order, x: nat, k: nat)
    requires x in o.rank && x < |adj| && k < |adj[x]| && |st.key| == |adj|
    requires ArcsInRange(adj)
  {
    var a := adj[x][k];
    (a.to !in o.rank || o.rank[x] < o.rank[a.to]) ==>
      st.key[a.to].Some? && st.key[a.to].value <= a.weight
  }

  /** Every arc of every tree node has been scanned, except arcs `j..` of `u`. */
  ghost predicate LightExcept(adj: AdjList, st: PrimState, o: Order, u: int, j: nat)
    requires ArcsInRange(adj) && |st.key| == |adj|
  {
    forall x, k :: x in o.rank && x < |adj| && 0 <= k < |adj[x]| && (x == u ==> k < j) ==>
      Light(adj, st, o, x, k)
  }

  ghost predicate Inv(adj: AdjList, s: nat, st: PrimState, o: Order, u: int, j: nat)
  {
    Core(adj, s, st, o) && LightExcept(adj, st, o, u, j)
  }

  lemma InitInv(adj: AdjList, s: nat, st: PrimState, o: Order)
    requires ArcsInRange(adj) && s < |adj|
    requires st.key == seq(|adj|, i => if i == s then Some(0) else None)
    requires st.parent == seq(|adj|, i => -1)
    requires st.inMst == seq(|adj|, i => false)
    requires st.pq == {(0, s)} && o == Order(map[], 0)
    ensures Inv(adj, s, st, o, -1, 0)
  {
    ReachableSelf(adj, s);
  }

  /** Popping a node already in the tree only drops the pair. */
  lemma SkipPop(adj: AdjList, s: nat, st: PrimState, o: Order, p: (int, nat))
    requires Inv(adj, s, st, o, -1, 0) && p in st.pq && st.inMst[p.1]
    ensures Inv(adj, s, st.(pq := st.pq - {p}), o, -1, 0)
  {
    var st' := st.(pq := st.pq - {p});
    forall v | 0 <= v < |adj| && st'.parent[v] != -1
      ensures TreeLink(adj, st', o, v)
    {
      assert TreeLink(adj, st, o, v);
    }
    forall x, k | x in o.rank && x < |adj| && 0 <= k < |adj[x]|
      ensures Light(adj, st', o, x, k)
    {
      assert Light(adj, st, o, x, k);
    }
  }

  /** Popping a node outside the tree adds it, last in join order. */
  lemma JoinPop(adj: AdjList, s: nat, st: PrimState, o: Order, p: (int, nat))
    requires Inv(adj, s, st, o, -1, 0) && p in st.pq && !st.inMst[p.1]
    ensures p.1 !in o.rank
    ensures Inv(adj, s, st.(inMst := st.inMst[p.1 := true], pq := st.pq - {p}),
                Order(o.rank[p.1 := o.clock], o.clock + 1), p.1, 0)
  {
    JoinCore(adj, s, st, o, p);
    JoinLight(adj, st, o, p);
  }

  lemma JoinCore(adj: AdjList, s: nat, st: PrimState, o: Order, p: (int, nat))
    requires Core(adj, s, st, o) && p in st.pq && !st.inMst[p.1]
    ensures p.1 !in o.rank
    ensures Core(adj, s, st.(inMst := st.inMst[p.1 := true], pq := st.pq - {p}),
                 Order(o.rank[p.1 := o.clock], o.clock + 1))
  {
    var u := p.1;
    var st' := st.(inMst := st.inMst[u := true], pq := st.pq - {p});
    var o' := Order(o.rank[u := o.clock], o.clock + 1);
    assert o.rank == map[] ==> u == s;
    JoinParents(adj, s, st, o, p);
  }

  lemma JoinParents(adj: AdjList, s: nat, st: PrimState, o: Order, p: (int, nat))
    requires Shape(adj, s, st, o) && Parents(adj, s, st, o) && p.1 < |adj| && p.1 !in o.rank
    requires Shape(adj, s, st.(inMst := st.inMst[p.1 := true], pq := st.pq - {p}),
                   Order(o.rank[p.1 := o.clock], o.clock + 1))
    ensures Parents(adj, s, st.(inMst := st.inMst[p.1 := true], pq := st.pq - {p}),
                    Order(o.rank[p.1 := o.clock], o.clock + 1))
  {
    var st' := st.(inMst := st.inMst[p.1 := true], pq := st.pq - {p});
    var o' := Order(o.rank[p.1 := o.clock], o.clock + 1);
    forall v | 0 <= v < |adj| && st'.parent[v] != -1
      ensures TreeLink(adj, st', o', v)
    {
      assert TreeLink(adj, st, o, v);
    }
  }

  lemma JoinLight(adj: AdjList, st: PrimState, o: Order, p: (int, nat))
    requires ArcsInRange(adj) && |st.key| == |adj| && LightExcept(adj, st, o, -1, 0)
    requires p.1 < |st.inMst|
    requires p.1 !in o.rank
    ensures var st' := st.(inMst := st.inMst[p.1 := true], pq := st.pq - {p});
      LightExcept(adj, st', Order(o.rank[p.1 := o.clock], o.clock + 1), p.1, 0)
  {
    var u := p.1;
    var st' := st.(inMst := st.inMst[u := true], pq := st.pq - {p});
    var o' := Order(o.rank[u := o.clock], o.clock + 1);
    forall x, k | x in o'.rank && x < |adj| && 0 <= k < |adj[x]| && (x == u ==> k < 0)
      ensures Light(adj, st', o', x, k)
    {
      assert Light(adj, st, o, x, k);
    }
  }

  /** The state after `v`'s key drops to `w` along an arc out of `u`. */
  function Lower(st: PrimState, v: nat, w: int, u: nat): PrimState
    requires v < |st.key| && v < |st.parent|
  {
    st.(key := st.key[v := Some(w)], parent := st.parent[v := u], pq := st.pq + {(w, v)})
  }

  /** What scanning arc `j` of the newest tree node `u` may rely on. */
  ghost predicate Scanning(adj: AdjList, s: nat, st: PrimState, o: Order, u: nat, j: nat)
  {
    && Inv(adj, s, st, o, u, j) && u in o.rank && o.rank[u] + 1 == o.clock
    && u < |adj| && j < |adj[u]|
  }

  lemma LowerCore(adj: AdjList, s: nat, st: PrimState, o: Order, u: nat, j: nat, v: nat, w: int)
    requires Scanning(adj, s, st, o, u, j)
    requires v == adj[u][j].to && w == adj[u][j].weight
    requires !st.inMst[v] && Improves(w, st.key[v])
    ensures Core(adj, s, Lower(st, v, w, u), o)
  {
    assert v !in o.rank && v != s;
    LowerQueue(adj, s, st, o, v, w, u);
    ReachableStep(adj, s, u, adj[u][j]);
    LowerParents(adj, s, st, o, u, j, v, w);
  }

  lemma LowerQueue(adj: AdjList, s: nat, st: PrimState, o: Order, v: nat, w: int, u: nat)
    requires Shape(adj, s, st, o) && Queue(adj, s, st, o)
    requires v < |adj| && v !in o.rank && v != s && o.rank != map[]
    ensures Shape(adj, s, Lower(st, v, w, u), o) && Queue(adj, s, Lower(st, v, w, u), o)
  {
    var st' := Lower(st, v, w, u);
    forall p | p in st'.pq
      ensures p.1 < |adj| && st'.key[p.1].Some?
    {
      if p != (w, v) {
        assert p in st.pq;
      }
    }
  }

  lemma LowerParents(adj: AdjList, s: nat, st: PrimState, o: Order, u: nat, j: nat, v: nat, w: int)
    requires Shape(adj, s, st, o) && Parents(adj, s, st, o)
    requires u in o.rank && u < |adj| && j < |adj[u]| && v == adj[u][j].to && w == adj[u][j].weight
    requires v !in o.rank && v != s
    requires Shape(adj, s, Lower(st, v, w, u), o)
    ensures Parents(adj, s, Lower(st, v, w, u), o)
  {
    var st' := Lower(st, v, w, u);
    assert Arc(v, w) in adj[u];
    forall x | 0 <= x < |adj| && st'.parent[x] != -1
      ensures TreeLink(adj, st', o, x)
    {
      if x != v {
        assert TreeLink(adj, st, o, x);
      }
    }
  }

  lemma LowerLight(adj: AdjList, s: nat, st: PrimState, o: Order, u: nat, j: nat, v: nat, w: int)
    requires Scanning(adj, s, st, o, u, j)
    requires v == adj[u][j].to && w == adj[u][j].weight
    requires !st.inMst[v] && Improves(w, st.key[v])
    ensures LightExcept(adj, Lower(st, v, w, u), o, u, j + 1)
  {
    var st' := Lower(st, v, w, u);
    forall x, k | x in o.rank && x < |adj| && 0 <= k < |adj[x]| && (x == u ==> k < j + 1)
      ensures Light(adj, st', o, x, k)
    {
      if !(x == u && k == j) {
        assert Light(adj, st, o, x, k);
      }
    }
  }

  lemma NoLowerLight(adj: AdjList, s: nat, st: PrimState, o: Order, u: nat, j: nat)
    requires Scanning(adj, s, st, o, u, j)
    requires st.inMst[adj[u][j].to] || !Improves(adj[u][j].weight, st.key[adj[u][j].to])
    ensures LightExcept(adj, st, o, u, j + 1)
  {
    forall x, k | x in o.rank && x < |adj| && 0 <= k < |adj[x]| && (x == u ==> k < j + 1)
      ensures Light(adj, st, o, x, k)
    {
      if x == u && k == j {
        var a := adj[u][j];
        if a.to in o.rank {
          assert o.rank[a.to] < o.clock;
        }
      }
    }
  }

  /** One pass of the inner loop: scan arc `j` of the node just added. */
  method ScanOne(adj: AdjList, ghost s: nat, st0: PrimState, ghost o: Order, u: nat, j: nat)
    returns (st: PrimState)
    requires Scanning(adj, s, st0, o, u, j)
    ensures Inv(adj, s, st, o, u, j + 1)
    ensures forall v :: 0 <= v < |adj| ==> st.inMst[v] == st0.inMst[v]
  {
    var v := adj[u][j].to;
    var w := adj[u][j].weight;
    if !st0.inMst[v] && Improves(w, st0.key[v]) {
      LowerCore(adj, s, st0, o, u, j, v, w);
      LowerLight(adj, s, st0, o, u, j, v, w);
      st := Lower(st0, v, w, u);
    } else {
      NoLowerLight(adj, s, st0, o, u, j);
      st := st0;
    }
  }

  method ScanArcs(adj: AdjList, ghost s: nat, st0: PrimState, ghost o: Order, u: nat)
    returns (st: PrimState)
    requires Inv(adj, s, st0, o, u, 0) && u in o.rank && o.rank[u] + 1 == o.clock && u < |adj|
    ensures Inv(adj, s, st, o, -1, 0)
  {
    st := st0;
    var j := 0;
    while j < |adj[u]|
      invariant 0 <= j <= |adj[u]|
      invariant Inv(adj, s, st, o, u, j)
    {
      st := ScanOne(adj, s, st, o, u, j);
      j := j + 1;
    }
    assert LightExcept(adj, st, o, -1, 0);
  }

  /** One pass of the outer loop: pop a pair of least key; skip it when its
      node is already in the tree, otherwise add the node and scan its arcs. */
  method PopOne(adj: AdjList, ghost s: nat, st0: PrimState, ghost o0: Order)
    returns (st: PrimState, ghost o: Order)
    requires Inv(adj, s, st0, o0, -1, 0) && st0.pq != {}
    ensures Inv(adj, s, st, o, -1, 0)
    ensures o0.rank.Keys <= o.rank.Keys
    ensures o.rank.Keys == o0.rank.Keys ==> |st.pq| < |st0.pq|
  {
    MinExists(st0.pq);
    var p :| p in st0.pq && forall q :: q in st0.pq ==> p.0 <= q.0;
    if st0.inMst[p.1] {
      SkipPop(adj, s, st0, o0, p);
      st := st0.(pq := st0.pq - {p});
      o := o0;
    } else {
      JoinPop(adj, s, st0, o0, p);
      st := st0.(inMst := st0.inMst[p.1 := true], pq := st0.pq - {p});
      o := Order(o0.rank[p.1 := o0.clock], o0.clock + 1);
      assert p.1 in o.rank.Keys - o0.rank.Keys;
      st := ScanArcs(adj, s, st, o, p.1);
    }
  }

  /** The main loop, from the start airport's index `s`. */
  method Grow(adj: AdjList, s: nat) returns (st: PrimState, ghost o: Order)
    requires ArcsInRange(adj) && s < |adj|
    ensures Inv(adj, s, st, o, -1, 0) && st.pq == {}
  {
    st := PrimState(seq(|adj|, i => if i == s then Some(0) else None), seq(|adj|, i => -1),
                    seq(|adj|, i => false), {(0, s)});
    o := Order(map[], 0);
    InitInv(adj, s, st, o);
    while st.pq != {}
      invariant Inv(adj, s, st, o, -1, 0)
      decreases AllNodes(|adj|) - o.rank.Keys, |st.pq|
    {
      ghost var before := o.rank.Keys;
      st, o := PopOne(adj, s, st, o);
      FewerUnsettled(|adj|, before, o.rank.Keys);
    }
  }

  /** Once the queue is empty the tree holds exactly the nodes reachable from
      the start. */
  lemma Finished(adj: AdjList, s: nat, st: PrimState, o: Order)
    requires Inv(adj, s, st, o, -1, 0) && st.pq == {}
    ensures forall v :: 0 <= v < |adj| ==> (v in o.rank <==> Reachable(adj, s, v))
    ensures forall v :: 0 <= v < |adj| ==> (st.key[v].Some? <==> Reachable(adj, s, v))
  {
    forall x, k | x in o.rank && 0 <= x < |adj| && 0 <= k < |adj[x]|
      ensures adj[x][k].to in o.rank
    {
      assert Light(adj, st, o, x, k);
    }
    assert Closed(adj, o.rank.Keys);
    forall t | 0 <= t < |adj| && Reachable(adj, s, t)
      ensures t in o.rank
    {
      ClosedHoldsReachable(adj, o.rank.Keys, s, t);
    }
  }

  /** The tree Grow leaves behind, stated on its parent and key arrays:
      every node other than the start gets a parent exactly when it is
      reachable, the parent joined the tree first (so parent pointers never
      form a cycle), the key is the weight of an edge from the parent, and
      that edge is no heavier than any edge into the node from a node that
      joined before it. */
  method Tree(adj: AdjList, s: nat) returns (key: seq<Option<int>>, parent: seq<int>, ghost rank: map<nat, nat>)
    requires ArcsInRange(adj) && s < |adj|
    ensures |key| == |adj| && |parent| == |adj|
    ensures parent[s] == -1 && key[s] == Some(0)
    ensures forall v :: v in rank ==> v < |adj|
    ensures forall v :: 0 <= v < |adj| ==> (v in rank <==> Reachable(adj, s, v))
    ensures forall v :: 0 <= v < |adj| && v != s ==> (parent[v] != -1 <==> Reachable(adj, s, v))
    ensures forall v :: 0 <= v < |adj| && parent[v] != -1 ==>
      && 0 <= parent[v] < |adj| && key[v].Some?
      && Arc(v, key[v].value) in adj[parent[v]]
      && parent[v] as nat in rank && v in rank && rank[parent[v] as nat] < rank[v]
    ensures forall x, k ::
      (x in rank && 0 <= x < |adj| && 0 <= k < |adj[x]| && adj[x][k].to in rank && rank[x] < rank[adj[x][k].to]) ==>
      key[adj[x][k].to].Some? && key[adj[x][k].to].value <= adj[x][k].weight
  {
    var st, o := Grow(adj, s);
    Finished(adj, s, st, o);
    forall v | 0 <= v < |adj| && st.parent[v] != -1
      ensures TreeLink(adj, st, o, v) && v in o.rank
    {
      assert TreeLink(adj, st, o, v);
    }
    forall x, k | x in o.rank && 0 <= x < |adj| && 0 <= k < |adj[x]| && adj[x][k].to in o.rank &&
                  o.rank[x] < o.rank[adj[x][k].to]
      ensures st.key[adj[x][k].to].Some? && st.key[adj[x][k].to].value <= adj[x][k].weight
    {
      assert Light(adj, st, o, x, k);
    }
    key, parent, rank := st.key, st.parent, o.rank;
  }

  /** Every parent pointer that is set names a node and comes with a key. */
  ghost predicate Linked(key: seq<Option<int>>, parent: seq<int>)
  {
    && |key| == |parent|
    && forall x :: 0 <= x < |parent| && parent[x] != -1 ==> parent[x] >= 0 && key[x].Some?
  }

  /** The edges (parent[v], v, key[v]) for every v below `n` with a parent, in
      increasing order of v, as the program's final loop prints them. */
  function TreeEdges(key: seq<Option<int>>, parent: seq<int>, n: nat): (r: seq<Edge>)
    requires Linked(key, parent) && n <= |parent|
    ensures forall i :: 0 <= i < |r| ==> r[i].v < n
  {
    if n == 0 then []
    else if parent[n - 1] != -1
    then TreeEdges(key, parent, n - 1) + [Edge(parent[n - 1], n - 1, key[n - 1].value)]
    else TreeEdges(key, parent, n - 1)
  }

  /** The edges are real arcs listed in increasing order of their far ends,
      and those far ends are exactly the nodes other than `s` reachable from
      `s`, each once. */
  ghost predicate SpansReachable(adj: AdjList, s: nat, es: seq<Edge>)
  {
    && (forall i :: 0 <= i < |es| ==> es[i].u < |adj| && Arc(es[i].v, es[i].w) in adj[es[i].u])
    && (forall i, j :: 0 <= i < j < |es| ==> es[i].v < es[j].v)
    && (forall i :: 0 <= i < |es| ==> es[i].v != s && Reachable(adj, s, es[i].v))
    && (forall v :: 0 <= v < |adj| && v != s && Reachable(adj, s, v) ==>
          exists i :: 0 <= i < |es| && es[i].v == v)
  }

  /** The edges form a tree hanging from `s`. `rank` records when each node
      joined and holds exactly the nodes reachable from `s`; every edge leads
      from an earlier-joined node to a later one, and its near end is `s` or
      another edge's far end. So following near ends from any far end climbs
      to `s` without repeating a node. */
  ghost predicate HangsFrom(adj: AdjList, s: nat, es: seq<Edge>, rank: map<nat, nat>)
  {
    && s in rank
    && (forall v: nat :: v in rank <==> v < |adj| && Reachable(adj, s, v))
    && (forall i :: 0 <= i < |es| ==> es[i].u in rank && es[i].v in rank && rank[es[i].u] < rank[es[i].v])
    && (forall i :: 0 <= i < |es| ==> es[i].u == s || exists j :: 0 <= j < |es| && es[j].v == es[i].u)
  }

  /** The cut property: no arc into an edge's far end from a node that joined
      before that far end is lighter than the edge. */
  ghost predicate CutLight(adj: AdjList, es: seq<Edge>, rank: map<nat, nat>)
  {
    forall i, x, k ::
      (0 <= i < |es| && x in rank && x < |adj| && 0 <= k < |adj[x]| &&
       adj[x][k].to == es[i].v && es[i].v in rank && rank[x] < rank[es[i].v]) ==>
      es[i].w <= adj[x][k].weight
  }

  /** primMST: None when the start airport is unknown. Otherwise the chosen
      edges span the airports reachable from the start, in index order, and
      form a tree hanging from the start that has the cut property; the
      reported total is the sum of their weights. */
  method Prim(g: Graph, start: string) returns (r: Option<(seq<Edge>, int)>, ghost rank: map<nat, nat>)
    requires Valid(g)
    ensures r.None? <==> start !in g.airportIndex
    ensures r.Some? ==>
      var s := g.airportIndex[start];
      var (edges, total) := r.value;
      && SpansReachable(g.adj, s, edges)
      && HangsFrom(g.adj, s, edges, rank)
      && CutLight(g.adj, edges, rank)
      && total == TotalWeight(edges)
  {
    if start !in g.airportIndex {
      return None, map[];
    }
    var edges, total;
    edges, total, rank := PrimFrom(g.adj, g.airportIndex[start]);
    r := Some((edges, total));
  }

  /** primMST from the start airport's index `s`: grow the tree, then list
      its edges. */
  method PrimFrom(adj: AdjList, s: nat) returns (edges: seq<Edge>, total: int, ghost rank: map<nat, nat>)
    requires ArcsInRange(adj) && s < |adj|
    ensures SpansReachable(adj, s, edges)
    ensures HangsFrom(adj, s, edges, rank)
    ensures CutLight(adj, edges, rank)
    ensures total == TotalWeight(edges)
  {
    var key, parent;
    key, parent, rank := Tree(adj, s);
    assert Linked(key, parent);
    edges, total := ListEdges(key, parent);
    TreeEdgesSpan(adj, s, key, parent);
    TreeEdgesRooted(adj, s, key, parent, rank);
  }

  /** The final loop of primMST: one edge per node with a parent, and the
      running sum of their keys. */
  method ListEdges(key: seq<Option<int>>, parent: seq<int>) returns (edges: seq<Edge>, total: int)
    requires Linked(key, parent)
    ensures edges == TreeEdges(key, parent, |parent|)
    ensures total == TotalWeight(edges)
  {
    edges := [];
    total := 0;
    var v := 0;
    while v < |parent|
      invariant 0 <= v <= |parent|
      invariant edges == TreeEdges(key, parent, v)
      invariant total == TotalWeight(edges)
    {
      if parent[v] != -1 {
        var e := Edge(parent[v], v, key[v].value);
        assert (edges + [e])[..|edges|] == edges;
        edges := edges + [e];
        total := total + key[v].value;
      }
      v := v + 1;
    }
  }

  /** The listed edges are real edges, in increasing order of their far
      ends, and those far ends are the nodes other than `s` reachable from
      it. */
  lemma TreeEdgesSpan(adj: AdjList, s: nat, key: seq<Option<int>>, parent: seq<int>)
    requires Linked(key, parent) && |parent| == |adj| && s < |adj| && parent[s] == -1
    requires forall v :: 0 <= v < |adj| && v != s ==> (parent[v] != -1 <==> Reachable(adj, s, v))
    requires forall v :: 0 <= v < |adj| && parent[v] != -1 ==>
      0 <= parent[v] < |adj| && key[v].Some? && Arc(v, key[v].value) in adj[parent[v]]
    ensures SpansReachable(adj, s, TreeEdges(key, parent, |adj|))
  {
    TreeEdgesAreArcs(adj, key, parent, |adj|);
    TreeEdgesIncreasing(key, parent, |adj|);
    TreeEdgesSound(adj, s, key, parent);
    TreeEdgesComplete(adj, s, key, parent);
  }

  /** Every listed far end is reachable and is not the start. */
  lemma TreeEdgesSound(adj: AdjList, s: nat, key: seq<Option<int>>, parent: seq<int>)
    requires Linked(key, parent) && |parent| == |adj| && s < |adj| && parent[s] == -1
    requires forall v :: 0 <= v < |adj| && v != s ==> (parent[v] != -1 <==> Reachable(adj, s, v))
    ensures var es := TreeEdges(key, parent, |adj|);
      forall i :: 0 <= i < |es| ==> es[i].v != s && Reachable(adj, s, es[i].v)
  {
    var es := TreeEdges(key, parent, |adj|);
    forall i | 0 <= i < |es|
      ensures es[i].v != s && Reachable(adj, s, es[i].v)
    {
      assert es[i] in es;
      TreeEdgesEnds(key, parent, |adj|, es[i].v);
    }
  }

  /** Every reachable node other than the start is a listed far end. */
  lemma TreeEdgesComplete(adj: AdjList, s: nat, key: seq<Option<int>>, parent: seq<int>)
    requires Linked(key, parent) && |parent| == |adj| && s < |adj|
    requires forall v :: 0 <= v < |adj| && v != s ==> (parent[v] != -1 <==> Reachable(adj, s, v))
    ensures var es := TreeEdges(key, parent, |adj|);
      forall v :: 0 <= v < |adj| && v != s && Reachable(adj, s, v) ==>
        exists i :: 0 <= i < |es| && es[i].v == v
  {
    var es := TreeEdges(key, parent, |adj|);
    forall v | 0 <= v < |adj| && v != s && Reachable(adj, s, v)
      ensures exists i :: 0 <= i < |es| && es[i].v == v
    {
      TreeEdgesEnds(key, parent, |adj|, v);
      var i :| 0 <= i < |es| && es[i] == Edge(parent[v], v, key[v].value);
    }
  }

  /** Every listed edge is a real edge of the graph. */
  lemma {:induction false} TreeEdgesAreArcs(adj: AdjList, key: seq<Option<int>>, parent: seq<int>, n: nat)
    requires Linked(key, parent) && n <= |adj| && |parent| == |adj|
    requires forall v :: 0 <= v < |adj| && parent[v] != -1 ==>
      0 <= parent[v] < |adj| && key[v].Some? && Arc(v, key[v].value) in adj[parent[v]]
    ensures forall e :: e in TreeEdges(key, parent, n) ==> e.u < |adj| && Arc(e.v, e.w) in adj[e.u]
    decreases n
  {
    if n > 0 {
      TreeEdgesAreArcs(adj, key, parent, n - 1);
      var pre := TreeEdges(key, parent, n - 1);
      if parent[n - 1] != -1 {
        var es := pre + [Edge(parent[n - 1], n - 1, key[n - 1].value)];
        assert TreeEdges(key, parent, n) == es;
      } else {
        assert TreeEdges(key, parent, n) == pre;
      }
    }
  }

  /** The far ends come in strictly increasing order. */
  lemma {:induction false} TreeEdgesIncreasing(key: seq<Option<int>>, parent: seq<int>, n: nat)
    requires Linked(key, parent) && n <= |parent|
    ensures forall i, j :: 0 <= i < j < |TreeEdges(key, parent, n)| ==>
      TreeEdges(key, parent, n)[i].v < TreeEdges(key, parent, n)[j].v
    decreases n
  {
    if n > 0 {
      TreeEdgesIncreasing(key, parent, n - 1);
      var pre := TreeEdges(key, parent, n - 1);
      if parent[n - 1] != -1 {
        var es := pre + [Edge(parent[n - 1], n - 1, key[n - 1].value)];
        assert TreeEdges(key, parent, n) == es;
        forall i, j | 0 <= i < j < |es|
          ensures es[i].v < es[j].v
        {
          assert es[i] == pre[i];
          if j < |pre| {
            assert es[j] == pre[j];
          }
        }
      }
    }
  }

  /** Given the tree Grow leaves behind, the listed edges hang from the
      start and have the cut property. */
  lemma TreeEdgesRooted(adj: AdjList, s: nat, key: seq<Option<int>>, parent: seq<int>, rank: map<nat, nat>)
    requires ArcsInRange(adj) && Linked(key, parent) && |parent| == |adj| && s < |adj| && parent[s] == -1
    requires forall v :: v in rank ==> v < |adj|
    requires forall v :: 0 <= v < |adj| ==> (v in rank <==> Reachable(adj, s, v))
    requires forall v :: 0 <= v < |adj| && v != s ==> (parent[v] != -1 <==> Reachable(adj, s, v))
    requires forall v :: 0 <= v < |adj| && parent[v] != -1 ==>
      && 0 <= parent[v] < |adj|
      && parent[v] as nat in rank && v in rank && rank[parent[v] as nat] < rank[v]
    requires forall x, k ::
      (x in rank && 0 <= x < |adj| && 0 <= k < |adj[x]| && adj[x][k].to in rank && rank[x] < rank[adj[x][k].to]) ==>
      key[adj[x][k].to].Some? && key[adj[x][k].to].value <= adj[x][k].weight
    ensures HangsFrom(adj, s, TreeEdges(key, parent, |adj|), rank)
    ensures CutLight(adj, TreeEdges(key, parent, |adj|), rank)
  {
    ReachableSelf(adj, s);
    TreeEdgesFromParents(key, parent, |adj|);
    RootedRanks(adj, key, parent, rank);
    RootedNearEnds(adj, s, key, parent, rank);
    RootedCut(adj, key, parent, rank);
  }

  /** Each edge leads from an earlier-joined airport to a later one. */
  lemma RootedRanks(adj: AdjList, key: seq<Option<int>>, parent: seq<int>, rank: map<nat, nat>)
    requires Linked(key, parent) && |parent| == |adj|
    requires forall v :: 0 <= v < |adj| && parent[v] != -1 ==>
      parent[v] as nat in rank && v in rank && rank[parent[v] as nat] < rank[v]
    requires forall e :: e in TreeEdges(key, parent, |adj|) ==> ParentEdge(key, parent, e)
    ensures var es := TreeEdges(key, parent, |adj|);
      forall i :: 0 <= i < |es| ==> es[i].u in rank && es[i].v in rank && rank[es[i].u] < rank[es[i].v]
  {
    var es := TreeEdges(key, parent, |adj|);
    forall i | 0 <= i < |es|
      ensures es[i].u in rank && es[i].v in rank && rank[es[i].u] < rank[es[i].v]
    {
      assert ParentEdge(key, parent, es[i]);
    }
  }

  /** Each edge's near end is the start or the far end of another edge. */
  lemma RootedNearEnds(adj: AdjList, s: nat, key: seq<Option<int>>, parent: seq<int>, rank: map<nat, nat>)
    requires Linked(key, parent) && |parent| == |adj| && s < |adj|
    requires forall v :: 0 <= v < |adj| ==> (v in rank <==> Reachable(adj, s, v))
    requires forall v :: 0 <= v < |adj| && v != s ==> (parent[v] != -1 <==> Reachable(adj, s, v))
    requires forall v :: 0 <= v < |adj| && parent[v] != -1 ==> 0 <= parent[v] < |adj| && parent[v] as nat in rank
    requires forall e :: e in TreeEdges(key, parent, |adj|) ==> ParentEdge(key, parent, e)
    ensures var es := TreeEdges(key, parent, |adj|);
      forall i :: 0 <= i < |es| ==> es[i].u == s || exists j :: 0 <= j < |es| && es[j].v == es[i].u
  {
    var es := TreeEdges(key, parent, |adj|);
    forall i | 0 <= i < |es|
      ensures es[i].u == s || exists j :: 0 <= j < |es| && es[j].v == es[i].u
    {
      assert ParentEdge(key, parent, es[i]);
      var u := es[i].u;
      assert u < |adj| && Reachable(adj, s, u);
      if u != s {
        TreeEdgesEnds(key, parent, |adj|, u);
        var j :| 0 <= j < |es| && es[j] == Edge(parent[u], u, key[u].value);
      }
    }
  }

  /** No arc into an edge's far end from an earlier-joined airport is lighter
      than the edge. */
  lemma RootedCut(adj: AdjList, key: seq<Option<int>>, parent: seq<int>, rank: map<nat, nat>)
    requires Linked(key, parent) && |parent| == |adj| && ArcsInRange(adj)
    requires forall v :: 0 <= v < |adj| && parent[v] != -1 ==> v in rank
    requires forall x, k ::
      (x in rank && 0 <= x < |adj| && 0 <= k < |adj[x]| && adj[x][k].to in rank && rank[x] < rank[adj[x][k].to]) ==>
      key[adj[x][k].to].Some? && key[adj[x][k].to].value <= adj[x][k].weight
    requires forall e :: e in TreeEdges(key, parent, |adj|) ==> ParentEdge(key, parent, e)
    ensures var es := TreeEdges(key, parent, |adj|);
      forall i, x, k ::
        (0 <= i < |es| && x in rank && x < |adj| && 0 <= k < |adj[x]| &&
         adj[x][k].to == es[i].v && es[i].v in rank && rank[x] < rank[es[i].v]) ==> es[i].w <= adj[x][k].weight
  {
    var es := TreeEdges(key, parent, |adj|);
    forall i, x, k | 0 <= i < |es| && x in rank && x < |adj| && 0 <= k < |adj[x]| &&
                     adj[x][k].to == es[i].v && es[i].v in rank && rank[x] < rank[es[i].v]
      ensures es[i].w <= adj[x][k].weight
    {
      assert ParentEdge(key, parent, es[i]);
    }
  }

  /** `e` is the parent edge of its far end, weighted by that end's key. */
  ghost predicate ParentEdge(key: seq<Option<int>>, parent: seq<int>, e: Edge)
    requires Linked(key, parent)
  {
    e.v < |parent| && parent[e.v] != -1 && e.u == parent[e.v] && e.w == key[e.v].value
  }

  /** Each listed edge is the parent edge of its far end. */
  lemma {:induction false} TreeEdgesFromParents(key: seq<Option<int>>, parent: seq<int>, n: nat)
    requires Linked(key, parent) && n <= |parent|
    ensures forall e :: e in TreeEdges(key, parent, n) ==> ParentEdge(key, parent, e)
    decreases n
  {
    if n > 0 {
      TreeEdgesFromParents(key, parent, n - 1);
      var pre := TreeEdges(key, parent, n - 1);
      if parent[n - 1] != -1 {
        assert TreeEdges(key, parent, n) == pre + [Edge(parent[n - 1], n - 1, key[n - 1].value)];
      } else {
        assert TreeEdges(key, parent, n) == pre;
      }
    }
  }

  /** A node below `n` is a far end exactly when it has a parent. */
  lemma {:induction false} TreeEdgesEnds(key: seq<Option<int>>, parent: seq<int>, n: nat, v: nat)
    requires Linked(key, parent) && n <= |parent| && v < n
    ensures parent[v] != -1 ==> Edge(parent[v], v, key[v].value) in TreeEdges(key, parent, n)
    ensures parent[v] == -1 ==> forall e :: e in TreeEdges(key, parent, n) ==> e.v != v
    decreases n
  {
    var es := TreeEdges(key, parent, n);
    var pre := TreeEdges(key, parent, n - 1);
    if v < n - 1 {
      TreeEdgesEnds(key, parent, n - 1, v);
      if parent[n - 1] != -1 {
        assert es == pre + [Edge(parent[n - 1], n - 1, key[n - 1].value)];
      } else {
        assert es == pre;
      }
    } else if parent[v] != -1 {
      assert es == pre + [Edge(parent[n - 1], n - 1, key[n - 1].value)];
    } else {
      assert es == pre;
    }
  }

}
