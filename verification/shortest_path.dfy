/** dijkstra_path: single-source shortest distances with a lazily pruned
    priority queue, then the route to the destination rebuilt from parent
    pointers. The program's queue is a binary heap of (distance, node) pairs;
    here it is the set of pairs pushed and not yet popped, and a pop takes any
    pair of least distance, so every tie order the heap could produce is
    covered. A pair is pushed only when the node's distance strictly drops, so
    no pair is ever pushed twice and a set loses nothing. */
module ShortestPath {
  import opened Wrappers
  import opened AirportGraph
  import opened Traversal

  /** Every arc weight is at least zero. */
  ghost predicate NonNegative(adj: AdjList)
  {
    forall u, j :: 0 <= u < |adj| && 0 <= j < |adj[u]| ==> adj[u][j].weight >= 0
  }

  /** The relaxation test `dist[u] + w < dist[v]`, with None standing for the
      program's INT_MAX. */
  predicate Improves(candidate: int, current: Option<int>)
  {
    current.None? || candidate < current.value
  }

  /** The algorithm's working state: tentative distances, parent pointers
      (-1 for none) and the pending queue entries. */
  datatype State = State(dist: seq<Option<int>>, parent: seq<int>, pq: set<(int, nat)>)

  /** Proof bookkeeping: the settled nodes with the order they were settled in,
      the distance of the last pair popped, and the arc each parent pointer
      was set along. */
  datatype Aux = Aux(rank: map<nat, nat>, clock: nat, floor: int, via: seq<Arc>)

  /** Arc `k` of node `x` has been relaxed: its far end is no farther than
      `x` plus the arc. */
  ghost predicate Relaxed(adj: AdjList, dist: seq<Option<int>>, x: nat, k: nat)
  {
    && x < |adj| && k < |adj[x]| && x < |dist| && adj[x][k].to < |dist|
    && dist[x].Some? && dist[adj[x][k].to].Some?
    && dist[adj[x][k].to].value <= dist[x].value + adj[x][k].weight
  }

  /** All arcs of settled nodes are relaxed, except arcs `j..` of node `u`. */
  ghost predicate RelaxedExcept(adj: AdjList, st: State, ax: Aux, u: int, j: nat)
  {
    forall x, k :: x in ax.rank && x < |adj| && 0 <= k < |adj[x]| && (x == u ==> k < j) ==>
      Relaxed(adj, st.dist, x, k)
  }

  /** The parent pointer of `v` leads along a real arc from a settled node, the
      distance recorded at `v` is at least the parent's plus that arc, and a
      settled `v` was settled after its parent. */
  ghost predicate ParentLink(adj: AdjList, st: State, ax: Aux, v: nat)
  {
    && v < |st.parent| && v < |st.dist| && v < |ax.via|
    && var p := st.parent[v];
    && 0 <= p < |adj| && p < |st.dist| && p in ax.rank
    && st.dist[p].Some? && st.dist[v].Some?
    && ax.via[v] in adj[p] && ax.via[v].to == v
    && st.dist[v].value >= st.dist[p].value + ax.via[v].weight
    && (v in ax.rank ==> ax.rank[p] < ax.rank[v])
  }

  /** Sizes, and the start node's distance 0 with no parent. */
  ghost predicate Shape(adj: AdjList, s: nat, st: State, ax: Aux)
  {
    && s < |adj| && |st.dist| == |adj| && |st.parent| == |adj| && |ax.via| == |adj|
    && st.dist[s] == Some(0) && st.parent[s] == -1
  }

  /** Every finite distance is non-negative and belongs to a reachable node. */
  ghost predicate DistsReachable(adj: AdjList, s: nat, dist: seq<Option<int>>)
  {
    forall v :: 0 <= v < |dist| && dist[v].Some? ==> dist[v].value >= 0 && Reachable(adj, s, v)
  }

  /** Queue entries name nodes with a distance at most the entry's, and no
      entry lies below the last pair popped. */
  ghost predicate QueueBounds(st: State, floor: int)
  {
    forall p :: p in st.pq ==>
      p.1 < |st.dist| && st.dist[p.1].Some? && st.dist[p.1].value <= p.0 && floor <= p.0
  }

  /** Every unsettled node with a distance has its current pair queued. */
  ghost predicate PendingQueued(st: State, ax: Aux)
  {
    forall v :: 0 <= v < |st.dist| && st.dist[v].Some? && v !in ax.rank ==>
      (st.dist[v].value, v) in st.pq
  }

  /** Settled nodes were settled at distances no larger than the last pair
      popped, and their current pair is no longer queued. */
  ghost predicate SettledBelow(st: State, ax: Aux)
  {
    forall v :: v in ax.rank ==>
      && v < |st.dist| && ax.rank[v] < ax.clock && st.dist[v].Some?
      && st.dist[v].value <= ax.floor && (st.dist[v].value, v) !in st.pq
  }

  /** Parent pointers are set exactly at the nodes (other than the start node)
      that have a distance, and each one is a ParentLink. */
  ghost predicate Parents(adj: AdjList, s: nat, st: State, ax: Aux)
  {
    && (forall v :: 0 <= v < |st.parent| && v < |st.dist| && v != s ==>
          (st.parent[v] == -1 <==> st.dist[v].None?))
    && (forall v :: 0 <= v < |st.parent| && st.parent[v] != -1 ==> ParentLink(adj, st, ax, v))
  }

  /** The invariant of the main loop. */
  ghost predicate Core(adj: AdjList, s: nat, st: State, ax: Aux)
  {
    && Shape(adj, s, st, ax)
    && DistsReachable(adj, s, st.dist)
    && QueueBounds(st, ax.floor)
    && PendingQueued(st, ax)
    && SettledBelow(st, ax)
    && Parents(adj, s, st, ax)
  }

  /** A non-empty queue has a pair of least distance. */
  lemma {:induction false} MinExists(pq: set<(int, nat)>)
    requires pq != {}
    ensures exists p :: p in pq && forall q :: q in pq ==> p.0 <= q.0
    decreases pq
  {
    var x :| x in pq;
    var rest := pq - {x};
    if rest != {} {
      MinExists(rest);
      var m :| m in rest && forall q :: q in rest ==> m.0 <= q.0;
      if x.0 < m.0 {
        assert forall q :: q in pq ==> x.0 <= q.0;
      } else {
        assert forall q :: q in pq ==> m.0 <= q.0;
      }
    } else {
      assert pq == {x};
    }
  }

  lemma InitCore(adj: AdjList, s: nat, st: State, ax: Aux)
    requires s < |adj|
    requires st.dist == seq(|adj|, i => if i == s then Some(0) else None)
    requires st.parent == seq(|adj|, i => -1)
    requires st.pq == {(0, s)}
    requires ax.rank == map[] && ax.floor == 0 && |ax.via| == |adj|
    ensures Core(adj, s, st, ax) && RelaxedExcept(adj, st, ax, -1, 0)
  {
    ReachableSelf(adj, s);
  }

  /** Popping a pair whose distance is out of date changes nothing else. */
  lemma StalePop(adj: AdjList, s: nat, st: State, ax: Aux, p: (int, nat))
    requires Core(adj, s, st, ax) && RelaxedExcept(adj, st, ax, -1, 0)
    requires p in st.pq && forall q :: q in st.pq ==> p.0 <= q.0
    requires p.0 != st.dist[p.1].value
    ensures var st' := st.(pq := st.pq - {p});
      var ax' := ax.(floor := p.0);
      Core(adj, s, st', ax') && RelaxedExcept(adj, st', ax', -1, 0)
  {
    var st' := st.(pq := st.pq - {p});
    var ax' := ax.(floor := p.0);
    forall v | 0 <= v < |adj| && st'.parent[v] != -1
      ensures ParentLink(adj, st', ax', v)
    {
      assert ParentLink(adj, st, ax, v);
    }
  }

  /** Popping a current pair settles its node. */
  lemma SettlePop(adj: AdjList, s: nat, st: State, ax: Aux, p: (int, nat))
    requires Core(adj, s, st, ax) && RelaxedExcept(adj, st, ax, -1, 0)
    requires p in st.pq && forall q :: q in st.pq ==> p.0 <= q.0
    requires p.0 == st.dist[p.1].value
    ensures p.1 !in ax.rank
    ensures var st' := st.(pq := st.pq - {p});
      var ax' := ax.(rank := ax.rank[p.1 := ax.clock], clock := ax.clock + 1, floor := p.0);
      && Core(adj, s, st', ax') && RelaxedExcept(adj, st', ax', p.1, 0)
      && st'.dist[p.1] == Some(ax'.floor) && p.1 in ax'.rank
  {
    var st' := st.(pq := st.pq - {p});
    var ax' := ax.(rank := ax.rank[p.1 := ax.clock], clock := ax.clock + 1, floor := p.0);
    SettleQueue(st, ax, p);
    SettleParents(adj, s, st, ax, p);
    SettleRelaxed(adj, st, ax, p);
  }

  /** The queue facts after settling the node of a least pair. */
  lemma SettleQueue(st: State, ax: Aux, p: (int, nat))
    requires QueueBounds(st, ax.floor) && PendingQueued(st, ax) && SettledBelow(st, ax)
    requires p in st.pq && forall q :: q in st.pq ==> p.0 <= q.0
    requires p.0 == st.dist[p.1].value
    ensures p.1 !in ax.rank
    ensures var st' := st.(pq := st.pq - {p});
      var ax' := ax.(rank := ax.rank[p.1 := ax.clock], clock := ax.clock + 1, floor := p.0);
      QueueBounds(st', ax'.floor) && PendingQueued(st', ax') && SettledBelow(st', ax')
  {
    var st' := st.(pq := st.pq - {p});
    var ax' := ax.(rank := ax.rank[p.1 := ax.clock], clock := ax.clock + 1, floor := p.0);
    forall x | x in ax'.rank
      ensures x < |st'.dist| && ax'.rank[x] < ax'.clock && st'.dist[x].Some?
      ensures st'.dist[x].value <= ax'.floor && (st'.dist[x].value, x) !in st'.pq
    {
      if x != p.1 {
        assert x in ax.rank;
      }
    }
  }

  lemma SettleParents(adj: AdjList, s: nat, st: State, ax: Aux, p: (int, nat))
    requires Shape(adj, s, st, ax) && Parents(adj, s, st, ax) && SettledBelow(st, ax)
    requires p in st.pq && p.1 !in ax.rank
    ensures var st' := st.(pq := st.pq - {p});
      var ax' := ax.(rank := ax.rank[p.1 := ax.clock], clock := ax.clock + 1, floor := p.0);
      Shape(adj, s, st', ax') && Parents(adj, s, st', ax')
  {
    var st' := st.(pq := st.pq - {p});
    var ax' := ax.(rank := ax.rank[p.1 := ax.clock], clock := ax.clock + 1, floor := p.0);
    forall v | 0 <= v < |adj| && st'.parent[v] != -1
      ensures ParentLink(adj, st', ax', v)
    {
      assert ParentLink(adj, st, ax, v);
    }
  }

  lemma SettleRelaxed(adj: AdjList, st: State, ax: Aux, p: (int, nat))
    requires RelaxedExcept(adj, st, ax, -1, 0)
    ensures var st' := st.(pq := st.pq - {p});
      var ax' := ax.(rank := ax.rank[p.1 := ax.clock], clock := ax.clock + 1, floor := p.0);
      RelaxedExcept(adj, st', ax', p.1, 0)
  {
    var st' := st.(pq := st.pq - {p});
    var ax' := ax.(rank := ax.rank[p.1 := ax.clock], clock := ax.clock + 1, floor := p.0);
    forall x, k | x in ax'.rank && x < |adj| && 0 <= k < |adj[x]| && (x == p.1 ==> k < 0)
      ensures Relaxed(adj, st'.dist, x, k)
    {
      assert x in ax.rank;
    }
  }

  /** The state after `dist[v]` drops to `nd` along an arc out of `u`: the
      parent pointer is redirected and the pair `(nd, v)` pushed. */
  function Lower(st: State, v: nat, nd: int, u: nat): State
    requires v < |st.dist| && v < |st.parent|
  {
    State(st.dist[v := Some(nd)], st.parent[v := u], st.pq + {(nd, v)})
  }

  /** The facts a relaxation that lowers `dist[v]` relies on: `v` is not
      settled and is not the start node. */
  ghost predicate Lowering(adj: AdjList, s: nat, st: State, ax: Aux, u: nat, j: nat)
  {
    && Core(adj, s, st, ax) && u in ax.rank && u < |adj| && j < |adj[u]|
    && st.dist[u] == Some(ax.floor) && adj[u][j].to < |st.dist|
    && Improves(ax.floor + adj[u][j].weight, st.dist[adj[u][j].to])
  }

  lemma LowerTarget(adj: AdjList, s: nat, st: State, ax: Aux, u: nat, j: nat)
    requires NonNegative(adj) && ArcsInRange(adj) && Lowering(adj, s, st, ax, u, j)
    ensures adj[u][j].to !in ax.rank && adj[u][j].to != s && adj[u][j].to < |adj|
  {
  }

  lemma LowerQueue(adj: AdjList, s: nat, st: State, ax: Aux, u: nat, j: nat, v: nat, nd: int)
    requires u < |adj| && j < |adj[u]| && v == adj[u][j].to && nd == ax.floor + adj[u][j].weight
    requires NonNegative(adj) && ArcsInRange(adj) && Lowering(adj, s, st, ax, u, j)
    ensures var st' := Lower(st, v, nd, u);
      QueueBounds(st', ax.floor) && PendingQueued(st', ax) && SettledBelow(st', ax)
  {
    LowerTarget(adj, s, st, ax, u, j);
    LowerBounds(st, ax.floor, v, nd, u);
    LowerPending(st, ax, v, nd, u);
    LowerSettled(st, ax, v, nd, u);
  }

  /** The pushed pair lies above the floor, and every older pair of `v` lies
      above its new distance. */
  lemma LowerBounds(st: State, floor: int, v: nat, nd: int, u: nat)
    requires v < |st.dist| && v < |st.parent| && QueueBounds(st, floor)
    requires floor <= nd && Improves(nd, st.dist[v])
    ensures QueueBounds(Lower(st, v, nd, u), floor)
  {
    var st' := Lower(st, v, nd, u);
    forall p | p in st'.pq
      ensures p.1 < |st'.dist| && st'.dist[p.1].Some? && st'.dist[p.1].value <= p.0 && floor <= p.0
    {
      if p != (nd, v) {
        assert p in st.pq;
      }
    }
  }

  lemma LowerPending(st: State, ax: Aux, v: nat, nd: int, u: nat)
    requires v < |st.dist| && v < |st.parent| && PendingQueued(st, ax)
    ensures PendingQueued(Lower(st, v, nd, u), ax)
  {
    var st' := Lower(st, v, nd, u);
    forall x | 0 <= x < |st'.dist| && st'.dist[x].Some? && x !in ax.rank
      ensures (st'.dist[x].value, x) in st'.pq
    {
      if x != v {
        assert (st.dist[x].value, x) in st.pq;
      }
    }
  }

  lemma LowerSettled(st: State, ax: Aux, v: nat, nd: int, u: nat)
    requires v < |st.dist| && v < |st.parent| && SettledBelow(st, ax) && v !in ax.rank
    ensures SettledBelow(Lower(st, v, nd, u), ax)
  {
    var st' := Lower(st, v, nd, u);
    forall x | x in ax.rank
      ensures x < |st'.dist| && ax.rank[x] < ax.clock && st'.dist[x].Some?
      ensures st'.dist[x].value <= ax.floor && (st'.dist[x].value, x) !in st'.pq
    {
      assert x != v && st'.dist[x] == st.dist[x];
    }
  }

  lemma LowerDists(adj: AdjList, s: nat, st: State, ax: Aux, u: nat, j: nat, v: nat, nd: int)
    requires u < |adj| && j < |adj[u]| && v == adj[u][j].to && nd == ax.floor + adj[u][j].weight
    requires NonNegative(adj) && ArcsInRange(adj) && Lowering(adj, s, st, ax, u, j)
    ensures var st' := Lower(st, v, nd, u);
      DistsReachable(adj, s, st'.dist)
  {
    ReachableStep(adj, s, u, adj[u][j]);
  }

  lemma LowerParents(adj: AdjList, s: nat, st: State, ax: Aux, u: nat, j: nat, v: nat, nd: int)
    requires u < |adj| && j < |adj[u]| && v == adj[u][j].to && nd == ax.floor + adj[u][j].weight
    requires NonNegative(adj) && ArcsInRange(adj) && Lowering(adj, s, st, ax, u, j)
    ensures var st' := Lower(st, v, nd, u);
      var ax' := ax.(via := ax.via[v := adj[u][j]]);
      Shape(adj, s, st', ax') && Parents(adj, s, st', ax')
  {
    LowerTarget(adj, s, st, ax, u, j);
    var st' := Lower(st, v, nd, u);
    var ax' := ax.(via := ax.via[v := adj[u][j]]);
    forall x | 0 <= x < |st'.parent| && st'.parent[x] != -1
      ensures ParentLink(adj, st', ax', x)
    {
      if x != v {
        assert ParentLink(adj, st, ax, x);
      }
    }
  }

  /** Relaxing arc `j` of the node being settled keeps the invariant when the
      far end's distance drops. */
  lemma LowerKeepsCore(adj: AdjList, s: nat, st: State, ax: Aux, u: nat, j: nat, v: nat, nd: int)
    requires u < |adj| && j < |adj[u]| && v == adj[u][j].to && nd == ax.floor + adj[u][j].weight
    requires NonNegative(adj) && ArcsInRange(adj)
    requires Core(adj, s, st, ax)
    requires u in ax.rank && st.dist[u] == Some(ax.floor) && j < |adj[u]|
    requires Improves(ax.floor + adj[u][j].weight, st.dist[adj[u][j].to])
    ensures adj[u][j].to !in ax.rank
    ensures Core(adj, s, Lower(st, v, nd, u), ax.(via := ax.via[v := adj[u][j]]))
  {
    assert Lowering(adj, s, st, ax, u, j);
    LowerTarget(adj, s, st, ax, u, j);
    LowerQueue(adj, s, st, ax, u, j, v, nd);
    LowerDists(adj, s, st, ax, u, j, v, nd);
    LowerParents(adj, s, st, ax, u, j, v, nd);
  }

  /** ... and extends the relaxed prefix of `u`'s arcs by one. */
  lemma LowerRelaxes(adj: AdjList, st: State, ax: Aux, u: nat, j: nat, v: nat, nd: int)
    requires u < |adj| && j < |adj[u]| && v == adj[u][j].to && nd == ax.floor + adj[u][j].weight
    requires ArcsInRange(adj) && |st.dist| == |adj| && |st.parent| == |adj| && |ax.via| == |adj|
    requires RelaxedExcept(adj, st, ax, u, j)
    requires u in ax.rank && u < |adj| && st.dist[u] == Some(ax.floor) && j < |adj[u]|
    requires adj[u][j].to !in ax.rank
    requires Improves(ax.floor + adj[u][j].weight, st.dist[adj[u][j].to])
    ensures RelaxedExcept(adj, Lower(st, v, nd, u), ax.(via := ax.via[v := adj[u][j]]), u, j + 1)
  {
    var st' := Lower(st, v, nd, u);
    var ax' := ax.(via := ax.via[v := adj[u][j]]);
    forall x, k | x in ax'.rank && x < |adj| && 0 <= k < |adj[x]| && (x == u ==> k < j + 1)
      ensures Relaxed(adj, st'.dist, x, k)
    {
      if !(x == u && k == j) {
        assert Relaxed(adj, st.dist, x, k);
      }
    }
  }

  /** An arc whose relaxation test fails is already relaxed. */
  lemma NoLowerRelaxes(adj: AdjList, st: State, ax: Aux, u: nat, j: nat)
    requires ArcsInRange(adj) && |st.dist| == |adj|
    requires RelaxedExcept(adj, st, ax, u, j)
    requires u in ax.rank && u < |adj| && st.dist[u] == Some(ax.floor) && j < |adj[u]|
    requires !Improves(ax.floor + adj[u][j].weight, st.dist[adj[u][j].to])
    ensures RelaxedExcept(adj, st, ax, u, j + 1)
  {
    forall x, k | x in ax.rank && x < |adj| && 0 <= k < |adj[x]| && (x == u ==> k < j + 1)
      ensures Relaxed(adj, st.dist, x, k)
    {
      if !(x == u && k == j) {
        assert Relaxed(adj, st.dist, x, k);
      }
    }
  }

  /** One pass of the inner loop: relax arc `j` of `u`. */
  method RelaxOne(adj: AdjList, ghost s: nat, st0: State, ghost ax0: Aux, u: nat, j: nat)
    returns (st: State, ghost ax: Aux)
    requires NonNegative(adj) && ArcsInRange(adj)
    requires Core(adj, s, st0, ax0) && RelaxedExcept(adj, st0, ax0, u, j)
    requires u in ax0.rank && st0.dist[u] == Some(ax0.floor) && j < |adj[u]|
    ensures Core(adj, s, st, ax) && RelaxedExcept(adj, st, ax, u, j + 1)
    ensures st.dist[u] == Some(ax.floor) && ax.rank == ax0.rank
  {
    var v := adj[u][j].to;
    var w := adj[u][j].weight;
    var nd := st0.dist[u].value + w;
    if Improves(nd, st0.dist[v]) {
      LowerKeepsCore(adj, s, st0, ax0, u, j, v, nd);
      LowerRelaxes(adj, st0, ax0, u, j, v, nd);
      st := Lower(st0, v, nd, u);
      ax := ax0.(via := ax0.via[v := adj[u][j]]);
    } else {
      NoLowerRelaxes(adj, st0, ax0, u, j);
      st := st0;
      ax := ax0;
    }
  }

  /** The inner loop of the program: relax every arc of the node just settled,
      in adjacency order. */
  method RelaxArcs(adj: AdjList, ghost s: nat, st0: State, ghost ax0: Aux, u: nat)
    returns (st: State, ghost ax: Aux)
    requires NonNegative(adj) && ArcsInRange(adj)
    requires Core(adj, s, st0, ax0) && RelaxedExcept(adj, st0, ax0, u, 0)
    requires u in ax0.rank && st0.dist[u] == Some(ax0.floor)
    ensures Core(adj, s, st, ax) && RelaxedExcept(adj, st, ax, -1, 0)
    ensures ax.rank == ax0.rank
  {
    st := st0;
    ax := ax0;
    var j := 0;
    while j < |adj[u]|
      invariant 0 <= j <= |adj[u]|
      invariant Core(adj, s, st, ax) && RelaxedExcept(adj, st, ax, u, j)
      invariant u in ax.rank && st.dist[u] == Some(ax.floor)
      invariant ax.rank == ax0.rank
    {
      st, ax := RelaxOne(adj, s, st, ax, u, j);
      j := j + 1;
    }
    assert RelaxedExcept(adj, st, ax, -1, 0);
  }

  /** Once every node that has a distance is settled and every settled node's
      arcs are relaxed, no walk from the start node is shorter than the recorded
      distance of its end. */
  lemma {:induction false} DistBelowWalk(adj: AdjList, s: nat, st: State, ax: Aux, arcs: seq<Arc>)
    requires Core(adj, s, st, ax) && RelaxedExcept(adj, st, ax, -1, 0) && st.pq == {}
    requires IsWalk(adj, s, arcs)
    ensures WalkEnd(s, arcs) < |adj|
    ensures st.dist[WalkEnd(s, arcs)].Some?
    ensures st.dist[WalkEnd(s, arcs)].value <= WalkWeight(arcs)
    decreases |arcs|
  {
    if |arcs| > 0 {
      var pre := arcs[..|arcs| - 1];
      DistBelowWalk(adj, s, st, ax, pre);
      var x := WalkEnd(s, pre);
      var k :| 0 <= k < |adj[x]| && adj[x][k] == arcs[|arcs| - 1];
      assert x in ax.rank;
      assert Relaxed(adj, st.dist, x, k);
    }
  }

  /** The loop has ended: distances are finite exactly at reachable nodes and
      below the weight of every walk. */
  lemma Finished(adj: AdjList, s: nat, st: State, ax: Aux)
    requires Core(adj, s, st, ax) && RelaxedExcept(adj, st, ax, -1, 0) && st.pq == {}
    ensures forall t :: 0 <= t < |adj| ==> (st.dist[t].Some? <==> Reachable(adj, s, t))
    ensures forall arcs :: IsWalk(adj, s, arcs) ==>
      WalkEnd(s, arcs) < |adj| && st.dist[WalkEnd(s, arcs)].Some? &&
      st.dist[WalkEnd(s, arcs)].value <= WalkWeight(arcs)
    ensures forall v :: 0 <= v < |adj| && st.parent[v] != -1 ==>
      ParentLink(adj, State(st.dist, st.parent, {}), ax, v) && v in ax.rank
  {
    forall arcs | IsWalk(adj, s, arcs)
      ensures WalkEnd(s, arcs) < |adj| && st.dist[WalkEnd(s, arcs)].Some?
      ensures st.dist[WalkEnd(s, arcs)].value <= WalkWeight(arcs)
    {
      DistBelowWalk(adj, s, st, ax, arcs);
    }
    forall t | 0 <= t < |adj| && Reachable(adj, s, t)
      ensures st.dist[t].Some?
    {
      var arcs :| IsWalk(adj, s, arcs) && WalkEnd(s, arcs) == t;
    }
    forall v | 0 <= v < |adj| && st.parent[v] != -1
      ensures ParentLink(adj, State(st.dist, st.parent, {}), ax, v) && v in ax.rank
    {
      assert ParentLink(adj, st, ax, v);
    }
  }

  /** One pass of the outer loop: pop a pair of least distance (any of them
      when several tie), skip it when it is out of date, otherwise settle its
      node and relax the node's arcs. */
  method PopOne(adj: AdjList, ghost s: nat, st0: State, ghost ax0: Aux) returns (st: State, ghost ax: Aux)
    requires NonNegative(adj) && ArcsInRange(adj)
    requires Core(adj, s, st0, ax0) && RelaxedExcept(adj, st0, ax0, -1, 0) && st0.pq != {}
    ensures Core(adj, s, st, ax) && RelaxedExcept(adj, st, ax, -1, 0)
    ensures ax0.rank.Keys <= ax.rank.Keys
    ensures ax.rank.Keys == ax0.rank.Keys ==> |st.pq| < |st0.pq|
  {
    MinExists(st0.pq);
    var p :| p in st0.pq && forall q :: q in st0.pq ==> p.0 <= q.0;
    if p.0 != st0.dist[p.1].value {
      StalePop(adj, s, st0, ax0, p);
      st := st0.(pq := st0.pq - {p});
      ax := ax0.(floor := p.0);
    } else {
      SettlePop(adj, s, st0, ax0, p);
      st := st0.(pq := st0.pq - {p});
      ax := ax0.(rank := ax0.rank[p.1 := ax0.clock], clock := ax0.clock + 1, floor := p.0);
      assert p.1 in ax.rank.Keys - ax0.rank.Keys;
      st, ax := RelaxArcs(adj, s, st, ax, p.1);
    }
  }

  /** Runs the outer loop from the initial state until the queue is empty. */
  method Run(adj: AdjList, s: nat) returns (st: State, ghost ax: Aux)
    requires ArcsInRange(adj) && NonNegative(adj) && s < |adj|
    ensures Core(adj, s, st, ax) && RelaxedExcept(adj, st, ax, -1, 0) && st.pq == {}
    ensures st.dist[s] == Some(0) && st.parent[s] == -1
  {
    st := State(seq(|adj|, i => if i == s then Some(0) else None), seq(|adj|, i => -1), {(0, s)});
    ax := Aux(map[], 0, 0, seq(|adj|, i => Arc(0, 0)));
    InitCore(adj, s, st, ax);
    while st.pq != {}
      invariant Core(adj, s, st, ax) && RelaxedExcept(adj, st, ax, -1, 0)
      decreases AllNodes(|adj|) - ax.rank.Keys, |st.pq|
    {
      ghost var before := ax.rank.Keys;
      st, ax := PopOne(adj, s, st, ax);
      FewerUnsettled(|adj|, before, ax.rank.Keys);
    }
  }

  /** Settling nodes of `[0, n)` shrinks the unsettled remainder. */
  lemma FewerUnsettled(n: nat, before: set<nat>, after: set<nat>)
    requires before <= after && forall x :: x in after ==> x < n
    ensures AllNodes(n) - after <= AllNodes(n) - before
    ensures after != before ==> AllNodes(n) - after < AllNodes(n) - before
  {
    if after != before {
      var x :| x in after && x !in before;
      assert x in AllNodes(n) - before;
    }
  }

  /** The main loop. Returns distances (None where the program's array keeps
      INT_MAX) and parent pointers. */
  method Distances(adj: AdjList, s: nat) returns (dist: seq<Option<int>>, parent: seq<int>, ghost ax: Aux)
    requires ArcsInRange(adj) && NonNegative(adj) && s < |adj|
    ensures |dist| == |adj| && |parent| == |adj|
    ensures dist[s] == Some(0) && parent[s] == -1
    ensures forall t :: 0 <= t < |adj| ==> (dist[t].Some? <==> Reachable(adj, s, t))
    ensures forall arcs :: IsWalk(adj, s, arcs) ==>
      WalkEnd(s, arcs) < |adj| && dist[WalkEnd(s, arcs)].Some? &&
      dist[WalkEnd(s, arcs)].value <= WalkWeight(arcs)
    ensures forall v :: 0 <= v < |adj| && v != s ==> (parent[v] == -1 <==> dist[v].None?)
    ensures forall v :: 0 <= v < |adj| && parent[v] != -1 ==>
      ParentLink(adj, State(dist, parent, {}), ax, v) && v in ax.rank
  {
    var st;
    st, ax := Run(adj, s);
    Finished(adj, s, st, ax);
    dist := st.dist;
    parent := st.parent;
  }

  /** Follows parent pointers back from `t` to the start node, the program's
      `for (cur = t; cur != -1; cur = parent[cur])` followed by a reversal.
      The route it rebuilds is a real walk whose weight is `dist[t]`. */
  method Reconstruct(adj: AdjList, ghost s: nat, t: nat, dist: seq<Option<int>>, parent: seq<int>, ghost ax: Aux)
    returns (path: seq<nat>, ghost arcs: seq<Arc>)
    requires |dist| == |adj| && |parent| == |adj| && t < |adj| && s < |adj|
    requires dist[s] == Some(0) && dist[t].Some?
    requires forall v :: 0 <= v < |adj| && v != s ==> (parent[v] == -1 <==> dist[v].None?)
    requires forall v :: 0 <= v < |adj| && parent[v] != -1 ==>
      ParentLink(adj, State(dist, parent, {}), ax, v) && v in ax.rank
    ensures IsWalk(adj, s, arcs) && WalkEnd(s, arcs) == t
    ensures WalkNodes(s, arcs) == path
    ensures WalkWeight(arcs) <= dist[t].value
    ensures |path| > 0 && path[0] == s && path[|path| - 1] == t
  {
    var cur := t;
    path := [t];
    arcs := [];
    assert IsWalk(adj, t, []);
    while parent[cur] != -1
      invariant 0 <= cur < |adj| && dist[cur].Some?
      invariant IsWalk(adj, cur, arcs) && WalkEnd(cur, arcs) == t
      invariant WalkNodes(cur, arcs) == path
      invariant dist[cur].value + WalkWeight(arcs) <= dist[t].value
      decreases if cur in ax.rank then ax.rank[cur] + 1 else 0
    {
      assert ParentLink(adj, State(dist, parent, {}), ax, cur);
      var p := parent[cur];
      WalkPrepend(adj, p, ax.via[cur], arcs);
      arcs := [ax.via[cur]] + arcs;
      path := [p] + path;
      cur := p;
    }
  }

  /** The answer of dijkstra_path: no path, or the distance and the airports
      along the route. */
  datatype PathResult = NoPath | Path(distance: int, airports: seq<string>)

  /** dijkstra_path: NoPath (the program's `{INT_MAX, {}}`) when an endpoint is
      unknown or the destination unreachable; otherwise a route from source to
      destination along real edges whose weights add up to the reported
      distance, and no route between them is shorter. */
  method DijkstraPath(g: Graph, source: string, dest: string) returns (r: PathResult)
    requires Valid(g) && NonNegative(g.adj)
    ensures r.NoPath? <==>
      || source !in g.airportIndex || dest !in g.airportIndex
      || !Reachable(g.adj, g.airportIndex[source], g.airportIndex[dest])
    ensures r.Path? ==> |r.airports| > 0 && r.airports[0] == source && r.airports[|r.airports| - 1] == dest
    ensures r.Path? ==> exists arcs ::
      && IsWalk(g.adj, g.airportIndex[source], arcs)
      && WalkEnd(g.airportIndex[source], arcs) == g.airportIndex[dest]
      && Names(g, WalkNodes(g.airportIndex[source], arcs)) == r.airports
      && WalkWeight(arcs) == r.distance
    ensures r.Path? ==> forall arcs ::
      IsWalk(g.adj, g.airportIndex[source], arcs) &&
      WalkEnd(g.airportIndex[source], arcs) == g.airportIndex[dest] ==>
      r.distance <= WalkWeight(arcs)
  {
    if source !in g.airportIndex || dest !in g.airportIndex {
      return NoPath;
    }
    var s := g.airportIndex[source];
    var t := g.airportIndex[dest];
    var dist, parent, ax := Distances(g.adj, s);
    if dist[t].None? {
      return NoPath;
    }
    var path, arcs := Reconstruct(g.adj, s, t, dist, parent, ax);
    WalkNodesInRange(g.adj, s, arcs);
    assert dist[t].value <= WalkWeight(arcs);
    r := Path(dist[t].value, Names(g, path));
  }

}
