/** AirportGraph::DSU: union-find over node indices with union by rank and
    path compression. `find` is recursive and rewrites each visited node's
    parent to the root on the way back; `unite` finds both roots, hangs the
    lower-ranked root under the other and bumps the rank on a tie. */
module UnionFind {

  datatype Dsu = Dsu(parent: seq<nat>, rnk: seq<nat>)

  /** An upper bound on every rank; the termination measure of `find`. */
  function MaxRank(r: seq<nat>): (m: nat)
    ensures forall i :: 0 <= i < |r| ==> r[i] <= m
  {
    if |r| == 0 then 0
    else
      var m := MaxRank(r[1..]);
      if r[0] > m then r[0] else m
  }

  /** Parents are in range and ranks strictly grow towards the root, which
      is what makes every parent chain end. */
  ghost predicate Valid(d: Dsu)
  {
    && |d.parent| == |d.rnk|
    && (forall x :: 0 <= x < |d.parent| ==> d.parent[x] < |d.parent|)
    && (forall x :: 0 <= x < |d.parent| && d.parent[x] != x ==> d.rnk[x] < d.rnk[d.parent[x]])
  }

  /** The representative of `x`'s set: the end of its parent chain. */
  ghost function Root(d: Dsu, x: nat): (r: nat)
    requires Valid(d) && x < |d.parent|
    ensures r < |d.parent| && d.parent[r] == r
    ensures x != r ==> d.rnk[x] < d.rnk[r]
    decreases MaxRank(d.rnk) - d.rnk[x]
  {
    if d.parent[x] == x then x else Root(d, d.parent[x])
  }

  /** The nodes that are their own parent: one per set. */
  ghost function Roots(d: Dsu): set<nat>
  {
    set x: nat | x < |d.parent| && d.parent[x] == x
  }

  /** DSU(n): every node its own set, all ranks 0. */
  function Init(n: nat): (d: Dsu)
    ensures Valid(d) && |d.parent| == n
    ensures forall x :: 0 <= x < n ==> Root(d, x) == x
    ensures forall x: nat :: x in Roots(d) <==> x < n
  {
    Dsu(seq(n, i => i), seq(n, i => 0))
  }

  /** Points `x` straight at `r`. */
  function Redirect(d: Dsu, x: nat, r: nat): Dsu
    requires x < |d.parent|
  {
    d.(parent := d.parent[x := r])
  }

  lemma RedirectValid(d: Dsu, x: nat)
    requires Valid(d) && x < |d.parent|
    ensures Valid(Redirect(d, x, Root(d, x)))
  {
  }

  /** Pointing a node at its own root moves no node to another set. */
  lemma {:induction false} RedirectKeepsRoot(d: Dsu, x: nat, y: nat)
    requires Valid(d) && x < |d.parent| && y < |d.parent|
    ensures Valid(Redirect(d, x, Root(d, x))) && Root(Redirect(d, x, Root(d, x)), y) == Root(d, y)
    decreases MaxRank(d.rnk) - d.rnk[y]
  {
    RedirectValid(d, x);
    var d' := Redirect(d, x, Root(d, x));
    if y == x {
      if d.parent[x] != x {
        assert Root(d', x) == Root(d', Root(d, x));
      }
    } else if d.parent[y] != y {
      RedirectKeepsRoot(d, x, d.parent[y]);
    }
  }

  /** find(x): returns x's root and compresses the path, after which x points
      at its root; no node changes set, no rank changes and the roots stay
      the roots. */
  function Find(d: Dsu, x: nat): (r: (Dsu, nat))
    requires Valid(d) && x < |d.parent|
    ensures Valid(r.0) && |r.0.parent| == |d.parent| && r.0.rnk == d.rnk
    ensures r.1 == Root(d, x) && r.0.parent[x] == r.1
    ensures forall y :: 0 <= y < |d.parent| ==> Root(r.0, y) == Root(d, y)
    ensures Roots(r.0) == Roots(d)
    decreases MaxRank(d.rnk) - d.rnk[x]
  {
    if d.parent[x] == x then (d, x)
    else
      var (d1, root) := Find(d, d.parent[x]);
      assert x !in Roots(d) && Root(d1, x) == root;
      CompressKeepsRoots(d1, x);
      (Redirect(d1, x, root), root)
  }

  /** Pointing a non-root node at its root changes no node's root and no
      root's status. */
  lemma CompressKeepsRoots(d: Dsu, x: nat)
    requires Valid(d) && x < |d.parent| && d.parent[x] != x
    ensures Valid(Redirect(d, x, Root(d, x)))
    ensures forall y :: 0 <= y < |d.parent| ==> Root(Redirect(d, x, Root(d, x)), y) == Root(d, y)
    ensures Roots(Redirect(d, x, Root(d, x))) == Roots(d)
  {
    RedirectValid(d, x);
    forall y | 0 <= y < |d.parent|
      ensures Root(Redirect(d, x, Root(d, x)), y) == Root(d, y)
    {
      RedirectKeepsRoot(d, x, y);
    }
  }

  /** Hangs root `y` under root `x`, raising `x`'s rank on a tie. */
  function Attach(d: Dsu, x: nat, y: nat): Dsu
    requires x < |d.parent| && y < |d.parent| && |d.rnk| == |d.parent|
  {
    Dsu(d.parent[y := x], if d.rnk[x] == d.rnk[y] then d.rnk[x := d.rnk[x] + 1] else d.rnk)
  }

  ghost predicate Attachable(d: Dsu, x: nat, y: nat)
  {
    && Valid(d) && x < |d.parent| && y < |d.parent| && x != y
    && d.parent[x] == x && d.parent[y] == y && d.rnk[y] <= d.rnk[x]
  }

  lemma AttachValid(d: Dsu, x: nat, y: nat)
    requires Attachable(d, x, y)
    ensures Valid(Attach(d, x, y))
    ensures Roots(Attach(d, x, y)) == Roots(d) - {y}
  {
  }

  /** After the link, `y`'s set has joined `x`'s and every other set is as
      it was. */
  lemma {:induction false} AttachRoot(d: Dsu, x: nat, y: nat, z: nat)
    requires Attachable(d, x, y) && z < |d.parent|
    ensures Valid(Attach(d, x, y)) &&
      Root(Attach(d, x, y), z) == if Root(d, z) == y then x else Root(d, z)
    decreases MaxRank(d.rnk) - d.rnk[z]
  {
    AttachValid(d, x, y);
    var d' := Attach(d, x, y);
    if d.parent[z] != z {
      AttachRoot(d, x, y, d.parent[z]);
    } else if z == y {
      assert Root(d', y) == Root(d', x);
    }
  }

  /** unite(a, b): false, with no set changed, when a and b already share a
      root; otherwise true, and exactly the two sets of a and b have merged:
      one root fewer and no other set touched. */
  function Unite(d: Dsu, a: nat, b: nat): (r: (Dsu, bool))
    requires Valid(d) && a < |d.parent| && b < |d.parent|
    ensures Valid(r.0) && |r.0.parent| == |d.parent|
    ensures r.1 <==> Root(d, a) != Root(d, b)
    ensures Root(r.0, a) == Root(r.0, b)
    ensures forall y, z :: 0 <= y < |d.parent| && 0 <= z < |d.parent| ==>
      (Root(r.0, y) == Root(r.0, z) <==>
        || Root(d, y) == Root(d, z)
        || (Root(d, y) == Root(d, a) && Root(d, z) == Root(d, b))
        || (Root(d, y) == Root(d, b) && Root(d, z) == Root(d, a)))
    ensures !r.1 ==> Roots(r.0) == Roots(d)
    ensures r.1 ==>
      && Root(d, a) in Roots(d) && Root(d, b) in Roots(d)
      && (Roots(r.0) == Roots(d) - {Root(d, a)} || Roots(r.0) == Roots(d) - {Root(d, b)})
  {
    var (d1, ra) := Find(d, a);
    var (d2, rb) := Find(d1, b);
    assert forall z :: 0 <= z < |d.parent| ==> Root(d2, z) == Root(d, z);
    assert ra == Root(d, a) && rb == Root(d, b) && Roots(d2) == Roots(d);
    if ra == rb then (d2, false)
    else
      var (x, y) := if d2.rnk[ra] < d2.rnk[rb] then (rb, ra) else (ra, rb);
      assert x in Roots(d) && y in Roots(d);
      AttachAll(d2, x, y);
      MergedSets(d, Attach(d2, x, y), a, b, x, y);
      (Attach(d2, x, y), true)
  }

  /** Linking root `y` under root `x` moves exactly `y`'s set to `x`. */
  lemma AttachAll(d: Dsu, x: nat, y: nat)
    requires Attachable(d, x, y)
    ensures Valid(Attach(d, x, y)) && |Attach(d, x, y).parent| == |d.parent|
    ensures Roots(Attach(d, x, y)) == Roots(d) - {y}
    ensures forall z :: 0 <= z < |d.parent| ==>
      Root(Attach(d, x, y), z) == if Root(d, z) == y then x else Root(d, z)
  {
    AttachValid(d, x, y);
    forall z | 0 <= z < |d.parent|
      ensures Root(Attach(d, x, y), z) == if Root(d, z) == y then x else Root(d, z)
    {
      AttachRoot(d, x, y, z);
    }
  }

  /** If `e` sends the root `y` of one of a's and b's sets to the other
      root `x` and keeps every other root, then in `e` two nodes share a set
      exactly when they did before or one was with a and the other with b. */
  lemma MergedSets(d: Dsu, e: Dsu, a: nat, b: nat, x: nat, y: nat)
    requires Valid(d) && Valid(e) && |e.parent| == |d.parent| && a < |d.parent| && b < |d.parent|
    requires (x == Root(d, a) && y == Root(d, b)) || (x == Root(d, b) && y == Root(d, a))
    requires x != y
    requires forall z :: 0 <= z < |d.parent| ==> Root(e, z) == if Root(d, z) == y then x else Root(d, z)
    ensures Root(e, a) == Root(e, b)
    ensures forall y', z :: 0 <= y' < |d.parent| && 0 <= z < |d.parent| ==>
      (Root(e, y') == Root(e, z) <==>
        || Root(d, y') == Root(d, z)
        || (Root(d, y') == Root(d, a) && Root(d, z) == Root(d, b))
        || (Root(d, y') == Root(d, b) && Root(d, z) == Root(d, a)))
  {
    forall y', z | 0 <= y' < |d.parent| && 0 <= z < |d.parent|
      ensures Root(e, y') == Root(e, z) <==>
        || Root(d, y') == Root(d, z)
        || (Root(d, y') == Root(d, a) && Root(d, z) == Root(d, b))
        || (Root(d, y') == Root(d, b) && Root(d, z) == Root(d, a))
    {
      var ry, rz := Root(d, y'), Root(d, z);
      assert x != ry ==> Root(e, y') == (if ry == y then x else ry);
    }
  }

}
