/** The unbalanced binary search tree over flight ids. A node does not own its
    flight: it refers to a slot of the catalogue's flight array. The model keeps
    that slot number together with the id the node is ordered by. */
module FlightBST {
  import opened Wrappers
  import opened StringOrder
  import opened Flights

  datatype Tree = Leaf | Node(left: Tree, id: string, slot: nat, right: Tree)

  /** The (id, slot) pairs stored in the tree. */
  ghost function Entries(t: Tree): set<(string, nat)>
  {
    match t
    case Leaf => {}
    case Node(l, id, slot, r) => Entries(l) + {(id, slot)} + Entries(r)
  }

  /** The ids stored in the tree. */
  ghost function Keys(t: Tree): set<string>
  {
    match t
    case Leaf => {}
    case Node(l, id, _, r) => Keys(l) + {id} + Keys(r)
  }

  lemma EntryKeys(t: Tree, e: (string, nat))
    requires e in Entries(t)
    ensures e.0 in Keys(t)
  {
  }

  /** Search-tree order: every id in a left subtree is below its node's id,
      every id in a right subtree above it. */
  ghost predicate IsBST(t: Tree)
  {
    match t
    case Leaf => true
    case Node(l, id, _, r) =>
      && IsBST(l) && IsBST(r)
      && (forall k :: k in Keys(l) ==> Less(k, id))
      && (forall k :: k in Keys(r) ==> Less(id, k))
  }

  /** Every node refers to a slot below `n`. */
  ghost predicate SlotsBelow(t: Tree, n: nat)
  {
    forall e :: e in Entries(t) ==> e.1 < n
  }

  /** insertRec: a new id becomes a leaf in its ordered place; an id already in
      the tree leaves it unchanged, so the first insertion of an id wins. */
  function Insert(t: Tree, id: string, slot: nat): (r: Tree)
    ensures Keys(r) == Keys(t) + {id}
    ensures id !in Keys(t) ==> Entries(r) == Entries(t) + {(id, slot)}
    ensures IsBST(t) ==> IsBST(r)
  {
    match t
    case Leaf => Node(Leaf, id, slot, Leaf)
    case Node(l, k, s, rt) =>
      if Less(id, k) then
        Node(Insert(l, id, slot), k, s, rt)
      else if Less(k, id) then
        Node(l, k, s, Insert(rt, id, slot))
      else
        LessTrichotomy(id, k);
        t
  }

  /** Inserting an id the ordered tree already holds leaves the tree as it was:
      the first insertion of an id wins. */
  lemma {:induction false} InsertExistingKeepsTree(t: Tree, id: string, slot: nat)
    requires IsBST(t) && id in Keys(t)
    ensures Insert(t, id, slot) == t
  {
    match t
    case Leaf =>
    case Node(l, k, s, rt) =>
      LessTrichotomy(id, k);
      if Less(id, k) {
        SearchMissesRight(rt, k, id);
        InsertExistingKeepsTree(l, id, slot);
      } else if Less(k, id) {
        SearchMissesLeft(l, k, id);
        InsertExistingKeepsTree(rt, id, slot);
      }
  }

  /** searchRec: the slot of the node holding `id`, or None. */
  function Search(t: Tree, id: string): (r: Option<nat>)
    ensures r.Some? ==> (id, r.value) in Entries(t)
  {
    match t
    case Leaf => None
    case Node(l, k, s, rt) =>
      if id == k then Some(s)
      else if Less(id, k) then Search(l, id)
      else Search(rt, id)
  }

  /** In an ordered tree Search finds exactly the ids that are stored. */
  lemma {:induction false} SearchComplete(t: Tree, id: string)
    requires IsBST(t)
    ensures Search(t, id).Some? <==> id in Keys(t)
  {
    match t
    case Leaf =>
    case Node(l, k, s, rt) =>
      if id != k {
        LessTrichotomy(id, k);
        if Less(id, k) {
          SearchComplete(l, id);
          SearchMissesRight(rt, k, id);
        } else {
          SearchComplete(rt, id);
          SearchMissesLeft(l, k, id);
        }
      }
  }

  lemma SearchMissesRight(rt: Tree, k: string, id: string)
    requires forall x :: x in Keys(rt) ==> Less(k, x)
    requires Less(id, k)
    ensures id !in Keys(rt)
  {
    if id in Keys(rt) {
      LessTrichotomy(id, k);
    }
  }

  lemma SearchMissesLeft(l: Tree, k: string, id: string)
    requires forall x :: x in Keys(l) ==> Less(x, k)
    requires Less(k, id)
    ensures id !in Keys(l)
  {
    if id in Keys(l) {
      LessTrichotomy(id, k);
    }
  }

  /** In an ordered tree each id is stored once, so Search finds the one slot
      recorded for it. */
  lemma {:induction false} SearchFindsEntry(t: Tree, id: string, slot: nat)
    requires IsBST(t)
    requires (id, slot) in Entries(t)
    ensures Search(t, id) == Some(slot)
  {
    match t
    case Leaf =>
    case Node(l, k, s, rt) =>
      LessTrichotomy(id, k);
      if (id, slot) in Entries(l) {
        EntryKeys(l, (id, slot));
        SearchFindsEntry(l, id, slot);
      } else if (id, slot) in Entries(rt) {
        EntryKeys(rt, (id, slot));
        LessIrreflexive(id);
        SearchFindsEntry(rt, id, slot);
      }
  }

  /** After inserting an id that was absent, Search returns the new slot, and
      every other id is found where it was before. */
  lemma InsertThenSearch(t: Tree, id: string, slot: nat, other: string)
    requires IsBST(t) && id !in Keys(t)
    ensures Search(Insert(t, id, slot), id) == Some(slot)
    ensures other != id ==> Search(Insert(t, id, slot), other) == Search(t, other)
  {
    SearchFindsEntry(Insert(t, id, slot), id, slot);
    if other != id {
      var r := Search(t, other);
      if r.Some? {
        SearchFindsEntry(Insert(t, id, slot), other, r.value);
      }
    }
  }

  /** inorderRec: the (id, slot) pairs of the tree from the smallest id to the
      largest, leaving out nodes whose flight is inactive. */
  function ActiveInOrder(t: Tree, flights: seq<Flight>): (r: seq<(string, nat)>)
    requires SlotsBelow(t, |flights|)
    ensures forall e :: e in r <==> e in Entries(t) && flights[e.1].active
  {
    match t
    case Leaf => []
    case Node(l, id, slot, rt) =>
      assert (id, slot) in Entries(t);
      ActiveInOrder(l, flights)
        + (if flights[slot].active then [(id, slot)] else [])
        + ActiveInOrder(rt, flights)
  }

  /** Ids strictly increase along the sequence. */
  ghost predicate Ascending(r: seq<(string, nat)>)
  {
    forall i, j :: 0 <= i < j < |r| ==> Less(r[i].0, r[j].0)
  }

  /** On an ordered tree the walk lists ids in strictly ascending order. */
  lemma {:induction false} ActiveInOrderAscending(t: Tree, flights: seq<Flight>)
    requires SlotsBelow(t, |flights|) && IsBST(t)
    ensures Ascending(ActiveInOrder(t, flights))
  {
    match t
    case Leaf =>
    case Node(l, id, slot, rt) =>
      assert (id, slot) in Entries(t);
      var left := ActiveInOrder(l, flights);
      var right := ActiveInOrder(rt, flights);
      ActiveInOrderAscending(l, flights);
      ActiveInOrderAscending(rt, flights);
      forall i | 0 <= i < |left| ensures Less(left[i].0, id) {
        assert left[i] in left;
        EntryKeys(l, left[i]);
      }
      forall i | 0 <= i < |right| ensures Less(id, right[i].0) {
        assert right[i] in right;
        EntryKeys(rt, right[i]);
      }
      OrderedConcat(left, if flights[slot].active then [(id, slot)] else [], right, id);
  }

  lemma OrderedConcat(left: seq<(string, nat)>, mid: seq<(string, nat)>,
                      right: seq<(string, nat)>, k: string)
    requires Ascending(left) && Ascending(right)
    requires forall i :: 0 <= i < |left| ==> Less(left[i].0, k)
    requires forall i :: 0 <= i < |right| ==> Less(k, right[i].0)
    requires forall i :: 0 <= i < |mid| ==> mid[i].0 == k
    requires |mid| <= 1
    ensures Ascending(left + mid + right)
  {
    var r := left + mid + right;
    forall i, j | 0 <= i < j < |r|
      ensures Less(r[i].0, r[j].0)
    {
      if i < |left| && j >= |left| + |mid| {
        LessTransitive(r[i].0, k, r[j].0);
      }
    }
  }

}
