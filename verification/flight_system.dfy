/** The catalogue: a fixed-capacity flight array, the id tree over it, the
    airport graph fed by every added flight, a FIFO queue of booking requests
    (array indices), a stack of recent search terms and the booking-id
    counter. Console input becomes parameters; console output becomes the
    returned status and sequences. */
module FlightSystem {
  import opened Wrappers
  import opened StringOrder
  import opened Flights
  import FlightBST
  import AirportGraph

  /** Capacity of the flight array. */
  const MaxFlights: nat := 100

  /** `flights` is the used prefix of the array, so `|flights|` is the flight
      count. The queue's front is `bookingQueue[0]`; the stack's top is the
      last element of `recentSearches`. */
  datatype System = System(
    flights: seq<Flight>,
    bst: FlightBST.Tree,
    recentSearches: seq<string>,
    bookingQueue: seq<nat>,
    graph: AirportGraph.Graph,
    globalBookingId: int)

  /** What an operation reports instead of printing. */
  datatype Status =
    | Added(index: nat)
    | CapacityReached
    | Updated
    | FlightNotFound
    | NotFoundOrInactive
    | IndexNotFound
    | Queued(index: nat)
    | NothingToProcess
    | FlightCancelled
    | NoSeatsLeft
    | Confirmed(bookingId: int)
    | BookingNotFound
    | BookingCancelled

  /** The linear scan of bookFlight: the first array slot holding `id`, or -1. */
  function IndexOf(fs: seq<Flight>, id: string): (r: int)
    ensures -1 <= r < |fs|
    ensures r == -1 <==> forall i :: 0 <= i < |fs| ==> fs[i].flightID != id
    ensures r >= 0 ==> fs[r].flightID == id
    ensures r >= 0 ==> forall i :: 0 <= i < r ==> fs[i].flightID != id
  {
    if |fs| == 0 then -1
    else if fs[0].flightID == id then 0
    else
      var k := IndexOf(fs[1..], id);
      if k == -1 then -1 else k + 1
  }

  /** The ids of a booking list. */
  ghost function IdSet(bs: seq<Booking>): set<int>
  {
    set b | b in bs :: b.bookingId
  }

  /** No booking id is held by two different flights. */
  ghost predicate IdsDisjoint(fs: seq<Flight>)
  {
    forall i, j :: 0 <= i < |fs| && 0 <= j < |fs| && i != j ==>
      IdSet(fs[i].bookings) !! IdSet(fs[j].bookings)
  }

  /** Each flight's bookings are newest-first and were issued before the
      counter's current value, and no id is held twice. */
  ghost predicate BookingsValid(fs: seq<Flight>, next: int)
  {
    && (forall i :: 0 <= i < |fs| ==> NewestFirst(fs[i].bookings) && IdsBelow(fs[i].bookings, next))
    && IdsDisjoint(fs)
  }

  /** Every tree node refers to the first array slot holding its id, and every
      stored flight's id is in the tree. */
  ghost predicate TreeIndexes(t: FlightBST.Tree, fs: seq<Flight>)
  {
    && FlightBST.IsBST(t)
    && FlightBST.SlotsBelow(t, |fs|)
    && (forall e :: e in FlightBST.Entries(t) ==> IndexOf(fs, e.0) == e.1)
    && (forall i :: 0 <= i < |fs| ==> fs[i].flightID in FlightBST.Keys(t))
  }

  /** Every flight's endpoints are registered airports. */
  ghost predicate RoutesInGraph(fs: seq<Flight>, g: AirportGraph.Graph)
  {
    forall i :: 0 <= i < |fs| ==> fs[i].source in g.airportIndex && fs[i].destination in g.airportIndex
  }

  /** The catalogue invariant. */
  ghost predicate Valid(s: System)
  {
    && |s.flights| <= MaxFlights
    && TreeIndexes(s.bst, s.flights)
    && (forall i :: 0 <= i < |s.bookingQueue| ==> s.bookingQueue[i] < |s.flights|)
    && AirportGraph.Valid(s.graph)
    && RoutesInGraph(s.flights, s.graph)
    && s.globalBookingId >= 1
    && BookingsValid(s.flights, s.globalBookingId)
  }

  /** The constructor: no flights, empty containers, the counter at 1. */
  function Init(): (s: System)
    ensures Valid(s)
    ensures |s.flights| == 0 && |s.bookingQueue| == 0 && |s.recentSearches| == 0
    ensures s.globalBookingId == 1
  {
    System([], FlightBST.Leaf, [], [], AirportGraph.Empty(), 1)
  }

  /* ---------- lookup ---------- */

  /** On a valid catalogue the tree search and the linear scan agree: both
      find the first slot holding the id, and both miss exactly when no
      stored flight has it. */
  lemma SearchAgreesWithScan(s: System, id: string)
    requires Valid(s)
    ensures FlightBST.Search(s.bst, id).None? <==> IndexOf(s.flights, id) == -1
    ensures FlightBST.Search(s.bst, id).Some? ==> FlightBST.Search(s.bst, id).value == IndexOf(s.flights, id)
  {
    FlightBST.SearchComplete(s.bst, id);
    var r := FlightBST.Search(s.bst, id);
    if r.Some? {
      assert (id, r.value) in FlightBST.Entries(s.bst);
    }
  }

  /** The flight `bst.search(id)` returns, as an array slot. */
  function Lookup(s: System, id: string): (r: Option<nat>)
    requires Valid(s)
    ensures r.None? <==> forall i :: 0 <= i < |s.flights| ==> s.flights[i].flightID != id
    ensures r.Some? ==> r.value < |s.flights| && r.value as int == IndexOf(s.flights, id)
  {
    SearchAgreesWithScan(s, id);
    FlightBST.Search(s.bst, id)
  }

  /* ---------- invariant plumbing ---------- */

  lemma IndexOfAppend(fs: seq<Flight>, f: Flight, id: string)
    ensures IndexOf(fs + [f], id) ==
      if IndexOf(fs, id) >= 0 then IndexOf(fs, id)
      else if f.flightID == id then |fs| else -1
  {
    var r := IndexOf(fs + [f], id);
    if IndexOf(fs, id) >= 0 {
      assert (fs + [f])[IndexOf(fs, id)] == fs[IndexOf(fs, id)];
    } else if f.flightID == id {
      assert (fs + [f])[|fs|].flightID == id;
    } else {
      assert forall i :: 0 <= i < |fs| + 1 ==> (fs + [f])[i].flightID != id by {
        forall i | 0 <= i < |fs| + 1 ensures (fs + [f])[i].flightID != id {
          if i < |fs| { assert (fs + [f])[i] == fs[i]; }
        }
      }
    }
  }

  lemma IndexOfReplace(fs: seq<Flight>, k: nat, f: Flight, id: string)
    requires k < |fs| && f.flightID == fs[k].flightID
    ensures IndexOf(fs[k := f], id) == IndexOf(fs, id)
  {
    assert forall i :: 0 <= i < |fs| ==> fs[k := f][i].flightID == fs[i].flightID;
  }

  lemma IdSetMembers(bs: seq<Booking>, x: int)
    ensures x in IdSet(bs) <==> exists i :: 0 <= i < |bs| && bs[i].bookingId == x
  {
    if x in IdSet(bs) {
      var b :| b in bs && b.bookingId == x;
      var i :| 0 <= i < |bs| && bs[i] == b;
    }
  }

  /** A list whose ids all lie below `next` shares no id with `next`. */
  lemma BelowExcludes(bs: seq<Booking>, next: int)
    requires IdsBelow(bs, next)
    ensures next !in IdSet(bs)
  {
    IdSetMembers(bs, next);
  }

  /** Replacing a flight by a record with the same id keeps every tree node
      pointing at the first slot holding its id. */
  lemma ReplaceKeepsTree(t: FlightBST.Tree, fs: seq<Flight>, k: nat, f: Flight)
    requires TreeIndexes(t, fs) && k < |fs| && f.flightID == fs[k].flightID
    ensures TreeIndexes(t, fs[k := f])
  {
    forall e | e in FlightBST.Entries(t) ensures IndexOf(fs[k := f], e.0) == e.1 {
      IndexOfReplace(fs, k, f, e.0);
    }
  }

  /** Replacing flight `k` by one whose bookings carry only ids it already
      held plus possibly the counter's current value, and moving the counter
      forward, keeps the booking invariant. */
  lemma ReplaceKeepsBookings(fs: seq<Flight>, cur: int, k: nat, f: Flight, next: int)
    requires BookingsValid(fs, cur) && k < |fs|
    requires NewestFirst(f.bookings) && IdsBelow(f.bookings, next)
    requires IdSet(f.bookings) <= IdSet(fs[k].bookings) + {cur}
    requires next >= cur
    ensures BookingsValid(fs[k := f], next)
  {
    var fs' := fs[k := f];
    forall i | 0 <= i < |fs'|
      ensures NewestFirst(fs'[i].bookings) && IdsBelow(fs'[i].bookings, next)
    {
      if i != k {
        assert fs'[i] == fs[i];
        assert IdsBelow(fs[i].bookings, cur);
      }
    }
    forall i, j | 0 <= i < |fs'| && 0 <= j < |fs'| && i != j
      ensures IdSet(fs'[i].bookings) !! IdSet(fs'[j].bookings)
    {
      if i == k {
        BelowExcludes(fs[j].bookings, cur);
      } else if j == k {
        BelowExcludes(fs[i].bookings, cur);
      }
    }
  }

  /** Replacing flight `k` by a record with the same identity and admissible
      bookings, and moving the counter forward, keeps the catalogue valid. */
  lemma ReplaceFlightValid(s: System, k: nat, f: Flight, next: int)
    requires Valid(s) && k < |s.flights|
    requires f.flightID == s.flights[k].flightID
    requires f.source == s.flights[k].source && f.destination == s.flights[k].destination
    requires NewestFirst(f.bookings) && IdsBelow(f.bookings, next)
    requires IdSet(f.bookings) <= IdSet(s.flights[k].bookings) + {s.globalBookingId}
    requires next >= s.globalBookingId
    ensures Valid(s.(flights := s.flights[k := f], globalBookingId := next))
  {
    ReplaceKeepsTree(s.bst, s.flights, k, f);
    ReplaceKeepsBookings(s.flights, s.globalBookingId, k, f, next);
    assert RoutesInGraph(s.flights[k := f], s.graph);
  }

  /* ---------- admin operations ---------- */

  /** addFlight: refused once the array is full; otherwise the new flight
      takes slot `flightCount`, active and with no bookings, goes into the
      id tree (where an id already present keeps its first flight), adds its
      route to the graph, and the count grows by one. Nothing is validated. */
  function AddFlight(s: System, id: string, src: string, dest: string, dist: int, seats: int): (r: (System, Status))
    requires Valid(s)
    ensures Valid(r.0)
    ensures |s.flights| >= MaxFlights ==> r == (s, CapacityReached)
    ensures |s.flights| < MaxFlights ==>
      && r.1 == Added(|s.flights|)
      && r.0.flights == s.flights + [Flight(id, src, dest, dist, seats, true, [])]
      && FlightBST.Search(r.0.bst, id) ==
           (if FlightBST.Search(s.bst, id).Some? then FlightBST.Search(s.bst, id) else Some(|s.flights|))
      && (forall other :: other != id ==> FlightBST.Search(r.0.bst, other) == FlightBST.Search(s.bst, other))
      && r.0.graph == AirportGraph.AddEdge(s.graph, src, dest, dist)
      && r.0.bookingQueue == s.bookingQueue && r.0.recentSearches == s.recentSearches
      && r.0.globalBookingId == s.globalBookingId
  {
    if |s.flights| >= MaxFlights then (s, CapacityReached)
    else
      var f := Flight(id, src, dest, dist, seats, true, []);
      InsertSearches(s.bst, id, |s.flights|);
      var s' := s.(flights := s.flights + [f],
                   bst := FlightBST.Insert(s.bst, id, |s.flights|),
                   graph := AirportGraph.AddEdge(s.graph, src, dest, dist));
      AddFlightValid(s, f);
      (s', Added(|s.flights|))
  }

  /** Appending a flight and inserting it under the next slot keeps every
      node at the first slot of its id: a fresh id lands on the new slot, a
      repeated id leaves the tree as it was. */
  lemma AppendKeepsTree(t: FlightBST.Tree, fs: seq<Flight>, f: Flight)
    requires TreeIndexes(t, fs)
    ensures TreeIndexes(FlightBST.Insert(t, f.flightID, |fs|), fs + [f])
  {
    var fs' := fs + [f];
    var t' := FlightBST.Insert(t, f.flightID, |fs|);
    if f.flightID in FlightBST.Keys(t) {
      FlightBST.InsertExistingKeepsTree(t, f.flightID, |fs|);
    }
    forall e | e in FlightBST.Entries(t') ensures IndexOf(fs', e.0) == e.1 && e.1 < |fs'| {
      IndexOfAppend(fs, f, e.0);
      if e !in FlightBST.Entries(t) {
        assert e == (f.flightID, |fs|);
        assert IndexOf(fs, f.flightID) == -1;
      }
    }
    assert forall i :: 0 <= i < |fs| ==> fs'[i] == fs[i];
  }

  /** A flight with no bookings joins without disturbing the booking
      invariant. */
  lemma AppendKeepsBookings(fs: seq<Flight>, f: Flight, next: int)
    requires BookingsValid(fs, next) && f.bookings == []
    ensures BookingsValid(fs + [f], next)
  {
    var fs' := fs + [f];
    assert forall i :: 0 <= i < |fs| ==> fs'[i] == fs[i];
    assert IdSet(f.bookings) == {};
  }

  lemma AppendKeepsRoutes(fs: seq<Flight>, g: AirportGraph.Graph, f: Flight)
    requires AirportGraph.Valid(g) && RoutesInGraph(fs, g)
    ensures RoutesInGraph(fs + [f], AirportGraph.AddEdge(g, f.source, f.destination, f.distance))
  {
    var fs' := fs + [f];
    assert forall i :: 0 <= i < |fs| ==> fs'[i] == fs[i];
  }

  /** What the tree's search answers after an insertion: the first slot
      stored under `id`, and the old answer for every other id. */
  lemma InsertSearches(t: FlightBST.Tree, id: string, slot: nat)
    requires FlightBST.IsBST(t)
    ensures FlightBST.Search(FlightBST.Insert(t, id, slot), id) ==
      (if FlightBST.Search(t, id).Some? then FlightBST.Search(t, id) else Some(slot))
    ensures forall other :: other != id ==>
      FlightBST.Search(FlightBST.Insert(t, id, slot), other) == FlightBST.Search(t, other)
  {
    FlightBST.SearchComplete(t, id);
    if id in FlightBST.Keys(t) {
      FlightBST.InsertExistingKeepsTree(t, id, slot);
    } else {
      forall other ensures FlightBST.Search(FlightBST.Insert(t, id, slot), id) == Some(slot)
        && (other != id ==> FlightBST.Search(FlightBST.Insert(t, id, slot), other) == FlightBST.Search(t, other))
      {
        FlightBST.InsertThenSearch(t, id, slot, other);
      }
    }
  }

  lemma AddFlightValid(s: System, f: Flight)
    requires Valid(s) && |s.flights| < MaxFlights && f.bookings == []
    ensures Valid(s.(flights := s.flights + [f],
                     bst := FlightBST.Insert(s.bst, f.flightID, |s.flights|),
                     graph := AirportGraph.AddEdge(s.graph, f.source, f.destination, f.distance)))
  {
    AppendKeepsTree(s.bst, s.flights, f);
    AppendKeepsBookings(s.flights, f, s.globalBookingId);
    AppendKeepsRoutes(s.flights, s.graph, f);
  }

  /** cancelFlight (`active == false`) and scheduleFlight (`active == true`):
      the flight the tree finds for `id` gets the new flag and nothing else
      changes; an unknown id changes nothing. */
  function SetActive(s: System, id: string, active: bool): (r: (System, Status))
    requires Valid(s)
    ensures Valid(r.0)
    ensures IndexOf(s.flights, id) == -1 ==> r == (s, FlightNotFound)
    ensures IndexOf(s.flights, id) >= 0 ==>
      var k := IndexOf(s.flights, id);
      && r.1 == Updated
      && r.0 == s.(flights := s.flights[k := s.flights[k].(active := active)])
  {
    match Lookup(s, id)
    case None => (s, FlightNotFound)
    case Some(k) =>
      var f := s.flights[k].(active := active);
      ReplaceFlightValid(s, k, f, s.globalBookingId);
      (s.(flights := s.flights[k := f]), Updated)
  }

  /** The flights a list of tree entries refers to. */
  function Resolve(es: seq<(string, nat)>, fs: seq<Flight>): (r: seq<Flight>)
    requires forall i :: 0 <= i < |es| ==> es[i].1 < |fs|
    ensures |r| == |es| && forall i :: 0 <= i < |es| ==> r[i] == fs[es[i].1]
  {
    seq(|es|, i requires 0 <= i < |es| => fs[es[i].1])
  }

  /** The in-order walk only meets slots of the array. */
  lemma WalkInRange(s: System)
    requires Valid(s)
    ensures var es := FlightBST.ActiveInOrder(s.bst, s.flights);
      forall i :: 0 <= i < |es| ==> es[i].1 < |s.flights|
  {
    var es := FlightBST.ActiveInOrder(s.bst, s.flights);
    assert forall i :: 0 <= i < |es| ==> es[i] in FlightBST.Entries(s.bst);
  }

  /** viewFlights: the flights the tree reaches, active ones only, in
      ascending id order. The tree reaches the first flight stored under each
      id, so a later flight reusing an id is never listed. */
  function ViewFlights(s: System): (r: seq<Flight>)
    requires Valid(s)
    ensures forall i :: 0 <= i < |r| ==> r[i].active
    ensures forall i :: 0 <= i < |r| ==>
      IndexOf(s.flights, r[i].flightID) >= 0 && r[i] == s.flights[IndexOf(s.flights, r[i].flightID)]
    ensures forall i, j :: 0 <= i < j < |r| ==> Less(r[i].flightID, r[j].flightID)
    ensures forall k :: 0 <= k < |s.flights| && s.flights[k].active && IndexOf(s.flights, s.flights[k].flightID) == k ==>
      s.flights[k] in r
  {
    var es := FlightBST.ActiveInOrder(s.bst, s.flights);
    WalkInRange(s);
    ViewSound(s.bst, s.flights, es, Resolve(es, s.flights));
    ViewComplete(s, es, Resolve(es, s.flights));
    Resolve(es, s.flights)
  }

  lemma ViewSound(t: FlightBST.Tree, fs: seq<Flight>, es: seq<(string, nat)>, r: seq<Flight>)
    requires TreeIndexes(t, fs) && es == FlightBST.ActiveInOrder(t, fs)
    requires forall i :: 0 <= i < |es| ==> es[i].1 < |fs|
    requires r == Resolve(es, fs)
    ensures
      && (forall i :: 0 <= i < |r| ==> r[i].active)
      && (forall i :: 0 <= i < |r| ==>
            IndexOf(fs, r[i].flightID) >= 0 && r[i] == fs[IndexOf(fs, r[i].flightID)])
      && (forall i, j :: 0 <= i < j < |r| ==> Less(r[i].flightID, r[j].flightID))
  {
    FlightBST.ActiveInOrderAscending(t, fs);
    forall i | 0 <= i < |r|
      ensures r[i].active && IndexOf(fs, r[i].flightID) >= 0 && r[i] == fs[IndexOf(fs, r[i].flightID)]
    {
      assert es[i] in es;
    }
    forall i, j | 0 <= i < j < |r| ensures Less(r[i].flightID, r[j].flightID) {
      assert r[i].flightID == es[i].0 && r[j].flightID == es[j].0;
    }
  }

  lemma ViewComplete(s: System, es: seq<(string, nat)>, r: seq<Flight>)
    requires Valid(s) && es == FlightBST.ActiveInOrder(s.bst, s.flights)
    requires forall i :: 0 <= i < |es| ==> es[i].1 < |s.flights|
    requires r == Resolve(es, s.flights)
    ensures forall k :: 0 <= k < |s.flights| && s.flights[k].active && IndexOf(s.flights, s.flights[k].flightID) == k ==>
        s.flights[k] in r
  {
    forall k | 0 <= k < |s.flights| && s.flights[k].active && IndexOf(s.flights, s.flights[k].flightID) == k
      ensures s.flights[k] in r
    {
      var id := s.flights[k].flightID;
      SearchAgreesWithScan(s, id);
      var e := (id, k);
      assert e in FlightBST.Entries(s.bst);
      assert e in es;
      var i :| 0 <= i < |es| && es[i] == e;
      assert r[i] == s.flights[k];
    }
  }

  /* ---------- booking workflow ---------- */

  /** bookFlight: a request for a found, active flight joins the back of the
      queue as that flight's array index (the first slot holding the id);
      otherwise nothing changes. The passenger name read here is not kept. */
  function BookFlight(s: System, id: string): (r: (System, Status))
    requires Valid(s)
    ensures Valid(r.0)
    ensures r.1 != IndexNotFound
    ensures (IndexOf(s.flights, id) == -1 || !s.flights[IndexOf(s.flights, id)].active) ==>
      r == (s, NotFoundOrInactive)
    ensures IndexOf(s.flights, id) >= 0 && s.flights[IndexOf(s.flights, id)].active ==>
      && r.1 == Queued(IndexOf(s.flights, id))
      && r.0 == s.(bookingQueue := s.bookingQueue + [IndexOf(s.flights, id) as nat])
  {
    match Lookup(s, id)
    case None => (s, NotFoundOrInactive)
    case Some(slot) =>
      if !s.flights[slot].active then (s, NotFoundOrInactive)
      else
        var index := IndexOf(s.flights, id);
        if index == -1 then (s, IndexNotFound)
        else (s.(bookingQueue := s.bookingQueue + [index as nat]), Queued(index as nat))
  }

  /** processNextBooking: an empty queue is left alone. Otherwise the front
      request always leaves the queue; it is dropped when its flight is
      cancelled or has no seat left, and otherwise commits: one seat fewer,
      a booking with the counter's value at the head of the list, the
      counter advanced. No other flight changes. */
  function ProcessNextBooking(s: System, name: string): (r: (System, Status))
    requires Valid(s)
    ensures Valid(r.0)
    ensures |s.bookingQueue| == 0 ==> r == (s, NothingToProcess)
    ensures |s.bookingQueue| > 0 ==>
      var k := s.bookingQueue[0];
      var f := s.flights[k];
      && r.0.bookingQueue == s.bookingQueue[1..]
      && (!f.active ==> r == (s.(bookingQueue := s.bookingQueue[1..]), FlightCancelled))
      && (f.active && f.seats <= 0 ==> r == (s.(bookingQueue := s.bookingQueue[1..]), NoSeatsLeft))
      && (f.active && f.seats > 0 ==>
            && r.1 == Confirmed(s.globalBookingId)
            && r.0.globalBookingId == s.globalBookingId + 1
            && |r.0.flights| == |s.flights|
            && r.0.flights[k].seats == f.seats - 1 >= 0
            && r.0.flights[k].bookings == [Booking(s.globalBookingId, name)] + f.bookings
            && r.0.flights[k] == f.(seats := f.seats - 1, bookings := r.0.flights[k].bookings)
            && (forall i :: 0 <= i < |s.flights| && i != k ==> r.0.flights[i] == s.flights[i])
            && r.0.bst == s.bst && r.0.graph == s.graph && r.0.recentSearches == s.recentSearches)
  {
    if |s.bookingQueue| == 0 then (s, NothingToProcess)
    else
      var index := s.bookingQueue[0];
      var s1 := Dequeue(s);
      var f := s.flights[index];
      if !f.active then (s1, FlightCancelled)
      else if f.seats <= 0 then (s1, NoSeatsLeft)
      else (Commit(s1, index, name), Confirmed(s.globalBookingId))
  }

  /** `bookingQueue.pop()`. */
  function Dequeue(s: System): (r: System)
    requires Valid(s) && |s.bookingQueue| > 0
    ensures Valid(r) && r == s.(bookingQueue := s.bookingQueue[1..])
  {
    s.(bookingQueue := s.bookingQueue[1..])
  }

  /** The commit of a request for flight `k`: one seat fewer, a booking
      carrying the counter's value pushed at the head of the list, the
      counter advanced. */
  function Commit(s: System, k: nat, name: string): (r: System)
    requires Valid(s) && k < |s.flights|
    ensures Valid(r)
    ensures var f := s.flights[k];
      r == s.(flights := s.flights[k := f.(seats := f.seats - 1, bookings := [Booking(s.globalBookingId, name)] + f.bookings)],
              globalBookingId := s.globalBookingId + 1)
  {
    var f := s.flights[k];
    var f' := f.(seats := f.seats - 1, bookings := [Booking(s.globalBookingId, name)] + f.bookings);
    CommitValid(s, k, name, f');
    s.(flights := s.flights[k := f'], globalBookingId := s.globalBookingId + 1)
  }

  lemma CommitValid(s: System, k: nat, name: string, f': Flight)
    requires Valid(s) && k < |s.flights|
    requires f' == s.flights[k].(seats := s.flights[k].seats - 1,
                                 bookings := [Booking(s.globalBookingId, name)] + s.flights[k].bookings)
    ensures Valid(s.(flights := s.flights[k := f'], globalBookingId := s.globalBookingId + 1))
  {
    var b := Booking(s.globalBookingId, name);
    PrependKeepsOrder(s.flights[k].bookings, b, s.globalBookingId);
    PrependIds(s.flights[k].bookings, b);
    ReplaceFlightValid(s, k, f', s.globalBookingId + 1);
  }

  lemma PrependIds(bs: seq<Booking>, b: Booking)
    ensures IdSet([b] + bs) == IdSet(bs) + {b.bookingId}
  {
    IdSetMembers(bs, b.bookingId);
    forall x ensures x in IdSet([b] + bs) <==> x in IdSet(bs) + {b.bookingId} {
      IdSetMembers([b] + bs, x);
      IdSetMembers(bs, x);
      if x in IdSet([b] + bs) && x != b.bookingId {
        var i :| 0 <= i < |[b] + bs| && ([b] + bs)[i].bookingId == x;
        assert bs[i - 1].bookingId == x;
      }
      if x in IdSet(bs) {
        var i :| 0 <= i < |bs| && bs[i].bookingId == x;
        assert ([b] + bs)[i + 1].bookingId == x;
      }
    }
  }

  /** The id a commit issues is above every id any flight already holds. */
  lemma IssuedIdIsFresh(s: System, name: string)
    requires Valid(s)
    requires ProcessNextBooking(s, name).1.Confirmed?
    ensures forall i, j :: 0 <= i < |s.flights| && 0 <= j < |s.flights[i].bookings| ==>
      s.flights[i].bookings[j].bookingId < ProcessNextBooking(s, name).1.bookingId
  {
  }

  /** cancelBooking: an unknown flight or booking id changes nothing.
      Otherwise the first booking with that id is unlinked, the others keep
      their order, and the flight gets one seat back. Because ids are unique
      within a list, the cancelled id is gone afterwards. */
  function CancelBooking(s: System, id: string, bid: int): (r: (System, Status))
    requires Valid(s)
    ensures Valid(r.0)
    ensures IndexOf(s.flights, id) == -1 ==> r == (s, FlightNotFound)
    ensures IndexOf(s.flights, id) >= 0 ==>
      var k := IndexOf(s.flights, id);
      var f := s.flights[k];
      && (FindBooking(f.bookings, bid) == -1 ==> r == (s, BookingNotFound))
      && (FindBooking(f.bookings, bid) >= 0 ==>
            && r.1 == BookingCancelled
            && |r.0.flights| == |s.flights|
            && r.0.flights[k].bookings == Unlink(f.bookings, FindBooking(f.bookings, bid) as nat)
            && r.0.flights[k].seats == f.seats + 1
            && |r.0.flights[k].bookings| == |f.bookings| - 1
            && (forall j :: 0 <= j < |r.0.flights[k].bookings| ==> r.0.flights[k].bookings[j].bookingId != bid)
            && multiset(r.0.flights[k].bookings) + multiset{Booking(bid, FindPassenger(f.bookings, bid))} == multiset(f.bookings)
            && r.0 == s.(flights := s.flights[k := f.(seats := f.seats + 1, bookings := r.0.flights[k].bookings)]))
  {
    match Lookup(s, id)
    case None => (s, FlightNotFound)
    case Some(k) =>
      var f := s.flights[k];
      var i := FindBooking(f.bookings, bid);
      if i == -1 then (s, BookingNotFound)
      else
        CancelFound(s, k, bid, i);
        (Unbook(s, k, i), BookingCancelled)
  }

  /** Unlinks booking `i` of flight `k` and gives its seat back. */
  function Unbook(s: System, k: nat, i: nat): System
    requires k < |s.flights| && i < |s.flights[k].bookings|
  {
    var f := s.flights[k];
    s.(flights := s.flights[k := f.(seats := f.seats + 1, bookings := Unlink(f.bookings, i))])
  }

  /** What unlinking the booking the scan found does to the flight and the
      catalogue. */
  lemma CancelFound(s: System, k: nat, bid: int, i: nat)
    requires Valid(s) && k < |s.flights| && i < |s.flights[k].bookings|
    requires i as int == FindBooking(s.flights[k].bookings, bid)
    ensures Valid(Unbook(s, k, i))
    ensures var f := s.flights[k]; var r := Unbook(s, k, i);
      && |r.flights| == |s.flights|
      && r.flights[k].seats == f.seats + 1
      && |r.flights[k].bookings| == |f.bookings| - 1
      && (forall j :: 0 <= j < |r.flights[k].bookings| ==> r.flights[k].bookings[j].bookingId != bid)
      && multiset(r.flights[k].bookings) + multiset{Booking(bid, FindPassenger(f.bookings, bid))} == multiset(f.bookings)
      && r == s.(flights := s.flights[k := f.(seats := f.seats + 1, bookings := r.flights[k].bookings)])
  {
    var bs := s.flights[k].bookings;
    var f' := Unbook(s, k, i).flights[k];
    assert bs[i] == Booking(bid, FindPassenger(bs, bid));
    UnlinkKeepsOrder(bs, i, s.globalBookingId);
    UnlinkIds(bs, i);
    IdSetMembers(f'.bookings, bid);
    ReplaceFlightValid(s, k, f', s.globalBookingId);
  }

  /** The passenger on the first booking with id `bid`. */
  function FindPassenger(bs: seq<Booking>, bid: int): string
  {
    var i := FindBooking(bs, bid);
    if i == -1 then "" else bs[i].passengerName
  }

  /** Unlinking one node of a newest-first list removes exactly its id. */
  lemma UnlinkIds(bs: seq<Booking>, i: nat)
    requires i < |bs| && NewestFirst(bs)
    ensures IdSet(Unlink(bs, i)) == IdSet(bs) - {bs[i].bookingId}
  {
    var r := Unlink(bs, i);
    forall x | x in IdSet(r) ensures x in IdSet(bs) - {bs[i].bookingId} {
      IdSetMembers(r, x);
      var j :| 0 <= j < |r| && r[j].bookingId == x;
      if j < i { assert r[j] == bs[j]; } else { assert r[j] == bs[j + 1]; }
    }
    forall x | x in IdSet(bs) - {bs[i].bookingId} ensures x in IdSet(r) {
      IdSetMembers(bs, x);
      var j :| 0 <= j < |bs| && bs[j].bookingId == x;
      if j < i { assert r[j] == bs[j]; } else { assert r[j - 1] == bs[j]; }
    }
  }

  /** showBookingsForFlight: the flight's bookings, newest first, or nothing
      for an unknown id. */
  function ShowBookings(s: System, id: string): (r: Option<seq<Booking>>)
    requires Valid(s)
    ensures r.None? <==> IndexOf(s.flights, id) == -1
    ensures r.Some? ==> forall i, j :: 0 <= i < j < |r.value| ==> r.value[i].bookingId > r.value[j].bookingId
    ensures r.Some? ==> multiset(r.value) == multiset(s.flights[IndexOf(s.flights, id)].bookings)
  {
    match Lookup(s, id)
    case None => None
    case Some(k) => Some(s.flights[k].bookings)
  }

  /* ---------- searches and the stack ---------- */

  /** The active flights leaving `src`, in array order. */
  ghost function Matches(fs: seq<Flight>, src: string): seq<Flight>
  {
    if |fs| == 0 then []
    else
      var last := fs[|fs| - 1];
      Matches(fs[..|fs| - 1], src) + (if last.source == src && last.active then [last] else [])
  }

  /** searchFlightsBySource: lists the active flights leaving `src` and
      pushes the query once per flight listed; nothing else changes. */
  method SearchFlightsBySource(s: System, src: string) returns (s': System, found: seq<Flight>)
    ensures found == Matches(s.flights, src)
    ensures forall i :: 0 <= i < |found| ==> found[i].source == src && found[i].active
    ensures s' == s.(recentSearches := s.recentSearches + seq(|found|, _ => src))
  {
    found := [];
    var pushed := s.recentSearches;
    var i := 0;
    while i < |s.flights|
      invariant 0 <= i <= |s.flights|
      invariant found == Matches(s.flights[..i], src)
      invariant forall j :: 0 <= j < |found| ==> found[j].source == src && found[j].active
      invariant pushed == s.recentSearches + seq(|found|, _ => src)
    {
      var f := s.flights[i];
      assert s.flights[..i + 1][..i] == s.flights[..i];
      if f.source == src && f.active {
        found := found + [f];
        pushed := pushed + [src];
      }
      i := i + 1;
    }
    assert s.flights[..i] == s.flights;
    s' := s.(recentSearches := pushed);
  }

  /** showRecentSearches: the terms from the top of the stack to the bottom,
      read from a copy, so the stack itself is untouched. */
  method ShowRecentSearches(s: System) returns (r: seq<string>)
    ensures |r| == |s.recentSearches|
    ensures forall i :: 0 <= i < |r| ==> r[i] == s.recentSearches[|s.recentSearches| - 1 - i]
  {
    var temp := s.recentSearches;
    r := [];
    while |temp| > 0
      invariant |temp| + |r| == |s.recentSearches|
      invariant temp == s.recentSearches[..|temp|]
      invariant forall i :: 0 <= i < |r| ==> r[i] == s.recentSearches[|s.recentSearches| - 1 - i]
    {
      r := r + [temp[|temp| - 1]];
      temp := temp[..|temp| - 1];
    }
  }

  /* ---------- whole runs ---------- */

  /** One console command that changes or reports catalogue state. */
  datatype Op =
    | AddFlightOp(id: string, src: string, dest: string, dist: int, seats: int)
    | CancelFlightOp(id: string)
    | ScheduleFlightOp(id: string)
    | BookFlightOp(id: string)
    | ProcessNextOp(name: string)
    | CancelBookingOp(id: string, bid: int)

  function Step(s: System, op: Op): (r: (System, Status))
    requires Valid(s)
    ensures Valid(r.0)
  {
    match op
    case AddFlightOp(id, src, dest, dist, seats) => AddFlight(s, id, src, dest, dist, seats)
    case CancelFlightOp(id) => SetActive(s, id, false)
    case ScheduleFlightOp(id) => SetActive(s, id, true)
    case BookFlightOp(id) => BookFlight(s, id)
    case ProcessNextOp(name) => ProcessNextBooking(s, name)
    case CancelBookingOp(id, bid) => CancelBooking(s, id, bid)
  }

  /** The booking ids issued while running `ops` from `s`, in issue order,
      and the final catalogue. */
  function Run(s: System, ops: seq<Op>): (r: (System, seq<int>))
    requires Valid(s)
    ensures Valid(r.0)
    decreases |ops|
  {
    if |ops| == 0 then (s, [])
    else
      var (s1, st) := Step(s, ops[0]);
      var (s2, ids) := Run(s1, ops[1..]);
      (s2, (if st.Confirmed? then [st.bookingId] else []) + ids)
  }

  /** A step never moves the counter back, and a commit is the only step
      that moves it, by one, issuing its old value. */
  lemma StepCounter(s: System, op: Op)
    requires Valid(s)
    ensures var (s1, st) := Step(s, op);
      && (st.Confirmed? ==> st.bookingId == s.globalBookingId && s1.globalBookingId == s.globalBookingId + 1)
      && (!st.Confirmed? ==> s1.globalBookingId == s.globalBookingId)
  {
  }

  /** Booking ids are issued in strictly increasing order, never twice, all
      from the counter's range over the run. */
  lemma {:induction false} RunIdsIncrease(s: System, ops: seq<Op>)
    requires Valid(s)
    ensures var (s', ids) := Run(s, ops);
      && (forall i, j :: 0 <= i < j < |ids| ==> ids[i] < ids[j])
      && (forall i :: 0 <= i < |ids| ==> s.globalBookingId <= ids[i] < s'.globalBookingId)
      && s'.globalBookingId == s.globalBookingId + |ids|
    decreases |ops|
  {
    if |ops| > 0 {
      StepCounter(s, ops[0]);
      var (s1, st) := Step(s, ops[0]);
      RunIdsIncrease(s1, ops[1..]);
    }
  }

  /** Seats plus bookings held: what a flight can still sell plus what it
      has sold. */
  function Capacity(f: Flight): int
  {
    f.seats + |f.bookings|
  }

  /** `after` keeps every flight of `before` in its slot, under the same id,
      with the same capacity, and with a non-negative seat count wherever it
      was non-negative. */
  ghost predicate Conserves(before: seq<Flight>, after: seq<Flight>)
  {
    && |before| <= |after|
    && forall i :: 0 <= i < |before| ==>
         && after[i].flightID == before[i].flightID
         && Capacity(after[i]) == Capacity(before[i])
         && (before[i].seats >= 0 ==> after[i].seats >= 0)
  }

  ghost predicate SeatsNonNegative(fs: seq<Flight>)
  {
    forall i :: 0 <= i < |fs| ==> fs[i].seats >= 0
  }

  /** Appending a flight keeps every old one in place. */
  lemma AppendConserves(fs: seq<Flight>, f: Flight)
    ensures Conserves(fs, fs + [f])
    ensures SeatsNonNegative(fs) && f.seats >= 0 ==> SeatsNonNegative(fs + [f])
  {
    assert forall i :: 0 <= i < |fs| ==> (fs + [f])[i] == fs[i];
  }

  /** Replacing one flight by a record with the same id and capacity, whose
      seat count stays non-negative if it was, conserves the array. */
  lemma ReplaceConserves(fs: seq<Flight>, k: nat, f: Flight)
    requires k < |fs| && f.flightID == fs[k].flightID && Capacity(f) == Capacity(fs[k])
    requires fs[k].seats >= 0 ==> f.seats >= 0
    ensures Conserves(fs, fs[k := f]) && |fs[k := f]| == |fs|
    ensures SeatsNonNegative(fs) ==> SeatsNonNegative(fs[k := f])
  {
  }

  /** The flights kept, plus at most one appended with `seats` seats. */
  lemma AddFlightConserves(s: System, id: string, src: string, dest: string, dist: int, seats: int)
    requires Valid(s)
    ensures var after := AddFlight(s, id, src, dest, dist, seats).0.flights;
      && Conserves(s.flights, after)
      && (SeatsNonNegative(s.flights) && seats >= 0 ==> SeatsNonNegative(after))
  {
    if |s.flights| >= MaxFlights {
      assert Conserves(s.flights, s.flights);
    } else {
      AppendConserves(s.flights, Flight(id, src, dest, dist, seats, true, []));
    }
  }

  lemma SetActiveConserves(s: System, id: string, active: bool)
    requires Valid(s)
    ensures var after := SetActive(s, id, active).0.flights;
      Conserves(s.flights, after) && |after| == |s.flights|
      && (SeatsNonNegative(s.flights) ==> SeatsNonNegative(after))
  {
    var k := IndexOf(s.flights, id);
    if k == -1 {
      assert Conserves(s.flights, s.flights);
    } else {
      ReplaceConserves(s.flights, k, s.flights[k].(active := active));
    }
  }

  lemma ProcessConserves(s: System, name: string)
    requires Valid(s)
    ensures var after := ProcessNextBooking(s, name).0.flights;
      Conserves(s.flights, after) && |after| == |s.flights|
      && (SeatsNonNegative(s.flights) ==> SeatsNonNegative(after))
  {
    var r := ProcessNextBooking(s, name).0;
    if r.flights == s.flights {
      assert Conserves(s.flights, s.flights);
    } else {
      var k := s.bookingQueue[0];
      ReplaceConserves(s.flights, k, r.flights[k]);
      assert r.flights == s.flights[k := r.flights[k]];
    }
  }

  lemma CancelBookingConserves(s: System, id: string, bid: int)
    requires Valid(s)
    ensures var after := CancelBooking(s, id, bid).0.flights;
      Conserves(s.flights, after) && |after| == |s.flights|
      && (SeatsNonNegative(s.flights) ==> SeatsNonNegative(after))
  {
    var r := CancelBooking(s, id, bid).0;
    if r.flights == s.flights {
      assert Conserves(s.flights, s.flights);
    } else {
      var k := IndexOf(s.flights, id);
      ReplaceConserves(s.flights, k, r.flights[k]);
    }
  }

  /** No step removes a flight, renames it, or changes its capacity: a commit
      trades a seat for a booking and a cancellation trades it back. Seat
      counts that are non-negative stay so, unless the step adds a flight
      with a negative seat count (addFlight does not check). */
  lemma StepConserves(s: System, op: Op)
    requires Valid(s)
    ensures var after := Step(s, op).0.flights;
      && Conserves(s.flights, after)
      && (SeatsNonNegative(s.flights) && (op.AddFlightOp? ==> op.seats >= 0) ==> SeatsNonNegative(after))
  {
    match op
    case AddFlightOp(id, src, dest, dist, seats) => AddFlightConserves(s, id, src, dest, dist, seats);
    case CancelFlightOp(id) => SetActiveConserves(s, id, false);
    case ScheduleFlightOp(id) => SetActiveConserves(s, id, true);
    case BookFlightOp(id) =>
    case ProcessNextOp(name) => ProcessConserves(s, name);
    case CancelBookingOp(id, bid) => CancelBookingConserves(s, id, bid);
  }

  lemma ConservesTrans(a: seq<Flight>, b: seq<Flight>, c: seq<Flight>)
    requires Conserves(a, b) && Conserves(b, c)
    ensures Conserves(a, c)
  {
  }

  /** Over a whole run every flight keeps its slot, id and capacity, and seat
      counts that start non-negative stay so when no flight is added with a
      negative seat count. */
  lemma {:induction false} RunConserves(s: System, ops: seq<Op>)
    requires Valid(s) && SeatsNonNegative(s.flights)
    requires forall i :: 0 <= i < |ops| && ops[i].AddFlightOp? ==> ops[i].seats >= 0
    ensures Conserves(s.flights, Run(s, ops).0.flights)
    ensures SeatsNonNegative(Run(s, ops).0.flights)
    decreases |ops|
  {
    if |ops| > 0 {
      var s1 := Step(s, ops[0]).0;
      StepConserves(s, ops[0]);
      var rest := ops[1..];
      assert forall i :: 0 <= i < |rest| ==> rest[i] == ops[i + 1];
      RunConserves(s1, rest);
      assert Run(s, ops).0 == Run(s1, rest).0;
      ConservesTrans(s.flights, s1.flights, Run(s1, rest).0.flights);
    }
  }

}
