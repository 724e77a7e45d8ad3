/** The earlier single-class prototype: a flight array without ids in a tree,
    booking requests queued by array index, and a search that pushes the
    destinations it finds rather than the query. Seats are the only state a
    processed booking changes. */
module Prototype {

  const MaxFlights: nat := 100

  datatype Flight = Flight(flightID: string, source: string, destination: string, distance: int, seats: int)

  /** The used prefix of the array, the stack of recent terms (top last) and
      the FIFO queue of requested indices (front first). */
  datatype System = System(flights: seq<Flight>, recentSearches: seq<string>, bookingQueue: seq<int>)

  /** The class invariant: the count fits the array and every queued index
      names a stored flight. */
  ghost predicate Valid(s: System)
  {
    && |s.flights| <= MaxFlights
    && forall i :: 0 <= i < |s.bookingQueue| ==> 0 <= s.bookingQueue[i] < |s.flights|
  }

  function Init(): (s: System)
    ensures Valid(s) && |s.flights| == 0 && |s.bookingQueue| == 0 && |s.recentSearches| == 0
  {
    System([], [], [])
  }

  /** addFlight: refused when the array is full; otherwise the flight is
      stored at index `flightCount` and the count grows by one. */
  function AddFlight(s: System, id: string, src: string, dest: string, dist: int, seats: int): (r: (System, bool))
    ensures !r.1 <==> |s.flights| >= MaxFlights
    ensures !r.1 ==> r.0 == s
    ensures r.1 ==>
      && |r.0.flights| == |s.flights| + 1
      && r.0.flights[|s.flights|] == Flight(id, src, dest, dist, seats)
      && r.0.flights[..|s.flights|] == s.flights
      && r.0.bookingQueue == s.bookingQueue && r.0.recentSearches == s.recentSearches
    ensures Valid(s) ==> Valid(r.0)
  {
    if |s.flights| >= MaxFlights then (s, false)
    else (s.(flights := s.flights + [Flight(id, src, dest, dist, seats)]), true)
  }

  /** The flights leaving `src`, in array order. */
  function From(fs: seq<Flight>, src: string): (r: seq<Flight>)
    ensures forall i :: 0 <= i < |r| ==> r[i].source == src
    ensures forall i :: 0 <= i < |fs| && fs[i].source == src ==> fs[i] in r
    ensures |r| <= |fs|
  {
    if |fs| == 0 then []
    else
      var last := fs[|fs| - 1];
      var r := From(fs[..|fs| - 1], src);
      assert forall i :: 0 <= i < |fs| - 1 ==> fs[i] == fs[..|fs| - 1][i];
      r + (if last.source == src then [last] else [])
  }

  /** The positions of the flights leaving `src`, in array order. */
  ghost function Matches(fs: seq<Flight>, src: string): seq<nat>
  {
    if |fs| == 0 then []
    else Matches(fs[..|fs| - 1], src) + (if fs[|fs| - 1].source == src then [|fs| - 1] else [])
  }

  /** `Matches` lists, in increasing order, exactly the positions whose
      source is `src`. */
  lemma {:induction false} MatchesExact(fs: seq<Flight>, src: string)
    ensures forall k :: 0 <= k < |Matches(fs, src)| ==>
      Matches(fs, src)[k] < |fs| && fs[Matches(fs, src)[k]].source == src
    ensures forall k, l :: 0 <= k < l < |Matches(fs, src)| ==> Matches(fs, src)[k] < Matches(fs, src)[l]
    ensures forall i :: 0 <= i < |fs| && fs[i].source == src ==> i in Matches(fs, src)
  {
    if |fs| > 0 {
      var n := |fs| - 1;
      var init := fs[..n];
      MatchesExact(init, src);
      var m0 := Matches(init, src);
      assert forall k :: 0 <= k < |m0| ==> init[m0[k]] == fs[m0[k]];
      assert forall i :: 0 <= i < n ==> init[i] == fs[i];
    }
  }

  /** The search keeps array order: its result is the array's subsequence at
      the matching positions. */
  lemma {:induction false} FromInOrder(fs: seq<Flight>, src: string)
    ensures |From(fs, src)| == |Matches(fs, src)|
    ensures forall k :: 0 <= k < |From(fs, src)| ==>
      Matches(fs, src)[k] < |fs| && From(fs, src)[k] == fs[Matches(fs, src)[k]]
  {
    if |fs| > 0 {
      var n := |fs| - 1;
      var init := fs[..n];
      FromInOrder(init, src);
      var r0, m0 := From(init, src), Matches(init, src);
      assert forall k :: 0 <= k < |r0| ==> m0[k] < n && init[m0[k]] == fs[m0[k]];
    }
  }

  /** searchFlights: lists the flights leaving `src` and pushes each one's
      destination, not the query, onto the stack. */
  function SearchFlights(s: System, src: string): (r: (System, seq<Flight>))
    ensures r.1 == From(s.flights, src)
    ensures |r.0.recentSearches| == |s.recentSearches| + |r.1|
    ensures r.0.recentSearches[..|s.recentSearches|] == s.recentSearches
    ensures forall i :: 0 <= i < |r.1| ==> r.0.recentSearches[|s.recentSearches| + i] == r.1[i].destination
    ensures r.0.flights == s.flights && r.0.bookingQueue == s.bookingQueue
  {
    var found := From(s.flights, src);
    var pushed := seq(|found|, i requires 0 <= i < |found| => found[i].destination);
    (s.(recentSearches := s.recentSearches + pushed), found)
  }

  /** bookFlight(index): an index outside `[0, flightCount)` is refused with
      no change; any other joins the back of the queue. */
  function BookFlight(s: System, index: int): (r: (System, bool))
    ensures !r.1 <==> index < 0 || index >= |s.flights|
    ensures !r.1 ==> r.0 == s
    ensures r.1 ==> r.0 == s.(bookingQueue := s.bookingQueue + [index])
    ensures Valid(s) ==> Valid(r.0)
  {
    if index < 0 || index >= |s.flights| then (s, false)
    else (s.(bookingQueue := s.bookingQueue + [index]), true)
  }

  datatype Outcome = NoBookings | Confirmed(index: nat, seatsLeft: int) | NoSeats(index: nat)

  /** processBooking: an empty queue is left alone. Otherwise the oldest
      request leaves the queue and its flight loses a seat only if it has
      one to give, so a seat count never drops below zero. */
  function ProcessBooking(s: System): (r: (System, Outcome))
    requires Valid(s)
    ensures Valid(r.0)
    ensures |s.bookingQueue| == 0 <==> r.1 == NoBookings
    ensures |s.bookingQueue| == 0 ==> r.0 == s
    ensures |s.bookingQueue| > 0 ==>
      var k := s.bookingQueue[0];
      && r.0.bookingQueue == s.bookingQueue[1..]
      && |r.0.flights| == |s.flights|
      && (forall i :: 0 <= i < |s.flights| && i != k ==> r.0.flights[i] == s.flights[i])
      && (s.flights[k].seats > 0 ==>
            r.1 == Confirmed(k, s.flights[k].seats - 1) && r.0.flights[k] == s.flights[k].(seats := s.flights[k].seats - 1))
      && (s.flights[k].seats <= 0 ==> r.1 == NoSeats(k) && r.0.flights[k] == s.flights[k])
      && (s.flights[k].seats >= 0 ==> r.0.flights[k].seats >= 0)
      && r.0.recentSearches == s.recentSearches
  {
    if |s.bookingQueue| == 0 then (s, NoBookings)
    else
      var index := s.bookingQueue[0];
      var rest := s.bookingQueue[1..];
      if s.flights[index].seats > 0 then
        var f := s.flights[index].(seats := s.flights[index].seats - 1);
        (s.(flights := s.flights[index := f], bookingQueue := rest), Confirmed(index, f.seats))
      else (s.(bookingQueue := rest), NoSeats(index))
  }

  /* ---------- the driver in `main` ---------- */

  const F101 := Flight("F101", "Mumbai", "Delhi", 1400, 5)
  const F102 := Flight("F102", "Delhi", "Bangalore", 2150, 3)
  const F103 := Flight("F103", "Mumbai", "Bangalore", 980, 2)

  lemma DriverAdds()
    ensures
      var s1 := AddFlight(Init(), "F101", "Mumbai", "Delhi", 1400, 5).0;
      var s2 := AddFlight(s1, "F102", "Delhi", "Bangalore", 2150, 3).0;
      AddFlight(s2, "F103", "Mumbai", "Bangalore", 980, 2).0 == System([F101, F102, F103], [], [])
  {
  }

  lemma DriverSearch()
    ensures SearchFlights(System([F101, F102, F103], [], []), "Mumbai").0 ==
      System([F101, F102, F103], ["Delhi", "Bangalore"], [])
  {
    assert [F101][..0] == [];
    assert From([F101], "Mumbai") == [F101];
    assert [F101, F102][..1] == [F101];
    assert From([F101, F102], "Mumbai") == [F101];
    assert [F101, F102, F103][..2] == [F101, F102];
    assert From([F101, F102, F103], "Mumbai") == [F101, F103];
  }

  lemma DriverProcess()
    ensures
      var s := System([F101, F102, F103], ["Delhi", "Bangalore"], [0, 1]);
      && Valid(s)
      && ProcessBooking(s) == (s.(flights := [F101.(seats := 4), F102, F103], bookingQueue := [1]), Confirmed(0, 4))
  {
    assert [0, 1][1..] == [1];
    assert [F101, F102, F103][0 := F101.(seats := 4)] == [F101.(seats := 4), F102, F103];
  }

  lemma DriverProcessAgain()
    ensures
      var s := System([F101.(seats := 4), F102, F103], ["Delhi", "Bangalore"], [1]);
      && Valid(s)
      && ProcessBooking(s) == (s.(flights := [F101.(seats := 4), F102.(seats := 2), F103], bookingQueue := []), Confirmed(1, 2))
  {
    assert [1][1..] == [];
    assert [F101.(seats := 4), F102, F103][1 := F102.(seats := 2)] == [F101.(seats := 4), F102.(seats := 2), F103];
  }

  /** The driver in `main`: three flights, a search from Mumbai, requests for
      flights 0 and 1, then three rounds of processing. The search pushes
      Delhi and then Bangalore; the two requests confirm, leaving 4 and 2
      seats, and the third round finds the queue empty. */
  lemma DriverScenario()
    ensures
      var s1 := AddFlight(Init(), "F101", "Mumbai", "Delhi", 1400, 5).0;
      var s2 := AddFlight(s1, "F102", "Delhi", "Bangalore", 2150, 3).0;
      var s3 := AddFlight(s2, "F103", "Mumbai", "Bangalore", 980, 2).0;
      var s4 := SearchFlights(s3, "Mumbai").0;
      var s5 := BookFlight(BookFlight(s4, 0).0, 1).0;
      var p1 := ProcessBooking(s5);
      var p2 := ProcessBooking(p1.0);
      var p3 := ProcessBooking(p2.0);
      && s4.recentSearches == ["Delhi", "Bangalore"]
      && p1.1 == Confirmed(0, 4) && p2.1 == Confirmed(1, 2) && p3.1 == NoBookings
      && p3.0.flights[0].seats == 4 && p3.0.flights[1].seats == 2 && p3.0.flights[2].seats == 2
  {
    DriverAdds();
    DriverSearch();
    DriverProcess();
    DriverProcessAgain();
  }

}
