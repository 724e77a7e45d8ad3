/** One flight record and its list of confirmed bookings. The program keeps the
    bookings in a singly linked list whose head is the most recent booking; the
    model keeps the same order in a sequence, head first. */
module Flights {

  /** A confirmed booking: the id issued at commit time and the passenger. */
  datatype Booking = Booking(bookingId: int, passengerName: string)

  /** A flight record. `bookings[0]` is the list head (the newest booking). */
  datatype Flight = Flight(
    flightID: string,
    source: string,
    destination: string,
    distance: int,
    seats: int,
    active: bool,
    bookings: seq<Booking>)

  /** Booking ids decrease from the head of the list to its tail, so the list is
      newest-first and holds no id twice. */
  ghost predicate NewestFirst(bs: seq<Booking>)
  {
    forall i, j :: 0 <= i < j < |bs| ==> bs[i].bookingId > bs[j].bookingId
  }

  /** Every booking id in the list lies in `[1, next)`. */
  ghost predicate IdsBelow(bs: seq<Booking>, next: int)
  {
    forall i :: 0 <= i < |bs| ==> 1 <= bs[i].bookingId < next
  }

  /** Position of the first node whose id is `bid`, or -1 when the walk falls
      off the end of the list. */
  function FindBooking(bs: seq<Booking>, bid: int): (r: int)
    ensures -1 <= r < |bs|
    ensures r == -1 <==> forall i :: 0 <= i < |bs| ==> bs[i].bookingId != bid
    ensures r >= 0 ==> bs[r].bookingId == bid
    ensures r >= 0 ==> forall i :: 0 <= i < r ==> bs[i].bookingId != bid
  {
    if |bs| == 0 then -1
    else if bs[0].bookingId == bid then 0
    else
      var k := FindBooking(bs[1..], bid);
      if k == -1 then -1 else k + 1
  }

  /** The list with the node at position `i` unlinked: its predecessor now points
      at its successor. */
  function Unlink(bs: seq<Booking>, i: nat): (r: seq<Booking>)
    requires i < |bs|
    ensures |r| == |bs| - 1
    ensures multiset(r) + multiset{bs[i]} == multiset(bs)
    ensures forall j :: 0 <= j < i ==> r[j] == bs[j]
    ensures forall j :: i <= j < |r| ==> r[j] == bs[j + 1]
  {
    assert bs == bs[..i] + [bs[i]] + bs[i + 1..];
    bs[..i] + bs[i + 1..]
  }

  /** Unlinking keeps the list newest-first and its ids in range. */
  lemma UnlinkKeepsOrder(bs: seq<Booking>, i: nat, next: int)
    requires i < |bs|
    requires NewestFirst(bs) && IdsBelow(bs, next)
    ensures NewestFirst(Unlink(bs, i)) && IdsBelow(Unlink(bs, i), next)
  {
    var r := Unlink(bs, i);
    forall a, b | 0 <= a < b < |r|
      ensures r[a].bookingId > r[b].bookingId
    {
      var a' := if a < i then a else a + 1;
      var b' := if b < i then b else b + 1;
      assert r[a] == bs[a'] && r[b] == bs[b'];
    }
  }

  /** Pushing a node whose id exceeds every id already issued keeps the list
      newest-first; the counter's next value bounds the new list. */
  lemma PrependKeepsOrder(bs: seq<Booking>, b: Booking, next: int)
    requires NewestFirst(bs) && IdsBelow(bs, next)
    requires b.bookingId == next && next >= 1
    ensures NewestFirst([b] + bs) && IdsBelow([b] + bs, next + 1)
  {
  }

}
