/** Worked requests against a fresh ticket table, in a hall of 5 rows of
    10 seats: what the booking rules decide for them. */
module BookingScenarios {
  import opened CinemaTypes
  import opened TicketValidation
  import opened OrderValidation
  import opened Booking
  import opened SessionProjections

  const SmallHall := Hall(5, 10, 50)
  const Evening := Session(7, SmallHall)

  /** Booking row 3, seat 7 succeeds once; the same request again is
      rejected because the seat is taken, and stores nothing. */
  method BookSameSeatTwice() returns (first: OrderOutcome, second: OrderOutcome)
    ensures first.Created?
    ensures second == TicketsInvalid([Err(SeatTaken)])
  {
    var store := new TicketStore();
    var spec := TicketSpec(Evening, 3, 7);
    first := store.PlaceOrder(1, 0, [spec]);
    assert Bookable(spec, []);
    assert KeysDistinct([spec]);
    var tickets := store.tickets;
    assert tickets[0].Key() == spec.Key();
    second := store.PlaceOrder(2, 0, [spec]);
    assert !Bookable(spec, tickets);
    assert store.tickets == tickets;
  }

  /** Row 6 lies outside a hall of 5 rows. */
  method BookRowOutsideHall() returns (outcome: OrderOutcome, stored: nat)
    ensures outcome == TicketsInvalid([Err(RowOutOfRange)])
    ensures stored == 0
  {
    var store := new TicketStore();
    var spec := TicketSpec(Evening, 6, 1);
    GridMembership(SmallHall, 6, 1);
    assert ValidateEach([spec], []) == [Err(RowOutOfRange)];
    assert !Bookable([spec][0], []);
    outcome := store.PlaceOrder(1, 0, [spec]);
    stored := |store.tickets|;
  }

  /** Two tickets of one request on row 1, seat 1 are a repeated seat, and
      nothing is stored. */
  method BookSeatTwiceInOneRequest() returns (outcome: OrderOutcome, stored: nat)
    ensures outcome == BatchInvalid(DuplicateInBatch(SeatKey(7, 1, 1)))
    ensures stored == 0
  {
    var store := new TicketStore();
    var spec := TicketSpec(Evening, 1, 1);
    assert Bookable(spec, []);
    assert AllBookable([spec, spec], []);
    assert !KeysDistinct([spec, spec]) by {
      assert [spec, spec][0].Key() == [spec, spec][1].Key();
    }
    outcome := store.PlaceOrder(1, 0, [spec, spec]);
    stored := |store.tickets|;
  }

  /** The count query counts every ticket of a table that holds only
      tickets of the session. */
  lemma {:induction false} CountOfOneSession(session: SessionId, tickets: seq<Ticket>)
    requires forall i :: 0 <= i < |tickets| ==> tickets[i].session == session
    ensures CountFor(session, tickets) == |tickets|
  {
    if tickets != [] {
      CountOfOneSession(session, tickets[1..]);
    }
  }

  /** A session in a hall of capacity 100 with 37 tickets sold has 63
      tickets available. */
  lemma SixtyThreeLeft(hall: Hall, tickets: seq<Ticket>)
    requires hall.capacity == 100 && |tickets| == 37
    requires forall i :: 0 <= i < |tickets| ==> tickets[i].session == 3
    ensures TicketsAvailable(Session(3, hall), tickets) == 63
  {
    CountOfOneSession(3, tickets);
  }
}
