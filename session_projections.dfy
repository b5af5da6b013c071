/** The two derived fields of the session projections:
    tickets_available of the session list (MovieSessionListSerializer) and
    taken_places of the session detail (MovieSessionDetailSerializer). */
module SessionProjections {
  import opened CinemaTypes
  import opened TicketValidation

  /** The count query: how many stored tickets belong to the session. */
  function CountFor(session: SessionId, tickets: seq<Ticket>): (n: nat)
    ensures n <= |tickets|
  {
    if tickets == [] then 0
    else (if tickets[0].session == session then 1 else 0) + CountFor(session, tickets[1..])
  }

  /** get_taken_places: the (row, seat) of each ticket of the session, in
      ticket order. */
  function TakenPlaces(session: SessionId, tickets: seq<Ticket>): (places: seq<Place>)
    ensures |places| == CountFor(session, tickets)
  {
    if tickets == [] then []
    else
      (if tickets[0].session == session then [Place(tickets[0].row, tickets[0].seat)] else []) +
      TakenPlaces(session, tickets[1..])
  }

  /** get_tickets_available: the hall's capacity less the tickets sold for
      the session, one fewer for each entry of the taken-seat map. */
  function TicketsAvailable(session: Session, tickets: seq<Ticket>): (n: int)
    ensures n == session.hall.capacity - |TakenPlaces(session.id, tickets)|
    ensures n <= session.hall.capacity
  {
    session.hall.capacity - CountFor(session.id, tickets)
  }

  /** A place is on the taken-seat map of a session exactly when the
      per-ticket validator's existence query finds that seat taken. */
  lemma {:induction false} TakenPlacesMatchSeatTaken(session: SessionId, row: int, seat: int, tickets: seq<Ticket>)
    ensures Place(row, seat) in TakenPlaces(session, tickets) <==>
              SeatTakenIn(SeatKey(session, row, seat), tickets)
  {
    if tickets != [] {
      TakenPlacesMatchSeatTaken(session, row, seat, tickets[1..]);
      var head := if tickets[0].session == session then [Place(tickets[0].row, tickets[0].seat)] else [];
      assert TakenPlaces(session, tickets) == head + TakenPlaces(session, tickets[1..]);
      assert tickets == [tickets[0]] + tickets[1..];
    }
  }

  /** The taken-seat map of a table grown at its end is the old map
      followed by the map of the new tickets: entries keep ticket order. */
  lemma {:induction false} TakenPlacesAppend(session: SessionId, a: seq<Ticket>, b: seq<Ticket>)
    ensures TakenPlaces(session, a + b) == TakenPlaces(session, a) + TakenPlaces(session, b)
  {
    if a != [] {
      assert (a + b)[1..] == a[1..] + b;
      TakenPlacesAppend(session, a[1..], b);
    } else {
      assert a + b == b;
    }
  }

  /** Selling tickets lowers tickets_available by the number of new
      tickets for that session. */
  lemma AvailableAfterSale(session: Session, tickets: seq<Ticket>, sold: seq<Ticket>)
    ensures TicketsAvailable(session, tickets + sold) ==
              TicketsAvailable(session, tickets) - CountFor(session.id, sold)
  {
    TakenPlacesAppend(session.id, tickets, sold);
  }

  /** No place occurs twice in a sequence of places. */
  ghost predicate PlacesDistinct(places: seq<Place>)
  {
    forall i, j :: 0 <= i < j < |places| ==> places[i] != places[j]
  }

  /** A table without double bookings gives each session a taken-seat map
      without repeated places. */
  lemma {:induction false} TakenPlacesDistinct(session: SessionId, tickets: seq<Ticket>)
    requires SeatsUnique(tickets)
    ensures PlacesDistinct(TakenPlaces(session, tickets))
  {
    if tickets != [] {
      var rest := tickets[1..];
      assert SeatsUnique(rest) by {
        forall i, j | 0 <= i < j < |rest| ensures rest[i].Key() != rest[j].Key() {
          assert rest[i] == tickets[i + 1] && rest[j] == tickets[j + 1];
        }
      }
      TakenPlacesDistinct(session, rest);
      var t := tickets[0];
      if t.session == session {
        TakenPlacesMatchSeatTaken(session, t.row, t.seat, rest);
        assert !SeatTakenIn(SeatKey(session, t.row, t.seat), rest) by {
          forall k | 0 <= k < |rest| ensures rest[k].Key() != t.Key() {
            assert tickets[k + 1] == rest[k];
          }
        }
        var ps := TakenPlaces(session, tickets);
        assert ps == [Place(t.row, t.seat)] + TakenPlaces(session, rest);
        forall i, j | 0 <= i < j < |ps| ensures ps[i] != ps[j] {
          if i == 0 {
            assert ps[j] in TakenPlaces(session, rest);
          } else {
            assert ps[i] == TakenPlaces(session, rest)[i - 1];
            assert ps[j] == TakenPlaces(session, rest)[j - 1];
          }
        }
      }
    }
  }

  /** A sequence without repeats has as many elements as its set. */
  lemma {:induction false} DistinctCardinality(places: seq<Place>)
    requires PlacesDistinct(places)
    ensures |set p | p in places| == |places|
  {
    if places != [] {
      var rest := places[1..];
      assert PlacesDistinct(rest) by {
        forall i, j | 0 <= i < j < |rest| ensures rest[i] != rest[j] {
          assert rest[i] == places[i + 1] && rest[j] == places[j + 1];
        }
      }
      DistinctCardinality(rest);
      assert places[0] !in rest by {
        forall k | 0 <= k < |rest| ensures rest[k] != places[0] {
          assert rest[k] == places[k + 1];
        }
      }
      assert (set p | p in places) == {places[0]} + (set p | p in rest) by {
        assert places == [places[0]] + rest;
      }
    }
  }

  /** A subset is no larger than its superset. */
  lemma {:induction false} SubsetCardinality(a: set<Place>, b: set<Place>)
    requires a <= b
    ensures |a| <= |b|
    decreases |a|
  {
    if a != {} {
      var x :| x in a;
      SubsetCardinality(a - {x}, b - {x});
    }
  }

  /** The places of one row of a hall. */
  ghost function RowPlaces(row: int, seats: int): set<Place>
  {
    set s: int | 1 <= s <= seats :: Place(row, s)
  }

  lemma {:induction false} RowCardinality(row: int, seats: nat)
    ensures |RowPlaces(row, seats)| == seats
  {
    if seats > 0 {
      RowCardinality(row, seats - 1);
      assert RowPlaces(row, seats) == RowPlaces(row, seats - 1) + {Place(row, seats)};
      assert Place(row, seats) !in RowPlaces(row, seats - 1);
    } else {
      assert RowPlaces(row, seats) == {};
    }
  }

  /** The first `rows` rows are the first rows - 1 rows plus the last
      one, and the two share no place. */
  lemma GridSplit(rows: int, seats: int)
    requires rows >= 1
    ensures GridOf(rows, seats) == GridOf(rows - 1, seats) + RowPlaces(rows, seats)
    ensures GridOf(rows - 1, seats) !! RowPlaces(rows, seats)
  {
  }

  /** `rows` rows of `seats` seats hold rows x seats places. */
  lemma {:induction false} GridCardinality(rows: nat, seats: nat)
    ensures |GridOf(rows, seats)| == rows * seats
  {
    if rows == 0 {
      assert GridOf(rows, seats) == {};
    } else {
      GridCardinality(rows - 1, seats);
      RowCardinality(rows, seats);
      GridSplit(rows, seats);
      assert (rows - 1) * seats + seats == rows * seats;
    }
  }

  /** tickets_available never drops below zero while the hall's capacity
      is its whole grid, the table holds no double booking and every
      ticket of the session lies on the hall's grid. */
  lemma AvailableNonNegative(session: Session, tickets: seq<Ticket>)
    requires session.hall.rows >= 0 && session.hall.seatsInRow >= 0
    requires session.hall.capacity == session.hall.rows * session.hall.seatsInRow
    requires SeatsUnique(tickets)
    requires forall i :: 0 <= i < |tickets| && tickets[i].session == session.id ==>
               Place(tickets[i].row, tickets[i].seat) in Grid(session.hall)
    ensures TicketsAvailable(session, tickets) >= 0
  {
    var places := TakenPlaces(session.id, tickets);
    TakenPlacesDistinct(session.id, tickets);
    DistinctCardinality(places);
    forall p | p in places ensures p in Grid(session.hall) {
      TakenPlacesMatchSeatTaken(session.id, p.row, p.seat, tickets);
    }
    SubsetCardinality((set p | p in places), Grid(session.hall));
    GridCardinality(session.hall.rows, session.hall.seatsInRow);
  }
}
