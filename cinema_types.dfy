/** The entities the booking rules of the cinema backend work on.
    Halls, sessions, orders and tickets are plain values here; the ticket
    table and the order table are held by Booking.TicketStore. */
module CinemaTypes {

  type SessionId = nat
  type OrderId = nat
  type UserId = nat

  /** A cinema hall: its seat grid is rows x seatsInRow; its capacity is a
      field of its own, as the serializers read it from the hall. */
  datatype Hall = Hall(rows: int, seatsInRow: int, capacity: int)

  /** A movie session, known by its id, held in a hall. */
  datatype Session = Session(id: SessionId, hall: Hall)

  /** The identity of a booked seat: (movie session id, row, seat). */
  datatype SeatKey = SeatKey(session: SessionId, row: int, seat: int)

  /** One entry of the taken-seat map of a session. */
  datatype Place = Place(row: int, seat: int)

  /** The validated data of one ticket of an order request. */
  datatype TicketSpec = TicketSpec(session: Session, row: int, seat: int)
  {
    function Key(): SeatKey { SeatKey(session.id, row, seat) }
  }

  /** A stored ticket: the order it belongs to and the seat it holds. */
  datatype Ticket = Ticket(order: OrderId, session: SessionId, row: int, seat: int)
  {
    function Key(): SeatKey { SeatKey(session, row, seat) }
  }

  /** A stored order: its id, its owner and its creation time. */
  datatype Order = Order(id: OrderId, user: UserId, createdAt: int)

  /** The validation errors of the booking rules. */
  datatype BookingError =
    | RowOutOfRange
    | SeatOutOfRange
    | SeatTaken
    | DuplicateInBatch(key: SeatKey)

  /** A validator either hands its input back or reports an error. */
  datatype Result<T> = Ok(value: T) | Err(error: BookingError)

  /** The seat grid of a hall: every (row, seat) with 1 <= row <= rows and
      1 <= seat <= seatsInRow. */
  ghost function Grid(hall: Hall): set<Place>
  {
    GridOf(hall.rows, hall.seatsInRow)
  }

  /** The places of the first `rows` rows of `seats` seats each. */
  ghost function GridOf(rows: int, seats: int): set<Place>
  {
    set r: int, s: int | 1 <= r <= rows && 1 <= s <= seats :: Place(r, s)
  }

  /** No two tickets of the table hold the same seat of the same session. */
  ghost predicate SeatsUnique(tickets: seq<Ticket>)
  {
    forall i, j :: 0 <= i < j < |tickets| ==> tickets[i].Key() != tickets[j].Key()
  }
}
