/** The per-ticket validator of an order request (TicketWriteSerializer):
    the row must lie in the hall, then the seat must lie in the row, then no
    stored ticket may already hold that seat of that session. */
module TicketValidation {
  import opened CinemaTypes

  /** The outcome of a check that returns nothing when it passes. */
  datatype Check = Pass | Fail(error: BookingError)

  /** validate_row: passes exactly when 1 <= row <= numRows. */
  function ValidateRow(row: int, numRows: int): (c: Check)
    ensures c.Pass? <==> 1 <= row <= numRows
    ensures c.Fail? ==> c.error == RowOutOfRange
  {
    if 1 <= row <= numRows then Pass else Fail(RowOutOfRange)
  }

  /** validate_seat: passes exactly when 1 <= seat <= numSeats. */
  function ValidateSeat(seat: int, numSeats: int): (c: Check)
    ensures c.Pass? <==> 1 <= seat <= numSeats
    ensures c.Fail? ==> c.error == SeatOutOfRange
  {
    if 1 <= seat <= numSeats then Pass else Fail(SeatOutOfRange)
  }

  /** The existence query on the ticket table: is some stored ticket on
      this seat of this session? */
  function SeatTakenIn(key: SeatKey, tickets: seq<Ticket>): (taken: bool)
    ensures taken <==> exists i :: 0 <= i < |tickets| && tickets[i].Key() == key
  {
    if tickets == [] then false
    else if tickets[0].Key() == key then true
    else
      var rest := SeatTakenIn(key, tickets[1..]);
      assert rest ==> exists i :: 0 <= i < |tickets| && tickets[i].Key() == key by {
        if rest {
          var i :| 0 <= i < |tickets[1..]| && tickets[1..][i].Key() == key;
          assert tickets[i + 1].Key() == key;
        }
      }
      rest
  }

  /** What a bookable ticket is: its place lies on the hall's seat grid and
      no stored ticket holds the same seat of the same session. */
  ghost predicate Bookable(spec: TicketSpec, tickets: seq<Ticket>)
  {
    Place(spec.row, spec.seat) in Grid(spec.session.hall) &&
    forall i :: 0 <= i < |tickets| ==> tickets[i].Key() != spec.Key()
  }

  /** TicketWriteSerializer.validate: row check, then seat check, then the
      taken-seat query; the first check that fails decides the error, and a
      ticket that passes all three is handed back unchanged. */
  function ValidateTicket(spec: TicketSpec, tickets: seq<Ticket>): (r: Result<TicketSpec>)
    ensures r.Ok? <==> Bookable(spec, tickets)
    ensures r.Ok? ==> r.value == spec
    ensures !(1 <= spec.row <= spec.session.hall.rows) ==> r == Err(RowOutOfRange)
    ensures (1 <= spec.row <= spec.session.hall.rows && !(1 <= spec.seat <= spec.session.hall.seatsInRow))
              ==> r == Err(SeatOutOfRange)
    ensures r == Err(SeatTaken) <==>
              Place(spec.row, spec.seat) in Grid(spec.session.hall) && SeatTakenIn(spec.Key(), tickets)
  {
    GridMembership(spec.session.hall, spec.row, spec.seat);
    match ValidateRow(spec.row, spec.session.hall.rows)
    case Fail(e) => Err(e)
    case Pass =>
      match ValidateSeat(spec.seat, spec.session.hall.seatsInRow)
      case Fail(e) => Err(e)
      case Pass =>
        if SeatTakenIn(spec.Key(), tickets) then Err(SeatTaken) else Ok(spec)
  }

  /** The two range checks pass together exactly on the hall's seat grid. */
  lemma GridMembership(hall: Hall, row: int, seat: int)
    ensures Place(row, seat) in Grid(hall) <==>
              ValidateRow(row, hall.rows).Pass? && ValidateSeat(seat, hall.seatsInRow).Pass?
  {
  }
}
