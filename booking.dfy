/** The order and ticket tables and the two operations that write them:
    OrderCreateSerializer.create, and the whole order request as the
    serializer would run it if its validate_row and validate_seat were not
    picked up as field hooks (each ticket validated against the stored
    tickets, then the batch checked for repeated seats, then the order
    created). Module FieldHooks models what those hooks do as written. */
module Booking {
  import opened CinemaTypes
  import opened TicketValidation
  import opened OrderValidation

  /** The tickets create writes for an order, one per validated ticket, in
      request order. */
  function NewTickets(orderId: OrderId, specs: seq<TicketSpec>): (ts: seq<Ticket>)
    ensures |ts| == |specs|
    ensures forall i :: 0 <= i < |specs| ==>
              ts[i].order == orderId && ts[i].Key() == specs[i].Key()
  {
    seq(|specs|, i requires 0 <= i < |specs| =>
      Ticket(orderId, specs[i].session.id, specs[i].row, specs[i].seat))
  }

  /** Each ticket of the batch passes the per-ticket validator against the
      stored tickets. */
  ghost predicate AllBookable(specs: seq<TicketSpec>, tickets: seq<Ticket>)
  {
    forall i :: 0 <= i < |specs| ==> Bookable(specs[i], tickets)
  }

  /** The per-ticket outcomes of a request, in request order: every
      outcome is Ok exactly when every ticket is bookable. */
  function ValidateEach(specs: seq<TicketSpec>, tickets: seq<Ticket>): (rs: seq<Result<TicketSpec>>)
    ensures |rs| == |specs|
    ensures forall i :: 0 <= i < |specs| ==> rs[i] == ValidateTicket(specs[i], tickets)
    ensures (forall i :: 0 <= i < |rs| ==> rs[i].Ok?) <==> AllBookable(specs, tickets)
  {
    var rs := seq(|specs|, i requires 0 <= i < |specs| => ValidateTicket(specs[i], tickets));
    assert forall i :: 0 <= i < |rs| ==> (rs[i].Ok? <==> Bookable(specs[i], tickets)) by {
      forall i | 0 <= i < |rs| ensures rs[i].Ok? <==> Bookable(specs[i], tickets) {
        assert rs[i] == ValidateTicket(specs[i], tickets);
      }
    }
    rs
  }

  /** What an order request ends in. */
  datatype OrderOutcome =
    | Created(order: Order)
    | TicketsInvalid(perTicket: seq<Result<TicketSpec>>)
    | BatchInvalid(error: BookingError)

  /** Adding a batch that passed both validators to a table without double
      bookings leaves a table without double bookings. */
  lemma BookingKeepsSeatsUnique(tickets: seq<Ticket>, orderId: OrderId, specs: seq<TicketSpec>)
    requires SeatsUnique(tickets)
    requires AllBookable(specs, tickets)
    requires KeysDistinct(specs)
    ensures SeatsUnique(tickets + NewTickets(orderId, specs))
  {
  }

  /** The order table and the ticket table. */
  class TicketStore {
    var orders: seq<Order>
    var tickets: seq<Ticket>
    var nextOrderId: OrderId

    /** The ids of the stored orders. */
    function OrderIds(): set<OrderId>
      reads this
    {
      set o | o in orders :: o.id
    }

    /** Every order id was handed out before nextOrderId, and every ticket
        belongs to a stored order. */
    ghost predicate Valid()
      reads this
    {
      (forall o | o in orders :: o.id < nextOrderId) &&
      (forall t | t in tickets :: t.order in OrderIds())
    }

    constructor ()
      ensures Valid()
      ensures orders == [] && tickets == []
    {
      orders := [];
      tickets := [];
      nextOrderId := 0;
    }

    /** OrderCreateSerializer.create: stores one new order for the user,
        then one ticket per validated ticket, referencing that order, in
        request order; the tickets stored before are kept as they were. */
    method CreateOrder(user: UserId, createdAt: int, specs: seq<TicketSpec>) returns (order: Order)
      requires Valid()
      modifies this
      ensures Valid()
      ensures order.user == user && order.createdAt == createdAt
      ensures order.id !in old(OrderIds())
      ensures orders == old(orders) + [order]
      ensures tickets == old(tickets) + NewTickets(order.id, specs)
    {
      order := Order(nextOrderId, user, createdAt);
      orders := orders + [order];
      nextOrderId := nextOrderId + 1;
      assert order.id in OrderIds();
      var i := 0;
      while i < |specs|
        invariant 0 <= i <= |specs|
        invariant orders == old(orders) + [order] && order.id in OrderIds()
        invariant Valid()
        invariant tickets == old(tickets) + NewTickets(order.id, specs[..i])
      {
        var spec := specs[i];
        tickets := tickets + [Ticket(order.id, spec.session.id, spec.row, spec.seat)];
        i := i + 1;
        assert NewTickets(order.id, specs[..i]) ==
               NewTickets(order.id, specs[..i - 1]) + [Ticket(order.id, spec.session.id, spec.row, spec.seat)];
      }
      assert specs[..i] == specs;
    }

    /** An order request as a whole, as the serializer would run it if
        validate_row and validate_seat were not picked up as field hooks
        (FieldHooks shows that, as written, they make every request with a
        ticket fail before this point). Every ticket is first validated
        against the stored tickets and all failures are reported together;
        then the batch is checked for a repeated seat; only then are the
        order and its tickets stored. A rejected request stores nothing,
        and a table without double bookings stays without them. */
    method PlaceOrder(user: UserId, createdAt: int, specs: seq<TicketSpec>) returns (r: OrderOutcome)
      requires Valid()
      modifies this
      ensures Valid()
      ensures r.Created? <==> AllBookable(specs, old(tickets)) && KeysDistinct(specs)
      ensures r.TicketsInvalid? <==> !AllBookable(specs, old(tickets))
      ensures r.TicketsInvalid? ==> r.perTicket == ValidateEach(specs, old(tickets))
      ensures r.BatchInvalid? ==>
                exists j :: 0 <= j < |specs| && r.error == DuplicateInBatch(specs[j].Key()) &&
                            specs[j].Key() in Keys(specs[..j]) && KeysDistinct(specs[..j])
      ensures r.Created? ==>
                r.order.user == user && r.order.createdAt == createdAt &&
                r.order.id !in old(OrderIds()) &&
                orders == old(orders) + [r.order] &&
                tickets == old(tickets) + NewTickets(r.order.id, specs)
      ensures !r.Created? ==> orders == old(orders) && tickets == old(tickets)
      ensures SeatsUnique(old(tickets)) ==> SeatsUnique(tickets)
    {
      var results := ValidateEach(specs, tickets);
      if exists i | 0 <= i < |results| :: results[i].Err? {
        return TicketsInvalid(results);
      }
      var batch := ValidateBatch(specs);
      if batch.Err? {
        return BatchInvalid(batch.error);
      }
      ghost var before := tickets;
      var order := CreateOrder(user, createdAt, specs);
      if SeatsUnique(before) {
        BookingKeepsSeatsUnique(before, order.id, specs);
      }
      r := Created(order);
    }
  }
}
