/** The framework's field-level pass over one ticket of an order request,
    run before TicketWriteSerializer.validate. For each writable field, in
    declared order, the framework looks up a serializer method named
    validate_<field> and, if there is one, calls it with the field's value
    as its only argument. The ticket serializer declares validate_row and
    validate_seat with three parameters each, so the call for the first
    field, row, raises a TypeError, which the framework does not turn into
    a validation error. */
module FieldHooks {
  import opened CinemaTypes

  /** A serializer's method for a field: none, or one taking `params`
      positional parameters. */
  datatype Hook = NoHook | Hook(params: nat)

  /** What calling the hooks of a ticket's fields ends in. */
  datatype HookOutcome = HooksPassed | HookTypeError(field: string)

  /** The writable fields of the ticket serializer, in declared order. */
  const TicketWriteFields: seq<string> := ["row", "seat", "movie_session"]

  /** The methods named validate_<field> as the ticket serializer declares
      them: validate_row(row, num_rows, error_to_raise) and
      validate_seat(seat, num_seats, error_to_raise). */
  function HooksAsWritten(field: string): Hook
  {
    if field == "row" || field == "seat" then Hook(3) else NoHook
  }

  /** The evidently intended reading: the range checks are helpers that
      only validate calls, so no field has a hook of its own. */
  function HooksIntended(field: string): Hook
  {
    NoHook
  }

  /** Calls each field's hook with one argument, in field order; the first
      hook whose parameter count is not one raises, and the pass stops. */
  function FieldPass(fields: seq<string>, hooks: string -> Hook): (o: HookOutcome)
    ensures o.HookTypeError? <==>
              exists i :: 0 <= i < |fields| && hooks(fields[i]).Hook? && hooks(fields[i]).params != 1
    ensures o.HookTypeError? ==> o.field in fields
  {
    if fields == [] then HooksPassed
    else
      var h := hooks(fields[0]);
      if h.Hook? && h.params != 1 then HookTypeError(fields[0])
      else
        var rest := FieldPass(fields[1..], hooks);
        assert rest.HookTypeError? ==>
                 exists i :: 0 <= i < |fields| && hooks(fields[i]).Hook? && hooks(fields[i]).params != 1 by {
          if rest.HookTypeError? {
            var i :| 0 <= i < |fields[1..]| && hooks(fields[1..][i]).Hook? && hooks(fields[1..][i]).params != 1;
            assert fields[i + 1] == fields[1..][i];
          }
        }
        assert (exists i :: 0 <= i < |fields| && hooks(fields[i]).Hook? && hooks(fields[i]).params != 1) ==>
                 rest.HookTypeError? by {
          forall i | 0 <= i < |fields| && hooks(fields[i]).Hook? && hooks(fields[i]).params != 1
            ensures rest.HookTypeError?
          {
            assert i != 0;
            assert fields[1..][i - 1] == fields[i];
          }
        }
        rest
  }

  /** The field pass of a whole request: each ticket's fields in turn; an
      empty request runs no hook. */
  function RequestFieldPass(specs: seq<TicketSpec>, hooks: string -> Hook): HookOutcome
  {
    if specs == [] then HooksPassed else FieldPass(TicketWriteFields, hooks)
  }

  /** As written, every request with at least one ticket stops with a
      TypeError in the row hook, before validate runs. */
  lemma {:induction false} AsWrittenEveryRequestFails(specs: seq<TicketSpec>)
    requires specs != []
    ensures RequestFieldPass(specs, HooksAsWritten) == HookTypeError("row")
  {
  }

  /** With the range checks kept as helpers of validate only, the field
      pass lets every request through to the validators of Booking. */
  lemma {:induction false} IntendedEveryRequestProceeds(specs: seq<TicketSpec>)
    ensures RequestFieldPass(specs, HooksIntended) == HooksPassed
  {
  }
}
