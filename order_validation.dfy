/** The batch-level validator of an order request
    (OrderCreateSerializer.validate): two tickets of one request must not
    name the same seat of the same session. */
module OrderValidation {
  import opened CinemaTypes

  /** The seat keys of a batch, in request order. */
  function Keys(specs: seq<TicketSpec>): (keys: seq<SeatKey>)
    ensures |keys| == |specs|
    ensures forall i :: 0 <= i < |specs| ==> keys[i] == specs[i].Key()
  {
    seq(|specs|, i requires 0 <= i < |specs| => specs[i].Key())
  }

  /** No two tickets of the batch share a (session id, row, seat) key. */
  ghost predicate KeysDistinct(specs: seq<TicketSpec>)
  {
    forall i, j :: 0 <= i < j < |specs| ==> specs[i].Key() != specs[j].Key()
  }

  /** Scans the batch with a set of the keys seen so far and rejects it at
      the first key seen before. The batch is accepted, and handed back
      unchanged, exactly when its keys are pairwise distinct; a rejection
      names the key of the first ticket that repeats an earlier one. */
  method ValidateBatch(specs: seq<TicketSpec>) returns (r: Result<seq<TicketSpec>>)
    ensures r.Ok? <==> KeysDistinct(specs)
    ensures r.Ok? ==> r.value == specs
    ensures r.Err? ==> exists j :: 0 <= j < |specs| && r.error == DuplicateInBatch(specs[j].Key()) &&
                                   specs[j].Key() in Keys(specs[..j]) && KeysDistinct(specs[..j])
  {
    var seen: set<SeatKey> := {};
    var i := 0;
    while i < |specs|
      invariant 0 <= i <= |specs|
      invariant seen == set k | 0 <= k < i :: specs[k].Key()
      invariant KeysDistinct(specs[..i])
    {
      var key := specs[i].Key();
      if key in seen {
        var k :| 0 <= k < i && specs[k].Key() == key;
        assert Keys(specs[..i])[k] == key;
        return Err(DuplicateInBatch(key));
      }
      seen := seen + {key};
      i := i + 1;
    }
    assert specs[..i] == specs;
    r := Ok(specs);
  }
}
