/**
  The service in front of the store: the three early-exit validation passes
  of reserveSeats (event exists, every seat exists, every seat is OPEN), the
  event-existence guard of the seat queries, and the mapping of seats to the
  transfer shape some snapshots return.
 */
module Service {
  import opened Domain
  import opened SeatQueries
  import opened EventCatalog
  import opened Reservation
  import opened Repository

  /** Request `i` is the first one, in batch order, that fails `passes`. */
  ghost predicate FirstFailureAt(requests: seq<SeatKey>, passes: SeatKey -> bool, i: int) {
    && 0 <= i < |requests|
    && !passes(requests[i])
    && forall h :: 0 <= h < i ==> passes(requests[h])
  }

  /** The index at which a validation loop over the batch throws, if any. */
  function FirstFailing(requests: seq<SeatKey>, passes: SeatKey -> bool): (r: Option<nat>)
    ensures r.None? <==> forall i :: 0 <= i < |requests| ==> passes(requests[i])
    ensures r.Some? ==> FirstFailureAt(requests, passes, r.value)
    decreases |requests|
  {
    if requests == [] then None
    else if !passes(requests[0]) then Some(0)
    else
      var rest := requests[1..];
      assert forall i :: 0 <= i < |rest| ==> rest[i] == requests[i + 1];
      match FirstFailing(rest, passes)
      case None =>
        assert forall i :: 0 <= i < |requests| ==> passes(requests[i]) by {
          forall i | 0 <= i < |requests| ensures passes(requests[i]) {
            if i > 0 { assert requests[i] == rest[i - 1]; }
          }
        }
        None
      case Some(i) =>
        assert forall h :: 0 <= h < i + 1 ==> passes(requests[h]) by {
          forall h | 0 <= h < i + 1 ensures passes(requests[h]) {
            if h > 0 { assert requests[h] == rest[h - 1]; }
          }
        }
        Some(i + 1)
  }

  function ValidateEventExists(eventSeats: map<string, seq<Seat>>, eventId: string): (r: Outcome)
    ensures r.Pass? <==> eventId in eventSeats
    ensures r.Fail? ==> r.error == EventNotFound(eventId)
  {
    if eventId !in eventSeats then Fail(EventNotFound(eventId)) else Pass
  }

  /** validateSeatsExist: SeatNotFound for the first request, in order, with no matching seat. */
  function ValidateSeatsExist(seats: seq<Seat>, requests: seq<SeatKey>): (r: Outcome)
    ensures r.Pass? <==> forall i :: 0 <= i < |requests| ==> SeatExists(seats, requests[i])
    ensures r.Fail? ==> exists i :: FirstFailureAt(requests, k => SeatExists(seats, k), i)
                                    && r.error == SeatNotFound(requests[i])
  {
    match FirstFailing(requests, k => SeatExists(seats, k))
    case None => Pass
    case Some(i) => Fail(SeatNotFound(requests[i]))
  }

  /** validateSeatsAvailable: SeatUnavailable for the first request, in order, with no OPEN seat. */
  function ValidateSeatsAvailable(seats: seq<Seat>, requests: seq<SeatKey>): (r: Outcome)
    ensures r.Pass? <==> forall i :: 0 <= i < |requests| ==> SeatAvailable(seats, requests[i])
    ensures r.Fail? ==> exists i :: FirstFailureAt(requests, k => SeatAvailable(seats, k), i)
                                    && r.error == SeatUnavailable(requests[i])
  {
    match FirstFailing(requests, k => SeatAvailable(seats, k))
    case None => Pass
    case Some(i) => Fail(SeatUnavailable(requests[i]))
  }

  /** The outer passes of reserveSeats, in their order. */
  function ValidateReservation(eventSeats: map<string, seq<Seat>>, eventId: string,
                               requests: seq<SeatKey>): (r: Outcome)
    ensures eventId !in eventSeats ==> r == Fail(EventNotFound(eventId))
    ensures r.Pass? <==> eventId in eventSeats
                         && forall i :: 0 <= i < |requests| ==> SeatAvailable(eventSeats[eventId], requests[i])
    ensures r.Fail? ==>
              || r.error == EventNotFound(eventId)
              || exists i :: 0 <= i < |requests|
                             && (r.error == SeatNotFound(requests[i]) || r.error == SeatUnavailable(requests[i]))
  {
    var known := ValidateEventExists(eventSeats, eventId);
    if known.Fail? then known
    else
      var seats := eventSeats[eventId];
      var exist := ValidateSeatsExist(seats, requests);
      assert (forall i :: 0 <= i < |requests| ==> SeatAvailable(seats, requests[i])) ==> exist.Pass?;
      if exist.Fail? then exist else ValidateSeatsAvailable(seats, requests)
  }

  /**
    Precedence of the outer passes: an unknown event is reported before any
    seat is looked at; then the first request with no seat; only when every
    seat exists, the first request with no OPEN seat. The batch passes
    exactly when the event is known and every request is OPEN.
   */
  lemma ValidationPrecedence(eventSeats: map<string, seq<Seat>>, eventId: string, requests: seq<SeatKey>)
    ensures var r := ValidateReservation(eventSeats, eventId, requests);
      && (eventId !in eventSeats ==> r == Fail(EventNotFound(eventId)))
      && (eventId in eventSeats ==>
            var seats := eventSeats[eventId];
            && (r.Pass? <==> forall i :: 0 <= i < |requests| ==> SeatAvailable(seats, requests[i]))
            && ((exists i :: 0 <= i < |requests| && !SeatExists(seats, requests[i])) ==>
                  exists i :: FirstFailureAt(requests, k => SeatExists(seats, k), i)
                              && r == Fail(SeatNotFound(requests[i])))
            && ((forall i :: 0 <= i < |requests| ==> SeatExists(seats, requests[i])) && r.Fail? ==>
                  exists i :: FirstFailureAt(requests, k => SeatAvailable(seats, k), i)
                              && r == Fail(SeatUnavailable(requests[i]))))
  {
  }

  /**
    The outer passes and the inner pass together, with unique seat keys: a
    validated batch with no repeated key ends with exactly its seats HOLD; a
    validated batch with a repeat fails with SeatUnavailable at the first
    repeat, keeping the holds made before it.
   */
  lemma ValidatedBatchCommits(eventSeats: map<string, seq<Seat>>, eventId: string, requests: seq<SeatKey>)
    requires eventId in eventSeats ==> UniqueKeys(eventSeats[eventId])
    requires ValidateReservation(eventSeats, eventId, requests).Pass?
    ensures eventId in eventSeats
    ensures var seats := eventSeats[eventId];
      var c := CommitPass(seats, requests);
      && (Distinct(requests) ==> c == CommitResult(Pass, HoldAll(seats, requests)))
      && (!Distinct(requests) ==>
            exists i :: (0 <= i < |requests|
              && Distinct(requests[..i]) && requests[i] in requests[..i]
              && c == CommitResult(Fail(SeatUnavailable(requests[i])), HoldAll(seats, requests[..i]))))
  {
    ValidationPrecedence(eventSeats, eventId, requests);
    OuterCheckedBatch(eventSeats[eventId], requests);
  }

  /** The transfer shape of a seat: its key fields and status. */
  datatype SeatDto = SeatDto(seatNumber: string, row: string, level: string, section: string,
                             status: SeatStatus)

  function ToSeatDto(s: Seat): SeatDto {
    SeatDto(s.seatNumber, s.row, s.level, s.section, s.status)
  }

  function ToSeatDtos(seats: seq<Seat>): (r: seq<SeatDto>)
    ensures |r| == |seats|
    ensures forall i :: 0 <= i < |seats| ==> r[i] == ToSeatDto(seats[i])
  {
    seq(|seats|, i requires 0 <= i < |seats| => ToSeatDto(seats[i]))
  }

  class EventService {
    const repository: EventRepository

    constructor(repository: EventRepository)
      ensures this.repository == repository
    {
      this.repository := repository;
    }

    /** getAllEvents: the repository's answer for the same sort key. */
    function GetAllEvents(sortBy: Option<string>): (r: seq<Event>)
      reads this, repository
      ensures multiset(r) == multiset(repository.events)
      ensures r == EventCatalog.GetAllEvents(repository.events, ParseSortKey(sortBy, repository.ignoreCaseSortKey))
    {
      AllEventsSpec(repository.events, ParseSortKey(sortBy, repository.ignoreCaseSortKey));
      repository.AllEvents(sortBy)
    }

    /**
      getSeat: EventNotFound for an unknown event; otherwise the first seat
      matching the key, present exactly when one exists.
     */
    function GetSeat(eventId: string, k: SeatKey): (r: Result<Option<Seat>>)
      reads this, repository
      ensures eventId !in repository.eventSeats <==> r == Failure(EventNotFound(eventId))
      ensures eventId in repository.eventSeats ==>
        && r.Success?
        && (r.value.Some? <==> SeatExists(repository.eventSeats[eventId], k))
        && (r.value.Some? ==> r.value.value.Key() == k && r.value == SeatQueries.GetSeat(repository.eventSeats[eventId], k))
    {
      if !repository.EventExists(eventId) then Failure(EventNotFound(eventId))
      else Success(repository.SeatOf(eventId, k))
    }

    /** getSeat of the snapshot that maps the seat to its transfer shape. */
    function GetSeatDto(eventId: string, k: SeatKey): (r: Result<Option<SeatDto>>)
      reads this, repository
      ensures r.Failure? <==> GetSeat(eventId, k).Failure?
      ensures r.Failure? ==> r.error == EventNotFound(eventId)
      ensures r.Success? ==> (r.value.Some? <==> GetSeat(eventId, k).value.Some?)
      ensures r.Success? && r.value.Some? ==>
        var s := GetSeat(eventId, k).value.value;
        r.value.value.status == s.status
        && SeatKey(r.value.value.seatNumber, r.value.value.row, r.value.value.level, r.value.value.section) == k
    {
      match GetSeat(eventId, k)
      case Failure(e) => Failure(e)
      case Success(None) => Success(None)
      case Success(Some(s)) => Success(Some(ToSeatDto(s)))
    }

    /**
      getBestSeats: EventNotFound for an unknown event (the repository is not
      consulted); otherwise the repository's best seats, each OPEN, as many
      as asked for or as are OPEN.
     */
    function GetBestSeats(eventId: string, quantity: nat): (r: Result<seq<Seat>>)
      reads this, repository
      ensures eventId !in repository.eventSeats <==> r == Failure(EventNotFound(eventId))
      ensures eventId in repository.eventSeats ==>
        && r == Success(SeatQueries.GetBestSeats(repository.eventSeats[eventId], quantity))
        && |r.value| == Min(quantity, |OpenSeats(repository.eventSeats[eventId])|)
        && forall i :: 0 <= i < |r.value| ==> r.value[i].status == Open
    {
      if !repository.EventExists(eventId) then Failure(EventNotFound(eventId))
      else
        BestSeatsAreOpen(repository.eventSeats[eventId], quantity);
        Success(repository.BestSeats(eventId, quantity))
    }

    /** getBestSeats of the snapshot that maps each seat to its transfer shape, in order. */
    function GetBestSeatDtos(eventId: string, quantity: nat): (r: Result<seq<SeatDto>>)
      reads this, repository
      ensures r.Failure? <==> eventId !in repository.eventSeats
      ensures r.Failure? ==> r.error == EventNotFound(eventId)
      ensures r.Success? ==>
        var best := GetBestSeats(eventId, quantity).value;
        |r.value| == |best| && forall i :: 0 <= i < |best| ==> r.value[i] == ToSeatDto(best[i])
    {
      match GetBestSeats(eventId, quantity)
      case Failure(e) => Failure(e)
      case Success(seats) => Success(ToSeatDtos(seats))
    }

    /**
      reserveSeats: the three outer passes; only when all pass, the single
      call into the repository. A rejected batch leaves the store exactly as
      it was and never reaches the repository.
     */
    method ReserveSeats(eventId: string, requests: seq<SeatKey>) returns (outcome: Outcome)
      requires repository.Valid()
      modifies repository
      ensures repository.Valid()
      ensures var v := ValidateReservation(old(repository.eventSeats), eventId, requests);
        if v.Fail? then
          && outcome == v
          && repository.eventSeats == old(repository.eventSeats)
          && repository.eventLocks == old(repository.eventLocks)
          && repository.lockCounts == old(repository.lockCounts)
          && repository.nextLockId == old(repository.nextLockId)
          && repository.reserveCalls == old(repository.reserveCalls)
        else
          var c := CommitPass(old(repository.eventSeats[eventId]), requests);
          && outcome == c.outcome
          && repository.eventSeats == old(repository.eventSeats)[eventId := c.seats]
          && repository.reserveCalls == old(repository.reserveCalls) + [(eventId, requests)]
      ensures repository.events == old(repository.events)
    {
      var known := ValidateEventExists(repository.eventSeats, eventId);
      if known.Fail? {
        return known;
      }
      var exist := ValidateSeatsExist(repository.eventSeats[eventId], requests);
      if exist.Fail? {
        return exist;
      }
      var available := ValidateSeatsAvailable(repository.eventSeats[eventId], requests);
      if available.Fail? {
        return available;
      }
      outcome := repository.ReserveSeats(eventId, requests);
    }
  }
}
