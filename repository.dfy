/**
  The seat store: the loaded events, the per-event seat lists, and the
  per-event lock pool. Two constants select the variant of a snapshot:
  whether the sort token is matched ignoring case, and whether the lock pool
  is reference-counted (entries removed when the last user leaves) or
  grow-only. Every reservation runs to completion before the next starts;
  a lock is a number naming a ReentrantLock and `heldLocks` is the set of
  locks currently held.
 */
module Repository {
  import opened Domain
  import opened Sorting
  import opened SeatQueries
  import opened EventCatalog
  import opened Reservation
  import opened CsvLoading

  /** The lock map after computeIfAbsent: the event's lock, a newLock one when it had none. */
  function LockFor(locks: map<string, nat>, id: string, newLock: nat): (r: map<string, nat>)
    ensures id in r && r.Keys == locks.Keys + {id}
    ensures id in locks ==> r == locks
    ensures id !in locks ==> r[id] == newLock && forall other :: other in locks ==> r[other] == locks[other]
  {
    if id in locks then locks else locks[id := newLock]
  }

  /** The count map after the increment of a ref-counted pool (an absent count starts at zero). */
  function CountIn(counts: map<string, nat>, id: string): (r: map<string, nat>)
    ensures id in r && r[id] > 0 && r.Keys == counts.Keys + {id}
    ensures r[id] == if id in counts then counts[id] + 1 else 1
    ensures forall other :: other in counts && other != id ==> r[other] == counts[other]
  {
    counts[id := (if id in counts then counts[id] else 0) + 1]
  }

  /** The count map after the finally block: decremented, and dropped at zero. */
  function CountOut(counts: map<string, nat>, id: string): (r: map<string, nat>)
    requires id in counts && counts[id] > 0
    ensures counts[id] == 1 ==> id !in r && r.Keys == counts.Keys - {id}
    ensures counts[id] > 1 ==> id in r && r[id] == counts[id] - 1 && r.Keys == counts.Keys
    ensures forall other :: other in counts && other != id ==> other in r && r[other] == counts[other]
  {
    if counts[id] == 1 then counts - {id} else counts[id := counts[id] - 1]
  }

  /** The lock map after the finally block: the entry goes with the last user, while it still names this lock. */
  function LockOut(locks: map<string, nat>, counts: map<string, nat>, id: string, lock: nat): (r: map<string, nat>)
    requires id in counts
    ensures counts[id] == 1 && id in locks && locks[id] == lock ==> r.Keys == locks.Keys - {id}
    ensures !(counts[id] == 1 && id in locks && locks[id] == lock) ==> r == locks
    ensures forall other :: other in locks && other != id ==> other in r && r[other] == locks[other]
  {
    if counts[id] == 1 && id in locks && locks[id] == lock then locks - {id} else locks
  }

  /**
    In a ref-counted pool where every lock has a positive count, one user
    coming and going leaves both maps as they were: an entry created for it
    is removed again, and an existing count is incremented and decremented.
   */
  lemma PoolRoundTrip(locks: map<string, nat>, counts: map<string, nat>, id: string, newLock: nat)
    requires locks.Keys == counts.Keys
    requires forall other :: other in counts ==> counts[other] > 0
    ensures var l := LockFor(locks, id, newLock); var c := CountIn(counts, id);
      && CountOut(c, id) == counts
      && LockOut(l, c, id, l[id]) == locks
  {
    var l := LockFor(locks, id, newLock);
    var c := CountIn(counts, id);
    if id in counts {
      assert CountOut(c, id) == counts[id := counts[id]];
    } else {
      assert LockOut(l, c, id, l[id]) == locks[id := newLock] - {id};
    }
  }

  class EventRepository {
    const ignoreCaseSortKey: bool
    const refCountedLocks: bool

    var events: seq<Event>
    var eventSeats: map<string, seq<Seat>>
    var eventLocks: map<string, nat>
    var lockCounts: map<string, nat>
    var heldLocks: set<nat>
    var nextLockId: nat
    /** Every call of reserveSeats, in order, with its arguments. */
    ghost var reserveCalls: seq<(string, seq<SeatKey>)>

    /**
      Between reservations no lock is held; a ref-counted pool has a count
      for exactly the events it has a lock for, each positive; a grow-only
      pool keeps no counts.
     */
    ghost predicate Valid()
      reads this
    {
      && heldLocks == {}
      && (refCountedLocks ==>
            eventLocks.Keys == lockCounts.Keys && forall id :: id in lockCounts ==> lockCounts[id] > 0)
      && (!refCountedLocks ==> lockCounts == map[])
    }

    /** The seat map has a list for exactly the events stored. */
    ghost predicate InStep()
      reads this
    {
      forall id :: HasEvent(events, id) <==> id in eventSeats
    }

    constructor(ignoreCaseSortKey: bool, refCountedLocks: bool)
      ensures Valid() && InStep()
      ensures this.ignoreCaseSortKey == ignoreCaseSortKey && this.refCountedLocks == refCountedLocks
      ensures events == [] && eventSeats == map[]
      ensures eventLocks == map[] && lockCounts == map[] && reserveCalls == []
    {
      this.ignoreCaseSortKey := ignoreCaseSortKey;
      this.refCountedLocks := refCountedLocks;
      events := [];
      eventSeats := map[];
      eventLocks := map[];
      lockCounts := map[];
      heldLocks := {};
      nextLockId := 0;
      reserveCalls := [];
    }

    /**
      Runs the loader over the file's rows, then appends its events and
      copies its seat lists into the store.
     */
    method LoadCsvData(loader: CsvDataLoader, csvData: seq<Row>)
      modifies this, loader
      ensures loader.events == LoadEvents(old(loader.events), DataRows(csvData))
      ensures loader.eventSeats == LoadSeats(old(loader.eventSeats), DataRows(csvData))
      ensures events == old(events) + loader.events
      ensures eventSeats == old(eventSeats) + loader.eventSeats
      ensures old(InStep()) && (forall id :: HasEvent(old(loader.events), id) <==> id in old(loader.eventSeats))
              ==> InStep()
      ensures eventLocks == old(eventLocks) && lockCounts == old(lockCounts)
      ensures heldLocks == old(heldLocks) && nextLockId == old(nextLockId)
      ensures reserveCalls == old(reserveCalls)
    {
      ghost var instep := InStep() && forall id :: HasEvent(loader.events, id) <==> id in loader.eventSeats;
      loader.ProcessCsvData(csvData);
      if instep {
        LoadKeepsKeysInStep(old(loader.events), old(loader.eventSeats), DataRows(csvData));
      }
      forall id ensures HasEvent(events + loader.events, id) <==> HasEvent(events, id) || HasEvent(loader.events, id) {
        HasEventConcat(events, loader.events, id);
      }
      events := events + loader.events;
      eventSeats := eventSeats + loader.eventSeats;
    }

    /** The load loop written inline: the rows after the header go straight into the store. */
    method LoadRows(csvData: seq<Row>)
      modifies this
      ensures events == LoadEvents(old(events), DataRows(csvData))
      ensures eventSeats == LoadSeats(old(eventSeats), DataRows(csvData))
      ensures old(InStep()) ==> InStep()
      ensures eventLocks == old(eventLocks) && lockCounts == old(lockCounts)
      ensures heldLocks == old(heldLocks) && nextLockId == old(nextLockId)
      ensures reserveCalls == old(reserveCalls)
    {
      ghost var rows := DataRows(csvData);
      ghost var inStep := InStep();
      var i := 1;
      while i < |csvData|
        invariant 1 <= i <= |rows| + 1
        invariant events == LoadEvents(old(events), rows[..i - 1])
        invariant eventSeats == LoadSeats(old(eventSeats), rows[..i - 1])
        invariant eventLocks == old(eventLocks) && lockCounts == old(lockCounts)
        invariant heldLocks == old(heldLocks) && nextLockId == old(nextLockId)
        invariant reserveCalls == old(reserveCalls)
      {
        var row := csvData[i];
        LoadPrefixStep(old(events), old(eventSeats), rows, i);
        ghost var events0, seats0 := events, eventSeats;
        var event := CreateEvent(row);
        if !HasEvent(events, row.eventId) {
          events := events + [event];
        }
        assert events == WithEvent(events0, event);
        var seat := CreateSeat(row);
        var list := if row.eventId in eventSeats then eventSeats[row.eventId] else [];
        eventSeats := eventSeats[row.eventId := list + [seat]];
        assert eventSeats == WithSeat(seats0, row.eventId, seat);
        i := i + 1;
      }
      assert rows[..i - 1] == rows;
      if inStep {
        LoadKeepsKeysInStep(old(events), old(eventSeats), rows);
      }
    }

    /** eventExists asks the seat map; in step, that is whether some stored event has the id. */
    function EventExists(eventId: string): (r: bool)
      reads this
      ensures InStep() ==> (r <==> HasEvent(events, eventId))
    {
      eventId in eventSeats
    }

    /** getAllEvents: a permutation of the events, in the order the sort token selects. */
    function AllEvents(sortBy: Option<string>): (r: seq<Event>)
      reads this
      ensures multiset(r) == multiset(events)
      ensures ParseSortKey(sortBy, ignoreCaseSortKey) == LoadOrder ==> r == events
      ensures ParseSortKey(sortBy, ignoreCaseSortKey) == ByName ==>
                forall i, j :: 0 <= i < j < |r| ==> LexLe(r[i].name, r[j].name)
      ensures ParseSortKey(sortBy, ignoreCaseSortKey) == ByDate ==>
                forall i, j :: 0 <= i < j < |r| ==> r[i].eventDate <= r[j].eventDate
    {
      AllEventsSpec(events, ParseSortKey(sortBy, ignoreCaseSortKey));
      GetAllEvents(events, ParseSortKey(sortBy, ignoreCaseSortKey))
    }

    /** getSeat: the first seat of the event with the key, if any. */
    function SeatOf(eventId: string, k: SeatKey): (r: Option<Seat>)
      reads this
      requires eventId in eventSeats
      ensures r.Some? <==> SeatExists(eventSeats[eventId], k)
      ensures r.Some? ==> r.value.Key() == k && r.value in eventSeats[eventId]
    {
      GetSeat(eventSeats[eventId], k)
    }

    /** getBestSeats: min(quantity, OPEN count) of the event's seats, all OPEN. */
    function BestSeats(eventId: string, quantity: nat): (r: seq<Seat>)
      reads this
      requires eventId in eventSeats
      ensures |r| == Min(quantity, |OpenSeats(eventSeats[eventId])|)
      ensures forall i :: 0 <= i < |r| ==> r[i].status == Open
      ensures multiset(r) <= multiset(OpenSeats(eventSeats[eventId]))
    {
      BestSeatsAreOpen(eventSeats[eventId], quantity);
      GetBestSeats(eventSeats[eventId], quantity)
    }

    /**
      reserveSeats: take (or create) the event's lock, count this user in a
      ref-counted pool, hold the lock, run the inner pass, then release the
      lock and, when this was the last user, drop both pool entries.
      The result is the inner pass's; the other events' seat lists, the
      events and the pool's contents otherwise stay as they were.
     */
    method ReserveSeats(eventId: string, requests: seq<SeatKey>) returns (outcome: Outcome)
      requires Valid()
      requires eventId in eventSeats
      modifies this
      ensures Valid()
      ensures var c := CommitPass(old(eventSeats[eventId]), requests);
        outcome == c.outcome && eventSeats == old(eventSeats)[eventId := c.seats]
      ensures old(InStep()) ==> InStep()
      ensures events == old(events)
      ensures refCountedLocks ==> eventLocks == old(eventLocks) && lockCounts == old(lockCounts)
      ensures !refCountedLocks ==>
        && lockCounts == old(lockCounts)
        && eventLocks == if eventId in old(eventLocks) then old(eventLocks)
                         else old(eventLocks)[eventId := old(nextLockId)]
      ensures nextLockId == if eventId in old(eventLocks) then old(nextLockId) else old(nextLockId) + 1
      ensures reserveCalls == old(reserveCalls) + [(eventId, requests)]
    {
      reserveCalls := reserveCalls + [(eventId, requests)];
      if refCountedLocks {
        PoolRoundTrip(eventLocks, lockCounts, eventId, nextLockId);
      }
      var eventLock := AcquireLock(eventId);
      outcome := CommitBatch(eventId, requests);
      ReleaseLock(eventId, eventLock);
    }

    /**
      The lock half of reserveSeats before its try block: computeIfAbsent on
      the lock map, the count's increment in a ref-counted pool, then lock().
     */
    method AcquireLock(eventId: string) returns (eventLock: nat)
      requires Valid()
      modifies this
      ensures eventLocks == LockFor(old(eventLocks), eventId, old(nextLockId))
      ensures eventLock == eventLocks[eventId] && heldLocks == {eventLock}
      ensures nextLockId == if eventId in old(eventLocks) then old(nextLockId) else old(nextLockId) + 1
      ensures refCountedLocks ==> lockCounts == CountIn(old(lockCounts), eventId)
      ensures !refCountedLocks ==> lockCounts == old(lockCounts)
      ensures events == old(events) && eventSeats == old(eventSeats) && reserveCalls == old(reserveCalls)
    {
      if eventId in eventLocks {
        eventLock := eventLocks[eventId];
      } else {
        eventLock := nextLockId;
        nextLockId := nextLockId + 1;
        eventLocks := eventLocks[eventId := eventLock];
      }
      if refCountedLocks {
        // computeIfAbsent creates the count at zero, then incrementAndGet
        var count := if eventId in lockCounts then lockCounts[eventId] else 0;
        lockCounts := lockCounts[eventId := count + 1];
      }
      heldLocks := heldLocks + {eventLock};
    }

    /**
      The finally block of reserveSeats: unlock(), then, in a ref-counted
      pool, decrement the count and drop both entries when it reaches zero
      (the lock entry only while it still names this lock).
     */
    method ReleaseLock(eventId: string, eventLock: nat)
      requires heldLocks == {eventLock}
      requires refCountedLocks ==> eventId in lockCounts && lockCounts[eventId] > 0
      modifies this
      ensures heldLocks == {}
      ensures refCountedLocks ==>
        && lockCounts == CountOut(old(lockCounts), eventId)
        && eventLocks == LockOut(old(eventLocks), old(lockCounts), eventId, eventLock)
      ensures !refCountedLocks ==> lockCounts == old(lockCounts) && eventLocks == old(eventLocks)
      ensures events == old(events) && eventSeats == old(eventSeats) && reserveCalls == old(reserveCalls)
      ensures nextLockId == old(nextLockId)
    {
      heldLocks := heldLocks - {eventLock};
      if refCountedLocks {
        lockCounts := lockCounts[eventId := lockCounts[eventId] - 1];
        if lockCounts[eventId] == 0 {
          if eventId in eventLocks && eventLocks[eventId] == eventLock {
            eventLocks := eventLocks - {eventId};
          }
          lockCounts := lockCounts - {eventId};
        }
      }
    }

    /**
      The try block of reserveSeats, run under the event's lock: for each
      request in order, fail with SeatUnavailable unless an OPEN seat
      matches, otherwise set the first matching seat to HOLD; a missing seat
      would fail with SeatNotFound.
     */
    method CommitBatch(eventId: string, requests: seq<SeatKey>) returns (outcome: Outcome)
      requires eventId in eventSeats
      modifies this`eventSeats
      ensures var c := CommitPass(old(eventSeats[eventId]), requests);
        outcome == c.outcome && eventSeats == old(eventSeats)[eventId := c.seats]
    {
      // the event's list, whose seats the loop updates in place
      var seats := eventSeats[eventId];
      outcome := Pass;
      var i := 0;
      while i < |requests|
        invariant 0 <= i <= |requests|
        invariant CommitPass(seats, requests[i..]) == CommitPass(old(eventSeats[eventId]), requests)
        invariant outcome == Pass
      {
        var k := requests[i];
        assert requests[i..] == [k] + requests[i + 1..];
        if !SeatAvailable(seats, k) {
          outcome := Fail(SeatUnavailable(k));
          break;
        }
        match FirstMatch(seats, k) {
          case Some(j) =>
            seats := seats[j := seats[j].(status := Hold)];
          case None =>
            outcome := Fail(SeatNotFound(k));
            break;
        }
        i := i + 1;
      }
      eventSeats := eventSeats[eventId := seats];
    }
  }
}
