/**
  The inner, lock-protected pass of reserveSeats on one event's seat list:
  walk the batch in order, re-check availability, and flip the first seat
  matching each request from OPEN to HOLD; stop at the first request that is
  not available, keeping the holds already made (no rollback).
 */
module Reservation {
  import opened Domain
  import opened SeatQueries

  datatype CommitResult = CommitResult(outcome: Outcome, seats: seq<Seat>)

  /** The seats after the pass and how it ended, request by request. */
  function CommitPass(seats: seq<Seat>, requests: seq<SeatKey>): (r: CommitResult)
    ensures |r.seats| == |seats|
    ensures forall j :: 0 <= j < |seats| ==> SameIdentity(r.seats[j], seats[j])
    ensures forall j :: 0 <= j < |seats| && r.seats[j] != seats[j]
              ==> seats[j].status == Open && r.seats[j].status == Hold
    ensures r.outcome.Fail? ==> r.outcome.error.SeatUnavailable?
    decreases |requests|
  {
    if requests == [] then CommitResult(Pass, seats)
    else
      var k := requests[0];
      if !SeatAvailable(seats, k) then CommitResult(Fail(SeatUnavailable(k)), seats)
      else
        match FirstMatch(seats, k)
        case None => CommitResult(Fail(SeatNotFound(k)), seats)
        case Some(j) => CommitPass(seats[j := seats[j].(status := Hold)], requests[1..])
  }

  /** Some seat with key `k` is HOLD. */
  predicate HeldIn(seats: seq<Seat>, k: SeatKey) {
    exists j :: 0 <= j < |seats| && seats[j].Key() == k && seats[j].status == Hold
  }

  /**
    Every request processed before the pass ended is HOLD afterwards; on
    failure the request that stopped the pass was not available in the state
    it met, which is the state the pass leaves.
   */
  lemma {:induction false} CommitHoldsProcessed(seats: seq<Seat>, requests: seq<SeatKey>)
    ensures var r := CommitPass(seats, requests);
      && (r.outcome.Pass? ==> forall i :: 0 <= i < |requests| ==> HeldIn(r.seats, requests[i]))
      && (r.outcome.Fail? ==>
            exists i :: (0 <= i < |requests|
              && r.outcome == Fail(SeatUnavailable(requests[i]))
              && !SeatAvailable(r.seats, requests[i])
              && forall h :: 0 <= h < i ==> HeldIn(r.seats, requests[h])))
    decreases |requests|
  {
    if requests != [] {
      var k := requests[0];
      if SeatAvailable(seats, k) {
        var j := FirstMatch(seats, k).value;
        var s1 := seats[j := seats[j].(status := Hold)];
        var rest := requests[1..];
        CommitHoldsProcessed(s1, rest);
        var r := CommitPass(s1, rest);
        assert r == CommitPass(seats, requests);
        // the seat held for `k` is never reopened and keeps its key
        assert SameIdentity(r.seats[j], s1[j]);
        assert r.seats[j].Key() == k && r.seats[j].status == Hold;
        assert HeldIn(r.seats, k);
        if r.outcome.Pass? {
          forall i | 0 <= i < |requests| ensures HeldIn(r.seats, requests[i]) {
            if i > 0 { assert requests[i] == rest[i - 1]; }
          }
        } else {
          var i :| 0 <= i < |rest| && r.outcome == Fail(SeatUnavailable(rest[i]))
                   && !SeatAvailable(r.seats, rest[i])
                   && forall h :: 0 <= h < i ==> HeldIn(r.seats, rest[h]);
          assert requests[i + 1] == rest[i];
          forall h | 0 <= h < i + 1 ensures HeldIn(r.seats, requests[h]) {
            if h > 0 { assert requests[h] == rest[h - 1]; }
          }
        }
      }
    }
  }

  /** No two seats of the event share a compound key (the store's data invariant). */
  predicate UniqueKeys(seats: seq<Seat>) {
    forall i, j :: 0 <= i < |seats| && 0 <= j < |seats| && seats[i].Key() == seats[j].Key() ==> i == j
  }

  /** The seats with every seat named in `ks` set to HOLD and every other seat as it was. */
  function HoldAll(seats: seq<Seat>, ks: seq<SeatKey>): (r: seq<Seat>)
    ensures |r| == |seats|
  {
    seq(|seats|, j requires 0 <= j < |seats| =>
      if seats[j].Key() in ks then seats[j].(status := Hold) else seats[j])
  }

  /**
    A batch the inner pass commits completely: every request names an OPEN
    seat and no request repeats an earlier one.
   */
  predicate Reservable(seats: seq<Seat>, ks: seq<SeatKey>) {
    (forall i :: 0 <= i < |ks| ==> SeatAvailable(seats, ks[i])) && Distinct(ks)
  }

  lemma HoldAllNothing(seats: seq<Seat>)
    ensures HoldAll(seats, []) == seats
  {
  }

  /** Holding the unique match of an available key `k`, then the rest, is holding all of them. */
  lemma HoldStep(seats: seq<Seat>, k: SeatKey, j: nat, rest: seq<SeatKey>)
    requires UniqueKeys(seats)
    requires j < |seats| && seats[j].Key() == k
    ensures UniqueKeys(seats[j := seats[j].(status := Hold)])
    ensures HoldAll(seats[j := seats[j].(status := Hold)], rest) == HoldAll(seats, [k] + rest)
  {
    var s1 := seats[j := seats[j].(status := Hold)];
    assert forall m :: 0 <= m < |seats| ==> s1[m].Key() == seats[m].Key();
    forall m | 0 <= m < |seats|
      ensures HoldAll(s1, rest)[m] == HoldAll(seats, [k] + rest)[m]
    {
      if m == j {
        assert seats[m].Key() in [k] + rest;
      } else {
        assert seats[m].Key() != k;
        assert seats[m].Key() in [k] + rest <==> seats[m].Key() in rest;
      }
    }
  }

  /** After holding the unique match of `k`, exactly the keys other than `k` that were available still are. */
  lemma AvailableAfterHold(seats: seq<Seat>, k: SeatKey, j: nat)
    requires UniqueKeys(seats)
    requires j < |seats| && seats[j].Key() == k
    ensures forall k' :: SeatAvailable(seats[j := seats[j].(status := Hold)], k')
                         <==> SeatAvailable(seats, k') && k' != k
  {
    forall k' ensures SeatAvailable(seats[j := seats[j].(status := Hold)], k') <==> SeatAvailable(seats, k') && k' != k {
      AvailableKeyAfterHold(seats, k, j, k');
    }
  }

  lemma AvailableKeyAfterHold(seats: seq<Seat>, k: SeatKey, j: nat, k': SeatKey)
    requires UniqueKeys(seats)
    requires j < |seats| && seats[j].Key() == k
    ensures SeatAvailable(seats[j := seats[j].(status := Hold)], k') <==> SeatAvailable(seats, k') && k' != k
  {
    var s1 := seats[j := seats[j].(status := Hold)];
    if SeatAvailable(s1, k') {
      var m :| 0 <= m < |s1| && s1[m].Key() == k' && s1[m].status == Open;
      assert m != j;
    }
    if SeatAvailable(seats, k') && k' != k {
      var m :| 0 <= m < |seats| && seats[m].Key() == k' && seats[m].status == Open;
      assert s1[m] == seats[m];
    }
  }

  /**
    So, once the unique match of an available `k` is held, the rest of the
    batch is reservable exactly when the whole batch was.
   */
  lemma ReservableStep(seats: seq<Seat>, k: SeatKey, j: nat, rest: seq<SeatKey>)
    requires UniqueKeys(seats)
    requires j < |seats| && seats[j].Key() == k && seats[j].status == Open
    ensures Reservable(seats[j := seats[j].(status := Hold)], rest) <==> Reservable(seats, [k] + rest)
  {
    assert SeatAvailable(seats, k) by {
      assert seats[j].Key() == k && seats[j].status == Open;
    }
    ReservableCons(seats, k, rest);
    ReservableAfterHold(seats, k, j, rest);
  }

  /** A key followed by a batch is reservable exactly when the key is available, the batch is, and the batch does not contain the key. */
  lemma ReservableCons(seats: seq<Seat>, k: SeatKey, rest: seq<SeatKey>)
    ensures Reservable(seats, [k] + rest) <==> SeatAvailable(seats, k) && k !in rest && Reservable(seats, rest)
  {
    var all := [k] + rest;
    DistinctCons(k, rest);
    assert all[0] == k;
    assert forall i :: 0 <= i < |rest| ==> all[i + 1] == rest[i];
    if SeatAvailable(seats, k) && Reservable(seats, rest) {
      forall i | 0 <= i < |all| ensures SeatAvailable(seats, all[i]) {
        if i > 0 { assert all[i] == rest[i - 1]; }
      }
    }
  }

  /** Holding the match of `k` leaves a batch reservable exactly when it was and does not contain `k`. */
  lemma ReservableAfterHold(seats: seq<Seat>, k: SeatKey, j: nat, rest: seq<SeatKey>)
    requires UniqueKeys(seats)
    requires j < |seats| && seats[j].Key() == k
    ensures Reservable(seats[j := seats[j].(status := Hold)], rest) <==> Reservable(seats, rest) && k !in rest
  {
    forall i | 0 <= i < |rest|
      ensures SeatAvailable(seats[j := seats[j].(status := Hold)], rest[i]) <==> SeatAvailable(seats, rest[i]) && rest[i] != k
    {
      AvailableKeyAfterHold(seats, k, j, rest[i]);
    }
  }

  /** A key followed by a batch is repeat-free exactly when the batch is and does not contain the key. */
  lemma DistinctCons(k: SeatKey, rest: seq<SeatKey>)
    ensures Distinct([k] + rest) <==> k !in rest && Distinct(rest)
  {
    var all := [k] + rest;
    assert forall i :: 0 <= i < |rest| ==> all[i + 1] == rest[i];
    if Distinct(all) {
      forall i | 0 <= i < |rest| ensures rest[i] != k {
        assert all[0] != all[i + 1];
      }
      forall a, b | 0 <= a < b < |rest| ensures rest[a] != rest[b] {
        assert all[a + 1] != all[b + 1];
      }
    }
    if k !in rest && Distinct(rest) {
      forall a, b | 0 <= a < b < |all| ensures all[a] != all[b] {
        if a > 0 { assert all[a] == rest[a - 1]; }
        assert all[b] == rest[b - 1];
      }
    }
  }

  /** A failure at request i of the rest is a failure at request i + 1 of the whole batch. */
  lemma CommitFailureStep(seats: seq<Seat>, k: SeatKey, j: nat, rest: seq<SeatKey>, i: nat)
    requires UniqueKeys(seats)
    requires j < |seats| && seats[j].Key() == k && seats[j].status == Open
    requires i < |rest|
    requires Reservable(seats[j := seats[j].(status := Hold)], rest[..i])
    requires !Reservable(seats[j := seats[j].(status := Hold)], rest[..i + 1])
    ensures Reservable(seats, ([k] + rest)[..i + 1]) && !Reservable(seats, ([k] + rest)[..i + 2])
    ensures HoldAll(seats[j := seats[j].(status := Hold)], rest[..i]) == HoldAll(seats, ([k] + rest)[..i + 1])
  {
    HoldStep(seats, k, j, rest[..i]);
    ReservableStep(seats, k, j, rest[..i]);
    ReservableStep(seats, k, j, rest[..i + 1]);
    assert ([k] + rest)[..i + 1] == [k] + rest[..i];
    assert ([k] + rest)[..i + 2] == [k] + rest[..i + 1];
  }

  /**
    With unique keys the inner pass is characterised completely: it succeeds
    exactly when the batch is reservable, and then holds exactly the
    requested seats; otherwise it fails with SeatUnavailable at the first
    request that makes the prefix unreservable (an unavailable seat or a
    repeat of an earlier request), holding exactly the requests before it.
   */
  lemma {:induction false} CommitWithUniqueKeys(seats: seq<Seat>, requests: seq<SeatKey>)
    requires UniqueKeys(seats)
    ensures var r := CommitPass(seats, requests);
      && (r.outcome.Pass? <==> Reservable(seats, requests))
      && (r.outcome.Pass? ==> r.seats == HoldAll(seats, requests))
      && (r.outcome.Fail? ==>
            exists i :: (0 <= i < |requests|
              && Reservable(seats, requests[..i]) && !Reservable(seats, requests[..i + 1])
              && r.outcome == Fail(SeatUnavailable(requests[i]))
              && r.seats == HoldAll(seats, requests[..i])))
    decreases |requests|
  {
    var r := CommitPass(seats, requests);
    if requests == [] {
      HoldAllNothing(seats);
    } else {
      var k := requests[0];
      var rest := requests[1..];
      assert requests == [k] + rest;
      if !SeatAvailable(seats, k) {
        assert requests[..1] == [k];
        assert requests[..0] == [];
        HoldAllNothing(seats);
      } else {
        var j := FirstMatch(seats, k).value;
        var s1 := seats[j := seats[j].(status := Hold)];
        assert r == CommitPass(s1, rest);
        HoldStep(seats, k, j, rest);
        ReservableStep(seats, k, j, rest);
        CommitWithUniqueKeys(s1, rest);
        if r.outcome.Fail? {
          var i :| 0 <= i < |rest|
                   && Reservable(s1, rest[..i]) && !Reservable(s1, rest[..i + 1])
                   && r.outcome == Fail(SeatUnavailable(rest[i]))
                   && r.seats == HoldAll(s1, rest[..i]);
          CommitFailureStep(seats, k, j, rest, i);
          assert requests[i + 1] == rest[i];
        }
      }
    }
  }

  /**
    A batch that passed the outer checks (every seat available) runs to the
    end exactly when it has no repeated key; a repeat stops it with
    SeatUnavailable at the first repeated request, after holding the
    requests before it.
   */
  lemma OuterCheckedBatch(seats: seq<Seat>, requests: seq<SeatKey>)
    requires UniqueKeys(seats)
    requires forall i :: 0 <= i < |requests| ==> SeatAvailable(seats, requests[i])
    ensures var r := CommitPass(seats, requests);
      && (r.outcome.Pass? <==> Distinct(requests))
      && (r.outcome.Pass? ==> r.seats == HoldAll(seats, requests))
      && (r.outcome.Fail? ==>
            exists i :: (0 <= i < |requests|
              && Distinct(requests[..i]) && requests[i] in requests[..i]
              && r.outcome == Fail(SeatUnavailable(requests[i]))
              && r.seats == HoldAll(seats, requests[..i])))
  {
    CommitWithUniqueKeys(seats, requests);
    var r := CommitPass(seats, requests);
    if r.outcome.Fail? {
      var i :| 0 <= i < |requests|
               && Reservable(seats, requests[..i]) && !Reservable(seats, requests[..i + 1])
               && r.outcome == Fail(SeatUnavailable(requests[i]))
               && r.seats == HoldAll(seats, requests[..i]);
      assert forall a :: 0 <= a < i + 1 ==> requests[..i + 1][a] == requests[a];
      FirstRepeat(requests, i);
    }
  }

  /** The request at which a distinct prefix stops being distinct repeats an earlier one. */
  lemma FirstRepeat(ks: seq<SeatKey>, i: nat)
    requires i < |ks|
    requires Distinct(ks[..i]) && !Distinct(ks[..i + 1])
    ensures ks[i] in ks[..i]
  {
    var p := ks[..i + 1];
    var a, b :| 0 <= a < b < |p| && p[a] == p[b];
    assert b == i;
    assert ks[..i][a] == ks[i];
  }

  /** A HOLD seat stays HOLD through any later pass. */
  lemma HoldIsPermanent(seats: seq<Seat>, requests: seq<SeatKey>, k: SeatKey)
    requires HeldIn(seats, k)
    ensures HeldIn(CommitPass(seats, requests).seats, k)
  {
    var r := CommitPass(seats, requests);
    var j :| 0 <= j < |seats| && seats[j].Key() == k && seats[j].status == Hold;
    assert r.seats[j] == seats[j];
  }

  /**
    Reserving an OPEN seat alone holds it; reserving it again fails with
    SeatUnavailable and changes nothing.
   */
  lemma ReserveAgainFails(seats: seq<Seat>, k: SeatKey)
    requires UniqueKeys(seats)
    requires SeatAvailable(seats, k)
    ensures var first := CommitPass(seats, [k]);
      && first.outcome == Pass
      && HeldIn(first.seats, k)
      && CommitPass(first.seats, [k]) == CommitResult(Fail(SeatUnavailable(k)), first.seats)
  {
    var j := FirstMatch(seats, k).value;
    var s1 := seats[j := seats[j].(status := Hold)];
    assert [k][1..] == [];
    assert CommitPass(seats, [k]) == CommitResult(Pass, s1);
    assert s1[j].Key() == k && s1[j].status == Hold;
    AvailableAfterHold(seats, k, j);
  }

  /**
    Outside the unique-key invariant the availability check (any matching
    seat OPEN) and the write (first matching seat) can disagree: here the
    pass reports success while the OPEN duplicate stays OPEN.
   */
  lemma DuplicateKeyLeavesOpenSeat(held: Seat, open: Seat)
    requires held.Key() == open.Key() && held.status == Hold && open.status == Open
    ensures CommitPass([held, open], [held.Key()]) == CommitResult(Pass, [held, open])
  {
    var k := held.Key();
    assert [held, open][1].Key() == k && [held, open][1].status == Open;
    assert FirstMatch([held, open], k) == Some(0);
    assert [held, open][0 := held.(status := Hold)] == [held, open];
  }
}
