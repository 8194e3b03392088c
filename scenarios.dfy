/**
  The repository test that sends ten reservations of one seat at once, run
  as ten reservations one after another (each reservation is atomic under
  its event lock).
 */
module Scenarios {
  import opened Domain
  import opened Reservation
  import opened CsvLoading
  import opened Repository

  /**
    Ten callers reserve seat 9/AA/1/Ground of event1: exactly one succeeds,
    the other nine fail with SeatUnavailable, the seat ends HOLD, and the
    ref-counted pool keeps no entry for the event.
   */
  method ConcurrentReservations() returns (successes: nat, unavailable: nat, seat: Option<Seat>, lockEntryLeft: bool)
    ensures successes == 1 && unavailable == 9
    ensures seat.Some? && seat.value.status == Hold
    ensures !lockEntryLeft
  {
    var repository := new EventRepository(false, true);
    // the test stubs the loader: its lists are set and loading reads no rows
    var loader := new CsvDataLoader();
    var open := Seat("9", "AA", "1", "Ground", Open, 0, false);
    loader.events := [Event("event1", "Event 1", 0), Event("event2", "Event 2", 0), Event("event3", "Event 3", 0)];
    loader.eventSeats := map["event1" := [open],
                             "event2" := [Seat("8", "BB", "2", "East", Open, 0, false)],
                             "event3" := [Seat("7", "CC", "3", "West", Open, 0, false)]];
    repository.LoadCsvData(loader, []);
    assert repository.eventSeats["event1"] == [open];

    var k := SeatKey("9", "AA", "1", "Ground");
    var held := open.(status := Hold);
    successes, unavailable := 0, 0;
    var i := 0;
    while i < 10
      invariant 0 <= i <= 10
      invariant repository.Valid() && repository.refCountedLocks
      invariant "event1" in repository.eventSeats
      invariant repository.eventLocks == map[] && repository.lockCounts == map[]
      invariant i == 0 ==> successes == 0 && unavailable == 0 && repository.eventSeats["event1"] == [open]
      invariant i > 0 ==> successes == 1 && unavailable == i - 1 && repository.eventSeats["event1"] == [held]
    {
      ReserveAgainFails([open], k);
      var outcome := repository.ReserveSeats("event1", [k]);
      if outcome.Pass? {
        successes := successes + 1;
      } else if outcome.error.SeatUnavailable? {
        unavailable := unavailable + 1;
      }
      i := i + 1;
    }
    seat := repository.SeatOf("event1", k);
    lockEntryLeft := "event1" in repository.eventLocks || "event1" in repository.lockCounts;
  }
}
