/**
  Bulk load: the rows of the data file, header first, grouped into a
  deduplicated event list in first-appearance order and per-event seat lists
  in row order. Rows arrive already parsed; the loop and the two appends of
  the loader are modelled as they run.
 */
module CsvLoading {
  import opened Domain

  /**
    One parsed data row. `eventName` is the name the loader derives from the
    event id; the formatting itself is not modelled.
   */
  datatype Row = Row(eventId: string, seatNumber: string, seatRow: string, level: string,
                     section: string, status: SeatStatus, eventDate: Date, sellRank: int,
                     hasUpsells: bool, eventName: string)

  /** createEvent: the event of a row, with the row's id, derived name and date. */
  function CreateEvent(row: Row): (r: Event)
    ensures r.eventId == row.eventId && r.name == row.eventName && r.eventDate == row.eventDate
  {
    Event(row.eventId, row.eventName, row.eventDate)
  }

  /** createSeat: the seat of a row, keyed by the row's four key fields. */
  function CreateSeat(row: Row): (r: Seat)
    ensures r.Key() == SeatKey(row.seatNumber, row.seatRow, row.level, row.section)
    ensures r.status == row.status && r.sellRank == row.sellRank && r.hasUpsells == row.hasUpsells
  {
    Seat(row.seatNumber, row.seatRow, row.level, row.section, row.status, row.sellRank, row.hasUpsells)
  }

  /** Some stored event carries the id (the negation of the loader's noneMatch). */
  predicate HasEvent(evs: seq<Event>, id: string) {
    exists i :: 0 <= i < |evs| && evs[i].eventId == id
  }

  /** The event list after addEventIfNotExists. */
  function WithEvent(evs: seq<Event>, e: Event): seq<Event> {
    if HasEvent(evs, e.eventId) then evs else evs + [e]
  }

  /** The seat map after addSeatToEvent: the seat goes at the end of its event's list. */
  function WithSeat(m: map<string, seq<Seat>>, id: string, seat: Seat): map<string, seq<Seat>> {
    m[id := (if id in m then m[id] else []) + [seat]]
  }

  /** The rows processed: every row but the header at index 0. */
  function DataRows(csvData: seq<Row>): (r: seq<Row>)
    ensures |r| == if csvData == [] then 0 else |csvData| - 1
    ensures forall i :: 0 <= i < |r| ==> r[i] == csvData[i + 1]
  {
    if csvData == [] then [] else csvData[1..]
  }

  /** The event list after processing `rows` in order, starting from `evs`. */
  function LoadEvents(evs: seq<Event>, rows: seq<Row>): (r: seq<Event>)
    ensures |evs| <= |r| <= |evs| + |rows|
    ensures r[..|evs|] == evs
    decreases |rows|
  {
    if rows == [] then evs
    else WithEvent(LoadEvents(evs, rows[..|rows| - 1]), CreateEvent(rows[|rows| - 1]))
  }

  /** The seat map after processing `rows` in order, starting from `m`. */
  function LoadSeats(m: map<string, seq<Seat>>, rows: seq<Row>): map<string, seq<Seat>>
    decreases |rows|
  {
    if rows == [] then m
    else
      var last := rows[|rows| - 1];
      WithSeat(LoadSeats(m, rows[..|rows| - 1]), last.eventId, CreateSeat(last))
  }

  /** Processing the first i rows is processing the first i - 1 and then row i - 1. */
  lemma LoadPrefixStep(evs: seq<Event>, m: map<string, seq<Seat>>, rows: seq<Row>, i: nat)
    requires 1 <= i <= |rows|
    ensures LoadEvents(evs, rows[..i]) == WithEvent(LoadEvents(evs, rows[..i - 1]), CreateEvent(rows[i - 1]))
    ensures LoadSeats(m, rows[..i]) == WithSeat(LoadSeats(m, rows[..i - 1]), rows[i - 1].eventId, CreateSeat(rows[i - 1]))
  {
    var done := rows[..i];
    assert done[..i - 1] == rows[..i - 1] && done[i - 1] == rows[i - 1];
  }

  // ---- Reference definitions of the grouping ----

  function IdsOf(rows: seq<Row>): set<string> {
    set i | 0 <= i < |rows| :: rows[i].eventId
  }

  /** The rows whose event id is neither stored in `evs` nor carried by an earlier row. */
  function FirstRows(evs: seq<Event>, rows: seq<Row>): seq<Row>
    decreases |rows|
  {
    if rows == [] then []
    else
      var p := rows[..|rows| - 1];
      var last := rows[|rows| - 1];
      FirstRows(evs, p)
        + (if HasEvent(evs, last.eventId) || last.eventId in IdsOf(p) then [] else [last])
  }

  function EventsOf(rows: seq<Row>): (r: seq<Event>)
    ensures |r| == |rows|
    ensures forall i :: 0 <= i < |rows| ==> r[i] == CreateEvent(rows[i])
  {
    seq(|rows|, i requires 0 <= i < |rows| => CreateEvent(rows[i]))
  }

  /** The seats of the rows carrying `id`, in row order. */
  function SeatsOf(rows: seq<Row>, id: string): seq<Seat>
    decreases |rows|
  {
    if rows == [] then []
    else
      var last := rows[|rows| - 1];
      SeatsOf(rows[..|rows| - 1], id) + (if last.eventId == id then [CreateSeat(last)] else [])
  }

  /** An id no row carries has no seats. */
  lemma {:induction false} SeatsOfOtherId(rows: seq<Row>, id: string)
    requires id !in IdsOf(rows)
    ensures SeatsOf(rows, id) == []
    decreases |rows|
  {
    if rows != [] {
      var p := rows[..|rows| - 1];
      assert rows == p + [rows[|rows| - 1]];
      IdsOfSnoc(p, rows[|rows| - 1]);
      SeatsOfOtherId(p, id);
    }
  }

  /** No two stored events share an id. */
  predicate DistinctIds(evs: seq<Event>) {
    forall i, j :: 0 <= i < j < |evs| ==> evs[i].eventId != evs[j].eventId
  }

  lemma IdsOfSnoc(p: seq<Row>, r: Row)
    ensures IdsOf(p + [r]) == IdsOf(p) + {r.eventId}
  {
    var q := p + [r];
    assert forall i :: 0 <= i < |p| ==> q[i] == p[i];
    assert q[|p|] == r;
    forall id | id in IdsOf(q) ensures id in IdsOf(p) + {r.eventId} {
      var i :| 0 <= i < |q| && q[i].eventId == id;
      if i < |p| { assert p[i].eventId == id; }
    }
    forall id | id in IdsOf(p) ensures id in IdsOf(q) {
      var i :| 0 <= i < |p| && p[i].eventId == id;
      assert q[i].eventId == id;
    }
  }

  lemma HasEventSnoc(evs: seq<Event>, e: Event, id: string)
    ensures HasEvent(evs + [e], id) <==> HasEvent(evs, id) || e.eventId == id
  {
    var q := evs + [e];
    assert forall j :: 0 <= j < |evs| ==> q[j] == evs[j];
    if HasEvent(evs, id) {
      var i :| 0 <= i < |evs| && evs[i].eventId == id;
      assert q[i].eventId == id;
    }
    if e.eventId == id { assert q[|evs|].eventId == id; }
  }

  lemma HasEventConcat(a: seq<Event>, b: seq<Event>, id: string)
    ensures HasEvent(a + b, id) <==> HasEvent(a, id) || HasEvent(b, id)
  {
    var q := a + b;
    if HasEvent(a, id) {
      var i :| 0 <= i < |a| && a[i].eventId == id;
      assert q[i] == a[i];
    }
    if HasEvent(b, id) {
      var i :| 0 <= i < |b| && b[i].eventId == id;
      assert q[|a| + i] == b[i];
    }
    if HasEvent(q, id) {
      var i :| 0 <= i < |q| && q[i].eventId == id;
      if i < |a| { assert q[i] == a[i]; } else { assert q[i] == b[i - |a|]; }
    }
  }

  /** The loaded events carry exactly the ids already stored plus those of the rows. */
  lemma {:induction false} LoadEventsIds(evs: seq<Event>, rows: seq<Row>)
    ensures forall id :: HasEvent(LoadEvents(evs, rows), id) <==> HasEvent(evs, id) || id in IdsOf(rows)
    decreases |rows|
  {
    if rows != [] {
      var p := rows[..|rows| - 1];
      var last := rows[|rows| - 1];
      assert rows == p + [last];
      LoadEventsIds(evs, p);
      IdsOfSnoc(p, last);
      forall id ensures HasEvent(LoadEvents(evs, rows), id) <==> HasEvent(evs, id) || id in IdsOf(rows) {
        HasEventSnoc(LoadEvents(evs, p), CreateEvent(last), id);
      }
    }
  }

  /**
    Loading appends to the stored events one event per new id, built from the
    first row carrying it, in the order those first rows appear; a later row
    with a known id changes nothing.
   */
  lemma {:induction false} LoadEventsFirstAppearance(evs: seq<Event>, rows: seq<Row>)
    ensures LoadEvents(evs, rows) == evs + EventsOf(FirstRows(evs, rows))
    decreases |rows|
  {
    if rows == [] {
      assert EventsOf([]) == [];
    } else {
      var p := rows[..|rows| - 1];
      var last := rows[|rows| - 1];
      LoadEventsFirstAppearance(evs, p);
      LoadEventsIds(evs, p);
      var f := FirstRows(evs, p);
      if HasEvent(evs, last.eventId) || last.eventId in IdsOf(p) {
        assert FirstRows(evs, rows) == f + [];
        assert f + [] == f;
      } else {
        assert FirstRows(evs, rows) == f + [last];
        assert EventsOf(f + [last]) == EventsOf(f) + [CreateEvent(last)];
      }
    }
  }

  /** Loading keeps event ids unique. */
  lemma {:induction false} LoadEventsDistinct(evs: seq<Event>, rows: seq<Row>)
    requires DistinctIds(evs)
    ensures DistinctIds(LoadEvents(evs, rows))
    decreases |rows|
  {
    if rows != [] {
      var p := rows[..|rows| - 1];
      var last := rows[|rows| - 1];
      LoadEventsDistinct(evs, p);
      var q := LoadEvents(evs, p);
      if !HasEvent(q, last.eventId) {
        var r := q + [CreateEvent(last)];
        forall i, j | 0 <= i < j < |r| ensures r[i].eventId != r[j].eventId {
          if j == |q| {
            assert r[i] == q[i];
          } else {
            assert r[i] == q[i] && r[j] == q[j];
          }
        }
      }
    }
  }

  /**
    Loading gives every row's id a seat list, creating it on first use, and
    extends each list with the seats of that id's rows in row order; the
    lists of other ids are untouched.
   */
  lemma {:induction false} LoadSeatsGrouping(m: map<string, seq<Seat>>, rows: seq<Row>)
    ensures LoadSeats(m, rows).Keys == m.Keys + IdsOf(rows)
    ensures forall id :: id in LoadSeats(m, rows)
              ==> LoadSeats(m, rows)[id] == (if id in m then m[id] else []) + SeatsOf(rows, id)
    decreases |rows|
  {
    if rows != [] {
      var p := rows[..|rows| - 1];
      var last := rows[|rows| - 1];
      assert rows == p + [last];
      LoadSeatsGrouping(m, p);
      IdsOfSnoc(p, last);
      forall id | id in LoadSeats(m, rows)
        ensures LoadSeats(m, rows)[id] == (if id in m then m[id] else []) + SeatsOf(rows, id)
      {
        LoadSeatsListStep(m, p, last, id);
      }
    }
  }

  /** Loading only appends: every stored list is kept as the start of its id's new list. */
  lemma LoadSeatsExtends(m: map<string, seq<Seat>>, rows: seq<Row>)
    ensures m.Keys <= LoadSeats(m, rows).Keys
    ensures forall id :: id in m ==> |m[id]| <= |LoadSeats(m, rows)[id]| && LoadSeats(m, rows)[id][..|m[id]|] == m[id]
  {
  }

  /** One more row extends its id's list by the row's seat and leaves every other list as it was. */
  lemma LoadSeatsListStep(m: map<string, seq<Seat>>, p: seq<Row>, last: Row, id: string)
    requires LoadSeats(m, p).Keys == m.Keys + IdsOf(p)
    requires id in LoadSeats(m, p) ==> LoadSeats(m, p)[id] == (if id in m then m[id] else []) + SeatsOf(p, id)
    ensures id in LoadSeats(m, p + [last]) ==>
              LoadSeats(m, p + [last])[id] == (if id in m then m[id] else []) + SeatsOf(p + [last], id)
  {
    var rows := p + [last];
    assert rows[..|rows| - 1] == p && rows[|rows| - 1] == last;
    var before := LoadSeats(m, p);
    var start := if id in m then m[id] else [];
    assert SeatsOf(rows, id) == SeatsOf(p, id) + (if last.eventId == id then [CreateSeat(last)] else []);
    if id == last.eventId {
      if id !in before {
        SeatsOfOtherId(p, id);
      }
      assert (if id in before then before[id] else []) == start + SeatsOf(p, id);
    } else {
      assert SeatsOf(rows, id) == SeatsOf(p, id);
    }
  }

  /** With the stored lists in step with the stored events, loading keeps them in step. */
  lemma LoadKeepsKeysInStep(evs: seq<Event>, m: map<string, seq<Seat>>, rows: seq<Row>)
    requires forall id :: HasEvent(evs, id) <==> id in m
    ensures forall id :: HasEvent(LoadEvents(evs, rows), id) <==> id in LoadSeats(m, rows)
  {
    LoadEventsIds(evs, rows);
    LoadSeatsGrouping(m, rows);
  }

  /** The loader's event list and seat map, appended to row by row. */
  class CsvDataLoader {
    var events: seq<Event>
    var eventSeats: map<string, seq<Seat>>

    constructor()
      ensures events == [] && eventSeats == map[]
    {
      events := [];
      eventSeats := map[];
    }

    /** Processes every row after the header, in order. */
    method ProcessCsvData(csvData: seq<Row>)
      modifies this
      ensures events == LoadEvents(old(events), DataRows(csvData))
      ensures eventSeats == LoadSeats(old(eventSeats), DataRows(csvData))
    {
      ghost var rows := DataRows(csvData);
      var i := 1;
      while i < |csvData|
        invariant 1 <= i <= |rows| + 1
        invariant events == LoadEvents(old(events), rows[..i - 1])
        invariant eventSeats == LoadSeats(old(eventSeats), rows[..i - 1])
      {
        ProcessCsvRow(csvData[i]);
        assert rows[..i] == rows[..i - 1] + [csvData[i]];
        assert rows[..i][..i - 1] == rows[..i - 1];
        i := i + 1;
      }
      assert rows[..i - 1] == rows;
    }

    method ProcessCsvRow(row: Row)
      modifies this
      ensures events == WithEvent(old(events), CreateEvent(row))
      ensures eventSeats == WithSeat(old(eventSeats), row.eventId, CreateSeat(row))
    {
      var event := CreateEvent(row);
      AddEventIfNotExists(event);
      var seat := CreateSeat(row);
      AddSeatToEvent(row.eventId, seat);
    }

    /** Appends the event unless an event with its id is already stored. */
    method AddEventIfNotExists(event: Event)
      modifies this
      ensures events == if HasEvent(old(events), event.eventId) then old(events) else old(events) + [event]
      ensures eventSeats == old(eventSeats)
    {
      if !HasEvent(events, event.eventId) {
        events := events + [event];
      }
    }

    /** Appends the seat to its event's list, creating the list when absent. */
    method AddSeatToEvent(eventId: string, seat: Seat)
      modifies this
      ensures eventSeats.Keys == old(eventSeats).Keys + {eventId}
      ensures eventSeats[eventId] == (if eventId in old(eventSeats) then old(eventSeats)[eventId] else []) + [seat]
      ensures forall id :: id in old(eventSeats) && id != eventId ==> eventSeats[id] == old(eventSeats)[id]
      ensures events == old(events)
    {
      var list := if eventId in eventSeats then eventSeats[eventId] else [];
      eventSeats := eventSeats[eventId := list + [seat]];
    }
  }
}
