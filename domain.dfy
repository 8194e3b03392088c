/**
  Entities of the seat inventory: events, seats, the four-field compound key
  that identifies a seat within its event, and the error kinds the
  reservation protocol raises.
 */
module Domain {

  datatype Option<T> = None | Some(value: T)

  /** Seat status. Only OPEN -> HOLD is ever written. */
  datatype SeatStatus = Open | Hold

  /** Event dates are kept as an abstract total order (days since an epoch). */
  type Date = int

  datatype Event = Event(eventId: string, name: string, eventDate: Date)

  /** The compound key (seatNumber, row, level, section); also the shape of a seat request. */
  datatype SeatKey = SeatKey(seatNumber: string, row: string, level: string, section: string)

  datatype Seat = Seat(seatNumber: string, row: string, level: string, section: string,
                       status: SeatStatus, sellRank: int, hasUpsells: bool)
  {
    function Key(): SeatKey {
      SeatKey(seatNumber, row, level, section)
    }
  }

  /** Everything about a seat except its status: what a reservation must never change. */
  predicate SameIdentity(a: Seat, b: Seat) {
    a.(status := Open) == b.(status := Open)
  }

  /** The error kinds of the reservation protocol, carrying what they report. */
  datatype StoreError =
    | EventNotFound(eventId: string)
    | SeatNotFound(key: SeatKey)
    | SeatUnavailable(key: SeatKey)

  /** Result of an operation that returns nothing or raises. */
  datatype Outcome = Pass | Fail(error: StoreError)

  /** Result of an operation that returns a value or raises. */
  datatype Result<T> = Success(value: T) | Failure(error: StoreError)

  function Min(a: int, b: int): int {
    if a <= b then a else b
  }

  /** No key occurs twice in the batch. */
  predicate Distinct(ks: seq<SeatKey>) {
    forall i, j :: 0 <= i < j < |ks| ==> ks[i] != ks[j]
  }
}
