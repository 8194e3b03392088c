# ticketfma seat store in Dafny

This project models the seat inventory and reservation core of ticketfma, a
ticket-hold service. It covers:

- **Seat store.** Events, and an ordered seat list per event id. A seat is
  identified within its event by the key (seatNumber, row, level, section).
- **Read queries.** Event and seat existence, seat availability, first-match
  lookup, best seats by sell rank, and events sorted by name or date.
- **Reservation.** Two phases. The service runs three early-exit checks: the
  event exists, every seat exists, every seat is OPEN. The repository then
  takes the event's lock and walks the batch in order. It re-checks each
  seat and flips it from OPEN to HOLD. The walk stops at the first seat that
  is not OPEN, and the holds already made stay (no rollback).
- **Lock pool.** A per-event lock map. It is either reference-counted (both
  entries are dropped when the last user leaves) or grow-only.
- **Bulk load.** Parsed CSV rows are grouped into a deduplicated event list,
  in first-appearance order, and into per-event seat lists, in row order.

The repository holds several near-identical snapshots of this core. The model
has one store class, `Repository.EventRepository`, with two constants that
select a snapshot:

- `ignoreCaseSortKey` is true for `repository/impl/EventRepository` and
  `adapter/secondary/persistence/EventRepositoryCSV`. It is false for
  `repository/EventRepository` and `repository/IEventRepository`, which match
  the sort token exactly.
- `refCountedLocks` is true for the two `EventRepository` snapshots. It is
  false for the CSV adapter, whose lock map only grows.

A Java `sortBy` given as `null` and one given as `Optional.empty()` are both
`None`. `SeatNotFoundException` and `SeatNotExistException` are both the
`SeatNotFound` error.

The store's seat map is *in step* with its events when it has a list for
exactly the ids of the stored events. Loading and reserving keep it so.

Module layout:

- `Domain`: entities and error kinds.
- `Sorting`: a stable insertion sort with its sortedness, permutation and
  stability lemmas. It stands for `Stream.sorted` on an ordered stream, and
  for `String.compareTo` as `LexLe`.
- `SeatQueries`: the stream queries over one event's seat list.
- `EventCatalog`: `getAllEvents`.
- `Reservation`: the inner commit pass as a function, with its
  characterisation.
- `CsvLoading`: row grouping, the loader class, and reference definitions of
  the grouping.
- `Repository`: the store class and its methods, with `reserveSeats` proved
  against `CommitPass`.
- `Service`: the validation passes and the service class.
- `Scenarios`: the repository test with ten callers, as ten sequential calls.

A note on the sort token: `getAllEvents` matches "name" and "date" ignoring
case in two snapshots and exactly in the other two. The model follows the
code of each snapshot, and `ignoreCaseSortKey` selects the rule.

## Model

Each row cites one snapshot. The same member also models the matching code
in the other snapshots:

- `SeatQueries.SeatExists`, `SeatQueries.SeatAvailable`, `SeatQueries.GetSeat`
  and the best-seat lemmas: `repository/EventRepository.java:51-91`,
  `EventRepositoryCSV.java:97-142`, `IEventRepository.java:105-111`.
- `EventCatalog.AllEventsSpec`: `repository/EventRepository.java:63-76`,
  `EventRepositoryCSV.java:111-125`, `IEventRepository.java:86-99`.
- `Repository.EventRepository.LoadRows` and `CsvLoading.LoadSeatsGrouping`:
  `IEventRepository.java:36-84`.
- `Repository.EventRepository.ReserveSeats`, `AcquireLock`, `ReleaseLock` and
  `CommitBatch`: `repository/EventRepository.java:93-124` (ref-counted) and
  `EventRepositoryCSV.java:144-169` (grow-only).
- The `Service` members: `domain/service/EventServiceImpl.java:24-74` and
  `domain/service/EventService.java:26-72`. `service/EventService.java:21-31`
  is covered by `GetAllEvents` and `GetBestSeats`.

| member | source | states |
|---|---|---|
| SeatQueries.SeatExists | src/main/java/com/ticketfma/repository/impl/EventRepository.java:53-58 | true exactly when some seat of the list matches all four key fields |
| SeatQueries.SeatAvailable | src/main/java/com/ticketfma/repository/impl/EventRepository.java:60-65 | true exactly when some seat matches all four key fields and is OPEN; availability implies existence |
| SeatQueries.FirstMatch | src/main/java/com/ticketfma/repository/impl/EventRepository.java:85-88 | the index of the first matching seat in list order; none exactly when no seat matches |
| SeatQueries.GetSeat | src/main/java/com/ticketfma/repository/impl/EventRepository.java:83-89 | present exactly when a seat matches; then it is a seat of the list with that key and no earlier seat has the key |
| SeatQueries.OpenSeats | src/main/java/com/ticketfma/repository/impl/EventRepository.java:94 | only OPEN seats, each as often as it occurs in the list |
| SeatQueries.OpenSeatsConcat | src/main/java/com/ticketfma/repository/impl/EventRepository.java:94 | the OPEN filter keeps list order: the OPEN seats of a concatenation are those of the first part followed by those of the second |
| SeatQueries.BestSeatsAreOpen | src/main/java/com/ticketfma/repository/impl/EventRepository.java:91-98 | getBestSeats returns min(quantity, number of OPEN seats) seats, all OPEN, drawn from the OPEN seats |
| SeatQueries.GetBestSeats | src/main/java/com/ticketfma/repository/impl/EventRepository.java:91-98 | as many seats as asked for or as there are OPEN seats, whichever is fewer, all drawn from the OPEN seats |
| SeatQueries.BestSeatsAreBest | src/main/java/com/ticketfma/repository/EventRepository.java:85-91 | the result is in non-decreasing sellRank and no OPEN seat left out ranks better than one returned |
| SeatQueries.BestSeatsAreStable | src/main/java/com/ticketfma/adapter/secondary/persistence/EventRepositoryCSV.java:135-142 | for every rank, the seats returned with that rank are the first seats of that rank in list order |
| SeatQueries.TiedByRank | src/main/java/com/ticketfma/repository/impl/EventRepository.java:95 | under comparingInt(sellRank), the seats tied with x are exactly the seats of the list with x's sellRank |
| Sorting.Insert | src/main/java/com/ticketfma/repository/impl/EventRepository.java:95 | inserting into a sorted run adds exactly the one element (multiset) |
| Sorting.StableSort | src/main/java/com/ticketfma/repository/impl/EventRepository.java:95 | the sorted stream is a permutation of its input |
| Sorting.SortedBySort | src/main/java/com/ticketfma/repository/impl/EventRepository.java:95 | for a total-preorder comparator, the sorted stream is ordered |
| Sorting.TiedBySort | src/main/java/com/ticketfma/repository/impl/EventRepository.java:95 | stability: the elements tied with any x keep their relative input order |
| Sorting.SortAllTied | src/main/java/com/ticketfma/repository/impl/EventRepository.java:78 | a comparator answering 0 for every pair leaves load order unchanged |
| Sorting.SortedPrefixIsLeast | src/main/java/com/ticketfma/repository/impl/EventRepository.java:96 | limit(n) on a sorted stream keeps elements no greater than any element it drops |
| Sorting.PrefixSubMultiset | src/main/java/com/ticketfma/repository/impl/EventRepository.java:96 | limit(n) returns part of the stream's elements |
| Sorting.TiedOfPrefix | src/main/java/com/ticketfma/repository/impl/EventRepository.java:96 | limit(n) keeps, for each tie class, a prefix of that class |
| Sorting.LexLeTotal | src/main/java/com/ticketfma/repository/impl/EventRepository.java:73 | String.compareTo orders any two names |
| Sorting.LexLeTransitive | src/main/java/com/ticketfma/repository/impl/EventRepository.java:73 | String.compareTo is transitive |
| Sorting.LexLeAntisymmetric | src/main/java/com/ticketfma/repository/impl/EventRepository.java:73 | two names that compare both ways are equal |
| EventCatalog.EqualsIgnoreCase | src/main/java/com/ticketfma/repository/impl/EventRepository.java:72 | equal length and equal character by character after case folding |
| EventCatalog.ParseSortKeyExact | src/main/java/com/ticketfma/repository/EventRepository.java:66-73 | exact snapshots sort by name only for "name", by date only for "date", otherwise (absent or any other token) keep load order |
| EventCatalog.ParseSortKey | src/main/java/com/ticketfma/repository/impl/EventRepository.java:71-78 | the name order exactly when a token is given and matches "name", the date order exactly when it matches "date", load order when the token is absent or matches neither |
| EventCatalog.NoTokenMatchesBoth | src/main/java/com/ticketfma/repository/impl/EventRepository.java:72-74 | no token matches both "name" and "date", under either matching rule, so trying "name" first decides nothing |
| EventCatalog.ParseSortKeyIgnoringCase | src/main/java/com/ticketfma/adapter/secondary/persistence/EventRepositoryCSV.java:115-122 | case-insensitive snapshots sort by name for every casing of "name" and by date for every casing of "date", and for nothing else |
| EventCatalog.EventLeIsTotalPreorder | src/main/java/com/ticketfma/repository/impl/EventRepository.java:70-79 | each of the three comparators of getAllEvents is total and transitive |
| EventCatalog.AllEventsSpec | src/main/java/com/ticketfma/repository/impl/EventRepository.java:67-81 | getAllEvents is a permutation of the events: load order for no known token, otherwise ascending by name or date with ties in load order |
| EventCatalog.GetAllEvents | src/main/java/com/ticketfma/repository/impl/EventRepository.java:67-81 | a permutation of the events; with no known token the events come back in load order |
| EventCatalog.NameTiesAreEqualNames | src/main/java/com/ticketfma/repository/impl/EventRepository.java:73 | under the name comparator, events are tied exactly when their names are equal |
| Reservation.CommitPass | src/main/java/com/ticketfma/repository/impl/EventRepository.java:108-123 | the inner pass never changes a seat's key, rank or upsell flag, only ever moves a status OPEN→HOLD, and fails only with SeatUnavailable |
| Reservation.CommitHoldsProcessed | src/main/java/com/ticketfma/repository/EventRepository.java:99-111 | on success every request is HOLD; on failure at request i that request is not OPEN and requests 0..i-1 are HOLD (no rollback) |
| Reservation.CommitWithUniqueKeys | src/main/java/com/ticketfma/repository/impl/EventRepository.java:108-122 | with unique keys, the pass succeeds exactly when every request is OPEN and none repeats, and then holds exactly the requested seats; otherwise it fails with SeatUnavailable at the first request that breaks this, holding exactly the earlier requests |
| Reservation.OuterCheckedBatch | src/main/java/com/ticketfma/adapter/secondary/persistence/EventRepositoryCSV.java:150-165 | a batch whose seats are all OPEN commits fully exactly when it has no repeated key; a repeat fails with SeatUnavailable at its first occurrence after holding the requests before it |
| Reservation.AvailableAfterHold | src/main/java/com/ticketfma/repository/impl/EventRepository.java:119 | holding the unique match of k makes k unavailable and leaves the availability of every other key as it was |
| Reservation.ReservableStep | src/main/java/com/ticketfma/repository/impl/EventRepository.java:108-119 | after one hold, the rest of the batch is reservable exactly when the whole batch was |
| Reservation.HoldStep | src/main/java/com/ticketfma/repository/impl/EventRepository.java:115-119 | holding the match of k and then the rest holds exactly k and the rest |
| Reservation.HoldIsPermanent | src/main/java/com/ticketfma/repository/impl/EventRepository.java:119 | a HOLD seat stays HOLD through any later reservation |
| Reservation.ReserveAgainFails | src/main/java/com/ticketfma/repository/EventRepository.java:100-115 | reserving one OPEN seat holds it; reserving it again fails with SeatUnavailable and changes nothing |
| Reservation.FirstRepeat | src/main/java/com/ticketfma/repository/impl/EventRepository.java:108-113 | the request at which a batch stops being repeat-free repeats an earlier request |
| Reservation.DuplicateKeyLeavesOpenSeat | src/main/java/com/ticketfma/repository/impl/EventRepository.java:109-119 | for any two seats sharing a key, HOLD first and OPEN second, a request for that key succeeds, holds nothing new and leaves the OPEN duplicate OPEN |
| CsvLoading.DataRows | src/main/java/com/ticketfma/repository/impl/CsvDataLoader.java:41-44 | the header at index 0 is skipped and the other rows are kept in order |
| CsvLoading.CreateEvent | src/main/java/com/ticketfma/repository/impl/CsvDataLoader.java:70-76 | the event carries the row's id, the name derived from it, and the row's date |
| CsvLoading.CreateSeat | src/main/java/com/ticketfma/repository/impl/CsvDataLoader.java:84-94 | the seat carries the row's four key fields, status, sell rank and upsell flag |
| CsvLoading.CsvDataLoader.constructor | src/main/java/com/ticketfma/repository/impl/CsvDataLoader.java:28-29 | a new loader has no events and no seat lists |
| CsvLoading.CsvDataLoader.ProcessCsvData | src/main/java/com/ticketfma/repository/impl/CsvDataLoader.java:40-45 | the loop leaves the events and seat map that processing the data rows in order gives |
| CsvLoading.CsvDataLoader.ProcessCsvRow | src/main/java/com/ticketfma/repository/impl/CsvDataLoader.java:47-63 | one row adds its event if its id is new and appends its seat to its event's list |
| CsvLoading.CsvDataLoader.AddEventIfNotExists | src/main/java/com/ticketfma/repository/impl/CsvDataLoader.java:78-82 | the event is appended exactly when no stored event has its id; a known id leaves the list, and the stored date, as they were |
| CsvLoading.CsvDataLoader.AddSeatToEvent | src/main/java/com/ticketfma/repository/impl/CsvDataLoader.java:96-98 | the seat is appended to its event's list, created when absent; other lists and the events are untouched |
| CsvLoading.LoadEventsIds | src/main/java/com/ticketfma/repository/IEventRepository.java:62-64 | the loaded events carry exactly the ids stored before plus the ids of the rows |
| CsvLoading.LoadEvents | src/main/java/com/ticketfma/repository/impl/CsvDataLoader.java:40-45 | loading keeps the stored events as the start of the list and adds at most one event per row |
| CsvLoading.LoadEventsFirstAppearance | src/main/java/com/ticketfma/adapter/secondary/persistence/EventRepositoryCSV.java:61-70 | loading appends one event per new id, built from the first row with that id (its date wins), in first-appearance order |
| CsvLoading.LoadEventsDistinct | src/main/java/com/ticketfma/repository/impl/CsvDataLoader.java:78-82 | event ids stay unique |
| CsvLoading.LoadSeatsGrouping | src/main/java/com/ticketfma/adapter/secondary/persistence/EventRepositoryCSV.java:84 | every row's id gets a list; each list is the old list followed by the seats of that id's rows in row order |
| CsvLoading.LoadSeatsExtends | src/main/java/com/ticketfma/repository/impl/CsvDataLoader.java:96-98 | loading keeps every stored seat list as the start of its id's new list |
| CsvLoading.SeatsOfOtherId | src/main/java/com/ticketfma/repository/impl/CsvDataLoader.java:96-98 | an id no row carries gets no seats |
| CsvLoading.LoadKeepsKeysInStep | src/main/java/com/ticketfma/repository/impl/CsvDataLoader.java:58-62 | the key set of the seat map stays equal to the set of event ids |
| CsvLoading.IdsOfSnoc | src/main/java/com/ticketfma/repository/impl/CsvDataLoader.java:41-44 | one more row adds exactly its id |
| CsvLoading.HasEventSnoc | src/main/java/com/ticketfma/repository/impl/CsvDataLoader.java:79 | after an append, an id is stored exactly when it was stored before or is the new event's id |
| CsvLoading.HasEventConcat | src/main/java/com/ticketfma/repository/impl/EventRepository.java:44 | after addAll, an id is stored exactly when one of the two lists stores it |
| Repository.EventRepository.constructor | src/main/java/com/ticketfma/repository/impl/EventRepository.java:36-39 | a new store is empty, with an empty lock pool and no lock held; its seat map is in step with its events |
| Repository.EventRepository.LoadCsvData | src/main/java/com/ticketfma/repository/impl/EventRepository.java:41-46 | the loader runs over the rows; its events are appended and its seat lists copied into the store; the lock pool is untouched; a store and a loader each in step stay in step |
| Repository.EventRepository.LoadRows | src/main/java/com/ticketfma/adapter/secondary/persistence/EventRepositoryCSV.java:48-85 | the inline load loop gives the same grouping as the loader, directly in the store, and keeps the seat map in step with the events |
| Repository.EventRepository.EventExists | src/main/java/com/ticketfma/repository/impl/EventRepository.java:48-51 | with the seat map in step with the events, true exactly when a stored event has the id |
| Repository.EventRepository.AllEvents | src/main/java/com/ticketfma/repository/impl/EventRepository.java:67-81 | a permutation of the stored events: load order unless the token selects a sort, otherwise ascending by name or by date |
| Repository.EventRepository.SeatOf | src/main/java/com/ticketfma/repository/impl/EventRepository.java:83-89 | present exactly when a seat of the event has the key, and then a seat of the event with that key |
| Repository.EventRepository.BestSeats | src/main/java/com/ticketfma/repository/impl/EventRepository.java:91-98 | min(quantity, number of OPEN seats) of the event's seats, all OPEN, drawn from its OPEN seats |
| Repository.EventRepository.ReserveSeats | src/main/java/com/ticketfma/repository/impl/EventRepository.java:100-132 | the result and the event's new seat list are those of the inner pass; other events, the events list and the ref-counted pool are unchanged; a grow-only pool gains an entry for the event on its first reservation and never loses it; no lock is held afterwards; the seat map stays in step with the events; the call is recorded once |
| Repository.EventRepository.AcquireLock | src/main/java/com/ticketfma/repository/impl/EventRepository.java:102-105 | computeIfAbsent gives the event's lock (a new one if absent); a ref-counted pool increments the count before the lock is taken, a grow-only pool keeps no count; the lock is then held |
| Repository.EventRepository.ReleaseLock | src/main/java/com/ticketfma/repository/impl/EventRepository.java:124-131 | unlock, then decrement; at zero both entries are dropped (the lock entry only while it names this lock); a grow-only pool only unlocks |
| Repository.PoolRoundTrip | src/main/java/com/ticketfma/repository/impl/EventRepository.java:102-131 | in a ref-counted pool whose locks all have positive counts, one user acquiring and releasing leaves the lock map and the count map exactly as they were (an entry created for it is removed again) |
| Repository.EventRepository.CommitBatch | src/main/java/com/ticketfma/repository/impl/EventRepository.java:107-123 | the loop under the lock ends with exactly the outcome and seat list of the inner pass |
| Service.FirstFailing | src/main/java/com/ticketfma/service/impl/EventService.java:66-74 | the index where an early-exit loop throws: none exactly when every request passes, else the first failing request |
| Service.ValidateEventExists | src/main/java/com/ticketfma/service/impl/EventService.java:59-64 | passes exactly for a key of the seat map, else EventNotFound for that id |
| Service.ValidateSeatsExist | src/main/java/com/ticketfma/service/impl/EventService.java:66-74 | passes exactly when every requested seat exists, else SeatNotFound for the first missing request in order |
| Service.ValidateSeatsAvailable | src/main/java/com/ticketfma/service/impl/EventService.java:76-84 | passes exactly when every requested seat is OPEN, else SeatUnavailable for the first unavailable request in order |
| Service.ValidationPrecedence | src/main/java/com/ticketfma/domain/service/EventServiceImpl.java:41-47 | EventNotFound before any seat check, then the first missing seat, then the first unavailable seat; passes exactly when the event is known and every request is OPEN |
| Service.ValidateReservation | src/main/java/com/ticketfma/domain/service/EventServiceImpl.java:42-46 | EventNotFound for an unknown event; passes exactly when the event is known and every requested seat is OPEN; any other failure names one of the requests |
| Service.ValidatedBatchCommits | src/main/java/com/ticketfma/service/impl/EventService.java:51-57 | with unique seat keys, a batch that passes the outer checks ends with all its seats HOLD when it has no repeated key, and fails with SeatUnavailable at the first repeat after holding the earlier seats otherwise |
| Service.EventService.constructor | src/main/java/com/ticketfma/service/impl/EventService.java:28 | the service wraps the given repository |
| Service.EventService.GetAllEvents | src/main/java/com/ticketfma/service/EventService.java:21-23 | the repository's getAllEvents for the same sort key, a permutation of the events |
| Service.EventService.GetSeat | src/main/java/com/ticketfma/domain/service/EventService.java:30-33 | EventNotFound exactly for an unknown event; otherwise the repository's first match, present exactly when a seat has the key |
| Service.EventService.GetSeatDto | src/main/java/com/ticketfma/service/impl/EventService.java:35-40 | EventNotFound for an unknown event; otherwise present exactly when the repository finds the seat, with its key fields and status |
| Service.EventService.GetBestSeats | src/main/java/com/ticketfma/service/EventService.java:25-31 | an unknown event fails without consulting the repository; otherwise the repository's best seats, all OPEN, min(quantity, OPEN count) of them |
| Service.EventService.GetBestSeatDtos | src/main/java/com/ticketfma/service/impl/EventService.java:42-49 | EventNotFound for an unknown event; otherwise the best seats mapped element by element, keeping order and length |
| Service.EventService.ReserveSeats | src/main/java/com/ticketfma/service/impl/EventService.java:51-57 | a batch rejected by the outer passes returns their error, leaves the store unchanged and never reaches the repository; otherwise the repository is called exactly once and the result is its inner pass |
| Scenarios.ConcurrentReservations | src/test/java/com/ticketfma/repository/EventRepositoryTest.java:50-89 | ten reservations of the same OPEN seat: one succeeds, nine fail with SeatUnavailable, the seat ends HOLD, and neither lock map keeps an entry for the event |

## Left out

- Concurrency: `ReentrantLock` blocking, the atomicity of `ConcurrentHashMap.computeIfAbsent`/`remove`, and `AtomicInteger` under contention are not modelled. Every reservation runs to completion before the next one starts. The lock pool is sequential bookkeeping: lock identities are numbers and the held locks are a set. The ten-thread test becomes ten sequential calls.
- CSV I/O and parsing: reading `/data.csv` with opencsv, `LocalDate.parse`, `Integer.parseInt`, `Boolean.parseBoolean`, `SeatStatus.valueOf` and the `String.format("Event %03d")` naming are foreign library calls. Rows arrive already parsed. The event name is a field of the row. A date is an integer. The catch-and-log of an I/O error is left out.
- Repository.EventRepository.LoadCsvData: uses a loader passed in by the caller. The injected Spring loader that stays alive across calls is not modelled.
- Repository queries on an unknown event: the Java code throws a `NullPointerException` from `eventSeats.get(eventId)`. The model requires that the event is a key of the seat map. The service checks this before every repository call.
- Repository.EventRepository.ReserveSeats: requires that the event is known, for the same reason. An empty batch for an unknown event, which would not throw in Java, is not modelled.
- SeatQueries.GetBestSeats: takes a `nat` quantity. A negative `int` makes `Stream.limit` throw, and the controllers' `@Min(1)` keeps out every value below 1.
- NoSuchElementException: `service/EventService.getBestSeats` throws `NoSuchElementException("Event not found.")`. It is modelled as the same `EventNotFound` error as the other snapshots' `EventNotFoundException`.
- Exception messages and logging: `log.warn`/`log.error` and message strings have no effect on state.
- Aliasing: queries return seat values, not references to the stored `Seat` objects. The in-place `seat.setStatus(HOLD)` becomes an update of the event's seat list. A caller holding a `Seat` from an earlier query does not see later status changes.
- String comparison: `String.compareTo` is lexicographic by `char` value. Java compares UTF-16 code units, so names outside the basic plane may order differently. `equalsIgnoreCase` folds ASCII letters only.
- Duplicate seat keys: the reservation theorems assume that seat keys are unique within an event. The data file is expected to guarantee this, but loading does not enforce it. `Reservation.DuplicateKeyLeavesOpenSeat` shows what happens otherwise.
- Web and wiring: controllers, the error controller and exception handler, HTTP status mapping, Spring configuration, DTOs other than the seat mapping, and `EventMapper` are not modelled.
- The integration test's expectations depend on a data file that is not part of this model.
