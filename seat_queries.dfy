/**
  The read queries of the seat store over one event's seat list, in list
  (load) order: existence and availability by compound key, lookup of the
  first match, and best-seat selection (OPEN seats, stable by sell rank,
  limited to a count).
 */
module SeatQueries {
  import opened Domain
  import opened Sorting

  /** anyMatch on all four key fields. */
  function SeatExists(seats: seq<Seat>, k: SeatKey): (r: bool)
    ensures r <==> exists i :: 0 <= i < |seats| && seats[i].Key() == k
  {
    if seats == [] then false
    else if seats[0].Key() == k then true
    else
      var r := SeatExists(seats[1..], k);
      assert r ==> exists i :: 0 <= i < |seats[1..]| && seats[1..][i].Key() == k;
      assert (exists i :: 0 <= i < |seats| && seats[i].Key() == k)
             ==> exists i :: 0 <= i < |seats[1..]| && seats[1..][i].Key() == k by {
        if exists i :: 0 <= i < |seats| && seats[i].Key() == k {
          var i :| 0 <= i < |seats| && seats[i].Key() == k;
          assert seats[1..][i - 1].Key() == k;
        }
      }
      r
  }

  /** anyMatch on all four key fields and status OPEN; so an available seat exists. */
  function SeatAvailable(seats: seq<Seat>, k: SeatKey): (r: bool)
    ensures r <==> exists i :: 0 <= i < |seats| && seats[i].Key() == k && seats[i].status == Open
    ensures r ==> SeatExists(seats, k)
  {
    if seats == [] then false
    else if seats[0].Key() == k && seats[0].status == Open then true
    else
      var r := SeatAvailable(seats[1..], k);
      assert (exists i :: 0 <= i < |seats| && seats[i].Key() == k && seats[i].status == Open)
             ==> exists i :: 0 <= i < |seats[1..]| && seats[1..][i].Key() == k && seats[1..][i].status == Open by {
        if exists i :: 0 <= i < |seats| && seats[i].Key() == k && seats[i].status == Open {
          var i :| 0 <= i < |seats| && seats[i].Key() == k && seats[i].status == Open;
          assert seats[1..][i - 1] == seats[i];
        }
      }
      assert r ==> seats[1..][0..] == seats[1..];
      r
  }

  /** Index of the first seat matching the key (filter + findFirst). */
  function FirstMatch(seats: seq<Seat>, k: SeatKey): (r: Option<nat>)
    ensures r.Some? ==> r.value < |seats| && seats[r.value].Key() == k
                        && forall j :: 0 <= j < r.value ==> seats[j].Key() != k
    ensures r.None? <==> !SeatExists(seats, k)
  {
    if seats == [] then None
    else if seats[0].Key() == k then Some(0)
    else
      match FirstMatch(seats[1..], k)
      case None => None
      case Some(i) =>
        assert forall j :: 1 <= j < i + 1 ==> seats[j] == seats[1..][j - 1];
        Some(i + 1)
  }

  /** getSeat: the first seat in list order whose key matches, or empty. */
  function GetSeat(seats: seq<Seat>, k: SeatKey): (r: Option<Seat>)
    ensures r.Some? <==> SeatExists(seats, k)
    ensures r.Some? ==> r.value.Key() == k
                        && exists i :: 0 <= i < |seats| && seats[i] == r.value
                                       && forall j :: 0 <= j < i ==> seats[j].Key() != k
  {
    match FirstMatch(seats, k)
    case None => None
    case Some(i) => Some(seats[i])
  }

  /** The OPEN seats, in list order. */
  function OpenSeats(seats: seq<Seat>): (r: seq<Seat>)
    ensures forall i :: 0 <= i < |r| ==> r[i].status == Open
    ensures forall s :: multiset(r)[s] == if s.status == Open then multiset(seats)[s] else 0
  {
    if seats == [] then []
    else
      assert seats == [seats[0]] + seats[1..];
      (if seats[0].status == Open then [seats[0]] else []) + OpenSeats(seats[1..])
  }

  /** The filter keeps list order: the OPEN seats of a concatenation are those of each part, in turn. */
  lemma {:induction false} OpenSeatsConcat(a: seq<Seat>, b: seq<Seat>)
    ensures OpenSeats(a + b) == OpenSeats(a) + OpenSeats(b)
  {
    if a == [] {
      assert a + b == b;
    } else {
      assert (a + b)[0] == a[0];
      assert (a + b)[1..] == a[1..] + b;
      OpenSeatsConcat(a[1..], b);
    }
  }

  /** Comparator.comparingInt(Seat::getSellRank) read as `<=`. */
  function RankLe(a: Seat, b: Seat): bool {
    a.sellRank <= b.sellRank
  }

  lemma RankLeIsTotalPreorder()
    ensures TotalPreorder(RankLe)
  {
  }

  /** getBestSeats: OPEN seats, stably sorted by ascending sell rank, limited to `quantity`;
      as many seats as asked for or as there are OPEN seats, all drawn from the OPEN ones. */
  function GetBestSeats(seats: seq<Seat>, quantity: nat): (r: seq<Seat>)
    ensures |r| == Min(quantity, |OpenSeats(seats)|)
    ensures multiset(r) <= multiset(OpenSeats(seats))
  {
    var ranked := StableSort(OpenSeats(seats), RankLe);
    var m := Min(quantity, |ranked|);
    PrefixSubMultiset(ranked, m);
    ranked[..m]
  }

  /** getBestSeats returns min(quantity, #OPEN) seats, each an OPEN seat of the event. */
  lemma BestSeatsAreOpen(seats: seq<Seat>, quantity: nat)
    ensures var r := GetBestSeats(seats, quantity);
      && |r| == Min(quantity, |OpenSeats(seats)|)
      && (forall i :: 0 <= i < |r| ==> r[i].status == Open)
      && multiset(r) <= multiset(OpenSeats(seats))
  {
  }

  /**
    getBestSeats is in ascending sell rank, and no OPEN seat it leaves out is
    ranked better than one it returns.
   */
  lemma BestSeatsAreBest(seats: seq<Seat>, quantity: nat)
    ensures var r := GetBestSeats(seats, quantity);
      && (forall i, j :: 0 <= i < j < |r| ==> r[i].sellRank <= r[j].sellRank)
      && (forall i, s :: 0 <= i < |r| && s in multiset(OpenSeats(seats)) - multiset(r)
            ==> r[i].sellRank <= s.sellRank)
  {
    var ranked := StableSort(OpenSeats(seats), RankLe);
    RankLeIsTotalPreorder();
    SortedBySort(OpenSeats(seats), RankLe);
    SortedPrefixIsLeast(ranked, Min(quantity, |ranked|), RankLe);
  }

  /**
    Ties keep list order: for every rank, the seats of that rank that
    getBestSeats returns are the first ones of that rank in list order.
   */
  lemma BestSeatsAreStable(seats: seq<Seat>, quantity: nat)
    ensures var r := GetBestSeats(seats, quantity);
      forall x :: Tied(r, RankLe, x) <= Tied(OpenSeats(seats), RankLe, x)
  {
    var open := OpenSeats(seats);
    var ranked := StableSort(open, RankLe);
    RankLeIsTotalPreorder();
    forall x ensures Tied(ranked[..Min(quantity, |ranked|)], RankLe, x) <= Tied(open, RankLe, x) {
      TiedOfPrefix(ranked, Min(quantity, |ranked|), RankLe, x);
      TiedBySort(open, RankLe, x);
    }
  }

  /** Under RankLe, being tied means having the same sell rank. */
  lemma {:induction false} TiedByRank(s: seq<Seat>, x: Seat)
    ensures forall i :: 0 <= i < |Tied(s, RankLe, x)| ==> Tied(s, RankLe, x)[i].sellRank == x.sellRank
    ensures forall y :: y in s && y.sellRank == x.sellRank ==> y in Tied(s, RankLe, x)
  {
    if s != [] {
      TiedByRank(s[1..], x);
      assert forall y :: y in s ==> y == s[0] || y in s[1..];
    }
  }
}
