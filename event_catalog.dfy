/**
  getAllEvents: the loaded events, stably sorted by name or by date when the
  sort token asks for it, otherwise in load order. The comparator of the
  source answers 0 for every pair when no known token is given, so load
  order is itself a stable sort by a comparator that ties everything.
 */
module EventCatalog {
  import opened Domain
  import opened Sorting

  datatype SortOrder = ByName | ByDate | LoadOrder

  const SortByName: string := "name"
  const SortByDate: string := "date"

  /** ASCII letter case folding (Character.toLowerCase restricted to A-Z). */
  function LowerAscii(c: char): char {
    if 'A' <= c <= 'Z' then (c as int - 'A' as int + 'a' as int) as char else c
  }

  /** String.equalsIgnoreCase with ASCII folding. */
  function EqualsIgnoreCase(a: string, b: string): (r: bool)
    ensures r <==> |a| == |b| && forall i :: 0 <= i < |a| ==> LowerAscii(a[i]) == LowerAscii(b[i])
  {
    if |a| != |b| then false
    else if a == [] then true
    else
      var r := LowerAscii(a[0]) == LowerAscii(b[0]) && EqualsIgnoreCase(a[1..], b[1..]);
      assert r ==> forall i :: 0 <= i < |a| ==> LowerAscii(a[i]) == LowerAscii(b[i]) by {
        if r {
          forall i | 0 <= i < |a| ensures LowerAscii(a[i]) == LowerAscii(b[i]) {
            if i > 0 { assert a[i] == a[1..][i - 1] && b[i] == b[1..][i - 1]; }
          }
        }
      }
      assert (forall i :: 0 <= i < |a| ==> LowerAscii(a[i]) == LowerAscii(b[i])) ==> r by {
        if forall i :: 0 <= i < |a| ==> LowerAscii(a[i]) == LowerAscii(b[i]) {
          assert forall i :: 0 <= i < |a[1..]| ==> a[1..][i] == a[i + 1] && b[1..][i] == b[i + 1];
        }
      }
      r
  }

  /** Whether the sort token selects `token`: equalsIgnoreCase or equals, per snapshot. */
  function TokenMatches(token: string, sortBy: string, ignoreCase: bool): bool {
    if ignoreCase then EqualsIgnoreCase(token, sortBy) else token == sortBy
  }

  /**
    The order a sort request selects. `None` stands for a null String as well
    as for Optional.empty(); "name" is tried before "date".
   */
  function ParseSortKey(sortBy: Option<string>, ignoreCase: bool): (r: SortOrder)
    ensures r == ByName <==> sortBy.Some? && TokenMatches(SortByName, sortBy.value, ignoreCase)
    ensures r == ByDate <==> sortBy.Some? && TokenMatches(SortByDate, sortBy.value, ignoreCase)
    ensures r == LoadOrder <==> sortBy.None? || (!TokenMatches(SortByName, sortBy.value, ignoreCase)
                                                 && !TokenMatches(SortByDate, sortBy.value, ignoreCase))
  {
    NoTokenMatchesBoth(sortBy, ignoreCase);
    match sortBy
    case None => LoadOrder
    case Some(t) =>
      if TokenMatches(SortByName, t, ignoreCase) then ByName
      else if TokenMatches(SortByDate, t, ignoreCase) then ByDate
      else LoadOrder
  }

  /** "name" and "date" differ in their first letter, also after case folding. */
  lemma NoTokenMatchesBoth(sortBy: Option<string>, ignoreCase: bool)
    ensures sortBy.None? || !TokenMatches(SortByName, sortBy.value, ignoreCase)
            || !TokenMatches(SortByDate, sortBy.value, ignoreCase)
  {
  }

  /** Exact-match snapshots sort by name only for the literal "name", by date only for "date". */
  lemma ParseSortKeyExact(sortBy: Option<string>)
    ensures ParseSortKey(sortBy, false) == ByName <==> sortBy == Some("name")
    ensures ParseSortKey(sortBy, false) == ByDate <==> sortBy == Some("date")
    ensures ParseSortKey(sortBy, false) == LoadOrder
            <==> sortBy.None? || (sortBy.value != "name" && sortBy.value != "date")
  {
  }

  /** Case-insensitive snapshots sort by name for every casing of "name", and so on. */
  lemma ParseSortKeyIgnoringCase(t: string)
    ensures ParseSortKey(Some(t), true) == ByName
            <==> |t| == 4 && t[0] in "nN" && t[1] in "aA" && t[2] in "mM" && t[3] in "eE"
    ensures ParseSortKey(Some(t), true) == ByDate
            <==> |t| == 4 && t[0] in "dD" && t[1] in "aA" && t[2] in "tT" && t[3] in "eE"
  {
    if |t| == 4 {
      assert LowerAscii(t[0]) == 'n' <==> t[0] in "nN";
      assert LowerAscii(t[0]) == 'd' <==> t[0] in "dD";
      assert LowerAscii(t[1]) == 'a' <==> t[1] in "aA";
      assert LowerAscii(t[2]) == 'm' <==> t[2] in "mM";
      assert LowerAscii(t[2]) == 't' <==> t[2] in "tT";
      assert LowerAscii(t[3]) == 'e' <==> t[3] in "eE";
      assert SortByName[0] == 'n' && SortByName[1] == 'a' && SortByName[2] == 'm' && SortByName[3] == 'e';
      assert SortByDate[0] == 'd' && SortByDate[1] == 'a' && SortByDate[2] == 't' && SortByDate[3] == 'e';
    }
  }

  /** e1.getName().compareTo(e2.getName()) <= 0 */
  function NameLe(a: Event, b: Event): bool {
    LexLe(a.name, b.name)
  }

  /** e1.getEventDate().compareTo(e2.getEventDate()) <= 0 */
  function DateLe(a: Event, b: Event): bool {
    a.eventDate <= b.eventDate
  }

  /** The comparator that answers 0 for every pair. */
  function Unordered(a: Event, b: Event): bool {
    true
  }

  function EventLe(order: SortOrder): (Event, Event) -> bool {
    match order
    case ByName => NameLe
    case ByDate => DateLe
    case LoadOrder => Unordered
  }

  lemma {:induction false} EventLeIsTotalPreorder(order: SortOrder)
    ensures TotalPreorder(EventLe(order))
  {
    if order == ByName {
      forall a, b ensures NameLe(a, b) || NameLe(b, a) {
        LexLeTotal(a.name, b.name);
      }
      forall a, b, c | NameLe(a, b) && NameLe(b, c) ensures NameLe(a, c) {
        LexLeTransitive(a.name, b.name, c.name);
      }
    }
  }

  /** getAllEvents over the loaded events; the events themselves are a value and stay as they are. */
  function GetAllEvents(events: seq<Event>, order: SortOrder): (r: seq<Event>)
    ensures multiset(r) == multiset(events)
    ensures order == LoadOrder ==> r == events
  {
    var r := StableSort(events, EventLe(order));
    assert order == LoadOrder ==> r == events by {
      if order == LoadOrder {
        SortAllTied(events, Unordered);
      }
    }
    r
  }

  /**
    getAllEvents returns a permutation of the events: in load order when no
    known token is given, otherwise ascending by the selected field, with
    ties in load order.
   */
  lemma {:induction false} AllEventsSpec(events: seq<Event>, order: SortOrder)
    ensures var r := GetAllEvents(events, order);
      && multiset(r) == multiset(events)
      && (order == LoadOrder ==> r == events)
      && (order == ByName ==> forall i, j :: 0 <= i < j < |r| ==> LexLe(r[i].name, r[j].name))
      && (order == ByDate ==> forall i, j :: 0 <= i < j < |r| ==> r[i].eventDate <= r[j].eventDate)
      && (forall x :: Tied(r, EventLe(order), x) == Tied(events, EventLe(order), x))
  {
    EventLeIsTotalPreorder(order);
    SortedBySort(events, EventLe(order));
    forall x ensures Tied(GetAllEvents(events, order), EventLe(order), x) == Tied(events, EventLe(order), x) {
      TiedBySort(events, EventLe(order), x);
    }
  }

  /** Under NameLe two events are tied exactly when their names are equal. */
  lemma NameTiesAreEqualNames(a: Event, b: Event)
    ensures NameLe(a, b) && NameLe(b, a) <==> a.name == b.name
  {
    if NameLe(a, b) && NameLe(b, a) {
      LexLeAntisymmetric(a.name, b.name);
    } else if a.name == b.name {
      LexLeTotal(a.name, b.name);
    }
  }
}
