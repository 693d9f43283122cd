/**
 * The list of existing events: a copy of the event list sorted by date,
 * undated events first, and the three labels each card shows.
 */
module Listing {
  import opened Text
  import opened Records

  /** `events` is in ascending date order. */
  ghost predicate SortedByDate(events: seq<Event>) {
    forall i, j :: 0 <= i < j < |events| ==> AtMost(events[i].date, events[j].date)
  }

  /**
   * Places `e` before the first event of `sorted` it sorts at or before,
   * so that it stays ahead of the events with its own date.
   */
  function Insert(e: Event, sorted: seq<Event>): (r: seq<Event>)
    ensures |r| == |sorted| + 1
  {
    if sorted == [] || AtMost(e.date, sorted[0].date) then [e] + sorted
    else [sorted[0]] + Insert(e, sorted[1..])
  }

  lemma {:induction false} InsertPermutes(e: Event, sorted: seq<Event>)
    ensures multiset(Insert(e, sorted)) == multiset(sorted) + multiset{e}
  {
    if sorted != [] && !AtMost(e.date, sorted[0].date) {
      InsertPermutes(e, sorted[1..]);
      assert sorted == [sorted[0]] + sorted[1..];
    }
  }

  /**
   * `events.slice().sort((a, b) => (a.date || "").localeCompare(b.date || ""))`:
   * a new sequence; the argument is a value and stays as it was. The sort
   * is stable, as JavaScript's `Array.prototype.sort` is.
   */
  function SortByDate(events: seq<Event>): (r: seq<Event>)
    ensures |r| == |events|
  {
    if events == [] then [] else Insert(events[0], SortByDate(events[1..]))
  }

  /** The list view shows every event, each as often as it is stored. */
  lemma {:induction false} SortByDatePermutes(events: seq<Event>)
    ensures multiset(SortByDate(events)) == multiset(events)
  {
    if events != [] {
      SortByDatePermutes(events[1..]);
      InsertPermutes(events[0], SortByDate(events[1..]));
      assert events == [events[0]] + events[1..];
    }
  }

  lemma {:induction false} InsertSorted(e: Event, sorted: seq<Event>)
    requires SortedByDate(sorted)
    ensures SortedByDate(Insert(e, sorted))
  {
    var r := Insert(e, sorted);
    if sorted == [] || AtMost(e.date, sorted[0].date) {
      forall i, j | 0 <= i < j < |r|
        ensures AtMost(r[i].date, r[j].date)
      {
        if i == 0 && j > 1 {
          AtMostTransitive(e.date, sorted[0].date, sorted[j - 1].date);
        }
      }
    } else {
      var rest := Insert(e, sorted[1..]);
      InsertSorted(e, sorted[1..]);
      InsertPermutes(e, sorted[1..]);
      AtMostTotal(e.date, sorted[0].date);
      forall j | 1 <= j < |r|
        ensures AtMost(r[0].date, r[j].date)
      {
        var x := rest[j - 1];
        assert x in multiset(rest);
        if x != e {
          assert x in multiset(sorted[1..]);
          var k :| 0 <= k < |sorted[1..]| && sorted[1..][k] == x;
          assert sorted[k + 1] == x;
        }
      }
    }
  }

  /** The list view is in ascending date order. */
  lemma {:induction false} SortByDateSorted(events: seq<Event>)
    ensures SortedByDate(SortByDate(events))
  {
    if events != [] {
      SortByDateSorted(events[1..]);
      InsertSorted(events[0], SortByDate(events[1..]));
    }
  }

  /** The events of `s` dated `d`, in their order in `s`. */
  function OnDate(s: seq<Event>, d: string): seq<Event> {
    if s == [] then [] else (if s[0].date == d then [s[0]] else []) + OnDate(s[1..], d)
  }

  lemma {:induction false} InsertKeepsDateOrder(e: Event, sorted: seq<Event>, d: string)
    ensures OnDate(Insert(e, sorted), d) == OnDate([e] + sorted, d)
  {
    if sorted == [] || AtMost(e.date, sorted[0].date) {
    } else {
      var t0, rest := sorted[0], sorted[1..];
      InsertKeepsDateOrder(e, rest, d);
      LessAsymmetric(e.date, e.date);
      assert t0.date != e.date;
      assert ([t0] + Insert(e, rest))[1..] == Insert(e, rest);
      assert ([e] + rest)[1..] == rest;
      assert ([e] + sorted)[1..] == sorted;
      assert sorted[1..] == rest;
    }
  }

  /**
   * Events sharing a date keep their relative order: the sort is stable,
   * so among events on one day the list shows them in creation order.
   */
  lemma {:induction false} SortByDateStable(events: seq<Event>, d: string)
    ensures OnDate(SortByDate(events), d) == OnDate(events, d)
  {
    if events != [] {
      SortByDateStable(events[1..], d);
      InsertKeepsDateOrder(events[0], SortByDate(events[1..]), d);
      assert ([events[0]] + SortByDate(events[1..]))[1..] == SortByDate(events[1..]);
    }
  }

  /** Undated events come before every dated one in the list view. */
  lemma UndatedFirst(events: seq<Event>, i: nat, j: nat)
    requires i < j < |events|
    requires SortByDate(events)[j].date == ""
    ensures SortByDate(events)[i].date == ""
  {
    SortByDateSorted(events);
    EmptyFirst(SortByDate(events)[i].date);
  }

  /**
   * A card's text for a field with JavaScript's `field || fallback`: the
   * field itself unless it is empty.
   */
  function OrElse(field: string, fallback: string): (r: string)
    requires fallback != ""
    ensures r != ""
    ensures field != "" ==> r == field
    ensures field == "" ==> r == fallback
  {
    if field == "" then fallback else field
  }

  /**
   * The deposit count an event card shows: "No deposits yet" exactly for
   * zero, otherwise the count's decimal digits and " deposit(s)".
   */
  function CountLabel(count: nat): (r: string)
    ensures r != ""
    ensures r == "No deposits yet" <==> count == 0
    ensures count > 0 ==> exists p :: r == p + " deposit(s)" && IsDigits(p) && DigitsValue(p) == count
  {
    if count == 0 then "No deposits yet"
    else
      var digits := NatToString(count);
      NatToStringRoundTrip(count);
      assert (digits + " deposit(s)")[0] == digits[0];
      digits + " deposit(s)"
  }

  /** Only the zero count's label starts with a letter. */
  lemma CountLabelStart(n: nat)
    ensures (CountLabel(n)[0] == 'N') <==> n == 0
  {
    if n != 0 {
      assert CountLabel(n)[0] == NatToString(n)[0];
    }
  }

  /** Two different counts never show the same label. */
  lemma CountLabelInjective(m: nat, n: nat)
    requires CountLabel(m) == CountLabel(n)
    ensures m == n
  {
    var suffix := " deposit(s)";
    CountLabelStart(m);
    CountLabelStart(n);
    if m != 0 && n != 0 {
      var a, b := NatToString(m), NatToString(n);
      assert |a| == |b|;
      assert a == (a + suffix)[..|a|] == (b + suffix)[..|b|] == b;
      NatToStringInjective(m, n);
    }
  }

  /** One card of the list: the event's id, for opening it, and its three labels. */
  datatype Card = Card(id: string, name: string, date: string, deposits: string)

  function CardOf(e: Event): (c: Card)
    ensures c.id == e.id
    ensures e.name != "" ==> c.name == e.name
    ensures e.name == "" ==> c.name == "Untitled Event"
    ensures e.date != "" ==> c.date == e.date
    ensures e.date == "" ==> c.date == "No date"
    ensures c.deposits == "No deposits yet" <==> e.entries == []
    ensures e.entries != [] ==> exists p :: c.deposits == p + " deposit(s)" && IsDigits(p) && DigitsValue(p) == |e.entries|
  {
    Card(e.id, OrElse(e.name, "Untitled Event"), OrElse(e.date, "No date"), CountLabel(|e.entries|))
  }

  /** What the list screen shows: the empty-list message, or one card per event. */
  datatype ListView = NoEventsMessage | Cards(cards: seq<Card>)

  /** The list screen for an event list: the message, or the cards of its sorted copy. */
  function ViewOf(events: seq<Event>): ListView {
    if events == [] then NoEventsMessage
    else var sorted := SortByDate(events); Cards(seq(|sorted|, k requires 0 <= k < |sorted| => CardOf(sorted[k])))
  }

  /**
   * `renderEventsList`: the message when there are no events, otherwise
   * one card per event of the sorted copy, in its order.
   */
  method RenderEventsList(events: seq<Event>) returns (v: ListView)
    ensures v.NoEventsMessage? <==> events == []
    ensures v.Cards? ==> |v.cards| == |events|
    ensures v.Cards? ==> forall k :: 0 <= k < |events| ==> v.cards[k] == CardOf(SortByDate(events)[k])
    ensures v == ViewOf(events)
  {
    if |events| == 0 {
      return NoEventsMessage;
    }
    var sorted := SortByDate(events);
    var cards: seq<Card> := [];
    var i := 0;
    while i < |sorted|
      invariant 0 <= i <= |sorted|
      invariant |cards| == i
      invariant forall k :: 0 <= k < i ==> cards[k] == CardOf(sorted[k])
    {
      cards := cards + [CardOf(sorted[i])];
      i := i + 1;
    }
    v := Cards(cards);
  }

  /** Stored as later, undated, earlier, the three events list as undated, earlier, later. */
  lemma ThreeEventOrder(a: Event, b: Event, c: Event)
    requires b.date == "" && Less(c.date, a.date)
    ensures SortByDate([a, b, c]) == [b, c, a]
  {
    LessAsymmetric(c.date, a.date);
    assert Insert(a, [c]) == [c] + Insert(a, []);
    assert [b, c][1..] == [c];
    assert Insert(a, [b, c]) == [b] + Insert(a, [c]);
    assert SortByDate([c]) == [c] by {
      assert [c][1..] == [];
    }
    assert SortByDate([b, c]) == [b, c];
    assert [a, b, c][1..] == [b, c];
  }

  /**
   * An undated event and two events with different dates list as undated,
   * earlier, later, whatever order they are stored in.
   */
  lemma ThreeEventsAnyOrder(s: seq<Event>, a: Event, b: Event, c: Event)
    requires multiset(s) == multiset{a, b, c}
    requires b.date == "" && c.date != "" && Less(c.date, a.date)
    ensures SortByDate(s) == [b, c, a]
  {
    var r := SortByDate(s);
    SortByDatePermutes(s);
    SortByDateSorted(s);
    assert |r| == 3 by {
      assert |multiset(r)| == |r|;
    }
    forall i | 0 <= i < |r| ensures r[i] == a || r[i] == b || r[i] == c {
      assert r[i] in multiset(r);
    }
    assert a in multiset(r) && b in multiset(r) && c in multiset(r);
    SortedThree(r, a, b, c);
  }

  /** A date-sorted list of exactly these three events is undated, earlier, later. */
  lemma SortedThree(r: seq<Event>, a: Event, b: Event, c: Event)
    requires |r| == 3 && SortedByDate(r)
    requires forall i :: 0 <= i < |r| ==> r[i] == a || r[i] == b || r[i] == c
    requires a in r && b in r && c in r
    requires b.date == "" && c.date != "" && Less(c.date, a.date)
    ensures r == [b, c, a]
  {
    LessAsymmetric(c.date, a.date);
    assert r[0] == b by {
      EmptyFirst(r[0].date);
      var j :| 0 <= j < 3 && r[j] == b;
      if j != 0 {
        assert AtMost(r[0].date, r[j].date);
      }
    }
    assert r[1] == c by {
      var j :| 0 <= j < 3 && r[j] == c;
      if j == 2 {
        assert AtMost(r[1].date, r[2].date);
      }
    }
    assert r[2] == a by {
      var j :| 0 <= j < 3 && r[j] == a;
    }
  }

  /** The dates "2024-03-01", "" and "2024-01-01" list as "", "2024-01-01", "2024-03-01". */
  lemma ListOrderExample(a: Event, b: Event, c: Event)
    requires a.date == "2024-03-01" && b.date == "" && c.date == "2024-01-01"
    ensures SortByDate([a, b, c]) == [b, c, a]
  {
    assert c.date[..6] == a.date[..6];
    LessAtFirstDifference(c.date, a.date, 6);
    ThreeEventOrder(a, b, c);
  }
}
