/**
 * The lookups and the removal the app performs on its event list:
 * `find` and `findIndex` by id, which both stop at the first match, and
 * `filter` on a different id.
 */
module Store {
  import opened Records
  import opened Seqs

  /** Some event in `events` has this id. */
  predicate HasId(events: seq<Event>, id: string) {
    exists k :: 0 <= k < |events| && events[k].id == id
  }

  /** `k` is the position of the first event with this id. */
  predicate FirstMatch(events: seq<Event>, id: string, k: nat) {
    k < |events| && events[k].id == id && forall j :: 0 <= j < k ==> events[j].id != id
  }

  /** `events.findIndex((e) => e.id === id)`, with None for -1. */
  function FindIndex(events: seq<Event>, id: string): (r: Option<nat>)
    ensures r.None? <==> !HasId(events, id)
    ensures r.Some? ==> FirstMatch(events, id, r.value)
  {
    if events == [] then None
    else if events[0].id == id then Some(0)
    else match FindIndex(events[1..], id)
      case None =>
        assert forall k :: 1 <= k < |events| ==> events[k] == events[1..][k - 1];
        None
      case Some(i) =>
        assert events[i + 1] == events[1..][i];
        Some(i + 1)
  }

  /** `events.find((e) => e.id === id)`, with None for undefined. */
  function Find(events: seq<Event>, id: string): (r: Option<Event>)
    ensures r.None? <==> !HasId(events, id)
    ensures r.Some? ==> exists k: nat :: FirstMatch(events, id, k) && events[k] == r.value
  {
    match FindIndex(events, id)
    case None => None
    case Some(k) => Some(events[k])
  }

  /** `events.filter((e) => e.id !== id)`. */
  function Without(events: seq<Event>, id: string): (r: seq<Event>)
    ensures |r| <= |events|
  {
    if events == [] then []
    else (if events[0].id == id then [] else [events[0]]) + Without(events[1..], id)
  }

  /** After a removal no event has the id. */
  lemma {:induction false} WithoutRemovesId(events: seq<Event>, id: string)
    ensures !HasId(Without(events, id), id)
  {
    if events != [] {
      WithoutRemovesId(events[1..], id);
      var head: seq<Event> := if events[0].id == id then [] else [events[0]];
      var w := Without(events[1..], id);
      forall j | 0 <= j < |head + w| ensures (head + w)[j].id != id {
        if j >= |head| {
          assert (head + w)[j] == w[j - |head|];
        }
      }
    }
  }

  /** Removing an id keeps every other event exactly as often as it was there. */
  lemma {:induction false} WithoutKeepsOthers(events: seq<Event>, id: string, e: Event)
    requires e.id != id
    ensures multiset(Without(events, id))[e] == multiset(events)[e]
  {
    if events != [] {
      WithoutKeepsOthers(events[1..], id, e);
      assert events == [events[0]] + events[1..];
    }
  }

  /** Every event left after a removal was there before. */
  lemma {:induction false} WithoutSubset(events: seq<Event>, id: string)
    ensures forall e :: e in Without(events, id) ==> e in events
  {
    if events != [] {
      WithoutSubset(events[1..], id);
    }
  }

  /** Removing an id from two pieces is removing it from each: the survivors keep their order. */
  lemma {:induction false} WithoutAppend(a: seq<Event>, b: seq<Event>, id: string)
    ensures Without(a + b, id) == Without(a, id) + Without(b, id)
  {
    if a != [] {
      WithoutAppend(a[1..], b, id);
      assert (a + b)[1..] == a[1..] + b;
    } else {
      assert a + b == b;
    }
  }

  /** Removing an id nobody has changes nothing. */
  lemma {:induction false} WithoutAbsent(events: seq<Event>, id: string)
    requires !HasId(events, id)
    ensures Without(events, id) == events
  {
    if events != [] {
      assert !HasId(events[1..], id) by {
        forall k | 0 <= k < |events[1..]| ensures events[1..][k].id != id {
          assert events[1..][k] == events[k + 1];
        }
      }
      WithoutAbsent(events[1..], id);
      assert events == [events[0]] + events[1..];
    }
  }

  /** No two events share an id. */
  predicate UniqueIds(events: seq<Event>) {
    forall i, j :: 0 <= i < j < |events| ==> events[i].id != events[j].id
  }

  /**
   * With unique ids, removing a present id deletes exactly the one event
   * that has it; the events before and after it stay, in order.
   */
  lemma WithoutRemovesOne(events: seq<Event>, id: string, k: nat)
    requires UniqueIds(events) && k < |events| && events[k].id == id
    ensures Without(events, id) == events[..k] + events[k + 1..]
    ensures |Without(events, id)| == |events| - 1
  {
    OnlyAt(events, id, k);
    SplitAt(events, k);
    WithoutAround(events[..k], events[k], events[k + 1..], id);
  }

  /** With unique ids, the event at `k` is the only one with its id. */
  lemma OnlyAt(events: seq<Event>, id: string, k: nat)
    requires UniqueIds(events) && k < |events| && events[k].id == id
    ensures !HasId(events[..k], id) && !HasId(events[k + 1..], id)
  {
    var before, after := events[..k], events[k + 1..];
    forall j | 0 <= j < |before| ensures before[j].id != id {
      assert before[j] == events[j];
    }
    forall j | 0 <= j < |after| ensures after[j].id != id {
      assert after[j] == events[k + 1 + j];
    }
  }

  /** Removing the id of the one event between two id-free pieces leaves the pieces. */
  lemma WithoutAround(before: seq<Event>, e: Event, after: seq<Event>, id: string)
    requires !HasId(before, id) && !HasId(after, id) && e.id == id
    ensures Without(before + [e] + after, id) == before + after
  {
    assert Without([e], id) == [] by {
      assert [e][1..] == [];
    }
    calc {
      Without(before + [e] + after, id);
      { WithoutAppend(before + [e], after, id); }
      Without(before + [e], id) + Without(after, id);
      { WithoutAppend(before, [e], id); WithoutAbsent(after, id); }
      Without(before, id) + [] + after;
      { WithoutAbsent(before, id); }
      before + [] + after;
    }
    assert before + [] + after == before + after;
  }

  /** Appending an event with a fresh id keeps the ids unique. */
  lemma AppendKeepsUnique(events: seq<Event>, e: Event)
    requires UniqueIds(events) && !HasId(events, e.id)
    ensures UniqueIds(events + [e])
  {
    var r := events + [e];
    forall i, j | 0 <= i < j < |r| ensures r[i].id != r[j].id {
      assert r[i] == events[i];
      if j < |events| {
        assert r[j] == events[j];
      }
    }
  }

  /** Replacing an event by one with the same id keeps the ids unique. */
  lemma ReplaceKeepsUnique(events: seq<Event>, k: nat, e: Event)
    requires UniqueIds(events) && k < |events| && events[k].id == e.id
    ensures UniqueIds(events[k := e])
  {
  }

  /** Removing events keeps the ids unique. */
  lemma {:induction false} WithoutKeepsUnique(events: seq<Event>, id: string)
    requires UniqueIds(events)
    ensures UniqueIds(Without(events, id))
  {
    if events != [] {
      var rest := events[1..];
      assert UniqueIds(rest) by {
        forall i, j | 0 <= i < j < |rest| ensures rest[i].id != rest[j].id {
          assert rest[i] == events[i + 1] && rest[j] == events[j + 1];
        }
      }
      WithoutKeepsUnique(rest, id);
      if events[0].id != id {
        var w := Without(rest, id);
        assert !HasId(w, events[0].id) by {
          forall j | 0 <= j < |w| ensures w[j].id != events[0].id {
            WithoutSubset(rest, id);
            assert w[j] in w;
            var m :| 0 <= m < |rest| && rest[m] == w[j];
            assert events[m + 1] == w[j];
          }
        }
        forall i, j | 0 <= i < j < |[events[0]] + w|
          ensures ([events[0]] + w)[i].id != ([events[0]] + w)[j].id
        {
          if i == 0 {
            assert ([events[0]] + w)[j] == w[j - 1];
          } else {
            assert ([events[0]] + w)[i] == w[i - 1] && ([events[0]] + w)[j] == w[j - 1];
          }
        }
      }
    }
  }
}
