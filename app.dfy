/**
 * The page itself: the event list held in memory, the stored copy of it,
 * the screen on display, the view form's fields and the two entry tables,
 * and the handlers that change them.
 */
module App {
  import opened Text
  import opened Seqs
  import opened Records
  import opened Store
  import opened Listing

  /** The four screens of the page. */
  datatype Screen = Home | Existing | Create | View

  /** The element id of each screen. */
  function ScreenId(s: Screen): string {
    match s
    case Home => "home-screen"
    case Existing => "existing-screen"
    case Create => "create-screen"
    case View => "view-screen"
  }

  /** The screen an element id names, if any. */
  function ScreenNamed(id: string): (r: Option<Screen>)
    ensures r.Some? ==> ScreenId(r.value) == id
    ensures r.None? ==> forall s: Screen :: ScreenId(s) != id
  {
    if id == "home-screen" then Some(Home)
    else if id == "existing-screen" then Some(Existing)
    else if id == "create-screen" then Some(Create)
    else if id == "view-screen" then Some(View)
    else None
  }

  /**
   * What the storage key holds: nothing, an empty text, the JSON text of
   * an event list, or a text that does not parse as one.
   */
  datatype Stored = Missing | EmptyText | Json(saved: seq<Event>) | Malformed

  /** An entry table: the rows of its body, in order. */
  class EntryTable {
    var rows: seq<Row>

    constructor ()
      ensures rows == []
    {
      rows := [];
    }

    /** `tbody.innerHTML = ""`. */
    method Clear()
      modifies this
      ensures rows == []
    {
      rows := [];
    }

    /** `addRowToNewTable(initial)` and `addRowToViewTable(initial)`: one row appended. */
    method AddRow(initial: Entry)
      modifies this
      ensures rows == old(rows) + [RowFromEntry(initial)]
    {
      rows := rows + [RowFromEntry(initial)];
    }

    /** The table body emptied, then one row added per entry, in order. */
    method Fill(es: seq<Entry>)
      modifies this
      ensures rows == RowsFor(es)
    {
      Clear();
      var i := 0;
      while i < |es|
        invariant 0 <= i <= |es|
        invariant rows == RowsFor(es[..i])
      {
        AddRow(es[i]);
        PrefixSnoc(es, i);
        RowsForSnoc(es[..i], es[i]);
        i := i + 1;
      }
      assert es[..i] == es;
    }

    /** A row's remove button: that row leaves the table, the others stay in order. */
    method RemoveRow(i: nat)
      requires i < |rows|
      modifies this
      ensures rows == old(rows[..i]) + old(rows[i + 1..])
    {
      rows := rows[..i] + rows[i + 1..];
    }

    /** The user types into the inputs of row `i`. */
    method EditRow(i: nat, row: Row)
      requires i < |rows|
      modifies this
      ensures rows == old(rows)[i := row]
    {
      rows := rows[i := row];
    }
  }

  class DepositsApp {
    /** The module-level `events` array. */
    var events: seq<Event>
    /** The storage key's content. */
    var storage: Stored
    /** The screen carrying the `active` class, if any. */
    var active: Option<Screen>
    /** The view form's id, name and date inputs. */
    var viewId: string
    var viewName: string
    var viewDate: string
    /** The bodies of the create form's and the view form's entry tables. */
    const newTable: EntryTable
    const viewTable: EntryTable

    ghost predicate Valid() {
      newTable != viewTable
    }

    /** The page as loaded, before its start-up handler runs. */
    constructor (stored: Stored, shown: Option<Screen>)
      ensures Valid() && fresh(newTable) && fresh(viewTable)
      ensures events == [] && storage == stored && active == shown
      ensures viewId == "" && viewName == "" && viewDate == ""
      ensures newTable.rows == [] && viewTable.rows == []
    {
      events := [];
      storage := stored;
      active := shown;
      viewId, viewName, viewDate := "", "", "";
      newTable := new EntryTable();
      viewTable := new EntryTable();
    }

    /**
     * `loadEvents`: an absent or empty stored text gives no events, a stored
     * list gives that list; a text that does not parse raises, and the
     * events stay as they were.
     */
    method LoadEvents() returns (ok: bool)
      modifies this`events
      ensures ok <==> !storage.Malformed?
      ensures storage.Missing? || storage.EmptyText? ==> events == []
      ensures storage.Json? ==> events == storage.saved
      ensures storage.Malformed? ==> events == old(events)
    {
      match storage
      case Missing => events := []; ok := true;
      case EmptyText => events := []; ok := true;
      case Json(saved) => events := saved; ok := true;
      case Malformed => ok := false;
    }

    /** `saveEvents`: the stored text becomes the current list, replacing what was there. */
    method SaveEvents()
      modifies this`storage
      ensures storage == Json(events)
    {
      storage := Json(events);
    }

    /**
     * `showScreen(id)`: every screen loses `active`, then the one with that
     * id gains it; an id that names no screen leaves none active.
     */
    method ShowScreen(id: string)
      modifies this`active
      ensures active == ScreenNamed(id)
    {
      active := None;
      var target := ScreenNamed(id);
      if target.Some? {
        active := target;
      }
    }

    /**
     * `openEvent(id)`: nothing happens for an unknown id; otherwise the view
     * form shows the first event with that id, its table one row per entry
     * in order, and the view screen becomes active.
     */
    method OpenEvent(id: string)
      requires Valid()
      modifies this`viewId, this`viewName, this`viewDate, this`active, viewTable
      ensures !HasId(events, id) ==> unchanged(this) && unchanged(viewTable)
      ensures HasId(events, id) ==>
        var e := Find(events, id).value;
        && viewId == e.id && viewName == e.name && viewDate == e.date
        && viewTable.rows == RowsFor(e.entries)
        && active == Some(View)
    {
      var found := Find(events, id);
      if found.None? {
        return;
      }
      var e := found.value;
      viewId, viewName, viewDate := e.id, e.name, e.date;
      viewTable.Fill(e.entries);
      ShowScreen("view-screen");
    }

    /** The start-up handler: load the events, give the create table one blank row, render the list. */
    method Startup() returns (ok: bool, v: Option<ListView>)
      requires Valid()
      modifies this`events, newTable
      ensures ok <==> !storage.Malformed?
      ensures !ok ==> events == old(events) && newTable.rows == old(newTable.rows) && v.None?
      ensures ok ==> events == (if storage.Json? then storage.saved else [])
      ensures ok ==> newTable.rows == old(newTable.rows) + [RowFromEntry(BlankEntry)]
      ensures ok ==> v == Some(ViewOf(events))
    {
      ok := LoadEvents();
      if !ok {
        return ok, None;
      }
      newTable.AddRow(BlankEntry);
      var view := Listing.RenderEventsList(events);
      v := Some(view);
    }

    /** The "access existing" and "back" buttons: render the list and show it. */
    method ShowEventsList() returns (v: ListView)
      modifies this`active
      ensures v == ViewOf(events) && active == Some(Existing)
    {
      v := Listing.RenderEventsList(events);
      ShowScreen("existing-screen");
    }

    /** The "create new" button: the create table is reset to one blank row and the create screen shown. */
    method StartCreate()
      requires Valid()
      modifies this`active, newTable
      ensures newTable.rows == [RowFromEntry(BlankEntry)]
      ensures active == Some(Create)
    {
      newTable.Clear();
      newTable.AddRow(BlankEntry);
      ShowScreen("create-screen");
    }

    /**
     * The create form's submit, with the text of its name and date inputs
     * and the id the generator produced: the new event is appended, the
     * list saved and shown.
     */
    method SubmitCreate(newId: string, name: string, date: string) returns (v: ListView)
      requires Valid()
      modifies this`events, this`storage, this`active
      ensures events == old(events) + [Event(newId, Trim(name), date, KeptEntries(newTable.rows))]
      ensures storage == Json(events)
      ensures active == Some(Existing) && v == ViewOf(events)
      ensures UniqueIds(old(events)) && !HasId(old(events), newId) ==> UniqueIds(events)
    {
      var entries := ReadEntries(newTable.rows);
      var newEvent := Event(newId, Trim(name), date, entries);
      if UniqueIds(events) && !HasId(events, newId) {
        AppendKeepsUnique(events, newEvent);
      }
      events := events + [newEvent];
      SaveEvents();
      v := ShowEventsList();
    }

    /**
     * The view form's submit, with the text of its name and date inputs:
     * the first event with the form's id is replaced by the edited one and
     * the list saved; with no such event nothing is replaced or saved.
     * Either way the list is shown.
     */
    method SubmitEdit(name: string, date: string) returns (v: ListView)
      requires Valid()
      modifies this`events, this`storage, this`active
      ensures var k := FindIndex(old(events), viewId);
        && (k.Some? ==> events == old(events)[k.value := Event(viewId, Trim(name), date, KeptEntries(viewTable.rows))]
                        && storage == Json(events))
        && (k.None? ==> events == old(events) && storage == old(storage))
      ensures active == Some(Existing) && v == ViewOf(events)
      ensures UniqueIds(old(events)) ==> UniqueIds(events)
    {
      var id := viewId;
      var entries := ReadEntries(viewTable.rows);
      var k := FindIndex(events, id);
      if k.Some? {
        if UniqueIds(events) {
          ReplaceKeepsUnique(events, k.value, Event(id, Trim(name), date, entries));
        }
        events := events[k.value := Event(id, Trim(name), date, entries)];
        SaveEvents();
      }
      v := ShowEventsList();
    }

    /**
     * The delete button, with the user's answer to the confirmation: with
     * an empty form id or a declined confirmation nothing happens;
     * otherwise every event with the form's id is removed, the list saved
     * and shown.
     */
    method DeleteEvent(confirmed: bool) returns (v: Option<ListView>)
      modifies this`events, this`storage, this`active
      ensures viewId == "" || !confirmed ==> unchanged(this) && v.None?
      ensures viewId != "" && confirmed ==>
        && events == Without(old(events), viewId)
        && storage == Json(events)
        && active == Some(Existing) && v == Some(ViewOf(events))
      ensures UniqueIds(old(events)) ==> UniqueIds(events)
    {
      var id := viewId;
      if id == "" {
        return None;
      }
      if !confirmed {
        return None;
      }
      if UniqueIds(events) {
        WithoutKeepsUnique(events, id);
      }
      events := Without(events, id);
      SaveEvents();
      var view := ShowEventsList();
      v := Some(view);
    }
  }
}
