/**
 * The app's records, Event and Entry, the rows of an entry table, and the
 * rule that turns the rows of a submitted form into an event's entries.
 */
module Records {
  import opened Text
  import opened Seqs
  import Markup

  datatype Option<T> = None | Some(value: T)

  /**
   * An entry amount: blank when the amount input was empty, otherwise what
   * `parseFloat` gave for its text, a number or NaN.
   */
  datatype Amount = Blank | Num(value: real) | NaN

  /** JavaScript truthiness of an amount: blank, zero and NaN are falsy. */
  predicate Truthy(a: Amount) {
    a.Num? && a.value != 0.0
  }

  datatype Entry = Entry(name: string, amount: Amount, comments: string)

  datatype Event = Event(id: string, name: string, date: string, entries: seq<Entry>)

  /**
   * One row of an entry table: what its three inputs hold. The amount
   * input is represented by the amount its text reads as (Blank when the
   * text is empty).
   */
  datatype Row = Row(name: string, amount: Amount, comments: string)

  /** The entry a submitted row is read as: name and comments trimmed. */
  function ReadRow(row: Row): Entry {
    Entry(Trim(row.name), row.amount, Trim(row.comments))
  }

  /** An entry with some content: a name, a truthy amount or comments. */
  predicate HasContent(e: Entry) {
    e.name != "" || Truthy(e.amount) || e.comments != ""
  }

  /** An entry whose name and comments carry no surrounding white space. */
  predicate Trimmed(e: Entry) {
    NoEdgeSpace(e.name) && NoEdgeSpace(e.comments)
  }

  /**
   * Whether a submitted row becomes an entry: its trimmed name, its amount
   * or its trimmed comments is truthy (see KeepsHasContent).
   */
  predicate Keeps(row: Row) {
    !AllSpace(row.name) || Truthy(row.amount) || !AllSpace(row.comments)
  }

  /** A row is kept exactly when the entry read from it has some content. */
  lemma KeepsHasContent(row: Row)
    ensures Keeps(row) <==> HasContent(ReadRow(row))
  {
  }

  /** The entries a form submit builds from its table's rows, in row order. */
  function KeptEntries(rows: seq<Row>): (es: seq<Entry>)
    ensures |es| <= |rows|
    ensures forall k :: 0 <= k < |es| ==> HasContent(es[k]) && Trimmed(es[k])
  {
    if rows == [] then []
    else
      var last := rows[|rows| - 1];
      KeptEntries(rows[..|rows| - 1]) + (if Keeps(last) then [ReadRow(last)] else [])
  }

  /**
   * The submit handlers' pass over the table rows: each row is read with
   * its texts trimmed and pushed when it has some content.
   */
  method ReadEntries(rows: seq<Row>) returns (entries: seq<Entry>)
    ensures entries == KeptEntries(rows)
  {
    entries := [];
    var i := 0;
    while i < |rows|
      invariant 0 <= i <= |rows|
      invariant entries == KeptEntries(rows[..i])
    {
      var entry := ReadRow(rows[i]);
      KeepsHasContent(rows[i]);
      if HasContent(entry) {
        entries := entries + [entry];
      }
      assert rows[..i + 1][..i] == rows[..i];
      i := i + 1;
    }
    assert rows[..i] == rows;
  }

  /** Positions of the rows that KeptEntries keeps. */
  function KeptPositions(rows: seq<Row>): seq<nat> {
    if rows == [] then []
    else KeptPositions(rows[..|rows| - 1]) + (if Keeps(rows[|rows| - 1]) then [|rows| - 1] else [])
  }

  /**
   * `es` is the subsequence of `rows` at the increasing positions `pos`,
   * each read as an entry, and `pos` holds exactly the rows worth keeping.
   */
  ghost predicate SelectsKept(rows: seq<Row>, es: seq<Entry>, pos: seq<nat>) {
    && |pos| == |es|
    && (forall k :: 0 <= k < |pos| ==> pos[k] < |rows| && es[k] == ReadRow(rows[pos[k]]))
    && (forall k, l :: 0 <= k < l < |pos| ==> pos[k] < pos[l])
    && (forall i :: 0 <= i < |rows| ==> (Keeps(rows[i]) <==> i in pos))
  }

  /** The filter keeps, in row order, exactly the rows with some content. */
  lemma KeptEntriesSelects(rows: seq<Row>)
    ensures SelectsKept(rows, KeptEntries(rows), KeptPositions(rows))
  {
    KeptPositionsRead(rows);
    KeptPositionsIncrease(rows);
    KeptPositionsExact(rows);
  }

  lemma {:induction false} KeptPositionsRead(rows: seq<Row>)
    ensures var pos, es := KeptPositions(rows), KeptEntries(rows);
      |pos| == |es| && forall k :: 0 <= k < |pos| ==> pos[k] < |rows| && es[k] == ReadRow(rows[pos[k]])
  {
    if rows != [] {
      var n := |rows|;
      var init, last := rows[..n - 1], rows[n - 1];
      KeptPositionsRead(init);
      var pos', es' := KeptPositions(init), KeptEntries(init);
      var pos, es := KeptPositions(rows), KeptEntries(rows);
      assert pos == pos' + (if Keeps(last) then [n - 1] else []);
      assert es == es' + (if Keeps(last) then [ReadRow(last)] else []);
      forall k | 0 <= k < |pos'|
        ensures pos[k] < n && es[k] == ReadRow(rows[pos[k]])
      {
        assert pos[k] == pos'[k] && es[k] == es'[k];
        assert rows[pos'[k]] == init[pos'[k]];
      }
    }
  }

  lemma {:induction false} KeptPositionsIncrease(rows: seq<Row>)
    ensures forall k :: 0 <= k < |KeptPositions(rows)| ==> KeptPositions(rows)[k] < |rows|
    ensures forall k, l :: 0 <= k < l < |KeptPositions(rows)| ==> KeptPositions(rows)[k] < KeptPositions(rows)[l]
  {
    if rows != [] {
      var n := |rows|;
      var init := rows[..n - 1];
      KeptPositionsIncrease(init);
      var pos' := KeptPositions(init);
      var pos := KeptPositions(rows);
      assert pos == pos' + (if Keeps(rows[n - 1]) then [n - 1] else []);
      assert forall k :: 0 <= k < |pos'| ==> pos[k] == pos'[k] < n - 1;
      forall k, l | 0 <= k < l < |pos|
        ensures pos[k] < pos[l]
      {
        if l == |pos'| {
          assert pos[k] == pos'[k] < n - 1;
        }
      }
    }
  }

  lemma {:induction false} KeptPositionsExact(rows: seq<Row>)
    ensures forall i :: 0 <= i < |rows| ==> (Keeps(rows[i]) <==> i in KeptPositions(rows))
  {
    if rows != [] {
      var n := |rows|;
      var init := rows[..n - 1];
      KeptPositionsExact(init);
      KeptPositionsIncrease(init);
      var pos' := KeptPositions(init);
      var pos := KeptPositions(rows);
      assert pos == pos' + (if Keeps(rows[n - 1]) then [n - 1] else []);
      assert n - 1 !in pos';
      forall i | 0 <= i < n - 1
        ensures Keeps(rows[i]) <==> i in pos
      {
        assert rows[i] == init[i];
      }
    }
  }

  /** Filtering a table is filtering its two halves. */
  lemma {:induction false} KeptEntriesAppend(a: seq<Row>, b: seq<Row>)
    ensures KeptEntries(a + b) == KeptEntries(a) + KeptEntries(b)
  {
    if b != [] {
      var b' := b[..|b| - 1];
      KeptEntriesAppend(a, b');
      assert (a + b)[..|a + b| - 1] == a + b';
      assert (a + b)[|a + b| - 1] == b[|b| - 1];
    } else {
      assert a + b == a;
    }
  }

  /** Rows with no content, such as a row whose only content is amount 0, yield no entries. */
  lemma {:induction false} EmptyRowsDropped(rows: seq<Row>)
    requires forall i :: 0 <= i < |rows| ==> AllSpace(rows[i].name) && AllSpace(rows[i].comments)
    requires forall i :: 0 <= i < |rows| ==> !Truthy(rows[i].amount)
    ensures KeptEntries(rows) == []
  {
    if rows != [] {
      EmptyRowsDropped(rows[..|rows| - 1]);
    }
  }

  /**
   * The filter is idempotent: entries it produced, placed in rows field by
   * field, are kept unchanged.
   */
  lemma {:induction false} KeptEntriesStable(es: seq<Entry>)
    requires forall k :: 0 <= k < |es| ==> HasContent(es[k]) && Trimmed(es[k])
    ensures KeptEntries(RowsOf(es)) == es
  {
    if es != [] {
      var init, e := es[..|es| - 1], es[|es| - 1];
      KeptEntriesStable(init);
      var rows := RowsOf(es);
      assert rows == RowsOf(init) + [Row(e.name, e.amount, e.comments)];
      assert rows[..|rows| - 1] == RowsOf(init);
      TrimNoEdgeSpace(e.name);
      TrimNoEdgeSpace(e.comments);
      assert ReadRow(rows[|rows| - 1]) == e;
    }
  }

  /** Rows holding exactly the fields of the given entries. */
  function RowsOf(es: seq<Entry>): (rows: seq<Row>)
    ensures |rows| == |es|
  {
    if es == [] then []
    else RowsOf(es[..|es| - 1]) + [var e := es[|es| - 1]; Row(e.name, e.amount, e.comments)]
  }

  /** The default row content: empty name, amount and comments. */
  const BlankEntry := Entry("", Blank, "")

  /**
   * The row an entry table shows for `initial`: each field through the
   * `|| ""` fallback, so a falsy amount (0 or NaN) shows as an empty input;
   * the texts go through the escaped attribute template, the corrected
   * form of RowFromEntryAsWritten.
   */
  function RowFromEntry(initial: Entry): (row: Row)
    ensures row.name == initial.name && row.comments == initial.comments
    ensures row.amount == (if Truthy(initial.amount) then initial.amount else Blank)
  {
    Row(Markup.Cell(initial.name),
        if Truthy(initial.amount) then initial.amount else Blank,
        Markup.Cell(initial.comments))
  }

  /** A text the unescaped row template passes through intact: no `"` and no `&`. */
  predicate Plain(s: string) {
    forall i :: 0 <= i < |s| ==> s[i] != '"' && s[i] != '&'
  }

  /**
   * The row the template gives for `initial` as it is written: the texts
   * spliced into the attribute unescaped. It agrees with RowFromEntry
   * whenever the texts are plain.
   */
  function RowFromEntryAsWritten(initial: Entry): (row: Row)
    ensures row.amount == RowFromEntry(initial).amount
  {
    Row(Markup.CellAsWritten(initial.name),
        if Truthy(initial.amount) then initial.amount else Blank,
        Markup.CellAsWritten(initial.comments))
  }

  /** For plain texts the template as written and the corrected one give the same row. */
  lemma AsWrittenAgreesOnPlain(e: Entry)
    requires Plain(e.name) && Plain(e.comments)
    ensures RowFromEntryAsWritten(e) == RowFromEntry(e)
  {
    Markup.CellAsWrittenPlain(e.name);
    Markup.CellAsWrittenPlain(e.comments);
  }

  /**
   * As written, an entry whose name holds a `"` does not survive reopening:
   * `Dinner "Joe"` is submitted back as `Dinner`.
   */
  lemma ReopenAsWrittenLosesQuote()
    ensures KeptEntries([RowFromEntryAsWritten(Entry("Dinner \"Joe\"", Blank, ""))]) == [Entry("Dinner", Blank, "")]
  {
    Markup.QuoteTruncatesCell();
    Markup.CellAsWrittenPlain("");
    assert RowFromEntryAsWritten(Entry("Dinner \"Joe\"", Blank, "")) == Row("Dinner ", Blank, "");
    SubmitTrailingSpace();
  }

  /** Submitting a row named "Dinner " keeps it, named "Dinner". */
  lemma SubmitTrailingSpace()
    ensures KeptEntries([Row("Dinner ", Blank, "")]) == [Entry("Dinner", Blank, "")]
  {
    assert Trim("Dinner ") == "Dinner" by {
      assert SkipForward("Dinner ", 0) == 0;
      assert SkipBackward("Dinner ", 0, 7) == 6;
      assert "Dinner "[0..6] == "Dinner";
    }
    assert [Row("Dinner ", Blank, "")][..0] == [];
  }

  /**
   * The round trip for the template as written: entries whose texts are
   * plain come back unchanged after opening and submitting.
   */
  lemma ReopenRoundTripAsWritten(es: seq<Entry>)
    requires forall k :: 0 <= k < |es| ==> HasContent(es[k]) && Trimmed(es[k])
    requires forall k :: 0 <= k < |es| ==> es[k].amount == Blank || Truthy(es[k].amount)
    requires forall k :: 0 <= k < |es| ==> Plain(es[k].name) && Plain(es[k].comments)
    ensures KeptEntries(seq(|es|, k requires 0 <= k < |es| => RowFromEntryAsWritten(es[k]))) == es
  {
    var rows := seq(|es|, k requires 0 <= k < |es| => RowFromEntryAsWritten(es[k]));
    forall k | 0 <= k < |es| ensures rows[k] == RowsFor(es)[k] {
      AsWrittenAgreesOnPlain(es[k]);
    }
    assert rows == RowsFor(es);
    ReopenRoundTrip(es);
  }

  /** The rows an entry table shows for a sequence of entries, in order. */
  function RowsFor(es: seq<Entry>): (rows: seq<Row>)
    ensures |rows| == |es|
    ensures forall k :: 0 <= k < |es| ==> rows[k] == RowFromEntry(es[k])
  {
    if es == [] then [] else RowsFor(es[..|es| - 1]) + [RowFromEntry(es[|es| - 1])]
  }

  /**
   * Opening an event and submitting it untouched gives back its entries,
   * provided every amount is blank or truthy.
   */
  lemma {:induction false} ReopenRoundTrip(es: seq<Entry>)
    requires forall k :: 0 <= k < |es| ==> HasContent(es[k]) && Trimmed(es[k])
    requires forall k :: 0 <= k < |es| ==> es[k].amount == Blank || Truthy(es[k].amount)
    ensures KeptEntries(RowsFor(es)) == es
  {
    if es != [] {
      var init, e := es[..|es| - 1], es[|es| - 1];
      ReopenRoundTrip(init);
      SplitLast(es);
      ReopenStep(init, e);
    }
  }

  /** Rows for one more entry are the rows for the others and one row for it. */
  lemma RowsForSnoc(init: seq<Entry>, e: Entry)
    ensures RowsFor(init + [e]) == RowsFor(init) + [RowFromEntry(e)]
  {
    assert (init + [e])[..|init|] == init;
  }

  lemma ReopenStep(init: seq<Entry>, e: Entry)
    requires KeptEntries(RowsFor(init)) == init
    requires HasContent(e) && Trimmed(e)
    requires e.amount == Blank || Truthy(e.amount)
    ensures KeptEntries(RowsFor(init + [e])) == init + [e]
  {
    RowsForSnoc(init, e);
    KeptEntriesAppend(RowsFor(init), [RowFromEntry(e)]);
    ReopenOne(e);
  }

  /** One entry with content, trimmed texts and a blank or truthy amount survives its row. */
  lemma ReopenOne(e: Entry)
    requires HasContent(e) && Trimmed(e)
    requires e.amount == Blank || Truthy(e.amount)
    ensures KeptEntries([RowFromEntry(e)]) == [e]
  {
    var row := RowFromEntry(e);
    assert row == Row(e.name, e.amount, e.comments);
    TrimNoEdgeSpace(e.name);
    TrimNoEdgeSpace(e.comments);
    assert ReadRow(row) == e;
    assert [row][..0] == [];
  }

  /**
   * A submitted table with a padded "Lunch" row at 12.5 and a row of
   * spaces yields the one entry "Lunch", 12.5, no comments.
   */
  lemma SubmitExample()
    ensures KeptEntries([Row(" Lunch ", Num(12.5), ""), Row("  ", Blank, " ")]) == [Entry("Lunch", Num(12.5), "")]
  {
    var rows := [Row(" Lunch ", Num(12.5), ""), Row("  ", Blank, " ")];
    assert !Keeps(rows[1]);
    assert rows[..1] == [rows[0]] && [rows[0]][..0] == [];
    assert Trim(" Lunch ") == "Lunch" by {
      assert SkipForward(" Lunch ", 1) == 1;
      assert SkipBackward(" Lunch ", 1, 7) == 6;
      assert " Lunch "[1..6] == "Lunch";
    }
  }

  /** A stored amount 0 comes back blank after opening and submitting the event. */
  lemma ReopenBlanksZeroAmount()
    ensures KeptEntries(RowsFor([Entry("Tip", Num(0.0), "")])) == [Entry("Tip", Blank, "")]
  {
    var rows := RowsFor([Entry("Tip", Num(0.0), "")]);
    assert rows == [Row("Tip", Blank, "")];
    assert !IsSpace('T') && !IsSpace('p');
    assert Trim("Tip") == "Tip";
    assert rows[..0] == [];
  }
}
