# Deposits app — a Dafny model

The deposits app is a single-page browser application that keeps a list of
*events* (a trip, a dinner), each with a name, a date and a table of deposit
*entries* (name, amount, comments), and saves that list under one local
storage key. Four screens (home, the list of existing events, the create
form, the view/edit form) are switched by buttons; the list shows one card
per event sorted by date; the two forms read their entry tables row by row,
keep the rows with some content, and append, replace or delete an event.

This project models that core, all of which lives in `script.js`:

- `text.dfy` (module `Text`): what the browser supplies — `String.prototype.trim`
  with JavaScript's white-space set, the string order used to sort by date,
  and the decimal rendering of a count.
- `markup.dfy` (module `Markup`): how a text reaches an entry row's input
  through the row template's double-quoted `value` attribute, as the HTML
  parser reads it back.
- `records.dfy` (module `Records`): events, entries, table rows, the
  submit-time filter that turns rows into entries, and the rows a table
  shows for stored entries.
- `listing.dfy` (module `Listing`): the stable sort by date, the three card
  labels and the list view.
- `store.dfy` (module `Store`): `find`, `findIndex` and `filter` by id, and
  how they keep ids unique.
- `app.dfy` (module `App`): the page state as two classes. `EntryTable` holds
  a table body's rows; `DepositsApp` holds the in-memory events, the stored
  copy, the active screen, the view form's fields and the two tables, and
  has one method per handler (start-up, load, save, show a screen, open an
  event, the create and edit submits, delete).

An amount input is represented by the amount its text reads as: `Blank`
for an empty input, else the `parseFloat` result, a number or `NaN`. String
order is by code point. The user's typing is `EntryTable.EditRow` plus the
text arguments of the submit methods. The generated id and the answer to
the confirmation prompt are parameters too.

`showScreen` with an id that names no screen first removes `active` from
every screen, so none stays active (`App.DepositsApp.ShowScreen`).

The entry rows are filled through the escaped template, the corrected form
of the row template (see "## Findings"). The template as written is
`Records.RowFromEntryAsWritten`, which covers only the value each input's
attribute gets. On texts without `"` and `&` it agrees with the corrected
template, and the round trip is proved for it on such texts. A text with a
`"` also injects the markup after it into the row (see "## Left out").

## Model

| member | source | states |
|---|---|---|
| Text.Trim | script.js:204 | the result is a piece of the text with only white space around it, has no white space at either end, and is empty exactly when the text is all white space |
| Text.TrimNoEdgeSpace | script.js:204 | a text with no white space at its ends trims to itself, so trimming twice changes nothing |
| Text.LessAsymmetric | script.js:46 | the date order never puts two dates before each other |
| Text.LessTransitive | script.js:46 | the date order is transitive |
| Text.LessConnected | script.js:46 | any two different dates are ordered one way or the other |
| Text.LessAtFirstDifference | script.js:46 | a date sorts first when its character at the first difference is smaller |
| Text.AtMostTotal | script.js:46 | the comparator is total |
| Text.AtMostTransitive | script.js:46 | the comparator's "at or before" is transitive |
| Text.EmptyFirst | script.js:46 | the empty date (the `|| ""` fallback) sorts before every other date and only it ties with itself |
| Text.NatToString | script.js:69 | a count renders as a non-empty run of decimal digits with no leading zero |
| Text.NatToStringRoundTrip | script.js:69 | reading the rendered digits back gives the count |
| Text.NatToStringInjective | script.js:69 | different counts render differently |
| Markup.AttributeValue | script.js:86-95 | the parsed attribute value is never longer than the attribute text |
| Markup.Escape | script.js:87 | the escaped text holds no `"` and is at least as long as the text |
| Markup.EscapeChar | script.js:87 | one escaped character is never empty and holds no `"` |
| Markup.DecodeEscapeChar | script.js:87 | the parser reads one escaped character back as that character and continues after it |
| Markup.PlainStep | script.js:87 | a character other than `"` and `&` reaches the input as it is |
| Markup.PlainPrefix | script.js:87 | a text with neither `"` nor `&` reaches the input as it is, whatever follows it |
| Markup.QuoteTruncatesCell | script.js:87 | with the template as written, the name `Dinner "Joe"` shows as `Dinner ` |
| Markup.CellAsWritten | script.js:87 | with the template as written, the attribute value an input gets is never longer than the text; markup after an early `"` is outside its scope |
| Markup.QuotedValueShorter | script.js:87 | the value read up to the template's closing quote is never longer than the text spliced before it |
| Markup.CellAsWrittenPlain | script.js:87 | with the template as written, a text without `"` or `&` shows unchanged |
| Markup.EscapeRoundTrip | script.js:87 | an escaped text spliced before the closing quote parses back to exactly the text, whatever follows |
| Markup.Cell | script.js:87 | an input filled through the escaped template shows exactly the text |
| Records.KeepsHasContent | script.js:209 | a row is kept exactly when the entry read from it has a name, a truthy amount or comments |
| Records.KeptEntries | script.js:201-212 | at most one entry per row, every entry with some content and with trimmed texts |
| Records.ReadEntries | script.js:201-212 | the submit loop returns exactly the entries the filter keeps |
| Records.KeptEntriesSelects | script.js:201-212 | the entries are the rows with content, read with trimmed texts, in row order, and every row with content is among them |
| Records.KeptPositionsRead | script.js:204-206 | each entry is its row with name and comments trimmed and the amount as read |
| Records.KeptPositionsIncrease | script.js:201 | kept rows appear in table order |
| Records.KeptPositionsExact | script.js:209-210 | a row is kept if and only if it has some content |
| Records.KeptEntriesAppend | script.js:201-212 | filtering a table is filtering its two halves and joining the results |
| Records.EmptyRowsDropped | script.js:205-209 | rows of blank texts whose amount is blank, 0 or NaN give no entries |
| Records.KeptEntriesStable | script.js:239-250 | the filter is idempotent: entries it produced, placed in rows field by field, are kept unchanged |
| Records.SubmitExample | script.js:201-212 | a padded "Lunch" row at 12.5 and a row of spaces give the single entry "Lunch", 12.5 |
| Records.RowFromEntry | script.js:86-93 | with the corrected (escaped) template, a new row shows the entry's name and comments, and its amount only when truthy |
| Records.RowFromEntryAsWritten | script.js:86-93 | with the template as written, and reading only each text's attribute value, a new row shows the amount only when truthy, as the corrected row does |
| Records.AsWrittenAgreesOnPlain | script.js:87-92 | for a name and comments without `"` or `&`, the template as written gives the same row as the corrected one |
| Records.ReopenAsWrittenLosesQuote | script.js:87 | as written, an entry named `Dinner "Joe"` is submitted back as `Dinner` after opening |
| Records.SubmitTrailingSpace | script.js:204 | a row named "Dinner " is kept with the name trimmed to "Dinner" |
| Records.ReopenRoundTripAsWritten | script.js:128-141 | as written, opening and submitting untouched gives back the entries when their texts hold no `"` or `&` and every amount is blank or truthy |
| Records.RowsFor | script.js:139-141 | an opened event's table has one row per entry, in entry order |
| Records.RowsForSnoc | script.js:139-141 | the rows for one more entry are the earlier rows followed by one row for it |
| Records.ReopenRoundTrip | script.js:128-141 | with the corrected template, opening an event and submitting it untouched gives back its entries when every amount is blank or truthy |
| Records.ReopenStep | script.js:128-141 | with the corrected template, the round trip extends from a list of entries to that list with one more entry |
| Records.ReopenOne | script.js:86-93 | with the corrected template, a single entry with content, trimmed texts and a blank or truthy amount survives its row unchanged |
| Records.ReopenBlanksZeroAmount | script.js:88-90 | an entry with amount 0 comes back with a blank amount after opening and submitting |
| Listing.Insert | script.js:46 | inserting an event adds exactly one element |
| Listing.InsertPermutes | script.js:46 | inserting adds the event to the others and loses none |
| Listing.SortByDate | script.js:44-46 | the sorted copy has as many events as the list |
| Listing.SortByDatePermutes | script.js:44-46 | the sorted copy holds the same events, each as often |
| Listing.InsertSorted | script.js:46 | inserting into a date-sorted list keeps it sorted |
| Listing.SortByDateSorted | script.js:44-46 | the sorted copy is in ascending date order |
| Listing.InsertKeepsDateOrder | script.js:46 | inserting keeps the order of the events of any one date |
| Listing.SortByDateStable | script.js:46 | events that share a date keep their order in the list: the sort is stable |
| Listing.UndatedFirst | script.js:46 | undated events come before all dated ones |
| Listing.ThreeEventOrder | script.js:44-46 | stored as later, undated, earlier, three events list as undated, earlier, later |
| Listing.ThreeEventsAnyOrder | script.js:44-46 | an undated event and two events with different dates list as undated, earlier, later, whatever order they are stored in |
| Listing.SortedThree | script.js:46 | a date-sorted list of exactly such three events is undated, earlier, later |
| Listing.ListOrderExample | script.js:44-46 | the dates 2024-03-01, (none), 2024-01-01 list as (none), 2024-01-01, 2024-03-01 |
| Listing.OrElse | script.js:57-61 | a card always shows a name and a date: the event's own when it has one, else the fallback text |
| Listing.CountLabel | script.js:68-69 | "No deposits yet" exactly for a zero count; otherwise decimal digits that read back as the count, followed by " deposit(s)" |
| Listing.CountLabelStart | script.js:69 | the zero-count label is the only one starting with a letter |
| Listing.CountLabelInjective | script.js:69 | different deposit counts show different labels |
| Listing.CardOf | script.js:48-69 | a card carries the event's id; its name or "Untitled Event", its date or "No date"; "No deposits yet" exactly when it has no entries, else the entry count in digits and " deposit(s)" |
| Listing.RenderEventsList | script.js:31-78 | the empty-list message exactly when there are no events, else one card per event of the sorted copy, in its order |
| Store.FindIndex | script.js:252 | no index exactly when no event has the id, else the position of the first event with it |
| Store.Find | script.js:129 | no event exactly when none has the id, else the first event with it |
| Store.Without | script.js:270 | the result is no longer than the list |
| Store.WithoutRemovesId | script.js:270 | after removal no event has the id |
| Store.WithoutKeepsOthers | script.js:270 | every event with another id stays, as often as it was there |
| Store.WithoutSubset | script.js:270 | the remaining events were all there before |
| Store.WithoutAppend | script.js:270 | removal keeps the order of the survivors |
| Store.WithoutAbsent | script.js:270 | removing an id nobody has changes nothing |
| Store.WithoutRemovesOne | script.js:270 | with unique ids, removal deletes exactly the one event with the id |
| Store.OnlyAt | script.js:270 | with unique ids, no event before or after the one with the id has it |
| Store.WithoutAround | script.js:270 | removing the id of the one event between two pieces without it leaves the two pieces joined |
| Store.AppendKeepsUnique | script.js:221 | appending an event with a fresh id keeps ids unique |
| Store.ReplaceKeepsUnique | script.js:254 | replacing an event by one with its id keeps ids unique |
| Store.WithoutKeepsUnique | script.js:270 | removal keeps ids unique |
| App.ScreenNamed | script.js:21 | a screen is found only for its own id; for any other id there is none |
| App.EntryTable.constructor | script.js:83 | a table body starts with no rows |
| App.EntryTable.Clear | script.js:137 | emptying a table body leaves no rows |
| App.EntryTable.AddRow | script.js:82-101 | a new row for the initial entry is appended after the existing ones |
| App.EntryTable.Fill | script.js:136-141 | after emptying and refilling, the table holds one row per entry, in entry order |
| App.EntryTable.RemoveRow | script.js:97-98 | the row leaves the table and the others stay, in order |
| App.EntryTable.EditRow | script.js:86-93 | typing changes that row's inputs and no other |
| App.DepositsApp.constructor | script.js:4 | the page starts with no events, empty view fields and empty tables |
| App.DepositsApp.LoadEvents | script.js:8-11 | no stored text or an empty one gives no events, a stored list gives that list, a malformed text fails and the events stay |
| App.DepositsApp.SaveEvents | script.js:13-15 | the stored copy becomes the current events |
| App.DepositsApp.ShowScreen | script.js:17-23 | the active screen is the one the id names, and none when it names none |
| App.DepositsApp.OpenEvent | script.js:128-144 | an unknown id changes nothing; else the view form holds the first event with the id, one row per entry, and the view screen is active |
| App.DepositsApp.Startup | script.js:148-153 | the stored events are loaded, the create table gets one blank row and the list is rendered; a malformed store stops all of it |
| App.DepositsApp.ShowEventsList | script.js:168-171 | the list is rendered and the list screen active |
| App.DepositsApp.StartCreate | script.js:173-179 | the create table holds exactly one blank row and the create screen is active |
| App.DepositsApp.SubmitCreate | script.js:192-226 | the new event is appended with the trimmed name, the date and the kept entries, saved and listed; ids stay unique when the new id is fresh |
| App.DepositsApp.SubmitEdit | script.js:229-260 | the first event with the form's id is replaced and saved, or nothing changes when none has it; the list is shown either way; ids stay unique |
| App.DepositsApp.DeleteEvent | script.js:263-275 | an empty id or a declined prompt changes nothing; else every event with the id is removed, the list saved and shown; ids stay unique |

## Left out

- Records.RowFromEntry: the rows use the corrected, escaped template. For a name or comments holding `"` or a character reference, the program as written differs: the input gets a truncated or decoded value (`Records.ReopenAsWrittenLosesQuote`), and the markup after the `"` is parsed too (next line). The round trip of `Records.ReopenRoundTrip` holds as written only for plain texts (`Records.ReopenRoundTripAsWritten`).
- Records.RowFromEntryAsWritten: it models only the attribute value each text gives its input, and assumes the row keeps its three inputs and its remove button. Markup after an early `"` is parsed as part of the row. It can add inputs, which shifts the three the submit reads: a name `x"><input value="5` reads back as name "x" with amount 5. It can swallow the name input: a name `x" a='` leaves the tag unterminated. It can remove the button: a name `x"><!--` comments out the rest of the row. Then `addRowToViewTable` throws on the missing button, and `openEvent` stops before the view screen is shown. `Markup.CellAsWritten` has the same scope.
- Local storage and JSON are not modelled as text: the stored value is missing, empty, a list of events, or malformed. `JSON.stringify` writing `NaN` as `null` is not modelled.
- Stored records without a `date` or an `entries` field are not modelled (the `|| ""` fallback on line 46, the `evt.entries ?` test on line 68 and the `|| []` fallback on line 139). Every record the app itself writes has both fields.
- `generateId` (clock and random number) is not modelled; the new id is a parameter of `SubmitCreate`. Id uniqueness is stated under the assumption that the id is fresh.
- `parseFloat` and the rendering of a number into the amount input are not modelled; a row holds the amount its text reads as.
- Text.Less: `localeCompare` with the browser's default locale is stood in for by code-point order. The two agree on the `YYYY-MM-DD` dates a date input produces.
- Markup.AttributeValue: only the references `&quot;` and `&amp;` are decoded; the other HTML character references are not modelled.
- The DOM itself (elements, classes, `style.display`, event listeners, `form.reset()` of the name and date inputs) is not modelled. The inputs' texts are method parameters and each card's click is `OpenEvent` with the card's id.
- `confirm` is a boolean parameter of `DeleteEvent`.
- The service worker registration (lines 281-285) is not modelled: it is browser I/O that does not touch the events.
- The list of screen elements is taken to be the four screens the script names. The page markup that declares them is not part of this model.

## Findings

| source | as written | input that shows it | evidently intended | confidence | as-written member | corrected member |
|---|---|---|---|---|---|---|
| script.js:87 | an entry's name and comments are spliced into a double-quoted `value` attribute without escaping, so the parser ends the value at the text's first `"` and reads what follows as markup | an entry named `Dinner "Joe"`, opened for editing, shows `Dinner `; submitting the form then saves the shortened name | the input shows the stored text unchanged | high; not executed | Markup.QuoteTruncatesCell | Markup.EscapeRoundTrip |

The corrected template (`Markup.Cell`) is the one `Records.RowFromEntry` uses. At the level of
entries, `Records.ReopenAsWrittenLosesQuote` shows the shortened name being submitted back. The
markup after the `"` can also add or swallow inputs and remove the row's button, which makes
opening the event throw; the model covers only the attribute value (see "## Left out"). The same splice
appears for comments (line 92) and in the view table's template (lines 110 and 115).
