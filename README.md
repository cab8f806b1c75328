# Process-monitor overlay of the web terminal, in Dafny

This project models the process-monitor overlay of the browser front end of
the py-web-terminal project (`static/js/new_script.js`). It also models the
one piece of terminal logic that is not plumbing, the local `clear` command.
The overlay keeps the last process snapshot from the server and filters it by
a search box. It lists the matching records in a table whose cells highlight
the search hits. A checkbox per row, and a select-all checkbox, build a
selection of pids. A cancel button sends that selection to the server and
reports the answer.

The Dafny modules follow the script's parts:

- `JsText` (`text.dfy`) holds the JavaScript string operations the script
  relies on: `toLowerCase`, `trim`, `indexOf`/`includes`,
  `Number.prototype.toString` for integers and `parseInt`. Each comes with
  the facts the overlay needs. The main one is that `parseInt` reads back
  what `toString` wrote.
- `ProcessFilter` (`process_filter.dfy`) holds the process record and
  `filterProcesses`. A pure function; its disjunction is kept in the
  source's field order.
- `Highlight` (`highlight.dfy`) holds `createHighlightedText`, as a method
  with the source's `while` loop, and the `addCell` guard. The loop is proved
  against `IsHighlighting`. That predicate fixes every segment by the
  left-to-right `indexOf` search, and the segmentation it describes is
  unique.
- `ProcessTable` (`process_table.dfy`) holds `updateProcessTable`: the
  placeholder row, and the rows with their checkbox state, `data-pid`
  attribute and twelve cells.
- `Overlay` (`overlay.dfy`) holds a `Monitor` class. Its fields are the
  page state the handlers change: the cached snapshot, the selected pids,
  the search box's text, the table body, the cancel button and the refresh
  interval. It has one method per event handler. Requests, notifications
  and the error report are returned as `Effect` values. The server's
  answers come back as calls to `SnapshotReceived` and `CancelResponse`.
- `Terminal` (`terminal.dfy`) holds the Enter handler's choice between
  clearing locally and sending the command.

Behaviour of the code that the model keeps, even where a reader might
expect otherwise:

- Nothing blocks a second cancel request while one is in flight. A row
  toggle calls `updateCancelButtonState`, which re-enables the button.
  `SecondCancelWhileInFlight` shows two requests sent before any answer.
  So the button does not stay disabled for the whole request.
- On a refusal or a transport error the button gets back the label it had
  at click time. Selection changes made during the request do not affect
  it. `WarningAfterRefusal` reaches the "No processes selected" warning this
  way.
- Closing the overlay empties the selection but does not rebuild the table.
  The rows keep their ticked checkboxes until the next snapshot. A row whose
  checkbox disagrees with the selection becomes consistent on its next
  toggle: membership is set to the new checkbox state.
- Opening the overlay twice without closing starts a second refresh
  interval. The name of the first is lost, so it is never cleared
  (`leakedIntervals`).
- The pid column is a number, so it is never highlighted, even when the pid
  is what matched the search.

## Model

| member | source | states |
|---|---|---|
| JsText.Lower | static/js/new_script.js:569-571 | toLowerCase keeps the length and lowers each character (ASCII letters) |
| JsText.Trim | static/js/new_script.js:64 | the trimmed command neither starts nor ends with whitespace |
| JsText.TrimInfix | static/js/new_script.js:64 | trim keeps the infix after the leading whitespace and removes only whitespace |
| JsText.TrimPadded | static/js/new_script.js:64 | trim removes exactly the whitespace around a word that has none at its ends |
| JsText.IndexOf | static/js/new_script.js:591-614 | indexOf(t, from) is -1 iff t does not occur at or after from, else the first such position |
| JsText.IncludesIffIndexOf | static/js/new_script.js:572-591 | includes(t) holds iff indexOf(t) is not -1, so the guard and the loop agree |
| JsText.IndexOfHit | static/js/new_script.js:614 | a search from a position where t occurs finds that position |
| JsText.IntToString | static/js/new_script.js:415 | Number toString of an integer: optional minus sign, then decimal digits |
| JsText.ParseInt | static/js/new_script.js:656 | parseInt gives NaN (None) exactly when no digits follow the whitespace and sign |
| JsText.ParseIntOfIntToString | static/js/new_script.js:485-486 | parseInt reads back every integer that toString wrote into data-pid |
| JsText.IntToStringInjective | static/js/new_script.js:485 | different pids get different data-pid strings |
| JsText.LowerIntToString | static/js/new_script.js:415 | lowering a pid's decimal string changes nothing, so the pid test agrees with the other fields' tests |
| ProcessFilter.FieldStrings | static/js/new_script.js:415-426 | the twelve string forms the filter searches, one per column |
| ProcessFilter.MatchesIffSomeField | static/js/new_script.js:412-428 | a record passes iff some field's lower-cased string form contains the term |
| ProcessFilter.KeepMatching | static/js/new_script.js:412-428 | the filter result is a subsequence of the snapshot that keeps each matching record with its full multiplicity and drops the rest |
| ProcessFilter.Filter | static/js/new_script.js:404-431 | the empty term gives the whole snapshot; otherwise the matching records in snapshot order |
| ProcessFilter.EmptyTermKeepsAll | static/js/new_script.js:405-409 | filtering by "" would keep every record, so the early return agrees with filtering |
| ProcessFilter.FilterMembership | static/js/new_script.js:412-428 | a snapshot record is listed iff the term is empty or the record matches |
| ProcessFilter.FilterLength | static/js/new_script.js:412-430 | the filter never lists more records than the snapshot holds |
| Highlight.CreateHighlightedText | static/js/new_script.js:585-625 | the segments are the highlighting of the text: they concatenate to the text, every Mark sits at an indexOf hit and lower-cases to the term, every plain run ends at the next hit or the end of the text, and every Mark is as long as the term |
| Highlight.MarkLength | static/js/new_script.js:607 | a highlighted segment is searchTerm.length characters long |
| Highlight.HighlightingUnique | static/js/new_script.js:585-625 | a text and a non-empty term have only one highlighting, so the method's contract fixes its output |
| Highlight.MarksDoNotOverlap | static/js/new_script.js:611-614 | a later match starts at or after the end of an earlier one |
| Highlight.AddCell | static/js/new_script.js:554-582 | the cell is highlighted iff the lower-cased search text is non-empty, the value is a non-empty string and contains it; either way the cell shows the value's text, unchanged when not highlighted |
| Highlight.CellShowsUnique | static/js/new_script.js:554-582 | the value and the search text determine the cell completely |
| ProcessTable.CellValues | static/js/new_script.js:504-522 | the cells show, column by column, the string forms the filter searches; the pid is a number |
| ProcessTable.BuildRow | static/js/new_script.js:473-522 | a row carries the pid, data-pid equal to its decimal form, the checkbox ticked iff the pid is selected, and the twelve cells addCell builds |
| ProcessTable.UpdateProcessTable | static/js/new_script.js:453-538 | an empty list gives the single "No matching processes found" row; otherwise one row per record, in order |
| ProcessTable.PidsOfMembers | static/js/new_script.js:650 | a pid is visible iff some listed row carries it |
| ProcessTable.VisiblePidsOfShown | static/js/new_script.js:473-486 | the visible pids are exactly the pids of the listed records |
| ProcessTable.ShownIsWellFormed | static/js/new_script.js:485 | every rendered row's data-pid is its pid in decimal |
| ProcessTable.TableShowsUnique | static/js/new_script.js:453-538 | the records, the selection and the search text determine the table body completely |
| ProcessTable.PidCellIsPlain | static/js/new_script.js:504 | the pid cell is plain text even when the pid matched |
| Overlay.ButtonFor | static/js/new_script.js:541-551 | the button is disabled iff nothing is selected |
| Overlay.ButtonForInjective | static/js/new_script.js:541-551 | different selection sizes give different buttons |
| Overlay.ButtonLabelCount | static/js/new_script.js:546 | an enabled button's label is "Cancel Selected (" followed by a count that parseInt reads back as the selection size, and ends with ")" |
| Overlay.DataPidParses | static/js/new_script.js:656 | select-all's parseInt of a listed row's data-pid gives that row's pid |
| Overlay.PidsOfSetChecked | static/js/new_script.js:653-655 | setting every checkbox leaves the listed pids unchanged |
| Overlay.CheckEvery | static/js/new_script.js:652-662 | every visible checkbox is set to isChecked, and the selection becomes selected plus the visible pids (ticked) or minus them (unticked) |
| Overlay.Monitor.constructor | static/js/new_script.js:220-225 | the page starts with the overlay hidden, no snapshot, an empty selection and search box, an empty table body, and the cancel button the markup gives |
| Overlay.Monitor.Open | static/js/new_script.js:228-235 | the overlay shows, a snapshot is requested, the refresh starts, and a refresh still running is leaked |
| Overlay.Monitor.Close | static/js/new_script.js:238-245 | overlay hidden, refresh stopped, search box and selection emptied, button reset to disabled "Cancel Selected"; the table is not touched |
| Overlay.Monitor.UpdateCancelButtonState | static/js/new_script.js:541-551 | the button becomes ButtonFor of the selection's size |
| Overlay.Monitor.FilterProcesses | static/js/new_script.js:404-431 | the table lists the snapshot filtered by the term, highlighted by the search box's text |
| Overlay.Monitor.SnapshotReceived | static/js/new_script.js:434-450 | the snapshot is cached and listed filtered by the lower-cased search text |
| Overlay.Monitor.SearchInput | static/js/new_script.js:255-258 | the table is rebuilt at once for the new search text |
| Overlay.Monitor.DebounceElapsed | static/js/new_script.js:630-636 | the table is rebuilt for the search text the box holds when the timer fires |
| Overlay.Monitor.ClearSearch | static/js/new_script.js:248-252 | the search box is emptied and the whole snapshot listed (clear button and Escape key, 639-644) |
| Overlay.Monitor.ToggleRow | static/js/new_script.js:488-498 | the row's checkbox flips and only its pid changes membership, set to the new checkbox state (membership flips when the two agreed); the button follows the selection (row click at 525-534 dispatches the same change) |
| Overlay.Monitor.SelectAll | static/js/new_script.js:647-665 | ticked: selection becomes selection plus visible pids; unticked: minus visible pids; pids not listed keep their membership; every visible checkbox takes the new state; the listed pids stay the same; the button follows |
| Overlay.SelectAllRoundTrip | static/js/new_script.js:647-665 | ticking then unticking select-all leaves the old selection minus exactly the listed pids, with every listed row unticked |
| Overlay.Monitor.CancelClick | static/js/new_script.js:261-281 | a disabled button does nothing; an empty selection shows the "No processes selected" warning and sends nothing; otherwise the selection is sent and the button shows "Canceling..." disabled, with the old label kept for the answer |
| Overlay.Monitor.CancelResponse | static/js/new_script.js:287-316 | the button gets its label back enabled; success reports (notification when there are no errors, error report otherwise), clears the selection and refetches; a refusal or transport error reports its message and keeps the selection |
| Overlay.SecondCancelWhileInFlight | static/js/new_script.js:261-281 | after a first request for {1, 2}, unticking pid 2 re-enables the button and a second request for {1} is sent before any answer |
| Overlay.WarningOnEnabledFreshPage | static/js/new_script.js:261-268 | if the markup leaves the cancel button enabled, a click with nothing selected warns and sends nothing |
| Overlay.WarningAfterRefusal | static/js/new_script.js:261-314 | a refused request restores an enabled button after the only row was unticked, and the next click gives the empty-selection warning |
| Terminal.OnEnter | static/js/new_script.js:61-72 | the command is cleared locally iff it reads "clear" once trimmed and lower-cased; otherwise it is sent unchanged |
| Terminal.ClearCommandShape | static/js/new_script.js:64 | the clear commands are exactly whitespace, a word that lower-cases to "clear", then whitespace |
| Terminal.PaddedUpperClears | static/js/new_script.js:64 | "  CLEAR\t" is cleared locally |
| Terminal.ClearWithArgumentIsSent | static/js/new_script.js:64-72 | "clear all" is sent to the server |

## Left out

- `static/js/script.js` is an older copy of the terminal half with no overlay logic. It is not modelled.
- Terminal panes are not modelled: prompt creation, command sending and output display, splitting, resizing, focus and the copy/paste key handlers (new_script.js:1-214, 668-675), apart from the local clear rule (61-72). They are DOM plumbing and pixel geometry.
- Network calls, timers and the DOM are not modelled as such. Requests are `Effect` values; answers are calls to `SnapshotReceived` and `CancelResponse`; a timer firing is a call (the refresh tick is another snapshot, the debounce is `DebounceElapsed`). Timing, coalescing and the 100 ms focus delay are not modelled.
- A failed snapshot fetch only logs to the console. It is modelled by making no call.
- Notifications are not modelled beyond their message and kind, and the error report beyond the errors it was given. Their markup, fade timers and close buttons (new_script.js:319-401) are DOM and timing.
- The CPU and memory class flags (`parseFloat(...) > 10`) and cell styling are not modelled. They need floating-point parsing and affect only presentation.
- Highlight.MarkLength: strings are sequences of Unicode scalar values, while JavaScript's `length`, `indexOf` and `substring` count UTF-16 code units. The segments come out the same, but for text outside the Basic Multilingual Plane `searchTerm.length` is larger than the model's segment length.
- Lower-casing is ASCII only. Unicode `toLowerCase`, which can change a string's length, is not modelled.
- `parseInt` is modelled for decimal text only. Hexadecimal prefixes and radix handling are not modelled, since data-pid always holds a decimal integer.
- Numbers are modelled by the text their `toString` gives. Pids are integers.
- Overlay.Monitor.CancelClick: the request carries the selection as a set. The insertion order that `Array.from` gives the pids is not modelled.
- Overlay.Monitor.CancelResponse: a success answer without an `errors` array is not modelled. There the handler throws and falls into the transport-error branch.
- The inner empty check of `cancelSelectedProcesses` (new_script.js:273) is not modelled. The click handler has already excluded an empty selection, so it cannot fire.
- The select-all checkbox's own ticked state is not modelled. The handler receives it as `isChecked`, and nothing in the code updates it.
- Overlay.Monitor.constructor: the page's initial markup is not part of this model. The cancel button's initial state is a parameter, and the table body is assumed to start empty.
- The Python backend (Flask routes, shell manager) is server code. It is not modelled.
