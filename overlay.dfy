/**
 * The process-monitor overlay: the cached snapshot, the search box, the set
 * of selected pids, the rendered table body and the cancel button, with one
 * method per event handler. Requests to the server, notifications and the
 * error report are returned as effects; the server's answers come back as
 * calls to SnapshotReceived and CancelResponse.
 */
module Overlay {
  import opened Wrappers
  import opened JsText
  import opened ProcessFilter
  import opened ProcessTable

  /** The cancel button: its text and whether it is disabled. */
  datatype Button = Button(text: string, disabled: bool)

  /** One entry of a cancel response's errors list. */
  datatype CancelError = CancelError(pid: int, error: string)

  /** How a cancel request ended. */
  datatype CancelOutcome =
    | Success(errors: seq<CancelError>)   // the server answered with success set
    | Refused                             // the server answered with success unset
    | TransportError                      // the request or its JSON decoding failed

  /** What a handler asks of the world outside the page state. */
  datatype Effect =
    | Notify(message: string, kind: string)   // showNotification(message, kind)
    | ShowErrorReport(errors: seq<CancelError>) // showErrorPopup(errors)
    | RequestProcesses                        // fetchProcessData()
    | RequestCancel(pids: set<int>)           // POST /cancel_processes

  const CancelLabel := "Cancel Selected"
  const CancelingLabel := "Canceling..."
  const NothingSelected := "No processes selected"
  const AllCanceled := "All selected processes canceled successfully"
  const CancelFailed := "Failed to cancel processes"
  const NoServer := "Error: Could not communicate with server"

  /**
   * The cancel button as updateCancelButtonState leaves it for a selection
   * of n pids: disabled exactly when nothing is selected.
   */
  function ButtonFor(n: nat): (b: Button)
    ensures b.disabled <==> n == 0
  {
    if n > 0 then Button(CancelLabel + " (" + IntToString(n) + ")", false)
    else Button(CancelLabel, true)
  }

  /** The button tells the selection's size: different sizes never look the same. */
  lemma ButtonForInjective(m: nat, n: nat)
    requires ButtonFor(m) == ButtonFor(n)
    ensures m == n
  {
    if m > 0 && n > 0 {
      var prefix := CancelLabel + " (";
      var lm, ln := ButtonFor(m).text, ButtonFor(n).text;
      assert lm[|prefix|..|lm| - 1] == IntToString(m);
      assert ln[|prefix|..|ln| - 1] == IntToString(n);
      IntToStringInjective(m, n);
    }
  }

  /** The label of an enabled button names the count after "Cancel Selected (", and parseInt reads it back. */
  lemma ButtonLabelCount(n: nat)
    requires n > 0
    ensures |ButtonFor(n).text| > 17
    ensures ButtonFor(n).text[..17] == CancelLabel + " ("
    ensures ParseInt(ButtonFor(n).text[17..|ButtonFor(n).text| - 1]) == Some(n)
    ensures ButtonFor(n).text[|ButtonFor(n).text| - 1] == ')'
  {
    var l := ButtonFor(n).text;
    assert l[17..|l| - 1] == IntToString(n);
    ParseIntOfIntToString(n);
  }

  /** Extending a prefix of rows by one row adds that row's pid. */
  lemma PidsOfSnoc(rows: seq<Row>, i: nat)
    requires i < |rows|
    ensures PidsOf(rows[..i + 1]) == PidsOf(rows[..i]) + {rows[i].pid}
  {
    assert rows[..i + 1][..i] == rows[..i];
  }

  /** parseInt reads a listed row's pid back from its data-pid. */
  lemma DataPidParses(rows: seq<Row>, i: nat)
    requires WellFormed(Rows(rows)) && i < |rows|
    ensures ParseInt(rows[i].dataPid) == Some(rows[i].pid)
  {
    ParseIntOfIntToString(rows[i].pid);
  }

  /** rows with every checkbox set to b. */
  function SetChecked(rows: seq<Row>, b: bool): (r: seq<Row>)
    ensures |r| == |rows|
    ensures forall k :: 0 <= k < |rows| ==> r[k] == rows[k].(checked := b)
  {
    seq(|rows|, k requires 0 <= k < |rows| => rows[k].(checked := b))
  }

  /** The selection after adding (add) or deleting the pids in pids. */
  function Applied(selected: set<int>, pids: set<int>, add: bool): set<int>
  {
    if add then selected + pids else selected - pids
  }

  /** One more row: its pid is added or deleted on top of what the earlier rows did. */
  lemma AppliedStep(selected: set<int>, rows: seq<Row>, i: nat, add: bool)
    requires i < |rows|
    ensures Applied(selected, PidsOf(rows[..i + 1]), add)
         == if add then Applied(selected, PidsOf(rows[..i]), add) + {rows[i].pid}
            else Applied(selected, PidsOf(rows[..i]), add) - {rows[i].pid}
  {
    PidsOfSnoc(rows, i);
  }

  /**
   * The forEach of the select-all handler over the listed rows: each
   * checkbox is set to isChecked and the pid parsed from its data-pid is
   * added to or deleted from selected.
   */
  method CheckEvery(rows: seq<Row>, isChecked: bool, selected: set<int>) returns (updated: seq<Row>, chosen: set<int>)
    requires WellFormed(Rows(rows))
    ensures updated == SetChecked(rows, isChecked)
    ensures chosen == if isChecked then selected + PidsOf(rows) else selected - PidsOf(rows)
  {
    updated, chosen := rows, selected;
    var i := 0;
    while i < |rows|
      invariant 0 <= i <= |rows| && |updated| == |rows|
      invariant forall k :: 0 <= k < i ==> updated[k] == rows[k].(checked := isChecked)
      invariant forall k :: i <= k < |rows| ==> updated[k] == rows[k]
      invariant chosen == Applied(selected, PidsOf(rows[..i]), isChecked)
    {
      updated := updated[i := updated[i].(checked := isChecked)];
      DataPidParses(rows, i);
      var pid := ParseInt(rows[i].dataPid).value;
      AppliedStep(selected, rows, i, isChecked);
      if isChecked {
        chosen := chosen + {pid};
      } else {
        chosen := chosen - {pid};
      }
      i := i + 1;
    }
    assert rows[..i] == rows;
  }

  /** Setting the checkboxes leaves the listed pids as they were. */
  lemma {:induction false} PidsOfSetChecked(rows: seq<Row>, b: bool)
    ensures PidsOf(SetChecked(rows, b)) == PidsOf(rows)
    decreases |rows|
  {
    if rows != [] {
      var n := |rows| - 1;
      assert SetChecked(rows, b)[..n] == SetChecked(rows[..n], b);
      PidsOfSetChecked(rows[..n], b);
    }
  }

  /** Setting the checkboxes leaves every data-pid as it was. */
  lemma SetCheckedWellFormed(rows: seq<Row>, b: bool)
    requires WellFormed(Rows(rows))
    ensures WellFormed(Rows(SetChecked(rows, b)))
  {
  }

  /** A record with the given pid and fixed other columns. */
  function Sample(pid: int): Process
  {
    Process(pid, "root", JNum("20"), JNum("0"), JNum("10240"), JNum("2048"), JNum("1024"),
            "S", JNum("0.0"), JNum("0.1"), "0:00.01", "sleep 100")
  }

  class Monitor {
    var overlayOpen: bool
    /** The refresh interval refreshInterval names is running. */
    var intervalActive: bool
    /** Refresh intervals that no longer have a name and so are never cleared. */
    var leakedIntervals: nat
    var allProcesses: seq<Process>
    var selected: set<int>
    /** processSearch.value */
    var searchValue: string
    var table: Table
    var button: Button

    /** Every listed row's data-pid is its pid in decimal. */
    predicate Valid()
      reads this
    {
      WellFormed(table)
    }

    /**
     * The page as loaded: overlay hidden, nothing fetched, selected or typed.
     * The cancel button is whatever the page's markup makes it.
     */
    constructor (initialButton: Button)
      ensures Valid()
      ensures !overlayOpen && !intervalActive && leakedIntervals == 0
      ensures allProcesses == [] && selected == {} && searchValue == []
      ensures table == Rows([]) && button == initialButton
    {
      overlayOpen := false;
      intervalActive := false;
      leakedIntervals := 0;
      allProcesses := [];
      selected := {};
      searchValue := [];
      table := Rows([]);
      button := initialButton;
    }

    /**
     * The overlay button: shows the overlay, fetches a snapshot and starts a
     * three-second refresh. A refresh still running loses its name and is
     * never cleared.
     */
    method Open() returns (effects: seq<Effect>)
      requires Valid()
      modifies this`overlayOpen, this`intervalActive, this`leakedIntervals
      ensures Valid()
      ensures overlayOpen && intervalActive
      ensures leakedIntervals == old(leakedIntervals) + (if old(intervalActive) then 1 else 0)
      ensures effects == [RequestProcesses]
    {
      overlayOpen := true;
      effects := [RequestProcesses];
      if intervalActive {
        leakedIntervals := leakedIntervals + 1;
      }
      intervalActive := true;
    }

    /**
     * The close button: hides the overlay, stops the named refresh, empties
     * the search box and the selection and resets the cancel button. The
     * table body is not rebuilt, so its checkboxes and highlights stay as
     * they were.
     */
    method Close()
      requires Valid()
      modifies this`overlayOpen, this`intervalActive, this`searchValue, this`selected, this`button
      ensures Valid()
      ensures !overlayOpen && !intervalActive
      ensures searchValue == [] && selected == {}
      ensures button == ButtonFor(0) && button == Button(CancelLabel, true)
    {
      overlayOpen := false;
      intervalActive := false;
      searchValue := [];
      selected := {};
      UpdateCancelButtonState();
    }

    /** updateCancelButtonState(): the button follows the selection's size. */
    method UpdateCancelButtonState()
      requires Valid()
      modifies this`button
      ensures Valid()
      ensures button == ButtonFor(|selected|)
    {
      if |selected| > 0 {
        button := Button(CancelLabel + " (" + IntToString(|selected|) + ")", false);
      } else {
        button := Button(CancelLabel, true);
      }
    }

    /**
     * filterProcesses(term): the table body lists the snapshot filtered by
     * term, highlighted by the search box's current text.
     */
    method FilterProcesses(term: string)
      modifies this`table
      ensures Valid()
      ensures TableShows(table, Filter(allProcesses, term), selected, searchValue)
    {
      if term == [] {
        table := UpdateProcessTable(allProcesses, selected, searchValue);
      } else {
        table := UpdateProcessTable(KeepMatching(allProcesses, term), selected, searchValue);
      }
      ShownIsWellFormed(table, Filter(allProcesses, term), selected, searchValue);
    }

    /** A snapshot arrives: it is cached and listed under the current search. */
    method SnapshotReceived(processes: seq<Process>)
      modifies this`allProcesses, this`table
      ensures Valid()
      ensures allProcesses == processes
      ensures TableShows(table, Filter(processes, Lower(searchValue)), selected, searchValue)
    {
      allProcesses := processes;
      var term := Lower(searchValue);
      if term != [] {
        FilterProcesses(term);
      } else {
        table := UpdateProcessTable(allProcesses, selected, searchValue);
        ShownIsWellFormed(table, Filter(allProcesses, term), selected, searchValue);
      }
    }

    /** Typing in the search box: the undebounced listener filters by the new text at once. */
    method SearchInput(value: string)
      modifies this`searchValue, this`table
      ensures Valid()
      ensures searchValue == value
      ensures TableShows(table, Filter(allProcesses, Lower(value)), selected, value)
    {
      searchValue := value;
      FilterProcesses(Lower(searchValue));
    }

    /** The debounced listener's timer fires: it filters by the text the box holds then. */
    method DebounceElapsed()
      modifies this`table
      ensures Valid()
      ensures TableShows(table, Filter(allProcesses, Lower(searchValue)), selected, searchValue)
    {
      FilterProcesses(Lower(searchValue));
    }

    /** The clear button or Escape in the search box: the box is emptied and the whole snapshot listed. */
    method ClearSearch()
      modifies this`searchValue, this`table
      ensures Valid()
      ensures searchValue == []
      ensures TableShows(table, allProcesses, selected, [])
    {
      searchValue := [];
      FilterProcesses([]);
    }

    /**
     * A change of row i's checkbox, by clicking it or by clicking the row:
     * the checkbox flips and its pid's membership is set to the new state;
     * no other pid and no other row changes.
     */
    method ToggleRow(i: nat)
      requires Valid() && table.Rows? && i < |table.rows|
      modifies this`table, this`selected, this`button
      ensures Valid()
      ensures table == Rows(old(table.rows)[i := old(table.rows[i]).(checked := !old(table.rows[i].checked))])
      ensures selected == if table.rows[i].checked then old(selected) + {table.rows[i].pid}
                          else old(selected) - {table.rows[i].pid}
      ensures forall x :: x != table.rows[i].pid ==> (x in selected <==> x in old(selected))
      ensures old(table.rows[i].checked == (table.rows[i].pid in selected)) ==>
                (table.rows[i].pid in selected <==> table.rows[i].pid !in old(selected))
      ensures button == ButtonFor(|selected|)
    {
      var row := table.rows[i];
      var checked := !row.checked;
      table := Rows(table.rows[i := row.(checked := checked)]);
      if checked {
        selected := selected + {row.pid};
      } else {
        selected := selected - {row.pid};
      }
      UpdateCancelButtonState();
    }

    /**
     * The select-all checkbox changes to isChecked: every listed row's
     * checkbox is set to it and the pid read back from its data-pid is added
     * or removed. Pids not listed keep their membership.
     */
    method SelectAll(isChecked: bool)
      requires Valid()
      modifies this`table, this`selected, this`button
      ensures Valid()
      ensures table == if old(table).Rows? then Rows(SetChecked(old(table).rows, isChecked)) else old(table)
      ensures VisiblePids(table) == old(VisiblePids(table))
      ensures selected == if isChecked then old(selected) + old(VisiblePids(table))
                          else old(selected) - old(VisiblePids(table))
      ensures forall x :: x !in old(VisiblePids(table)) ==> (x in selected <==> x in old(selected))
      ensures button == ButtonFor(|selected|)
    {
      if table.Rows? {
        var updated, chosen := CheckEvery(table.rows, isChecked, selected);
        SetCheckedWellFormed(table.rows, isChecked);
        PidsOfSetChecked(table.rows, isChecked);
        table := Rows(updated);
        selected := chosen;
      }
      UpdateCancelButtonState();
    }

    /**
     * A click on the cancel button. A disabled button receives no click. An
     * empty selection shows a warning and sends nothing. Otherwise the
     * selected pids are sent and the button shows "Canceling..." disabled;
     * pending holds the label to restore when the answer comes.
     */
    method CancelClick() returns (effects: seq<Effect>, pending: Option<string>)
      requires Valid()
      modifies this`button
      ensures Valid()
      ensures old(button).disabled ==> effects == [] && pending == None && button == old(button)
      ensures !old(button).disabled && selected == {} ==>
                effects == [Notify(NothingSelected, "warning")] && pending == None && button == old(button)
      ensures !old(button).disabled && selected != {} ==>
                && effects == [RequestCancel(selected)]
                && pending == Some(old(button).text)
                && button == Button(CancelingLabel, true)
    {
      effects, pending := [], None;
      if button.disabled {
        return;
      }
      if |selected| == 0 {
        effects := [Notify(NothingSelected, "warning")];
        return;
      }
      var originalText := button.text;
      button := Button(CancelingLabel, true);
      effects := [RequestCancel(selected)];
      pending := Some(originalText);
    }

    /**
     * The answer to a cancel request sent with the button showing
     * originalText. The button gets its label back and is enabled. Success,
     * with or without errors, reports, clears the selection and refetches;
     * a refusal or a transport error reports and keeps the selection.
     */
    method CancelResponse(originalText: string, outcome: CancelOutcome) returns (effects: seq<Effect>)
      requires Valid()
      modifies this`button, this`selected
      ensures Valid()
      ensures outcome.Success? ==>
                && selected == {}
                && button == ButtonFor(0)
                && effects == [if outcome.errors == [] then Notify(AllCanceled, "success") else ShowErrorReport(outcome.errors),
                               RequestProcesses]
      ensures outcome.Refused? ==>
                selected == old(selected) && button == Button(originalText, false) && effects == [Notify(CancelFailed, "error")]
      ensures outcome.TransportError? ==>
                selected == old(selected) && button == Button(originalText, false) && effects == [Notify(NoServer, "error")]
    {
      button := Button(originalText, false);
      match outcome
      case Success(errors) =>
        if errors == [] {
          effects := [Notify(AllCanceled, "success")];
        } else {
          effects := [ShowErrorReport(errors)];
        }
        selected := {};
        UpdateCancelButtonState();
        effects := effects + [RequestProcesses];
      case Refused =>
        effects := [Notify(CancelFailed, "error")];
      case TransportError =>
        effects := [Notify(NoServer, "error")];
    }
  }

  /**
   * Nothing blocks a second cancel while the first is in flight: unticking a
   * row re-enables the button, and the next click sends the remaining pids.
   */
  method SecondCancelWhileInFlight() returns (first: seq<Effect>, second: seq<Effect>)
    ensures first == [RequestCancel({1, 2})]
    ensures second == [RequestCancel({1})]
  {
    var m := new Monitor(ButtonFor(0));
    m.SnapshotReceived([Sample(1), Sample(2)]);
    assert Lower(m.searchValue) == [];
    assert RowShows(m.table.rows[0], Sample(1), {}, []) && RowShows(m.table.rows[1], Sample(2), {}, []);
    m.ToggleRow(0);
    m.ToggleRow(1);
    assert m.selected == {1, 2};
    var pending: Option<string>;
    first, pending := m.CancelClick();
    m.ToggleRow(1);
    assert m.selected == {1};
    second, pending := m.CancelClick();
  }

  /**
   * The empty-selection warning is reachable: a refused request restores an
   * enabled button even though every row was unticked meanwhile.
   */
  method WarningAfterRefusal() returns (effects: seq<Effect>)
    ensures effects == [Notify(NothingSelected, "warning")]
  {
    var m := new Monitor(ButtonFor(0));
    m.SnapshotReceived([Sample(7)]);
    assert Lower(m.searchValue) == [];
    assert RowShows(m.table.rows[0], Sample(7), {}, []);
    m.ToggleRow(0);
    var sent, pending := m.CancelClick();
    m.ToggleRow(0);
    var reported := m.CancelResponse(pending.value, Refused);
    effects, pending := m.CancelClick();
  }

  /**
   * Ticking and then unticking select-all: the listed pids end up deselected,
   * every other pid keeps its membership, and the rows stay listed unticked.
   */
  method SelectAllRoundTrip(m: Monitor)
    requires m.Valid()
    modifies m`table, m`selected, m`button
    ensures m.selected == old(m.selected) - old(VisiblePids(m.table))
    ensures VisiblePids(m.table) == old(VisiblePids(m.table))
    ensures m.table.Rows? ==> forall k :: 0 <= k < |m.table.rows| ==> !m.table.rows[k].checked
    ensures m.button == ButtonFor(|m.selected|)
  {
    m.SelectAll(true);
    m.SelectAll(false);
  }

  /**
   * On a page whose markup leaves the cancel button enabled, a click before
   * any selection shows the empty-selection warning and sends nothing.
   */
  method WarningOnEnabledFreshPage() returns (effects: seq<Effect>)
    ensures effects == [Notify(NothingSelected, "warning")]
  {
    var m := new Monitor(Button(CancelLabel, false));
    var pending;
    effects, pending := m.CancelClick();
  }
}
