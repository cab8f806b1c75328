/**
 * The process table body as updateProcessTable builds it: a placeholder row
 * when nothing is to be listed, otherwise one row per record with its
 * checkbox (carrying the pid as text in data-pid) and its twelve cells.
 */
module ProcessTable {
  import opened JsText
  import opened ProcessFilter
  import opened Highlight

  /** The text of the single cell shown when no record is listed. */
  const NoResults := "No matching processes found"

  /**
   * One listed record: its pid, the checkbox's data-pid attribute and
   * checked state, and the twelve data cells.
   */
  datatype Row = Row(pid: int, dataPid: string, checked: bool, cells: seq<Cell>)

  /** The table body: the placeholder row, or the rows in listing order. */
  datatype Table = Placeholder(message: string) | Rows(rows: seq<Row>)

  /**
   * The values handed to addCell, in column order. pid arrives as a number,
   * so its cell is never highlighted; user, s, time and command are strings.
   * Each value shows the string form the filter searches for that column.
   */
  function CellValues(p: Process): (r: seq<JsValue>)
    ensures |r| == 12
    ensures forall j :: 0 <= j < 12 ==> ToString(r[j]) == FieldStrings(p)[j]
    ensures r[0].JNum?
  {
    [JNum(IntToString(p.pid)), JStr(p.user), p.pr, p.ni, p.virt, p.res, p.shr,
     JStr(p.s), p.cpu, p.mem, JStr(p.time), JStr(p.command)]
  }

  /** row is what updateProcessTable builds for p, given the selection and the search box's text. */
  predicate RowShows(row: Row, p: Process, selected: set<int>, searchText: string)
  {
    && row.pid == p.pid
    && row.dataPid == IntToString(p.pid)
    && row.checked == (p.pid in selected)
    && |row.cells| == 12
    && forall j :: 0 <= j < 12 ==> CellShows(row.cells[j], CellValues(p)[j], searchText)
  }

  /** t is the table body updateProcessTable builds for processes. */
  predicate TableShows(t: Table, processes: seq<Process>, selected: set<int>, searchText: string)
  {
    if processes == [] then t == Placeholder(NoResults)
    else
      && t.Rows?
      && |t.rows| == |processes|
      && forall i :: 0 <= i < |processes| ==> RowShows(t.rows[i], processes[i], selected, searchText)
  }

  /** One row: the checkbox, then addCell for each column in order. */
  method BuildRow(p: Process, selected: set<int>, searchText: string) returns (row: Row)
    ensures RowShows(row, p, selected, searchText)
  {
    var v := CellValues(p);
    var pid := AddCell(v[0], searchText);
    var user := AddCell(v[1], searchText);
    var pr := AddCell(v[2], searchText);
    var ni := AddCell(v[3], searchText);
    var virt := AddCell(v[4], searchText);
    var res := AddCell(v[5], searchText);
    var shr := AddCell(v[6], searchText);
    var s := AddCell(v[7], searchText);
    var cpu := AddCell(v[8], searchText);
    var mem := AddCell(v[9], searchText);
    var time := AddCell(v[10], searchText);
    var command := AddCell(v[11], searchText);
    row := Row(p.pid, IntToString(p.pid), p.pid in selected,
               [pid, user, pr, ni, virt, res, shr, s, cpu, mem, time, command]);
  }

  /**
   * updateProcessTable(processes): the placeholder for an empty list,
   * otherwise one row per record, in order.
   */
  method UpdateProcessTable(processes: seq<Process>, selected: set<int>, searchText: string) returns (t: Table)
    ensures TableShows(t, processes, selected, searchText)
  {
    if |processes| == 0 {
      return Placeholder(NoResults);
    }
    var rows: seq<Row> := [];
    var i := 0;
    while i < |processes|
      invariant 0 <= i <= |processes| && |rows| == i
      invariant forall k :: 0 <= k < i ==> RowShows(rows[k], processes[k], selected, searchText)
    {
      var row := BuildRow(processes[i], selected, searchText);
      rows := rows + [row];
      i := i + 1;
    }
    t := Rows(rows);
  }

  /** The pids of rows. */
  function PidsOf(rows: seq<Row>): set<int>
  {
    if rows == [] then {} else PidsOf(rows[..|rows| - 1]) + {rows[|rows| - 1].pid}
  }

  /** The pids of the rows the table lists (the process checkboxes select-all reaches). */
  function VisiblePids(t: Table): set<int>
  {
    if t.Rows? then PidsOf(t.rows) else {}
  }

  /** Every row's data-pid is the decimal form of its pid. */
  predicate WellFormed(t: Table)
  {
    t.Rows? ==> forall i :: 0 <= i < |t.rows| ==> t.rows[i].dataPid == IntToString(t.rows[i].pid)
  }

  /** A pid is visible exactly when some row carries it. */
  lemma {:induction false} PidsOfMembers(rows: seq<Row>, x: int)
    ensures x in PidsOf(rows) <==> exists i :: 0 <= i < |rows| && rows[i].pid == x
    decreases |rows|
  {
    if rows != [] {
      var init := rows[..|rows| - 1];
      PidsOfMembers(init, x);
      if x in PidsOf(rows) {
        if x != rows[|rows| - 1].pid {
          var i :| 0 <= i < |init| && init[i].pid == x;
          assert rows[i].pid == x;
        }
      } else {
        forall i | 0 <= i < |rows| ensures rows[i].pid != x {
          if i < |init| {
            assert rows[i] == init[i];
          }
        }
      }
    }
  }

  /** The rows of a rendered table list exactly the pids of the records it was built from. */
  lemma VisiblePidsOfShown(t: Table, processes: seq<Process>, selected: set<int>, searchText: string, x: int)
    requires TableShows(t, processes, selected, searchText)
    ensures x in VisiblePids(t) <==> exists i :: 0 <= i < |processes| && processes[i].pid == x
  {
    if t.Rows? {
      PidsOfMembers(t.rows, x);
      if x in VisiblePids(t) {
        var i :| 0 <= i < |t.rows| && t.rows[i].pid == x;
        assert RowShows(t.rows[i], processes[i], selected, searchText);
      }
    }
  }

  /** A rendered table is well formed: select-all can read every pid back. */
  lemma ShownIsWellFormed(t: Table, processes: seq<Process>, selected: set<int>, searchText: string)
    requires TableShows(t, processes, selected, searchText)
    ensures WellFormed(t)
  {
    if t.Rows? {
      forall i | 0 <= i < |t.rows| ensures t.rows[i].dataPid == IntToString(t.rows[i].pid) {
        assert RowShows(t.rows[i], processes[i], selected, searchText);
      }
    }
  }

  /** The records, the selection and the search text determine the table body completely. */
  lemma TableShowsUnique(t1: Table, t2: Table, processes: seq<Process>, selected: set<int>, searchText: string)
    requires TableShows(t1, processes, selected, searchText)
    requires TableShows(t2, processes, selected, searchText)
    ensures t1 == t2
  {
    if processes != [] {
      forall i | 0 <= i < |processes| ensures t1.rows[i] == t2.rows[i] {
        var r1, r2 := t1.rows[i], t2.rows[i];
        assert RowShows(r1, processes[i], selected, searchText);
        assert RowShows(r2, processes[i], selected, searchText);
        forall j | 0 <= j < 12 ensures r1.cells[j] == r2.cells[j] {
          CellShowsUnique(r1.cells[j], r2.cells[j], CellValues(processes[i])[j], searchText);
        }
      }
    }
  }

  /** The pid column is a number, so it is never highlighted, even when the pid is what matched. */
  lemma PidCellIsPlain(row: Row, p: Process, selected: set<int>, searchText: string)
    requires RowShows(row, p, selected, searchText)
    ensures row.cells[0] == TextCell(IntToString(p.pid))
  {
    assert CellShows(row.cells[0], CellValues(p)[0], searchText);
  }
}
