/**
 * The `Table` page object: a table inside a container, read and driven
 * through an abstract DOM. The rendered headers and rows, the filter box's
 * text and the log of interactions issued are the object's state; a click is
 * the application's transition on that state, and a wait succeeds or times
 * out as the environment `env` says.
 */
module TablePage {
  import opened Strings
  import opened Selectors
  import opened Dom
  import opened Sorting
  import opened Deletion

  class Table {
    const cfg: Config
    const env: Env
    /** The selector catalog registered by the constructor. */
    const elements: map<Element, string> := Catalog(cfg.container)

    var headers: seq<Header>
    var rows: seq<Row>
    var filterText: string
    var log: seq<Event>

    constructor (container: string, mapping: map<string, string>, env: Env,
                 headers: seq<Header>, rows: seq<Row>, filterText: string)
      ensures cfg == Config(container, mapping) && this.env == env
      ensures elements == Catalog(container)
      ensures this.headers == headers && this.rows == rows && this.filterText == filterText
      ensures log == []
    {
      cfg := Config(container, mapping);
      this.env := env;
      this.headers := headers;
      this.rows := rows;
      this.filterText := filterText;
      log := [];
    }

    /** `get_headers`: the header texts in order. */
    function GetHeaders(): (r: seq<string>)
      reads this
      ensures |r| == |headers| && forall i :: 0 <= i < |headers| ==> r[i] == headers[i].text
    {
      HeaderTexts(headers)
    }

    /** `get_row_count`: the number of rendered rows, which is the length of any column read in full. */
    function GetRowCount(): (r: nat)
      reads this
      ensures forall column :: ColumnValues(cfg, rows, column).Ok? ==> |ColumnValues(cfg, rows, column).value| == r
    {
      |rows|
    }

    /** `get_sort_order`: the first header whose class names an order as a whole word. */
    function GetSortOrder(): (r: Option<SortOrder>)
      reads this
      ensures r.None? <==> forall i :: 0 <= i < |headers| ==> ReportedState(headers[i].cls) == Unsorted
      ensures r.Some? ==> exists k :: 0 <= k < |headers| && FirstReported(headers, k)
                             && r.value == SortOrder(Lower(GetHeaders()[k]), ReportedState(headers[k].cls) == Ascending)
    {
      SortOrderOf(headers)
    }

    // ------------------------------------------------------------ primitives

    /** Clicking an element that does not change what the table renders. */
    method ClickOn(t: Target)
      modifies this`log
      ensures log == old(log) + [Click(t)]
    {
      log := log + [Click(t)];
    }

    /** Clicking header `k`: the application re-renders its class. */
    method ClickHeader(k: nat)
      requires k < |headers|
      modifies this`headers, this`log
      ensures headers == old(headers)[k := old(headers)[k].(cls := Clicked(old(headers)[k].cls))]
      ensures log == old(log) + [Click(HeaderCell(k))]
    {
      headers := headers[k := headers[k].(cls := Clicked(headers[k].cls))];
      log := log + [Click(HeaderCell(k))];
    }

    /** `wait_for`: wait for an element to appear; raises on timeout. */
    method WaitFor(key: Element) returns (r: Outcome)
      modifies this`log
      ensures log == old(log) + [WaitAppear(key)]
      ensures r == if key in env.neverAppear then Fail(Timeout(key)) else Pass
    {
      log := log + [WaitAppear(key)];
      r := if key in env.neverAppear then Fail(Timeout(key)) else Pass;
    }

    /** `wait_until`: wait for an element to vanish; raises on timeout. */
    method WaitUntil(key: Element) returns (r: Outcome)
      modifies this`log
      ensures log == old(log) + [WaitVanish(key)]
      ensures r == if key in env.neverVanish then Fail(Timeout(key)) else Pass
    {
      log := log + [WaitVanish(key)];
      r := if key in env.neverVanish then Fail(Timeout(key)) else Pass;
    }

    /**
     * `_wait_for_loadspinner`: wait for the spinner to appear, then to vanish.
     * Whatever either wait raises is swallowed, so the method never fails.
     */
    method WaitForLoadSpinner()
      modifies this`log
      ensures log == old(log) + SpinnerWait(env)
    {
      var spinner := WaitSpinner;
      var appeared := WaitFor(spinner);
      if appeared.Pass? {
        var vanished := WaitUntil(spinner);
      }
    }

    // ---------------------------------------------------------------- reads

    /** `_get_row`: the index of the first row whose name cell is `name`. */
    method GetRow(name: string) returns (r: Result<nat>)
      ensures r == FindRow(cfg, rows, name)
    {
      var i := 0;
      while i < |rows|
        invariant i <= |rows|
        invariant FindRowFrom(cfg, rows, name, i) == FindRow(cfg, rows, name)
      {
        var cell := CellValue(cfg, rows[i], NameColumn);
        if cell.Err? {
          return Err(cell.error);
        }
        if cell.value == name {
          return Ok(i);
        }
        i := i + 1;
      }
      return Err(RowNotFound(name));
    }

    /** `get_cell_value`: the cell of `column` in the row called `name`. */
    method GetCellValue(name: string, column: string) returns (r: Result<string>)
      ensures var found := FindRow(cfg, rows, name);
        && (found.Err? ==> r == Err(found.error))
        && (found.Ok? ==> r == CellValue(cfg, rows[found.value], column))
    {
      var found := GetRow(name);
      if found.Err? {
        return Err(found.error);
      }
      r := CellValue(cfg, rows[found.value], column);
    }

    /** `get_column_values`: the cell of `column` in every row, in row order. */
    method GetColumnValues(column: string) returns (r: Result<seq<string>>)
      ensures r == ColumnValues(cfg, rows, column)
    {
      var values := [];
      var i := 0;
      while i < |rows|
        invariant i <= |rows| && |values| == i
        invariant forall j :: 0 <= j < i ==> CellValue(cfg, rows[j], column) == Ok(values[j])
      {
        var cell := CellValue(cfg, rows[i], column);
        if cell.Err? {
          assert !ColumnValues(cfg, rows, column).Ok?;
          return Err(cell.error);
        }
        values := values + [cell.value];
        i := i + 1;
      }
      ghost var expected := ColumnValues(cfg, rows, column);
      assert expected.Ok? && |expected.value| == |values|;
      assert forall j :: 0 <= j < |values| ==> expected.value[j] == values[j];
      assert expected.value == values;
      r := Ok(values);
    }

    /** `get_table`: row name to (lower-cased header to cell text), over the rendered rows. */
    method GetTable() returns (r: Result<map<string, map<string, string>>>)
      ensures r == TableOf(cfg, rows, GetHeaders())
      ensures r.Ok? ==> |r.value| <= GetRowCount()
      ensures r.Ok? && UniqueNames(cfg, rows) ==> |r.value| == GetRowCount()
    {
      var hs := GetHeaders();
      r := GetRowsTable(hs);
      if r.Ok? {
        TableKeyCount(cfg, rows, hs, |rows|);
      }
    }

    /** The outer loop of `get_table`: each rendered row's name mapped to its inner map over `hs`. */
    method GetRowsTable(hs: seq<string>) returns (r: Result<map<string, map<string, string>>>)
      ensures r == TableOf(cfg, rows, hs)
    {
      var table := map[];
      var i := 0;
      while i < |rows|
        invariant i <= |rows|
        invariant TableUpTo(cfg, rows, hs, i) == Ok(table)
      {
        var row := rows[i];
        var name := CellValue(cfg, row, NameColumn);
        if name.Err? {
          TableErrExtends(cfg, rows, hs, i + 1, |rows|);
          return Err(name.error);
        }
        // the row's inner map, rebuilt from empty even when the name was seen before
        var inner := GetRowCells(row, hs);
        if inner.Err? {
          TableErrExtends(cfg, rows, hs, i + 1, |rows|);
          return Err(inner.error);
        }
        table := table[name.value := inner.value];
        i := i + 1;
      }
      r := Ok(table);
    }

    /** The inner loop of `get_table`: each non-empty lower-cased header's cell under `row`. */
    method GetRowCells(row: Row, hs: seq<string>) returns (r: Result<map<string, string>>)
      ensures r == RowCells(cfg, row, hs)
    {
      var inner := map[];
      var j := 0;
      while j < |hs|
        invariant j <= |hs|
        invariant RowCellsUpTo(cfg, row, hs, j) == Ok(inner)
      {
        var col := Lower(hs[j]);
        if col != "" {
          var cell := CellValue(cfg, row, col);
          if cell.Err? {
            RowCellsErrExtends(cfg, row, hs, j + 1, |hs|);
            return Err(cell.error);
          }
          inner := inner[col := cell.value];
        }
        j := j + 1;
      }
      r := Ok(inner);
    }

    // --------------------------------------------------------------- driving

    /** Which clicks of a pending sort are still to come: the second of two from unsorted to descending. */
    ghost function SortPending(column: string, ascending: bool): nat
      reads this
    {
      match FirstMatch(headers, column)
      case None => 0
      case Some(k) => if !ascending && SourceState(headers[k].cls) == Unsorted then 1 else 0
    }

    /**
     * `sort_column`: act on the first header whose text matches `column`
     * case-insensitively, clicking it until it is in the requested order; the
     * second click from unsorted to descending re-reads the headers first.
     */
    method SortColumn(column: string, ascending: bool)
      modifies this`headers, this`log
      ensures headers == SortedHeaders(old(headers), column, ascending)
      ensures log == old(log) + SortEvents(old(headers), column, ascending, SpinnerWait(env))
      decreases SortPending(column, ascending), 1
    {
      var hs := headers;
      var i := 0;
      while i < |hs|
        invariant i <= |hs| && headers == hs && log == old(log)
        invariant FirstMatchFrom(hs, column, i) == FirstMatch(hs, column)
      {
        if Lower(hs[i].text) == Lower(column) {
          assert FirstMatch(hs, column) == Some(i);
          SortMatched(i, column, ascending);
          return;
        }
        i := i + 1;
      }
    }

    /** The body of `sort_column` once header `i` is the first to match: click it as its class requires. */
    method SortMatched(i: nat, column: string, ascending: bool)
      requires FirstMatch(headers, column) == Some(i)
      modifies this`headers, this`log
      ensures headers == SortedHeaders(old(headers), column, ascending)
      ensures log == old(log) + SortEvents(old(headers), column, ascending, SpinnerWait(env))
      decreases SortPending(column, ascending), 0
    {
      var hs := headers;
      var wait := SpinnerWait(env);
      var cls := hs[i].cls;
      if Contains(cls, "asc") && ascending {
        assert ClicksNeeded(SourceState(cls), ascending) == 0;
        return;
      } else if Contains(cls, "asc") && !ascending {
        ClickHeader(i);
        WaitForLoadSpinner();
        assert ClickTimes(cls, 1) == Clicked(cls);
        assert ClickRounds(i, wait, 1) == [Click(HeaderCell(i))] + wait;
      } else if Contains(cls, "desc") && !ascending {
        assert ClicksNeeded(SourceState(cls), ascending) == 0;
        return;
      } else if Contains(cls, "desc") && ascending {
        ClickHeader(i);
        WaitForLoadSpinner();
        assert ClickTimes(cls, 1) == Clicked(cls);
        assert ClickRounds(i, wait, 1) == [Click(HeaderCell(i))] + wait;
      } else if ascending {
        ClickHeader(i);
        WaitForLoadSpinner();
        assert ClickTimes(cls, 1) == Clicked(cls);
        assert ClickRounds(i, wait, 1) == [Click(HeaderCell(i))] + wait;
      } else {
        ClickHeader(i);
        WaitForLoadSpinner();
        ghost var mid := headers;
        FirstMatchFromTexts(hs, mid, column, 0);
        SortColumn(column, false);
        assert ClickTimes(cls, 2) == Clicked(Clicked(cls)) by {
          assert ClickTimes(Clicked(cls), 1) == Clicked(Clicked(cls));
        }
        assert ClickRounds(i, wait, 2) == [Click(HeaderCell(i))] + wait + ([Click(HeaderCell(i))] + wait);
      }
    }

    /**
     * `delete_row`: look the row up, open its action menu, choose delete and
     * await the prompt; then cancel, close or confirm.
     */
    method DeleteRow(name: string, cancel: bool, close: bool) returns (r: Result<Option<bool>>)
      modifies this`rows, this`log
      ensures var run := DeleteOutcome(cfg, env, old(rows), name, cancel, close);
        r == run.result && log == old(log) + run.events && rows == run.rows
    {
      var found := GetRow(name);
      if found.Err? {
        return Err(found.error);
      }
      var k := found.value;
      ClickOn(RowActions(k));
      ClickOn(DeleteAction);
      var prompt := WaitFor(DeletePrompt);
      ghost var shown := [Click(RowActions(k)), Click(DeleteAction), WaitAppear(DeletePrompt)];
      assert log == old(log) + shown;
      if prompt.Fail? {
        return Err(prompt.error);
      }
      r := AnswerPrompt(k, cancel, close);
      ghost var answer := Answer(env, k, old(rows), cancel, close);
      assert DeleteOutcome(cfg, env, old(rows), name, cancel, close) == DeleteRun(answer.result, shown + answer.events, answer.rows);
      assert log == old(log) + (shown + answer.events);
    }

    /** Answering the open prompt for row `k`: cancel, close or confirm. */
    method AnswerPrompt(k: nat, cancel: bool, close: bool) returns (r: Result<Option<bool>>)
      requires k < |rows|
      modifies this`rows, this`log
      ensures var answer := Answer(env, k, old(rows), cancel, close);
        r == answer.result && log == old(log) + answer.events && rows == answer.rows
    {
      if cancel {
        r := DismissPrompt(CancelButton, DeleteCancel);
      } else if close {
        r := DismissPrompt(CloseButton, DeleteClose);
      } else {
        r := ConfirmPrompt(k);
      }
    }

    /** Clicking submit for row `k` and waiting for the loading message to appear and vanish. */
    method ConfirmPrompt(k: nat) returns (r: Result<Option<bool>>)
      requires k < |rows|
      modifies this`rows, this`log
      ensures var run := Confirm(env, k, old(rows));
        r == run.result && log == old(log) + run.events && rows == run.rows
    {
      Submit(k);
      var loading := DeleteLoading;
      var appeared := WaitFor(loading);
      if appeared.Fail? {
        return Err(appeared.error);
      }
      var gone := WaitUntil(loading);
      if gone.Fail? {
        return Err(gone.error);
      }
      return Ok(None);
    }

    /** Clicking `button` of the dialog and waiting for `control` to vanish. */
    method DismissPrompt(button: Target, control: Element) returns (r: Result<Option<bool>>)
      modifies this`log
      ensures var run := Dismiss(env, button, control, rows);
        r == run.result && log == old(log) + run.events
    {
      ClickOn(button);
      var gone := WaitUntil(control);
      if gone.Fail? {
        return Err(gone.error);
      }
      return Ok(Some(true));
    }

    /** Confirming the deletion of row `k`: the application removes that row. */
    method Submit(k: nat)
      requires k < |rows|
      modifies this`rows, this`log
      ensures rows == old(rows)[..k] + old(rows)[k + 1..]
      ensures log == old(log) + [Click(SubmitButton)]
    {
      log := log + [Click(SubmitButton)];
      rows := rows[..k] + rows[k + 1..];
    }

    /** Emptying the filter box. */
    method ClearFilterBox()
      modifies this`filterText, this`log
      ensures filterText == ""
      ensures log == old(log) + [ClearInput(Filter)]
    {
      filterText := "";
      log := log + [ClearInput(Filter)];
    }

    /**
     * `set_filter`: clear the filter box, type `query`, let the spinner
     * settle and return the name column of the rows then rendered.
     * `rendered` is what the application shows for the query.
     */
    method SetFilter(query: string, rendered: seq<Row>) returns (r: Result<seq<string>>)
      modifies this`filterText, this`log, this`rows
      ensures filterText == query && rows == rendered
      ensures log == old(log) + [ClearInput(Filter), TypeInto(Filter, query)] + SpinnerWait(env)
      ensures r == ColumnValues(cfg, rendered, NameColumn)
    {
      ClearFilterBox();
      filterText := filterText + query;
      log := log + [TypeInto(Filter, query)];
      rows := rendered;
      WaitForLoadSpinner();
      r := GetColumnValues(NameColumn);
    }

    /** `clean_filter`: clear the filter box and let the spinner settle. */
    method CleanFilter(rendered: seq<Row>)
      modifies this`filterText, this`log, this`rows
      ensures filterText == "" && rows == rendered
      ensures log == old(log) + [ClearInput(Filter)] + SpinnerWait(env)
    {
      ClearFilterBox();
      rows := rendered;
      WaitForLoadSpinner();
    }
  }
}
