/**
 * The abstract DOM a `Table` reads, and the read-only projections over it:
 * cell text by column, row lookup by name, the values of one column, the
 * table as a nested map, and the current sort order as the headers' classes
 * report it.
 *
 * A header is its text and its `class` attribute; a row is the text of each of
 * its `td.col-<key>` cells, keyed by `<key>`. Finding a cell under a row
 * either yields that text or fails as Selenium's element lookup does.
 */
module Dom {
  import opened Strings
  import opened Selectors

  datatype Option<T> = None | Some(value: T)

  /** The exceptions the table's operations let escape. */
  datatype Error =
    | RowNotFound(name: string)      // `ValueError` raised by the row lookup
    | CellNotFound(selector: string) // no element under the row matches the cell selector
    | Timeout(element: Element)      // a wait for the named element to appear or vanish timed out

  datatype Result<T> = Ok(value: T) | Err(error: Error)

  /** The result of a step that returns nothing but may raise. */
  datatype Outcome = Pass | Fail(error: Error)

  /** What a table is constructed with: its container selector and its header mapping. */
  datatype Config = Config(container: string, mapping: map<string, string>)

  datatype Header = Header(text: string, cls: string)

  datatype Row = Row(cells: map<string, string>)

  /** The column that identifies a row. */
  const NameColumn: string := "name"

  /** The text of the cell of `column` under `row`. */
  function CellValue(cfg: Config, row: Row, column: string): (r: Result<string>)
    ensures r.Ok? <==> ColumnKey(cfg.mapping, column) in row.cells
    ensures r.Ok? ==> r.value == row.cells[ColumnKey(cfg.mapping, column)]
    ensures r.Err? ==> r.error == CellNotFound(CellSelector(cfg.container, cfg.mapping, column))
  {
    var key := ColumnKey(cfg.mapping, column);
    if key in row.cells then Ok(row.cells[key])
    else Err(CellNotFound(CellSelector(cfg.container, cfg.mapping, column)))
  }

  /** Asking for a column under any capitalisation reads the same cell. */
  lemma CellValueIgnoresCase(cfg: Config, row: Row, c1: string, c2: string)
    requires Lower(c1) == Lower(c2)
    ensures CellValue(cfg, row, c1) == CellValue(cfg, row, c2)
  {
    ColumnKeyIgnoresCase(cfg.container, cfg.mapping, c1, c2);
  }

  /**
   * A translated column label reads the same cell as its translation, unless
   * the translation is itself re-mapped elsewhere.
   */
  lemma TranslatedCellSameText(cfg: Config, row: Row, shown: string)
    requires Lower(shown) in cfg.mapping
    requires var t := cfg.mapping[Lower(shown)];
      Lower(t) !in cfg.mapping || Lower(cfg.mapping[Lower(t)]) == Lower(t)
    ensures CellValue(cfg, row, shown) == CellValue(cfg, row, cfg.mapping[Lower(shown)])
  {
    TranslatedColumnSameCells(cfg.mapping, shown);
  }

  // ---------------------------------------------------------------- row lookup

  /** The name cell of `row`. */
  function NameOf(cfg: Config, row: Row): Result<string> {
    CellValue(cfg, row, NameColumn)
  }

  /** Every row before index `k` has a name cell, and its text is not `name`. */
  predicate NamedOtherwise(cfg: Config, rows: seq<Row>, name: string, k: nat)
    requires k <= |rows|
  {
    forall j :: 0 <= j < k ==> NameOf(cfg, rows[j]).Ok? && NameOf(cfg, rows[j]).value != name
  }

  /** The row scan from index `i`: rows are tried in order, a missing name cell aborts the scan. */
  function FindRowFrom(cfg: Config, rows: seq<Row>, name: string, i: nat): (r: Result<nat>)
    requires i <= |rows|
    ensures r.Ok? ==> i <= r.value < |rows|
    decreases |rows| - i
  {
    if i == |rows| then Err(RowNotFound(name))
    else match NameOf(cfg, rows[i])
      case Err(e) => Err(e)
      case Ok(n) => if n == name then Ok(i) else FindRowFrom(cfg, rows, name, i + 1)
  }

  /** The index of the row called `name`. */
  function FindRow(cfg: Config, rows: seq<Row>, name: string): (r: Result<nat>)
    ensures r.Ok? ==> r.value < |rows|
  {
    FindRowFrom(cfg, rows, name, 0)
  }

  /** What the scan from `i` yields, given that the rows before `i` were passed over. */
  lemma {:induction false} FindRowFromFirst(cfg: Config, rows: seq<Row>, name: string, i: nat)
    requires i <= |rows| && NamedOtherwise(cfg, rows, name, i)
    ensures var r := FindRowFrom(cfg, rows, name, i);
      && (r.Ok? ==> i <= r.value < |rows| && NameOf(cfg, rows[r.value]) == Ok(name)
                    && NamedOtherwise(cfg, rows, name, r.value))
      && (r.Err? && r.error.RowNotFound? <==> NamedOtherwise(cfg, rows, name, |rows|))
      && (r.Err? ==> r.error == RowNotFound(name) || r.error == CellNotFound(CellSelector(cfg.container, cfg.mapping, NameColumn)))
      && (r.Err? && r.error.CellNotFound? ==>
            exists k :: i <= k < |rows| && NamedOtherwise(cfg, rows, name, k) && NameOf(cfg, rows[k]).Err?)
    decreases |rows| - i
  {
    if i < |rows| {
      match NameOf(cfg, rows[i])
      case Err(e) =>
        assert !NamedOtherwise(cfg, rows, name, |rows|);
      case Ok(n) =>
        if n == name {
          assert !NamedOtherwise(cfg, rows, name, |rows|);
        } else {
          FindRowFromFirst(cfg, rows, name, i + 1);
        }
    }
  }

  /**
   * The row lookup yields the first row, in DOM order, whose name cell is
   * exactly `name`; it fails with `RowNotFound` exactly when every row has a
   * name cell and none is `name`; otherwise it fails with the `CellNotFound`
   * of the first row that lacks a name cell, which comes before any match.
   */
  lemma FindRowFirst(cfg: Config, rows: seq<Row>, name: string)
    ensures var r := FindRow(cfg, rows, name);
      && (r.Ok? ==> r.value < |rows| && NameOf(cfg, rows[r.value]) == Ok(name)
                    && NamedOtherwise(cfg, rows, name, r.value))
      && (r == Err(RowNotFound(name)) <==> NamedOtherwise(cfg, rows, name, |rows|))
      && (r.Err? && r.error.CellNotFound? ==>
            exists k :: 0 <= k < |rows| && NamedOtherwise(cfg, rows, name, k) && NameOf(cfg, rows[k]).Err?)
  {
    FindRowFromFirst(cfg, rows, name, 0);
  }

  /** Row names are compared exactly: "Input" is not found by "input". */
  lemma FindRowIsCaseSensitive()
    ensures FindRow(Config("", map[]), [Row(map["name" := "Input"])], "input") == Err(RowNotFound("input"))
  {
    var cfg := Config("", map[]);
    LowerOfLowerCase("name");
    assert "Input"[0] != "input"[0];
    assert NameOf(cfg, Row(map["name" := "Input"])) == Ok("Input");
  }

  // ------------------------------------------------------------- column values

  /** The text of `column` in each row, in row order; a row without that cell fails the whole read. */
  function ColumnValues(cfg: Config, rows: seq<Row>, column: string): (r: Result<seq<string>>)
    ensures r.Ok? <==> forall i :: 0 <= i < |rows| ==> CellValue(cfg, rows[i], column).Ok?
    ensures r.Ok? ==> |r.value| == |rows|
    ensures r.Ok? ==> forall i :: 0 <= i < |rows| ==> CellValue(cfg, rows[i], column) == Ok(r.value[i])
    ensures r.Err? ==> r.error == CellNotFound(CellSelector(cfg.container, cfg.mapping, column))
  {
    if rows == [] then Ok([])
    else match CellValue(cfg, rows[0], column)
      case Err(e) => Err(e)
      case Ok(v) =>
        match ColumnValues(cfg, rows[1..], column)
        case Err(e) => Err(e)
        case Ok(vs) => Ok([v] + vs)
  }

  // ------------------------------------------------------------- whole table

  /** The texts of the headers, in order. */
  function HeaderTexts(headers: seq<Header>): (r: seq<string>)
    ensures |r| == |headers| && forall i :: 0 <= i < |headers| ==> r[i] == headers[i].text
  {
    seq(|headers|, i requires 0 <= i < |headers| => headers[i].text)
  }

  /** The non-empty lower-cased texts among the first `j` headers. */
  function KeysUpTo(headers: seq<string>, j: nat): set<string>
    requires j <= |headers|
  {
    set i | 0 <= i < j && Lower(headers[i]) != "" :: Lower(headers[i])
  }

  /** The keys of a row's inner map: the non-empty lower-cased header texts. */
  function HeaderKeys(headers: seq<string>): set<string> {
    KeysUpTo(headers, |headers|)
  }

  /** One more header adds its non-empty lower-cased text to the keys. */
  lemma KeysStep(headers: seq<string>, j: nat)
    requires 0 < j <= |headers|
    ensures var col := Lower(headers[j - 1]);
      KeysUpTo(headers, j) == KeysUpTo(headers, j - 1) + (if col == "" then {} else {col})
  {
    var col := Lower(headers[j - 1]);
    forall x | x in KeysUpTo(headers, j) ensures x in KeysUpTo(headers, j - 1) + (if col == "" then {} else {col}) {
      var i :| 0 <= i < j && Lower(headers[i]) != "" && x == Lower(headers[i]);
      if i < j - 1 {
        assert x in KeysUpTo(headers, j - 1);
      }
    }
  }

  /** The inner map of one row over the first `j` headers: lower-cased header to cell text, in header order. */
  function RowCellsUpTo(cfg: Config, row: Row, headers: seq<string>, j: nat): (r: Result<map<string, string>>)
    requires j <= |headers|
    ensures r.Err? ==> r.error.CellNotFound?
    decreases j
  {
    if j == 0 then Ok(map[])
    else
      var col := Lower(headers[j - 1]);
      match RowCellsUpTo(cfg, row, headers, j - 1)
      case Err(e) => Err(e)
      case Ok(m) =>
        if col == "" then Ok(m)
        else match CellValue(cfg, row, col)
          case Err(e) => Err(e)
          case Ok(v) => Ok(m[col := v])
  }

  /** The inner map of one row over all headers. */
  function RowCells(cfg: Config, row: Row, headers: seq<string>): Result<map<string, string>> {
    RowCellsUpTo(cfg, row, headers, |headers|)
  }

  /** A row's inner map exists exactly when every non-empty lower-cased header has a cell under the row. */
  lemma {:induction false} RowCellsOk(cfg: Config, row: Row, headers: seq<string>, j: nat)
    requires j <= |headers|
    ensures RowCellsUpTo(cfg, row, headers, j).Ok?
            <==> forall i :: 0 <= i < j && Lower(headers[i]) != "" ==> CellValue(cfg, row, Lower(headers[i])).Ok?
    decreases j
  {
    if j > 0 {
      RowCellsOk(cfg, row, headers, j - 1);
    }
  }

  /** The keys of a row's inner map are the non-empty lower-cased headers, each mapped to its cell's text. */
  lemma {:induction false} RowCellsKeys(cfg: Config, row: Row, headers: seq<string>, j: nat)
    requires j <= |headers| && RowCellsUpTo(cfg, row, headers, j).Ok?
    ensures var m := RowCellsUpTo(cfg, row, headers, j).value;
      && m.Keys == KeysUpTo(headers, j)
      && forall k :: k in m ==> CellValue(cfg, row, k) == Ok(m[k])
    decreases j
  {
    if j > 0 {
      var col := Lower(headers[j - 1]);
      assert RowCellsUpTo(cfg, row, headers, j - 1).Ok?;
      RowCellsKeys(cfg, row, headers, j - 1);
      KeysStep(headers, j);
      var m0 := RowCellsUpTo(cfg, row, headers, j - 1).value;
      if col == "" {
        assert RowCellsUpTo(cfg, row, headers, j).value == m0;
      } else {
        LowerIdempotent(headers[j - 1]);
        var v := CellValue(cfg, row, col);
        assert v.Ok? && RowCellsUpTo(cfg, row, headers, j).value == m0[col := v.value];
      }
    }
  }

  /** Once the first `j` headers fail a row, any longer prefix fails it the same way. */
  lemma {:induction false} RowCellsErrExtends(cfg: Config, row: Row, headers: seq<string>, j: nat, j': nat)
    requires j <= j' <= |headers| && RowCellsUpTo(cfg, row, headers, j).Err?
    ensures RowCellsUpTo(cfg, row, headers, j') == RowCellsUpTo(cfg, row, headers, j)
    decreases j'
  {
    if j < j' {
      RowCellsErrExtends(cfg, row, headers, j, j' - 1);
    }
  }

  /** The table over the first `i` rows: row name to the row's inner map; a later row of the same name overwrites. */
  function TableUpTo(cfg: Config, rows: seq<Row>, headers: seq<string>, i: nat): (r: Result<map<string, map<string, string>>>)
    requires i <= |rows|
    ensures r.Err? ==> r.error.CellNotFound?
    decreases i
  {
    if i == 0 then Ok(map[])
    else
      match TableUpTo(cfg, rows, headers, i - 1)
      case Err(e) => Err(e)
      case Ok(t) =>
        match NameOf(cfg, rows[i - 1])
        case Err(e) => Err(e)
        case Ok(n) =>
          match RowCells(cfg, rows[i - 1], headers)
          case Err(e) => Err(e)
          case Ok(m) => Ok(t[n := m])
  }

  /** The table over all rows. */
  function TableOf(cfg: Config, rows: seq<Row>, headers: seq<string>): Result<map<string, map<string, string>>> {
    TableUpTo(cfg, rows, headers, |rows|)
  }

  /** Once the first `i` rows fail the table, any longer prefix fails it the same way. */
  lemma {:induction false} TableErrExtends(cfg: Config, rows: seq<Row>, headers: seq<string>, i: nat, i': nat)
    requires i <= i' <= |rows| && TableUpTo(cfg, rows, headers, i).Err?
    ensures TableUpTo(cfg, rows, headers, i') == TableUpTo(cfg, rows, headers, i)
    decreases i'
  {
    if i < i' {
      TableErrExtends(cfg, rows, headers, i, i' - 1);
    }
  }

  /** A table that reads successfully over `i` rows is the table over `i - 1` rows updated with row `i - 1`. */
  lemma TableStep(cfg: Config, rows: seq<Row>, headers: seq<string>, i: nat)
    requires 0 < i <= |rows| && TableUpTo(cfg, rows, headers, i).Ok?
    ensures TableUpTo(cfg, rows, headers, i - 1).Ok?
    ensures NameOf(cfg, rows[i - 1]).Ok? && RowCells(cfg, rows[i - 1], headers).Ok?
    ensures TableUpTo(cfg, rows, headers, i).value
            == TableUpTo(cfg, rows, headers, i - 1).value[NameOf(cfg, rows[i - 1]).value := RowCells(cfg, rows[i - 1], headers).value]
  {
  }

  /** The table reads successfully exactly when every row has a name cell and all its header cells. */
  lemma {:induction false} TableOk(cfg: Config, rows: seq<Row>, headers: seq<string>, i: nat)
    requires i <= |rows|
    ensures TableUpTo(cfg, rows, headers, i).Ok?
            <==> forall k :: 0 <= k < i ==> NameOf(cfg, rows[k]).Ok? && RowCells(cfg, rows[k], headers).Ok?
    decreases i
  {
    if i > 0 {
      TableOk(cfg, rows, headers, i - 1);
      var last := rows[i - 1];
      if TableUpTo(cfg, rows, headers, i).Ok? {
        assert TableUpTo(cfg, rows, headers, i - 1).Ok?;
        assert NameOf(cfg, last).Ok? && RowCells(cfg, last, headers).Ok?;
      } else if TableUpTo(cfg, rows, headers, i - 1).Ok? {
        assert !(NameOf(cfg, last).Ok? && RowCells(cfg, last, headers).Ok?);
      }
    }
  }

  /** The table's keys are exactly the rows' names: each key names some row, and each row's name is a key. */
  lemma {:induction false} TableNames(cfg: Config, rows: seq<Row>, headers: seq<string>, i: nat)
    requires i <= |rows| && TableUpTo(cfg, rows, headers, i).Ok?
    ensures var t := TableUpTo(cfg, rows, headers, i).value;
      && (forall n :: n in t ==> exists k :: 0 <= k < i && NameOf(cfg, rows[k]) == Ok(n))
      && (forall k :: 0 <= k < i ==> NameOf(cfg, rows[k]).Ok? && NameOf(cfg, rows[k]).value in t)
    decreases i
  {
    if i > 0 {
      TableStep(cfg, rows, headers, i);
      TableNames(cfg, rows, headers, i - 1);
      var t := TableUpTo(cfg, rows, headers, i - 1).value;
      var n := NameOf(cfg, rows[i - 1]).value;
      var t' := TableUpTo(cfg, rows, headers, i).value;
      assert t' == t[n := RowCells(cfg, rows[i - 1], headers).value];
      forall x | x in t' ensures exists k :: 0 <= k < i && NameOf(cfg, rows[k]) == Ok(x) {
        if x == n {
          assert NameOf(cfg, rows[i - 1]) == Ok(x);
        } else {
          assert x in t;
          var k :| 0 <= k < i - 1 && NameOf(cfg, rows[k]) == Ok(x);
        }
      }
      forall k | 0 <= k < i ensures NameOf(cfg, rows[k]).Ok? && NameOf(cfg, rows[k]).value in t' {
        if k < i - 1 {
          assert NameOf(cfg, rows[k]).value in t;
        }
      }
    }
  }

  /** Every inner map of the table has the header keys. */
  lemma {:induction false} TableInnerKeys(cfg: Config, rows: seq<Row>, headers: seq<string>, i: nat)
    requires i <= |rows| && TableUpTo(cfg, rows, headers, i).Ok?
    ensures var t := TableUpTo(cfg, rows, headers, i).value;
      forall n :: n in t ==> t[n].Keys == HeaderKeys(headers)
    decreases i
  {
    if i > 0 {
      TableStep(cfg, rows, headers, i);
      TableInnerKeys(cfg, rows, headers, i - 1);
      RowCellsKeys(cfg, rows[i - 1], headers, |headers|);
    }
  }

  /** No two rows carry the same name cell. */
  predicate UniqueNames(cfg: Config, rows: seq<Row>) {
    forall i, j :: 0 <= i < |rows| && 0 <= j < |rows| && i != j ==> NameOf(cfg, rows[i]) != NameOf(cfg, rows[j])
  }

  /**
   * The table has at most one key per rendered row, and exactly one per row
   * when row names are unique.
   */
  lemma {:induction false} TableKeyCount(cfg: Config, rows: seq<Row>, headers: seq<string>, i: nat)
    requires i <= |rows| && TableUpTo(cfg, rows, headers, i).Ok?
    ensures |TableUpTo(cfg, rows, headers, i).value| <= i
    ensures UniqueNames(cfg, rows) ==> |TableUpTo(cfg, rows, headers, i).value| == i
    decreases i
  {
    if i > 0 {
      TableStep(cfg, rows, headers, i);
      TableKeyCount(cfg, rows, headers, i - 1);
      if UniqueNames(cfg, rows) {
        TableNames(cfg, rows, headers, i - 1);
        var t := TableUpTo(cfg, rows, headers, i - 1).value;
        var n := NameOf(cfg, rows[i - 1]).value;
        forall k | 0 <= k < i - 1 ensures NameOf(cfg, rows[k]) != Ok(n) {
          assert NameOf(cfg, rows[k]) != NameOf(cfg, rows[i - 1]);
        }
        assert n !in t;
      }
    }
  }

  /** The inner map stored under a name is that of the last row carrying the name. */
  lemma {:induction false} TableLastRowWins(cfg: Config, rows: seq<Row>, headers: seq<string>, i: nat, k: nat)
    requires i <= |rows| && TableUpTo(cfg, rows, headers, i).Ok? && k < i
    requires forall j :: k < j < i ==> NameOf(cfg, rows[j]) != NameOf(cfg, rows[k])
    ensures NameOf(cfg, rows[k]).Ok? && RowCells(cfg, rows[k], headers).Ok?
    ensures NameOf(cfg, rows[k]).value in TableUpTo(cfg, rows, headers, i).value
    ensures TableUpTo(cfg, rows, headers, i).value[NameOf(cfg, rows[k]).value] == RowCells(cfg, rows[k], headers).value
    decreases i
  {
    TableStep(cfg, rows, headers, i);
    if k < i - 1 {
      TableLastRowWins(cfg, rows, headers, i - 1, k);
    }
  }

  // ---------------------------------------------------------------- sort order

  datatype SortState = Unsorted | Ascending | Descending

  /**
   * A header class as the sort routine reads it: substring tests, "asc" tried
   * first, so a class holding both reads as ascending.
   */
  function SourceState(cls: string): (r: SortState)
    ensures r == Ascending <==> Contains(cls, "asc")
    ensures r == Unsorted <==> !Contains(cls, "asc") && !Contains(cls, "desc")
  {
    if Contains(cls, "asc") then Ascending
    else if Contains(cls, "desc") then Descending
    else Unsorted
  }

  /**
   * A header class as the sort-order report reads it: whole-word tests, "asc"
   * tried first. A class the report reads as ascending the sort routine reads
   * as ascending too, and a class it reads as ordered is ordered to the sort
   * routine as well.
   */
  function ReportedState(cls: string): (r: SortState)
    ensures r == Ascending <==> HasWord(cls, "asc")
    ensures r == Ascending ==> SourceState(cls) == Ascending
    ensures r != Unsorted ==> SourceState(cls) != Unsorted
  {
    if HasWord(cls, "asc") then Ascending
    else if HasWord(cls, "desc") then Descending
    else Unsorted
  }

  /** The two readings agree on the classes a click renders. */
  lemma ReadingsAgreeOnRendered()
    ensures SourceState("asc") == ReportedState("asc") == Ascending
    ensures SourceState("desc") == ReportedState("desc") == Descending
  {
    SelfIsWord("asc");
    SelfIsWord("desc");
    assert !Contains("desc", "asc") by {
      forall i: nat | i <= 4 ensures !OccursAt("desc", "asc", i) {
        if i + 3 <= 4 {
          assert "desc"[i..i + 3][0] == "desc"[i] != 'a';
        }
      }
    }
  }

  /** A class such as "ascending" is ascending to the sort routine but reports no order. */
  lemma AscendingIsNotReported()
    ensures SourceState("ascending") == Ascending
    ensures ReportedState("ascending") == Unsorted
  {
    var s := "ascending";
    assert OccursAt(s, "asc", 0);
    forall i: nat | i <= |s| ensures !WordAt(s, "asc", i) && !WordAt(s, "desc", i) {
      if i == 0 {
        assert IsWordChar(s[3]);
      }
      if 0 < i && i + 3 <= |s| {
        assert s[i..i + 3][0] == s[i] != 'a';
      }
      if i + 4 <= |s| {
        assert s[i..i + 4][0] == s[i] && s[i..i + 4][1] == s[i + 1];
        assert s[i] != 'd' || s[i + 1] != 'e';
      }
    }
  }

  /** The sort order as reported: the header's lower-cased text and whether it is ascending. */
  datatype SortOrder = SortOrder(header: string, ascending: bool)

  /** The first header, in order, whose class reports a sort; none if no class does. */
  function SortOrderOf(headers: seq<Header>): (r: Option<SortOrder>)
    ensures r.None? <==> forall i :: 0 <= i < |headers| ==> ReportedState(headers[i].cls) == Unsorted
    ensures r.Some? ==> exists k :: 0 <= k < |headers| && FirstReported(headers, k)
                           && r.value == SortOrder(Lower(headers[k].text), ReportedState(headers[k].cls) == Ascending)
    decreases |headers|
  {
    if headers == [] then None
    else if HasWord(headers[0].cls, "asc") then
      assert FirstReported(headers, 0);
      Some(SortOrder(Lower(headers[0].text), true))
    else if HasWord(headers[0].cls, "desc") then
      assert FirstReported(headers, 0);
      Some(SortOrder(Lower(headers[0].text), false))
    else
      var r := SortOrderOf(headers[1..]);
      assert forall i :: 0 < i < |headers| ==> headers[i] == headers[1..][i - 1];
      assert r.Some? ==> exists k :: 0 <= k < |headers[1..]| && FirstReported(headers[1..], k)
                           && r.value == SortOrder(Lower(headers[1..][k].text), ReportedState(headers[1..][k].cls) == Ascending);
      if r.Some? then
        var k :| 0 <= k < |headers[1..]| && FirstReported(headers[1..], k)
                 && r.value == SortOrder(Lower(headers[1..][k].text), ReportedState(headers[1..][k].cls) == Ascending);
        assert FirstReported(headers, k + 1);
        r
      else r
  }

  /** Header `k` reports a sort and no header before it does. */
  predicate FirstReported(headers: seq<Header>, k: nat)
    requires k < |headers|
  {
    && ReportedState(headers[k].cls) != Unsorted
    && forall j :: 0 <= j < k ==> ReportedState(headers[j].cls) == Unsorted
  }

  /** At most one header is the first to report a sort. */
  lemma FirstReportedUnique(headers: seq<Header>, a: nat, b: nat)
    requires a < |headers| && b < |headers|
    requires FirstReported(headers, a) && FirstReported(headers, b)
    ensures a == b
  {
  }

  // ------------------------------------------------------------ interactions

  /** The environment's waits: the elements that never appear, and those that never vanish, in time. */
  datatype Env = Env(neverAppear: set<Element>, neverVanish: set<Element>)

  /** What a click lands on. */
  datatype Target =
    | HeaderCell(index: nat)   // the header at this index
    | RowActions(row: nat)     // the action toggle of the row at this index
    | DeleteAction | SubmitButton | CancelButton | CloseButton

  /** One interaction with the page, as the table issues it; waits and inputs name their element by its catalog key. */
  datatype Event =
    | Click(target: Target)
    | WaitAppear(element: Element)
    | WaitVanish(element: Element)
    | ClearInput(element: Element)
    | TypeInto(element: Element, text: string)

  /** The number of clicks among `events`. */
  function Clicks(events: seq<Event>): nat {
    if events == [] then 0
    else (if events[0].Click? then 1 else 0) + Clicks(events[1..])
  }

  lemma {:induction false} ClicksAppend(a: seq<Event>, b: seq<Event>)
    ensures Clicks(a + b) == Clicks(a) + Clicks(b)
  {
    if a == [] {
      assert a + b == b;
    } else {
      assert (a + b)[0] == a[0];
      assert (a + b)[1..] == a[1..] + b;
      ClicksAppend(a[1..], b);
    }
  }

  /**
   * The interactions of the spinner wait: wait for the spinner to appear and,
   * only if it did, for it to vanish. Neither timeout is reported.
   */
  function SpinnerWait(env: Env): (r: seq<Event>)
    ensures Clicks(r) == 0
    ensures 0 < |r| <= 2 && r[0] == WaitAppear(WaitSpinner)
    ensures |r| == 2 <==> WaitSpinner !in env.neverAppear
    ensures |r| == 2 ==> r[1] == WaitVanish(WaitSpinner)
  {
    if WaitSpinner in env.neverAppear then [WaitAppear(WaitSpinner)]
    else
      var r := [WaitAppear(WaitSpinner), WaitVanish(WaitSpinner)];
      assert r[1..][1..] == [];
      assert Clicks(r[1..]) == 0;
      r
  }
}
