# Table page object — a Dafny model

This project models the `Table` component of the SmartX UI test library
(`SmartX_UCC2/components/table.py`). It is a Selenium page object for the
add-on configuration and input tables. It reads a rendered table: its headers,
its rows, one cell, one column, the whole table as a nested dictionary, and
which column the header classes report as sorted. It also drives the table:
it sorts a column by clicking its header, deletes a row through the
confirmation dialog, and sets or clears the filter box.

The browser is replaced by an abstract page:

- A header is its text and its `class` attribute.
- A row is a map from a column key (the `col-<key>` class suffix of its
  cells) to the cell's text.
- A click is the application's own transition. A header click re-renders the
  header's class: a header the sort routine reads as ascending becomes `desc`,
  and any other header becomes `asc`. A delete submit removes the row.
- A wait succeeds or times out as an environment value says. The environment
  lists the catalog elements that never appear and those that never vanish in
  time.
- Every interaction goes into a log: clicks, waits, clearing and typing.

Python exceptions are modelled as a `Result`. The errors are a missing row
(`ValueError`), a missing cell (no element matches the cell selector) and a
wait that timed out.

Files and modules:

- `strings.dfy` (`Strings`): ASCII `str.lower()`, the substring test `w in s`,
  and the whole-word search `re.search(r"\bw\b", s)`.
- `selectors.dfy` (`Selectors`): the selector catalog the constructor
  registers, and how a column name becomes a cell selector through the header
  mapping.
- `dom.dfy` (`Dom`): the page as values. It holds the cell, row, column and
  table readings, the two readings of a header class, the reported sort order
  and the interaction log.
- `sorting.dfy` (`Sorting`): the sort routine stated as a function of the
  headers. It gives the header acted on, the clicks issued, the resulting
  classes, and lemmas about them.
- `delete.dfy` (`Deletion`): the delete-confirmation flow stated as a function.
  It gives the result, the interactions and the rows left, and lemmas about
  them.
- `table.dfy` (`TablePage`): `class Table`. Its fields are the rendered
  headers, the rows, the filter text and the interaction log. Its methods are
  the page object's operations, each proved against the functions above.

Two behaviours of the code are worth knowing before reading the sort model:

- The sort routine decides a header's order with a substring test (`"asc" in
  class`); only `get_sort_order` uses whole words (`\basc\b`).
  `Dom.AscendingIsNotReported` shows the two readings differ on `ascending`.
- When no header matches the column, `sort_column` returns without doing
  anything and raises nothing (`Sorting.SortUnknownColumn`).

`TableOf(cfg, rows, hs)` is `TableUpTo(cfg, rows, hs, |rows|)`, and
`RowCells(cfg, row, hs)` is `RowCellsUpTo(cfg, row, hs, |hs|)`. The lemmas
about tables and rows are stated for every prefix, and so hold for these
values too.

## Model

| member | source | states |
|---|---|---|
| Strings.Lower | SmartX_UCC2/components/table.py:140 | `str.lower()` keeps the length, maps each character by ASCII case folding, and yields text with no upper-case letter |
| Strings.LowerIdempotent | SmartX_UCC2/components/table.py:304-306 | lower-casing an already lower-cased column name changes nothing |
| Strings.Contains | SmartX_UCC2/components/table.py:141-152 | the substring test `w in s` fails when `w` is longer than `s` and holds for the empty `w` |
| Strings.HasWord | SmartX_UCC2/components/table.py:121-141 | a whole-word match of the class (as `get_sort_order` tests) is also a substring match (as `sort_column` tests) |
| Selectors.Select | SmartX_UCC2/components/table.py:21-94 | the container-scoped catalog entries (rows, header, col, action, waitspinner, count, filter, filter_clear) start with the container selector; the dialog and menu entries are fixed selectors |
| Selectors.Catalog | SmartX_UCC2/components/table.py:21-94 | the constructor registers a selector for every element key of the table |
| Selectors.ColumnKey | SmartX_UCC2/components/table.py:303-306 | the column key is always lower-case; it is the lower-cased mapping target when the lower-cased name is a mapping key, and the lower-cased name otherwise |
| Selectors.CellSelector | SmartX_UCC2/components/table.py:303-306 | a cell selector is the `col` template of the catalog (the container selector, then ` td.col-{column}`) with the placeholder replaced by the column key |
| Selectors.ColumnKeyIgnoresCase | SmartX_UCC2/components/table.py:304-306 | column names equal up to case resolve to the same key and, in any container, the same cell selector |
| Selectors.NonLowerKeyIgnored | SmartX_UCC2/components/table.py:304-305 | a mapping key with an upper-case letter is never consulted: removing it changes no column key |
| Selectors.CapitalisedMappingExample | SmartX_UCC2/components/table.py:304-306 | with the documented mapping `{"Status": "disabled"}`, the column "Status" still resolves to `status`, not `disabled` |
| Selectors.TranslatedColumnSameCells | SmartX_UCC2/components/table.py:304-306 | a mapped column name resolves to the same key as its target, unless the target is itself remapped |
| Dom.CellValue | SmartX_UCC2/components/table.py:303-307 | a cell is read exactly when the row has a cell under the column key, and the text read is that cell's; otherwise it fails with that cell selector |
| Dom.CellValueIgnoresCase | SmartX_UCC2/components/table.py:303-307 | reading a column under any capitalisation reads the same cell |
| Dom.TranslatedCellSameText | SmartX_UCC2/components/table.py:304-307 | a mapped column name reads the same cell as its mapping target, unless the target is itself remapped |
| Dom.FindRow | SmartX_UCC2/components/table.py:316-325 | a row found is an index into the rendered rows |
| Dom.FindRowFromFirst | SmartX_UCC2/components/table.py:321-325 | the scan from any point yields the first later row whose name cell is the name; it reports a missing row only when every remaining row was read, and otherwise fails on the first row without a name cell |
| Dom.FindRowFirst | SmartX_UCC2/components/table.py:316-325 | the lookup yields the first row in page order whose name cell is exactly the name. It raises "row not found" exactly when every row has a name cell and none matches. Otherwise the error is the missing name cell of an earlier row |
| Dom.FindRowIsCaseSensitive | SmartX_UCC2/components/table.py:322 | row names are compared exactly: a row named "Input" is not found by "input" |
| Dom.ColumnValues | SmartX_UCC2/components/table.py:212-218 | the column reads exactly when every row has the cell; the values are then one per row, in row order, each that row's cell; otherwise the error is the missing cell |
| Dom.HeaderTexts | SmartX_UCC2/components/table.py:108-112 | the header texts, one per header, in order |
| Dom.RowCellsUpTo | SmartX_UCC2/components/table.py:196-200 | a row's inner map can only fail on a missing cell |
| Dom.RowCellsOk | SmartX_UCC2/components/table.py:197-200 | a row's inner map exists exactly when every non-empty lower-cased header has a cell in the row |
| Dom.RowCellsKeys | SmartX_UCC2/components/table.py:196-200 | the inner map's keys are the non-empty lower-cased headers (empty headers skipped), each mapped to that column's cell text |
| Dom.RowCellsErrExtends | SmartX_UCC2/components/table.py:197-200 | the first failing header decides the error: more headers do not change it |
| Dom.TableUpTo | SmartX_UCC2/components/table.py:192-201 | the table can only fail on a missing cell |
| Dom.TableErrExtends | SmartX_UCC2/components/table.py:194-200 | the first failing row decides the error: more rows do not change it |
| Dom.TableStep | SmartX_UCC2/components/table.py:194-200 | a successful table is the table of the earlier rows with one more entry: the last row's name, mapped to its inner map |
| Dom.TableOk | SmartX_UCC2/components/table.py:192-201 | `get_table` succeeds exactly when every row has a name cell and a cell for every non-empty header |
| Dom.TableNames | SmartX_UCC2/components/table.py:194-196 | the table's keys are exactly the rows' names |
| Dom.TableInnerKeys | SmartX_UCC2/components/table.py:196-200 | every inner dictionary has the same keys: the non-empty lower-cased headers |
| Dom.TableKeyCount | SmartX_UCC2/components/table.py:194-196 | the table has at most one entry per row, and exactly one per row when row names are unique |
| Dom.TableLastRowWins | SmartX_UCC2/components/table.py:195-196 | for a name carried by several rows, the entry is the inner map of the last of them |
| Dom.SourceState | SmartX_UCC2/components/table.py:141-152 | the sort routine reads a class as ascending exactly when it contains `asc`, even when it also contains `desc`, and as unsorted exactly when it contains neither |
| Dom.ReportedState | SmartX_UCC2/components/table.py:120-130 | the report reads a class as ascending exactly when `asc` is a whole word of it; whatever the report reads as ascending, or as ordered at all, the sort routine reads the same way |
| Dom.ReadingsAgreeOnRendered | SmartX_UCC2/components/table.py:121-152 | on the classes a click renders (`asc`, `desc`), the sort routine's substring reading and the report's whole-word reading agree |
| Dom.AscendingIsNotReported | SmartX_UCC2/components/table.py:121-144 | a class such as `ascending` is ascending to the sort routine, but `get_sort_order` reports no order for it |
| Dom.SortOrderOf | SmartX_UCC2/components/table.py:114-130 | the report is empty exactly when no header class holds `asc` or `desc` as a word; otherwise it is the first such header, lower-cased, ascending exactly when `asc` matches |
| Dom.FirstReportedUnique | SmartX_UCC2/components/table.py:120-130 | only one header can be the first to report an order |
| Dom.SpinnerWait | SmartX_UCC2/components/table.py:177-185 | the spinner wait clicks nothing and first waits for the spinner to appear; it has a second step exactly when the spinner appeared, and that step is the wait for it to vanish |
| Sorting.Clicked | SmartX_UCC2/components/table.py:141-161 | a click flips ascending to descending and anything else to ascending, and both readings see the new order |
| Sorting.ClicksNeeded | SmartX_UCC2/components/table.py:141-174 | at most two clicks are needed, and none exactly when the header is already in the requested order |
| Sorting.ClicksNeededReachGoal | SmartX_UCC2/components/table.py:141-174 | clicking as often as needed brings the header into the requested order; after any click the report agrees |
| Sorting.FirstMatchFrom | SmartX_UCC2/components/table.py:138-140 | a header found from a given point matches the column case-insensitively and is in range |
| Sorting.FirstMatch | SmartX_UCC2/components/table.py:138-140 | a header found matches the column case-insensitively and is in range |
| Sorting.FirstMatchFromFirst | SmartX_UCC2/components/table.py:138-140 | scanning from a point with no match before it finds the first match after it, or none exactly when no header matches |
| Sorting.FirstMatchFirst | SmartX_UCC2/components/table.py:138-140 | the header acted on is the first whose text matches the column case-insensitively; there is none exactly when no header matches |
| Sorting.FirstMatchFromTexts | SmartX_UCC2/components/table.py:171-173 | re-reading the headers after a click finds the same header, since a click changes classes and not texts |
| Sorting.ClickRoundsCount | SmartX_UCC2/components/table.py:146-173 | n rounds of click-then-spinner-wait contain exactly n clicks, all on the same header |
| Sorting.SortedHeaders | SmartX_UCC2/components/table.py:138-174 | sorting keeps the number of headers and every header text; only the first matching header can change |
| Sorting.SortEvents | SmartX_UCC2/components/table.py:138-174 | the sort issues no interaction exactly when no header matches or the match is already in the requested order, and never more than two clicks |
| Sorting.SortUnknownColumn | SmartX_UCC2/components/table.py:138-140 | when no header matches, nothing is clicked and no header changes |
| Sorting.SortMatchedColumn | SmartX_UCC2/components/table.py:138-174 | only the first matching header is clicked, as often as its order requires; it ends in the requested order, keeps its text, and every other header is unchanged |
| Sorting.SortIdempotent | SmartX_UCC2/components/table.py:141-151 | sorting a column again in the same order clicks nothing and changes nothing |
| Sorting.SortThenReport | SmartX_UCC2/components/table.py:114-174 | after a sort that clicked, `get_sort_order` reports that column in the requested order, provided no earlier header reports an order |
| Sorting.SortAscThenDesc | SmartX_UCC2/components/table.py:141-148 | sorting ascending then descending leaves the column descending in both readings |
| Deletion.DeleteLooksUpFirst | SmartX_UCC2/components/table.py:256-257 | the row is looked up before any click. A failed lookup raises its error and clicks nothing. Otherwise the first click is on that row's action toggle |
| Deletion.DeleteOutcome | SmartX_UCC2/components/table.py:247-274 | a deletion keeps the rows or removes exactly the row found, keeping the others in order; when it returns, the value is `True` after a dismissal and `None` after a confirmation |
| Deletion.DeleteCancelWins | SmartX_UCC2/components/table.py:263-270 | with cancel set, close makes no difference, and the close button is never clicked |
| Deletion.DeleteDismissKeepsRows | SmartX_UCC2/components/table.py:263-270 | cancelling or closing never clicks submit and removes no row; it returns `True` exactly when the row exists, the prompt appears and the dismissed dialog vanishes |
| Deletion.DeleteCommit | SmartX_UCC2/components/table.py:271-274 | confirming clicks submit after the prompt, removes exactly the row found, waits for the loading message to appear and then vanish, and returns `None` exactly when both waits succeed |
| Deletion.DeletePromptMissing | SmartX_UCC2/components/table.py:260-261 | when the prompt never appears the call raises that timeout for any answer, ending with the wait for the prompt, submits nothing and removes no row |
| Deletion.DeleteCommitRemovesName | SmartX_UCC2/components/table.py:271-274 | a confirmed deletion removes exactly the row found and keeps every other row in order; with unique row names it leaves one row fewer and none with that name |
| TablePage.Table.constructor | SmartX_UCC2/components/table.py:13-94 | the table keeps its container and header mapping and registers the whole selector catalog; the log starts empty |
| TablePage.Table.ClickOn | SmartX_UCC2/components/table.py:257-260 | a click on a control that does not change the table only logs the click |
| TablePage.Table.ClickHeader | SmartX_UCC2/components/table.py:146 | a header click re-renders that header's class and logs the click; nothing else changes |
| TablePage.Table.WaitFor | SmartX_UCC2/components/table.py:261 | waiting for an element to appear logs the wait and fails exactly when the element never appears |
| TablePage.Table.WaitUntil | SmartX_UCC2/components/table.py:265 | waiting for an element to vanish logs the wait and fails exactly when the element never vanishes |
| TablePage.Table.WaitForLoadSpinner | SmartX_UCC2/components/table.py:177-185 | the spinner wait swallows a timeout: it never fails, and it logs the spinner wait |
| TablePage.Table.GetHeaders | SmartX_UCC2/components/table.py:108-112 | the header texts, one per rendered header, in order |
| TablePage.Table.GetRowCount | SmartX_UCC2/components/table.py:102-106 | the row count is the length of every column read in full |
| TablePage.Table.GetSortOrder | SmartX_UCC2/components/table.py:114-130 | `None` exactly when no header class holds `asc` or `desc` as a word; otherwise the first such header's lower-cased text, ascending exactly when `asc` matches |
| TablePage.Table.GetRow | SmartX_UCC2/components/table.py:316-325 | the row scan returns what the lookup specification gives: the first row named `name`, or the first error |
| TablePage.Table.GetCellValue | SmartX_UCC2/components/table.py:203-210 | a failed row lookup raises its error; otherwise the result is the cell of the column in the row found |
| TablePage.Table.GetColumnValues | SmartX_UCC2/components/table.py:212-218 | the loop returns the column's values, one per row in order, or the first missing cell |
| TablePage.Table.GetTable | SmartX_UCC2/components/table.py:187-201 | the table of the rendered rows over the current header texts; it has at most one entry per row, and exactly `get_row_count()` entries when row names are unique |
| TablePage.Table.GetRowsTable | SmartX_UCC2/components/table.py:192-201 | the outer loop over the rows returns the table of the rendered rows over the given header texts, or the first missing cell |
| TablePage.Table.GetRowCells | SmartX_UCC2/components/table.py:196-200 | the inner loop returns the row's inner map over the headers, or the first missing cell |
| TablePage.Table.SortColumn | SmartX_UCC2/components/table.py:132-174 | the headers become the sorted headers and the log gains exactly the sort's clicks, each followed by a spinner wait |
| TablePage.Table.SortMatched | SmartX_UCC2/components/table.py:141-174 | the if-chain on the matched header's class, including the re-entry after the first of two clicks, has the same effect as the sort specification |
| TablePage.Table.DeleteRow | SmartX_UCC2/components/table.py:247-274 | the result, the rows left and the interactions logged are those of the delete specification |
| TablePage.Table.AnswerPrompt | SmartX_UCC2/components/table.py:263-274 | cancel, close or confirm, with result, interactions and rows as the specification's answer to the prompt |
| TablePage.Table.DismissPrompt | SmartX_UCC2/components/table.py:264-269 | clicking a dismiss button and waiting for the dialog to vanish returns `True`, or raises the timeout |
| TablePage.Table.ConfirmPrompt | SmartX_UCC2/components/table.py:272-274 | clicking submit removes the row, then the loading message must appear and vanish |
| TablePage.Table.Submit | SmartX_UCC2/components/table.py:272 | the submit click removes exactly row `k` and logs the click |
| TablePage.Table.ClearFilterBox | SmartX_UCC2/components/table.py:283 | clearing the filter empties its text and logs the clear |
| TablePage.Table.SetFilter | SmartX_UCC2/components/table.py:277-287 | the filter holds exactly the query, the rows shown for it are rendered, the log is clear, type and spinner wait, and the result is the name column of the shown rows |
| TablePage.Table.CleanFilter | SmartX_UCC2/components/table.py:289-295 | the filter is empty, the rows shown for it are rendered, and the log is clear then spinner wait |

## Left out

- `get_count_title`, `get_list_of_actions`, `get_action_values`, `edit_row` and `clone_row` are not modelled. They read element texts of the action menu and title, or click a menu entry that opens a form. The model has no state for these.
- `BaseComponent` (`wait_for`, `wait_until`, `get_elements`, the element properties such as `self.delete`) is not part of this model. Its waits are modelled as environment-decided outcomes keyed by catalog element. Each fixed control of the dialog and menu is assumed present when clicked.
- `time.sleep(1)` in `set_filter` and `clean_filter` is left out: clocks are not modelled.
- The `print` in the spinner wait's exception handler is left out; the handler is modelled as swallowing the timeout.
- How the application filters rows is not in this code. `TablePage.Table.SetFilter` and `TablePage.Table.CleanFilter` take the rows rendered afterwards as a parameter.
- How the application re-renders a header class after a click is modelled as `Sorting.Clicked`, not taken from the source. `Clicked` always renders `asc` or `desc`, so every header is sortable. For a header that stays without `asc`/`desc` after a click, `sort_column(column, ascending=False)` calls itself again on every round and never returns; this case is not modelled, and the termination of `TablePage.Table.SortColumn` rests on `Clicked`.
- TablePage.Table.ClickHeader: a header click re-renders only the clicked header's class; every other header keeps its class. The application may re-render the whole header row and clear the order class of a previously sorted header, which the model does not capture. The "every other header is unchanged" parts of `Sorting.SortedHeaders` and `Sorting.SortMatchedColumn`, and the "no earlier header reports an order" condition of `Sorting.SortThenReport`, rest on this choice.
- TablePage.Table.SortColumn: the rows are not re-rendered after a header click, so the model does not capture the new row order a sort produces; `rows` is left as it was, and a column read after a sort gives the order from before it.
- TablePage.Table.GetColumnValues: the Python generator is evaluated eagerly. A missing cell is reported for the whole call, not at the row where a consumer would reach it.
- TablePage.Table.SetFilter: returns the evaluated name column, where the source returns an unevaluated generator.
- Strings.Lower: only ASCII letters are case-folded, and the regular expression's word characters are ASCII. Python's Unicode `str.lower` and `\w` are not modelled.
- A header whose `class` attribute is missing (`None` in Selenium, a `TypeError` in the source) is not modelled; a class is always a string.
- A container selector containing `{` or `}` (which `str.format` would interpret) is not modelled: `Selectors.Fill` replaces the trailing placeholder only.
- Row elements are modelled as maps from column key to cell text. Selenium's CSS matching of the container-prefixed cell selector under a row element is taken to find that row's cell.
