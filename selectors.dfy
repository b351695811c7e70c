/**
 * The selector catalog a `Table` builds in its constructor, and the
 * translation of a column name into the CSS selector of that column's cells.
 */
module Selectors {
  import opened Strings

  /** The named elements of a table page. */
  datatype Element =
    | Rows | HeaderCells | ActionValues | Column | ActionToggle | ActionList
    | EditItem | CloneItem | DeleteItem
    | DeletePrompt | DeleteSubmit | DeleteCancel | DeleteClose | DeleteLoading
    | WaitSpinner | Count | Filter | FilterClear

  /** The elements whose selector is prefixed with the table's container selector. */
  predicate Scoped(e: Element) {
    e in {Rows, HeaderCells, Column, ActionToggle, WaitSpinner, Count, Filter, FilterClear}
  }

  /** The part of an element's selector that follows the container prefix (if any). */
  function Suffix(e: Element): string {
    match e
    case Rows => " tr.apps-table-tablerow"
    case HeaderCells => " th"
    case ActionValues => " .dropdown-menu.open li a"
    case Column => " td.col-{column}"
    case ActionToggle => " a.dropdown-toggle"
    case ActionList => ".dropdown-menu.open li a"
    case EditItem => "a.edit"
    case CloneItem => "a.clone"
    case DeleteItem => "a.delete"
    case DeletePrompt => ".modal-dialog div.delete-prompt"
    case DeleteSubmit => ".modal-dialog .submit-btn"
    case DeleteCancel => ".modal-dialog .cancel-btn"
    case DeleteClose => ".modal-dialog button.close"
    case DeleteLoading => ".modal-dialog .msg-loading"
    case WaitSpinner => " div.shared-waitspinner"
    case Count => " .shared-collectioncount"
    case Filter => " input.search-query"
    case FilterClear => " a.control-clear"
  }

  /** The CSS selector registered for `e` by a table in `container`. */
  function Select(container: string, e: Element): (r: string)
    ensures Scoped(e) ==> |r| > |container| && r[..|container|] == container
    ensures !Scoped(e) ==> r == Suffix(e)
  {
    (if Scoped(e) then container else "") + Suffix(e)
  }

  /** The whole catalog, as the constructor registers it. */
  function Catalog(container: string): (r: map<Element, string>)
    ensures forall e: Element :: e in r && r[e] == Select(container, e)
  {
    map e: Element | true :: Select(container, e)
  }

  /**
   * The key a column name resolves to: the name is lower-cased, looked up in
   * `mapping` under that lower-cased form, and the result lower-cased again.
   */
  function ColumnKey(mapping: map<string, string>, column: string): (r: string)
    ensures IsLowerCase(r)
    ensures Lower(column) in mapping ==> r == Lower(mapping[Lower(column)])
    ensures Lower(column) !in mapping ==> r == Lower(column)
  {
    var c := Lower(column);
    Lower(if c in mapping then mapping[c] else c)
  }

  /** The placeholder the column template is formatted with. */
  const Placeholder: string := "{column}"

  /** `template.format(column=value)` for a template ending in the placeholder. */
  function Fill(template: string, value: string): string
    requires |template| >= |Placeholder|
  {
    template[..|template| - |Placeholder|] + value
  }

  /** The selector of the cells of `column` in a table in `container`. */
  function CellSelector(container: string, mapping: map<string, string>, column: string): (r: string)
    ensures r == container + " td.col-" + ColumnKey(mapping, column)
  {
    Fill(Select(container, Column), ColumnKey(mapping, column))
  }

  /** Column names are compared case-insensitively: names equal up to case resolve alike. */
  lemma ColumnKeyIgnoresCase(container: string, mapping: map<string, string>, c1: string, c2: string)
    requires Lower(c1) == Lower(c2)
    ensures ColumnKey(mapping, c1) == ColumnKey(mapping, c2)
    ensures CellSelector(container, mapping, c1) == CellSelector(container, mapping, c2)
  {
  }

  /**
   * A mapping key that is not lower-case is never consulted, since the lookup
   * uses the lower-cased column name: removing it changes no column key.
   */
  lemma NonLowerKeyIgnored(mapping: map<string, string>, key: string, column: string)
    requires key in mapping && !IsLowerCase(key)
    ensures ColumnKey(mapping, column) == ColumnKey(mapping - {key}, column)
  {
    assert IsLowerCase(Lower(column));
  }

  /** With the mapping `{"Status": "disabled"}` the column "Status" still resolves to "status". */
  lemma CapitalisedMappingExample()
    ensures ColumnKey(map["Status" := "disabled"], "Status") == "status"
  {
    var s := "Status";
    assert Lower(s) == "status" by {
      assert Lower(s)[0] == LowerChar('S') == 's';
    }
    assert "status" != s by { assert "status"[0] != s[0]; }
    LowerOfLowerCase("status");
  }

  /**
   * A translated column resolves to the same cells as its translation,
   * provided the translation is not itself re-mapped to something else.
   */
  lemma TranslatedColumnSameCells(mapping: map<string, string>, column: string)
    requires Lower(column) in mapping
    requires var t := mapping[Lower(column)];
      Lower(t) !in mapping || Lower(mapping[Lower(t)]) == Lower(t)
    ensures ColumnKey(mapping, column) == ColumnKey(mapping, mapping[Lower(column)])
  {
  }
}
