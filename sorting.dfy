/**
 * The sort state machine of `Table.sort_column`, stated over values: which
 * header it acts on, how many times it clicks it, the classes the header ends
 * with, and the interactions issued.
 *
 * A click is the application's transition on the clicked header's class:
 * unsorted -> "asc", "asc" -> "desc", "desc" -> "asc". The current order is
 * taken as the sort routine reads it from the class.
 */
module Sorting {
  import opened Strings
  import opened Dom

  /** The class a header is re-rendered with after a click. */
  function Clicked(cls: string): (r: string)
    ensures SourceState(r) == (if SourceState(cls) == Ascending then Descending else Ascending)
    ensures ReportedState(r) == SourceState(r)
  {
    ReadingsAgreeOnRendered();
    if SourceState(cls) == Ascending then "desc" else "asc"
  }

  /** The class after `n` clicks. */
  function ClickTimes(cls: string, n: nat): string
    decreases n
  {
    if n == 0 then cls else ClickTimes(Clicked(cls), n - 1)
  }

  function Goal(ascending: bool): SortState {
    if ascending then Ascending else Descending
  }

  /** The clicks the sort routine issues on a header in `state` to reach the requested order. */
  function ClicksNeeded(state: SortState, ascending: bool): (n: nat)
    ensures n <= 2
    ensures n == 0 <==> state == Goal(ascending)
  {
    match state
    case Ascending => if ascending then 0 else 1
    case Descending => if ascending then 1 else 0
    case Unsorted => if ascending then 1 else 2
  }

  /** Clicking as often as needed reaches the requested order, in both readings once a click was made. */
  lemma ClicksNeededReachGoal(cls: string, ascending: bool)
    ensures var after := ClickTimes(cls, ClicksNeeded(SourceState(cls), ascending));
      && SourceState(after) == Goal(ascending)
      && (ClicksNeeded(SourceState(cls), ascending) > 0 ==> ReportedState(after) == Goal(ascending))
  {
    var once := Clicked(cls);
    assert ClickTimes(cls, 1) == once;
    assert ClickTimes(cls, 2) == Clicked(once) by {
      assert ClickTimes(once, 1) == Clicked(once);
    }
  }

  /** The first header at or after `i` whose lower-cased text is the lower-cased column. */
  function FirstMatchFrom(headers: seq<Header>, column: string, i: nat): (r: Option<nat>)
    requires i <= |headers|
    ensures r.Some? ==> i <= r.value < |headers| && Lower(headers[r.value].text) == Lower(column)
    decreases |headers| - i
  {
    if i == |headers| then None
    else if Lower(headers[i].text) == Lower(column) then Some(i)
    else FirstMatchFrom(headers, column, i + 1)
  }

  function FirstMatch(headers: seq<Header>, column: string): (r: Option<nat>)
    ensures r.Some? ==> r.value < |headers| && Lower(headers[r.value].text) == Lower(column)
  {
    FirstMatchFrom(headers, column, 0)
  }

  /** The headers before `k` do not match `column`. */
  predicate NoMatchBefore(headers: seq<Header>, column: string, k: nat)
    requires k <= |headers|
  {
    forall j :: 0 <= j < k ==> Lower(headers[j].text) != Lower(column)
  }

  lemma {:induction false} FirstMatchFromFirst(headers: seq<Header>, column: string, i: nat)
    requires i <= |headers| && NoMatchBefore(headers, column, i)
    ensures var r := FirstMatchFrom(headers, column, i);
      && (r.None? <==> NoMatchBefore(headers, column, |headers|))
      && (r.Some? ==> i <= r.value < |headers| && Lower(headers[r.value].text) == Lower(column)
                      && NoMatchBefore(headers, column, r.value))
    decreases |headers| - i
  {
    if i < |headers| {
      if Lower(headers[i].text) == Lower(column) {
        assert !NoMatchBefore(headers, column, |headers|);
      } else {
        FirstMatchFromFirst(headers, column, i + 1);
      }
    }
  }

  /**
   * The header acted on is the first whose text matches the column
   * case-insensitively; there is none exactly when no header matches.
   */
  lemma FirstMatchFirst(headers: seq<Header>, column: string)
    ensures var r := FirstMatch(headers, column);
      && (r.None? <==> NoMatchBefore(headers, column, |headers|))
      && (r.Some? ==> r.value < |headers| && Lower(headers[r.value].text) == Lower(column)
                      && NoMatchBefore(headers, column, r.value))
  {
    FirstMatchFromFirst(headers, column, 0);
  }

  /** The scan depends on header texts only. */
  lemma {:induction false} FirstMatchFromTexts(headers: seq<Header>, other: seq<Header>, column: string, i: nat)
    requires |headers| == |other| && i <= |headers|
    requires forall j :: 0 <= j < |headers| ==> headers[j].text == other[j].text
    ensures FirstMatchFrom(headers, column, i) == FirstMatchFrom(other, column, i)
    decreases |headers| - i
  {
    if i < |headers| {
      FirstMatchFromTexts(headers, other, column, i + 1);
    }
  }

  /**
   * The headers after `sort_column(column, ascending)`: the same headers with
   * the same texts, of which only the first matching one may have a new class.
   */
  function SortedHeaders(headers: seq<Header>, column: string, ascending: bool): (r: seq<Header>)
    ensures |r| == |headers|
    ensures forall j :: 0 <= j < |headers| ==> r[j].text == headers[j].text
    ensures forall j :: 0 <= j < |headers| && FirstMatch(headers, column) != Some(j) ==> r[j] == headers[j]
  {
    match FirstMatch(headers, column)
    case None => headers
    case Some(k) =>
      var h := headers[k];
      headers[k := h.(cls := ClickTimes(h.cls, ClicksNeeded(SourceState(h.cls), ascending)))]
  }

  /** `n` rounds of a click on header `k` followed by `wait`. */
  function ClickRounds(k: nat, wait: seq<Event>, n: nat): seq<Event>
    decreases n
  {
    if n == 0 then [] else [Click(HeaderCell(k))] + wait + ClickRounds(k, wait, n - 1)
  }

  /**
   * The interactions of `sort_column(column, ascending)`, with `wait` after
   * each click: none when no header matches or the match is already in the
   * requested order, and otherwise at most two clicks.
   */
  function SortEvents(headers: seq<Header>, column: string, ascending: bool, wait: seq<Event>): (r: seq<Event>)
    ensures r == [] <==> match FirstMatch(headers, column)
                         case None => true
                         case Some(k) => SourceState(headers[k].cls) == Goal(ascending)
    ensures Clicks(wait) == 0 ==> Clicks(r) <= 2
  {
    match FirstMatch(headers, column)
    case None => []
    case Some(k) =>
      var n := ClicksNeeded(SourceState(headers[k].cls), ascending);
      if Clicks(wait) == 0 then
        ClickRoundsCount(k, wait, n);
        ClickRounds(k, wait, n)
      else ClickRounds(k, wait, n)
  }

  /** Every click of `events` lands on header `k`. */
  predicate OnlyClicks(events: seq<Event>, k: nat) {
    forall i :: 0 <= i < |events| && events[i].Click? ==> events[i].target == HeaderCell(k)
  }

  lemma {:induction false} ClickRoundsCount(k: nat, wait: seq<Event>, n: nat)
    requires Clicks(wait) == 0
    ensures Clicks(ClickRounds(k, wait, n)) == n
    ensures OnlyClicks(wait, k) ==> OnlyClicks(ClickRounds(k, wait, n), k)
    decreases n
  {
    if n > 0 {
      var rest := ClickRounds(k, wait, n - 1);
      ClickRoundsCount(k, wait, n - 1);
      ClicksAppend([Click(HeaderCell(k))] + wait, rest);
      ClicksAppend([Click(HeaderCell(k))], wait);
      assert Clicks([Click(HeaderCell(k))]) == 1 by {
        assert [Click(HeaderCell(k))][1..] == [];
      }
    }
  }

  /**
   * A column no header matches is left alone: nothing is clicked and no
   * header changes.
   */
  lemma SortUnknownColumn(headers: seq<Header>, column: string, ascending: bool, wait: seq<Event>)
    requires forall j :: 0 <= j < |headers| ==> Lower(headers[j].text) != Lower(column)
    ensures SortedHeaders(headers, column, ascending) == headers
    ensures SortEvents(headers, column, ascending, wait) == []
  {
    FirstMatchFirst(headers, column);
  }

  /**
   * When a header matches, the sort routine clicks only the first matching
   * header, as often as its current order requires (none when already in the
   * requested order, one from the opposite order or from unsorted to
   * ascending, two from unsorted to descending), and that header ends in the
   * requested order; every other header is unchanged.
   */
  lemma SortMatchedColumn(headers: seq<Header>, column: string, ascending: bool, wait: seq<Event>)
    requires FirstMatch(headers, column).Some?
    requires Clicks(wait) == 0
    ensures var k := FirstMatch(headers, column).value;
      var after := SortedHeaders(headers, column, ascending);
      var n := ClicksNeeded(SourceState(headers[k].cls), ascending);
      && k < |headers| && Lower(headers[k].text) == Lower(column)
      && (forall j :: 0 <= j < k ==> Lower(headers[j].text) != Lower(column))
      && |after| == |headers|
      && Clicks(SortEvents(headers, column, ascending, wait)) == n
      && (OnlyClicks(wait, k) ==> OnlyClicks(SortEvents(headers, column, ascending, wait), k))
      && after[k].text == headers[k].text
      && SourceState(after[k].cls) == Goal(ascending)
      && (n > 0 ==> ReportedState(after[k].cls) == Goal(ascending))
      && (forall j :: 0 <= j < |headers| && j != k ==> after[j] == headers[j])
  {
    FirstMatchFirst(headers, column);
    var k := FirstMatch(headers, column).value;
    ClicksNeededReachGoal(headers[k].cls, ascending);
    ClickRoundsCount(k, wait, ClicksNeeded(SourceState(headers[k].cls), ascending));
  }

  /** Sorting a column a second time in the same order clicks nothing and changes nothing. */
  lemma SortIdempotent(headers: seq<Header>, column: string, ascending: bool, wait: seq<Event>)
    ensures var after := SortedHeaders(headers, column, ascending);
      && SortEvents(after, column, ascending, wait) == []
      && SortedHeaders(after, column, ascending) == after
  {
    var after := SortedHeaders(headers, column, ascending);
    match FirstMatch(headers, column)
    case None =>
    case Some(k) =>
      FirstMatchFirst(headers, column);
      FirstMatchFromTexts(headers, after, column, 0);
      ClicksNeededReachGoal(headers[k].cls, ascending);
      assert ClicksNeeded(SourceState(after[k].cls), ascending) == 0;
      assert after[k := after[k].(cls := after[k].cls)] == after;
  }

  /**
   * After a sort that clicked, the order reported by the headers' classes is
   * the sorted column in the requested order, provided no header before it
   * reports an order of its own.
   */
  lemma SortThenReport(headers: seq<Header>, column: string, ascending: bool)
    requires FirstMatch(headers, column).Some?
    requires var k := FirstMatch(headers, column).value;
      && ClicksNeeded(SourceState(headers[k].cls), ascending) > 0
      && forall j :: 0 <= j < k ==> ReportedState(headers[j].cls) == Unsorted
    ensures SortOrderOf(SortedHeaders(headers, column, ascending)) == Some(SortOrder(Lower(column), ascending))
  {
    FirstMatchFirst(headers, column);
    var k := FirstMatch(headers, column).value;
    var after := SortedHeaders(headers, column, ascending);
    ClicksNeededReachGoal(headers[k].cls, ascending);
    assert FirstReported(after, k);
    var r := SortOrderOf(after);
    var k' :| 0 <= k' < |after| && FirstReported(after, k')
              && r.value == SortOrder(Lower(after[k'].text), ReportedState(after[k'].cls) == Ascending);
    FirstReportedUnique(after, k, k');
  }

  /** Ascending then descending on the same column leaves it descending in both readings. */
  lemma SortAscThenDesc(headers: seq<Header>, column: string)
    requires FirstMatch(headers, column).Some?
    ensures var k := FirstMatch(headers, column).value;
      var after := SortedHeaders(SortedHeaders(headers, column, true), column, false);
      |after| == |headers| && SourceState(after[k].cls) == Descending && ReportedState(after[k].cls) == Descending
  {
    var k := FirstMatch(headers, column).value;
    var mid := SortedHeaders(headers, column, true);
    SortMatchedColumn(headers, column, true, []);
    FirstMatchFromTexts(headers, mid, column, 0);
    SortMatchedColumn(mid, column, false, []);
  }
}
