/**
 * The delete-confirmation flow of `Table.delete_row`, stated over values: the
 * outcome, the interactions issued and the rows left afterwards.
 *
 * The row is looked up first; then its action toggle and the menu's delete
 * item are clicked and the prompt is awaited. Cancel takes priority over
 * close; both dismiss the dialog and return `True`. Otherwise the submit
 * button is clicked (the application removes the row), the loading message is
 * awaited to appear and then to vanish, and nothing is returned. A wait that
 * times out raises.
 */
module Deletion {
  import opened Selectors
  import opened Dom

  /** What a call returned (`Some(true)` for Python's `True`, `None` for `None`), what it did, and the rows left. */
  datatype DeleteRun = DeleteRun(result: Result<Option<bool>>, events: seq<Event>, rows: seq<Row>)

  /** Clicking a dismiss button of the dialog and waiting for it to vanish: the outcome, the interactions and the rows. */
  function Dismiss(env: Env, button: Target, control: Element, rows: seq<Row>): DeleteRun {
    var events := [Click(button), WaitVanish(control)];
    if control in env.neverVanish then DeleteRun(Err(Timeout(control)), events, rows)
    else DeleteRun(Ok(Some(true)), events, rows)
  }

  /**
   * Clicking submit: the application removes row `k`; then the loading
   * message is awaited to appear and to vanish.
   */
  function Confirm(env: Env, k: nat, rows: seq<Row>): DeleteRun
    requires k < |rows|
  {
    var loading := DeleteLoading;
    var remaining := rows[..k] + rows[k + 1..];
    var submitted := [Click(SubmitButton), WaitAppear(loading)];
    if loading in env.neverAppear then DeleteRun(Err(Timeout(loading)), submitted, remaining)
    else
      var settled := submitted + [WaitVanish(loading)];
      if loading in env.neverVanish then DeleteRun(Err(Timeout(loading)), settled, remaining)
      else DeleteRun(Ok(None), settled, remaining)
  }

  /** Answering the prompt for row `k`: cancel takes priority over close, and neither confirms. */
  function Answer(env: Env, k: nat, rows: seq<Row>, cancel: bool, close: bool): DeleteRun
    requires k < |rows|
  {
    if cancel then Dismiss(env, CancelButton, DeleteCancel, rows)
    else if close then Dismiss(env, CloseButton, DeleteClose, rows)
    else Confirm(env, k, rows)
  }

  /**
   * `delete_row(name, cancel, close)` on `rows`. The rows are either kept or
   * lose exactly the row found; a call that returns gives `True` when it
   * dismissed the dialog and `None` when it confirmed.
   */
  function DeleteOutcome(cfg: Config, env: Env, rows: seq<Row>, name: string, cancel: bool, close: bool): (r: DeleteRun)
    ensures r.rows == rows || (FindRow(cfg, rows, name).Ok?
                               && r.rows == rows[..FindRow(cfg, rows, name).value] + rows[FindRow(cfg, rows, name).value + 1..])
    ensures r.result.Ok? ==> r.result.value == (if cancel || close then Some(true) else None)
  {
    match FindRow(cfg, rows, name)
    case Err(e) => DeleteRun(Err(e), [], rows)
    case Ok(k) =>
      var prompt := DeletePrompt;
      var shown := [Click(RowActions(k)), Click(DeleteAction), WaitAppear(prompt)];
      if prompt in env.neverAppear then DeleteRun(Err(Timeout(prompt)), shown, rows)
      else
        var answer := Answer(env, k, rows, cancel, close);
        DeleteRun(answer.result, shown + answer.events, answer.rows)
  }

  /** The submit button is clicked among `events`. */
  predicate Submits(events: seq<Event>) {
    Click(SubmitButton) in events
  }

  /**
   * The row is looked up before anything is clicked: when the lookup fails,
   * its error is raised and nothing was clicked or removed; otherwise the
   * first click is on the action toggle of the row found.
   */
  lemma DeleteLooksUpFirst(cfg: Config, env: Env, rows: seq<Row>, name: string, cancel: bool, close: bool)
    ensures var run := DeleteOutcome(cfg, env, rows, name, cancel, close);
      var found := FindRow(cfg, rows, name);
      && (found.Err? ==> run == DeleteRun(Err(found.error), [], rows))
      && (found.Ok? ==> |run.events| > 0 && run.events[0] == Click(RowActions(found.value))
                        && NameOf(cfg, rows[found.value]) == Ok(name))
  {
    FindRowFirst(cfg, rows, name);
  }

  /** With `cancel` set, `close` makes no difference. */
  lemma DeleteCancelWins(cfg: Config, env: Env, rows: seq<Row>, name: string)
    ensures DeleteOutcome(cfg, env, rows, name, true, true) == DeleteOutcome(cfg, env, rows, name, true, false)
    ensures var run := DeleteOutcome(cfg, env, rows, name, true, true);
      Click(CloseButton) !in run.events
  {
  }

  /**
   * Cancelling or closing never clicks submit and never removes a row; it
   * returns `True` exactly when the row exists, the prompt appears and the
   * dismiss control vanishes, and otherwise raises.
   */
  lemma DeleteDismissKeepsRows(cfg: Config, env: Env, rows: seq<Row>, name: string, cancel: bool, close: bool)
    requires cancel || close
    ensures var run := DeleteOutcome(cfg, env, rows, name, cancel, close);
      var control := if cancel then DeleteCancel else DeleteClose;
      && run.rows == rows
      && !Submits(run.events)
      && (run.result.Ok? ==> run.result.value == Some(true))
      && (run.result.Ok? <==> FindRow(cfg, rows, name).Ok?
                              && DeletePrompt !in env.neverAppear
                              && control !in env.neverVanish)
  {
    match FindRow(cfg, rows, name)
    case Err(_) =>
    case Ok(k) =>
      var prompt := DeletePrompt;
      var shown := [Click(RowActions(k)), Click(DeleteAction), WaitAppear(prompt)];
      var answer := Answer(env, k, rows, cancel, close);
      var control := if cancel then DeleteCancel else DeleteClose;
      assert answer.events == [Click(if cancel then CancelButton else CloseButton), WaitVanish(control)];
      assert prompt !in env.neverAppear ==> DeleteOutcome(cfg, env, rows, name, cancel, close).events == shown + answer.events;
  }

  /**
   * Confirming clicks submit once the prompt appears, removes exactly the
   * row found, then waits for the loading message to appear and to vanish,
   * and returns nothing when both waits succeed.
   */
  lemma DeleteCommit(cfg: Config, env: Env, rows: seq<Row>, name: string)
    requires FindRow(cfg, rows, name).Ok?
    requires DeletePrompt !in env.neverAppear
    ensures var run := DeleteOutcome(cfg, env, rows, name, false, false);
      var k := FindRow(cfg, rows, name).value;
      var loading := DeleteLoading;
      && k < |rows|
      && run.rows == rows[..k] + rows[k + 1..]
      && |run.events| >= 5
      && run.events[3] == Click(SubmitButton) && run.events[4] == WaitAppear(loading)
      && (loading !in env.neverAppear ==> |run.events| == 6 && run.events[5] == WaitVanish(loading))
      && (run.result.Ok? <==> loading !in env.neverAppear && loading !in env.neverVanish)
      && (run.result.Ok? ==> run.result.value == None)
  {
    var k := FindRow(cfg, rows, name).value;
    var prompt := DeletePrompt;
    var loading := DeleteLoading;
    var shown := [Click(RowActions(k)), Click(DeleteAction), WaitAppear(prompt)];
    var answer := Confirm(env, k, rows);
    assert answer.events[..2] == [Click(SubmitButton), WaitAppear(loading)];
    var run := DeleteOutcome(cfg, env, rows, name, false, false);
    assert run.events == shown + answer.events;
  }

  /**
   * A prompt that never appears raises its timeout whatever the answer would
   * have been: nothing is submitted and no row is removed.
   */
  lemma DeletePromptMissing(cfg: Config, env: Env, rows: seq<Row>, name: string, cancel: bool, close: bool)
    requires FindRow(cfg, rows, name).Ok?
    requires DeletePrompt in env.neverAppear
    ensures var run := DeleteOutcome(cfg, env, rows, name, cancel, close);
      && run.result == Err(Timeout(DeletePrompt))
      && run.rows == rows
      && !Submits(run.events)
      && run.events[|run.events| - 1] == WaitAppear(DeletePrompt)
  {
  }

  /**
   * When row names are unique, a confirmed deletion leaves no row of that
   * name, and every other row in its order.
   */
  lemma DeleteCommitRemovesName(cfg: Config, env: Env, rows: seq<Row>, name: string)
    requires FindRow(cfg, rows, name).Ok?
    requires DeletePrompt !in env.neverAppear
    requires UniqueNames(cfg, rows)
    ensures var left := DeleteOutcome(cfg, env, rows, name, false, false).rows;
      var k := FindRow(cfg, rows, name).value;
      && left == rows[..k] + rows[k + 1..]
      && |left| == |rows| - 1
      && forall i :: 0 <= i < |left| ==> NameOf(cfg, left[i]) != Ok(name)
  {
    FindRowFirst(cfg, rows, name);
    var k := FindRow(cfg, rows, name).value;
    var left := DeleteOutcome(cfg, env, rows, name, false, false).rows;
    assert left == rows[..k] + rows[k + 1..];
    forall i | 0 <= i < |left| ensures NameOf(cfg, left[i]) != Ok(name) {
      var j := if i < k then i else i + 1;
      assert left[i] == rows[j];
      assert NameOf(cfg, rows[j]) != NameOf(cfg, rows[k]);
    }
  }
}
