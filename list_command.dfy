/**
 * How the `list` command chooses between all tasks and pending tasks. The
 * command passes its `--all` option straight to `listTasks`, whose parameter
 * defaults to `true`. An absent boolean option is undefined, and an undefined
 * argument takes the parameter's default, so as written the choice does not
 * depend on the option at all.
 */
module ListCommand {
  import opened Wrappers
  import opened Tasks

  /** The value of `options.all`: true when `--all` is given, undefined otherwise. */
  function AllOption(allGiven: bool): (r: Option<bool>)
    ensures r.Some? <==> allGiven
    ensures r.Some? ==> r.value
  {
    if allGiven then Some(true) else None
  }

  /** `showCompleted` as the code computes it: an undefined argument becomes `true`. */
  function ShowCompletedAsWritten(allGiven: bool): (show: bool)
    ensures show
  {
    match AllOption(allGiven)
    case None => true
    case Some(b) => b
  }

  /** As written, `list` shows the whole list, completed tasks included, with or without `--all`. */
  lemma ListShowsEverythingAsWritten(ts: seq<Task>, allGiven: bool)
    ensures Visible(ts, ShowCompletedAsWritten(allGiven)) == ts
  {
  }

  /** `showCompleted` as the option describes it: completed tasks only with `--all`. */
  function ShowCompleted(allGiven: bool): (show: bool)
    ensures show <==> allGiven
  {
    match AllOption(allGiven)
    case None => false
    case Some(b) => b
  }

  /** With the intended choice, `list` without `--all` shows exactly the pending tasks. */
  lemma ListWithoutAllShowsPending(ts: seq<Task>)
    ensures forall t :: t in Visible(ts, ShowCompleted(false)) <==> t in ts && !t.completed
    ensures Visible(ts, ShowCompleted(true)) == ts
  {
  }
}
