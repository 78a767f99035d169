/**
 * The downloads screen: which bulk actions the selection mode offers, where an
 * item click goes, and what a chosen action does to the selection.
 */
module Downloads {

  /** WorkManager's `WorkInfo.State`. */
  datatype WorkState = Enqueued | Running | Succeeded | Failed | Blocked | Cancelled {
    /** `isFinished`: the work reached a terminal state. */
    predicate IsFinished() {
      this == Succeeded || this == Failed || this == Cancelled
    }
  }

  /**
   * A row of the downloads list. `id` stands for the most significant half of
   * the row's UUID, the key the selection uses.
   */
  datatype DownloadItem = DownloadItem(
    id: int,
    canPause: bool,
    canResume: bool,
    workState: WorkState,
    isExpandable: bool,
    mangaId: int
  )

  /** Which of the four bulk actions the action mode menu shows. */
  datatype Visibility = Visibility(pause: bool, resume: bool, cancel: bool, remove: bool)

  // ---------------------------------------------------------------------------
  // onPrepareActionMode
  // ---------------------------------------------------------------------------

  /**
   * The fold over the selected downloads: every action starts visible and a
   * single item that does not allow it hides it.
   */
  method PrepareActionMode(snapshot: seq<DownloadItem>) returns (v: Visibility)
    ensures v.pause <==> forall it | it in snapshot :: it.canPause
    ensures v.resume <==> forall it | it in snapshot :: it.canResume
    ensures v.cancel <==> forall it | it in snapshot :: !it.workState.IsFinished()
    ensures v.remove <==> forall it | it in snapshot :: it.workState.IsFinished()
  {
    var canPause, canResume, canCancel, canRemove := true, true, true, true;
    var i := 0;
    while i < |snapshot|
      invariant 0 <= i <= |snapshot|
      invariant canPause <==> forall k | 0 <= k < i :: snapshot[k].canPause
      invariant canResume <==> forall k | 0 <= k < i :: snapshot[k].canResume
      invariant canCancel <==> forall k | 0 <= k < i :: !snapshot[k].workState.IsFinished()
      invariant canRemove <==> forall k | 0 <= k < i :: snapshot[k].workState.IsFinished()
    {
      var item := snapshot[i];
      canPause := canPause && item.canPause;
      canResume := canResume && item.canResume;
      canCancel := canCancel && !item.workState.IsFinished();
      canRemove := canRemove && item.workState.IsFinished();
      i := i + 1;
    }
    v := Visibility(canPause, canResume, canCancel, canRemove);
  }

  /** The menu as a declarative rule: an action shows when every selected item allows it. */
  function VisibilityOf(snapshot: seq<DownloadItem>): Visibility {
    Visibility(
      forall it | it in snapshot :: it.canPause,
      forall it | it in snapshot :: it.canResume,
      forall it | it in snapshot :: !it.workState.IsFinished(),
      forall it | it in snapshot :: it.workState.IsFinished())
  }

  /** The fold computes the declarative rule; with nothing selected every action shows. */
  method PrepareActionModeMatchesRule(snapshot: seq<DownloadItem>) returns (v: Visibility)
    ensures v == VisibilityOf(snapshot)
    ensures |snapshot| == 0 ==> v == Visibility(true, true, true, true)
    ensures |snapshot| > 0 ==> !(v.cancel && v.remove)
  {
    v := PrepareActionMode(snapshot);
    if |snapshot| > 0 {
      assert snapshot[0] in snapshot;
    }
  }

  /** Narrowing the selection never hides an action. */
  lemma VisibilityAntitone(small: seq<DownloadItem>, large: seq<DownloadItem>)
    requires forall it | it in small :: it in large
    ensures VisibilityOf(large).pause ==> VisibilityOf(small).pause
    ensures VisibilityOf(large).resume ==> VisibilityOf(small).resume
    ensures VisibilityOf(large).cancel ==> VisibilityOf(small).cancel
    ensures VisibilityOf(large).remove ==> VisibilityOf(small).remove
  {
  }

  // ---------------------------------------------------------------------------
  // onItemClick
  // ---------------------------------------------------------------------------

  /** Where a click on a download row leads. */
  datatype ClickOutcome = SelectionToggled | ExpansionToggled(item: DownloadItem) | DetailsOpened(mangaId: int)

  /**
   * `onItemClick`: `consumed` is the selection controller's answer for the
   * most significant half of the item's id (true while the action mode is active).
   */
  function OnItemClick(item: DownloadItem, consumed: bool): (r: ClickOutcome)
    ensures consumed <==> r == SelectionToggled
    ensures !consumed && item.isExpandable <==> r == ExpansionToggled(item)
    ensures !consumed && !item.isExpandable <==> r == DetailsOpened(item.mangaId)
  {
    if consumed then SelectionToggled
    else if item.isExpandable then ExpansionToggled(item)
    else DetailsOpened(item.mangaId)
  }

  // ---------------------------------------------------------------------------
  // onActionItemClicked
  // ---------------------------------------------------------------------------

  /** The menu entries of the downloads action mode; `Other` is any other id. */
  datatype MenuAction = ResumeAction | PauseAction | CancelAction | RemoveAction | SelectAllAction | Other(itemId: int)

  /** What the view model is asked to do, on which selected ids. */
  datatype Command = NoCommand | Resume(ids: set<int>) | Pause(ids: set<int>) | Cancel(ids: set<int>) | Remove(ids: set<int>)

  /**
   * The outcome of a menu click: handled flag, command, whether the mode ends,
   * and the selection as this handler leaves it. What the selection controller
   * does when the mode finishes is not modelled.
   */
  datatype ActionResult = ActionResult(handled: bool, command: Command, finishMode: bool, selection: set<int>)

  /** `onActionItemClicked`: the four bulk actions act on the selection and end the mode. */
  function OnActionItemClicked(action: MenuAction, selection: set<int>, allIds: set<int>): (r: ActionResult)
    ensures r.handled <==> !action.Other?
    ensures r.finishMode <==> action in {ResumeAction, PauseAction, CancelAction, RemoveAction}
    ensures r.finishMode ==> r.selection == selection && r.command != NoCommand && r.command.ids == selection
    ensures action == SelectAllAction ==> r.command == NoCommand && r.selection == selection + allIds
    ensures action.Other? ==> r.command == NoCommand && r.selection == selection
    ensures action == ResumeAction <==> r.command.Resume?
    ensures action == PauseAction <==> r.command.Pause?
    ensures action == CancelAction <==> r.command.Cancel?
    ensures action == RemoveAction <==> r.command.Remove?
  {
    match action
    case ResumeAction => ActionResult(true, Resume(selection), true, selection)
    case PauseAction => ActionResult(true, Pause(selection), true, selection)
    case CancelAction => ActionResult(true, Cancel(selection), true, selection)
    case RemoveAction => ActionResult(true, Remove(selection), true, selection)
    case SelectAllAction => ActionResult(true, NoCommand, false, selection + allIds)
    case Other(_) => ActionResult(false, NoCommand, false, selection)
  }

  /** Select-all twice selects what select-all once does, and every listed id ends up selected. */
  lemma SelectAllIdempotent(selection: set<int>, allIds: set<int>)
    ensures var once := OnActionItemClicked(SelectAllAction, selection, allIds).selection;
      && OnActionItemClicked(SelectAllAction, once, allIds).selection == once
      && allIds <= once
      && selection <= once
  {
  }
}
