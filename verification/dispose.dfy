/** The browser's disposal state (enum Dispose) and the transitions the
    native callbacks, the dialog answer and SWT's dispose apply to it, and the
    polling loop of close(). The event pump is an externally supplied sequence
    of steps, each carrying the clock reading in milliseconds. */
module Disposal {
  import opened Wrappers

  datatype Dispose = No | FromDispose | FromClose | FromBrowser | Unload | UnloadClosed | UnloadCancel | WaitIfClosed | DoIt

  /** doDispose: a close in progress (host close, unload prompt shown or
      answered, waiting after it) may now go ahead; a quiet browser whose widget
      still exists starts disposing from the browser side and queues the
      widget's dispose (second component). Any other state is left alone. */
  function DoDispose(d: Dispose, widgetExists: bool): (r: (Dispose, bool))
    ensures d in {FromClose, Unload, UnloadClosed, WaitIfClosed} ==> r == (DoIt, false)
    ensures d == No && widgetExists ==> r == (FromBrowser, true)
    ensures !(d in {FromClose, Unload, UnloadClosed, WaitIfClosed}) && !(d == No && widgetExists) ==> r == (d, false)
  {
    if d == FromClose || d == Unload || d == UnloadClosed || d == WaitIfClosed then (DoIt, false)
    else if d == No && widgetExists then (FromBrowser, true)
    else (d, false)
  }

  /** onBeforeUnloadDialog: a host close now waits on the page's prompt. With
      SWT dialogs the prompt is queued and the state moves on to
      UnloadClosed in the same call, which then answers true; with native
      dialogs it answers false. */
  function OnBeforeUnloadDialog(d: Dispose, useSwtDialogs: bool): (r: (Dispose, bool))
    ensures r.1 == useSwtDialogs
    ensures d == FromClose ==> r.0 == (if useSwtDialogs then UnloadClosed else Unload)
    ensures d == Unload ==> r.0 == (if useSwtDialogs then UnloadClosed else Unload)
    ensures d != FromClose && d != Unload ==> r.0 == d
  {
    var shown := if d == FromClose then Unload else d;
    if useSwtDialogs then
      (if shown == Unload then UnloadClosed else shown, true)
    else (shown, false)
  }

  /** onDialogClosed: an unload prompt that was shown has been closed. */
  function OnDialogClosed(d: Dispose): (r: Dispose)
    ensures d == Unload ==> r == UnloadClosed
    ensures d != Unload ==> r == d
  {
    if d == Unload then UnloadClosed else d
  }

  /** The dialog-close consumer of openJsDialog: for the browser's own
      (non-popup) dialog, a negative answer while the close waits on the page
      cancels the unload. */
  function OnJsDialogAnswer(d: Dispose, confirmed: bool, hasBrowser: bool, isPopup: bool): (r: Dispose)
    ensures hasBrowser && !isPopup && !confirmed && (d == Unload || d == WaitIfClosed) ==> r == UnloadCancel
    ensures !(hasBrowser && !isPopup && !confirmed && (d == Unload || d == WaitIfClosed)) ==> r == d
  {
    if hasBrowser && !isPopup && (d == Unload || d == WaitIfClosed) && !confirmed then UnloadCancel else d
  }

  /** The state part of dispose(): nothing when already disposing from SWT or
      when the widget is gone; otherwise FromDispose unless the browser side
      started it. */
  function OnWidgetDispose(d: Dispose, widgetDisposed: bool): (r: Dispose)
    ensures d == FromDispose || widgetDisposed || d == FromBrowser ==> r == d
    ensures !(d == FromDispose || widgetDisposed || d == FromBrowser) ==> r == FromDispose
  {
    if d == FromDispose || widgetDisposed then d
    else if d != FromBrowser then FromDispose
    else d
  }

  /** Something the event pump can run while close() waits. */
  datatype Event =
    | BrowserDoClose(widgetExists: bool)
    | BeforeUnloadDialog(useSwtDialogs: bool)
    | DialogClosed
    | DialogAnswer(confirmed: bool, hasBrowser: bool, isPopup: bool)
    | WidgetDispose(widgetDisposed: bool)

  function Apply(d: Dispose, e: Event): Dispose {
    match e
    case BrowserDoClose(widgetExists) => DoDispose(d, widgetExists).0
    case BeforeUnloadDialog(swt) => OnBeforeUnloadDialog(d, swt).0
    case DialogClosed => OnDialogClosed(d)
    case DialogAnswer(ok, hasBrowser, popup) => OnJsDialogAnswer(d, ok, hasBrowser, popup)
    case WidgetDispose(disposed) => OnWidgetDispose(d, disposed)
  }

  function ApplyAll(d: Dispose, events: seq<Event>): Dispose
    decreases |events|
  {
    if |events| == 0 then d else ApplyAll(Apply(d, events[0]), events[1..])
  }

  /** Only a negative answer to the browser's own dialog cancels an unload,
      and only while the close waits on the page. */
  lemma UnloadCancelOnlyByRefusal(d: Dispose, e: Event)
    requires d != UnloadCancel && Apply(d, e) == UnloadCancel
    ensures e.DialogAnswer? && !e.confirmed && e.hasBrowser && !e.isPopup
    ensures d == Unload || d == WaitIfClosed
  {
  }

  /** DoIt is reached only by doDispose, from a state of a close in progress. */
  lemma DoItOnlyFromClose(d: Dispose, e: Event)
    requires d != DoIt && Apply(d, e) == DoIt
    ensures e.BrowserDoClose?
    ensures d in {FromClose, Unload, UnloadClosed, WaitIfClosed}
  {
  }

  /** Once DoIt is set, only SWT's dispose moves the state away from it. */
  lemma DoItStays(e: Event)
    requires !e.WidgetDispose?
    ensures Apply(DoIt, e) == DoIt
  {
  }

  /** One step of the event pump: the clock reading taken by the loop test,
      whether the shell is disposed, and the events the pump runs. */
  datatype PumpStep = PumpStep(now: int, shellDisposed: bool, events: seq<Event>)

  /** Why close() returned. */
  datatype Exit = AlreadyDisposing | NoBrowser | ShellGone | DeadlinePassed | Cancelled | Closed

  /** The outcome of close(): the answer and the final state with the exit
      reason, or the state and deadline of a loop that is still waiting when
      the steps run out. */
  datatype CloseOutcome =
    | Returned(closed: bool, state: Dispose, exit: Exit)
    | StillWaiting(state: Dispose, end: int)

  /** Milliseconds close() waits at first. */
  const CLOSE_TIMEOUT: int := 10000
  /** Extra milliseconds granted for every poll that sees the unload prompt up. */
  const UNLOAD_EXTENSION: int := 1000
  /** Milliseconds close() keeps waiting after the unload prompt closed. */
  const CLOSED_GRACE: int := 600

  /** The polling loop of close() from state `d` and deadline `end`: each
      iteration tests the shell and the clock, reacts to the state, then runs
      the pump. On giving up the state goes back to No. */
  function Poll(d: Dispose, end: int, steps: seq<PumpStep>): (r: CloseOutcome)
    decreases |steps|
  {
    if |steps| == 0 then StillWaiting(d, end)
    else
      var step := steps[0];
      if step.shellDisposed then Returned(false, No, ShellGone)
      else if step.now >= end then Returned(false, No, DeadlinePassed)
      else if d == UnloadCancel then Returned(false, No, Cancelled)
      else if d == DoIt then Returned(true, DoIt, Closed)
      else
        var (d1, end1) :=
          if d == Unload then (d, end + UNLOAD_EXTENSION)
          else if d == UnloadClosed then (WaitIfClosed, step.now + CLOSED_GRACE)
          else (d, end);
        Poll(ApplyAll(d1, step.events), end1, steps[1..])
  }

  /** The outcome of close() as a whole. */
  function CloseSpec(d: Dispose, widgetDisposed: bool, hasBrowser: bool, start: int, steps: seq<PumpStep>): CloseOutcome {
    if d != No || widgetDisposed then Returned(false, d, AlreadyDisposing)
    else if !hasBrowser then Returned(true, d, NoBrowser)
    else Poll(FromClose, start + CLOSE_TIMEOUT, steps)
  }

  /** close(): refuse when disposal is under way or the widget is gone, succeed
      at once without a native browser, otherwise request the close and poll
      the state until DoIt, a cancelled unload, a disposed shell or the
      deadline. */
  method Close(d: Dispose, widgetDisposed: bool, hasBrowser: bool, start: int, steps: seq<PumpStep>)
    returns (r: CloseOutcome)
    ensures r == CloseSpec(d, widgetDisposed, hasBrowser, start, steps)
    ensures (d != No || widgetDisposed) ==> r == Returned(false, d, AlreadyDisposing)
    ensures d == No && !widgetDisposed && !hasBrowser ==> r == Returned(true, No, NoBrowser)
    ensures r.Returned? ==> (r.closed <==> r.exit in {Closed, NoBrowser})
  {
    if d != No || widgetDisposed {
      return Returned(false, d, AlreadyDisposing);
    }
    if !hasBrowser {
      return Returned(true, d, NoBrowser);
    }
    var disposing := FromClose;
    var end := start + CLOSE_TIMEOUT;
    var closed := false;
    var exit := DeadlinePassed;
    var i := 0;
    while i < |steps|
      invariant 0 <= i <= |steps|
      invariant Poll(disposing, end, steps[i..]) == Poll(FromClose, start + CLOSE_TIMEOUT, steps)
      invariant !closed
    {
      var step := steps[i];
      assert steps[i..][0] == step && steps[i..][1..] == steps[i + 1..];
      if step.shellDisposed {
        exit := ShellGone;
        break;
      }
      if step.now >= end {
        exit := DeadlinePassed;
        break;
      }
      if disposing == Unload {
        end := end + UNLOAD_EXTENSION;
      } else if disposing == UnloadCancel {
        exit := Cancelled;
        break;
      } else if disposing == UnloadClosed {
        disposing := WaitIfClosed;
        end := step.now + CLOSED_GRACE;
      } else if disposing == DoIt {
        closed := true;
        exit := Closed;
        break;
      }
      var j := 0;
      ghost var before := disposing;
      while j < |step.events|
        invariant 0 <= j <= |step.events|
        invariant ApplyAll(disposing, step.events[j..]) == ApplyAll(before, step.events)
      {
        assert step.events[j..][1..] == step.events[j + 1..];
        disposing := Apply(disposing, step.events[j]);
        j := j + 1;
      }
      i := i + 1;
    }
    if i == |steps| {
      return StillWaiting(disposing, end);
    }
    if !closed {
      disposing := No;
    }
    r := Returned(closed, disposing, exit);
  }

  /** close() answers true exactly when it saw DoIt, and whenever it answers
      false it has put the state back to No. */
  lemma {:induction false} PollAnswer(d: Dispose, end: int, steps: seq<PumpStep>)
    ensures var r := Poll(d, end, steps);
      r.Returned? ==> (r.closed <==> r.exit == Closed) && (r.closed ==> r.state == DoIt) && (!r.closed ==> r.state == No)
    decreases |steps|
  {
    if |steps| > 0 {
      var step := steps[0];
      var (d1, end1) :=
        if d == Unload then (d, end + UNLOAD_EXTENSION)
        else if d == UnloadClosed then (WaitIfClosed, step.now + CLOSED_GRACE)
        else (d, end);
      PollAnswer(ApplyAll(d1, step.events), end1, steps[1..]);
    }
  }

  /** The pump steps keep the unload prompt up: no event changes Unload. */
  ghost predicate PromptStaysUp(steps: seq<PumpStep>) {
    forall i :: 0 <= i < |steps| ==> !steps[i].shellDisposed && ApplyAll(Unload, steps[i].events) == Unload
  }

  /** The clock advances by less than the extension between polls. */
  ghost predicate PollsCloserThanExtension(steps: seq<PumpStep>) {
    forall i :: 0 <= i < |steps| - 1 ==> steps[i + 1].now < steps[i].now + UNLOAD_EXTENSION
  }

  /** While the page's unload prompt stays up and polls come faster than the
      extension, the deadline never catches up: close() keeps waiting. */
  lemma {:induction false} UnloadPromptKeepsWaiting(end: int, steps: seq<PumpStep>)
    requires PromptStaysUp(steps) && PollsCloserThanExtension(steps)
    requires |steps| > 0 ==> steps[0].now < end
    ensures Poll(Unload, end, steps).StillWaiting?
    ensures Poll(Unload, end, steps).state == Unload
    decreases |steps|
  {
    if |steps| > 0 {
      var rest := steps[1..];
      assert forall i :: 0 <= i < |rest| ==> rest[i] == steps[i + 1];
      UnloadPromptKeepsWaiting(end + UNLOAD_EXTENSION, rest);
    }
  }

  /** A refused unload prompt ends close() at the next poll that is still
      within the deadline: it answers false and resets the state. */
  lemma RefusalEndsClose(d: Dispose, end: int, answer: PumpStep, next: PumpStep, steps: seq<PumpStep>)
    requires d == Unload || d == WaitIfClosed
    requires !answer.shellDisposed && answer.now < end
    requires answer.events == [DialogAnswer(false, true, false)]
    requires !next.shellDisposed && next.now < (if d == Unload then end + UNLOAD_EXTENSION else end)
    ensures Poll(d, end, [answer, next] + steps) == Returned(false, No, Cancelled)
  {
    var all := [answer, next] + steps;
    assert all[0] == answer && all[1..][0] == next;
    assert answer.events[1..] == [];
    assert ApplyAll(d, answer.events) == UnloadCancel;
  }

  /** Once the prompt has closed, close() waits CLOSED_GRACE more
      milliseconds for DoIt: a poll at or after that time gives up. */
  lemma GraceAfterPromptClosed(end: int, closedAt: PumpStep, late: PumpStep, steps: seq<PumpStep>)
    requires !closedAt.shellDisposed && closedAt.now < end
    requires ApplyAll(WaitIfClosed, closedAt.events) == WaitIfClosed
    requires !late.shellDisposed && late.now >= closedAt.now + CLOSED_GRACE
    ensures Poll(UnloadClosed, end, [closedAt, late] + steps) == Returned(false, No, DeadlinePassed)
  {
    var all := [closedAt, late] + steps;
    assert all[0] == closedAt && all[1..][0] == late;
  }
}
