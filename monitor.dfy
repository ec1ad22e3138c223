/**
 * The agent (monitor.py): a polling loop that uploads an observation only when
 * the foreground window title is non-empty and differs from the last title it
 * sent, and the `monitoring` flag that the tray menu's Start and Stop items
 * set and clear.
 */
module Monitor {
  import opened Common

  // ---------------------------------------------------------------------------
  // The change detector
  // ---------------------------------------------------------------------------

  /** Python truthiness of `get_active_window()`: neither `None` nor "". */
  predicate IsTruthy(window: Option<string>) {
    window.Some? && window.value != ""
  }

  /** The guard of line 83: `active_window and active_window != last_window`. */
  predicate ShouldUpload(window: Option<string>, lastWindow: Option<string>) {
    IsTruthy(window) && window != lastWindow
  }

  /** The titles uploaded for a run of observations, starting from `lastWindow`. */
  function Uploads(lastWindow: Option<string>, observed: seq<Option<string>>): (sent: seq<string>)
    ensures |sent| <= |observed|
    ensures forall i :: 0 <= i < |sent| ==> sent[i] != "" && Some(sent[i]) in observed
    decreases |observed|
  {
    if observed == [] then []
    else if ShouldUpload(observed[0], lastWindow) then [observed[0].value] + Uploads(observed[0], observed[1..])
    else Uploads(lastWindow, observed[1..])
  }

  /** The value of `last_window` after a run of observations, starting from `lastWindow`. */
  function FinalWindow(lastWindow: Option<string>, observed: seq<Option<string>>): (w: Option<string>)
    ensures w == lastWindow || (IsTruthy(w) && w in observed)
    decreases |observed|
  {
    if observed == [] then lastWindow
    else if ShouldUpload(observed[0], lastWindow) then FinalWindow(observed[0], observed[1..])
    else FinalWindow(lastWindow, observed[1..])
  }

  /** The titles that were actually read, skipping the polls that returned `None`. */
  function Titles(observed: seq<Option<string>>): seq<string> {
    if observed == [] then []
    else (if observed[0].Some? then [observed[0].value] else []) + Titles(observed[1..])
  }

  /** No two neighbouring elements are equal. */
  predicate NoRepeats(s: seq<string>) {
    forall i :: 0 <= i < |s| - 1 ==> s[i] != s[i + 1]
  }

  /**
   * `last_window` is the title of the latest upload; with no upload it keeps
   * its value, since null, empty and unchanged observations leave it alone.
   */
  lemma {:induction false} FinalWindowIsLastUpload(lastWindow: Option<string>, observed: seq<Option<string>>)
    ensures var sent := Uploads(lastWindow, observed);
            FinalWindow(lastWindow, observed) == if sent == [] then lastWindow else Some(sent[|sent| - 1])
    decreases |observed|
  {
    if observed != [] {
      if ShouldUpload(observed[0], lastWindow) {
        FinalWindowIsLastUpload(observed[0], observed[1..]);
      } else {
        FinalWindowIsLastUpload(lastWindow, observed[1..]);
      }
    }
  }

  /** Every uploaded title is non-empty, and the first one differs from the starting `last_window`. */
  lemma {:induction false} UploadsAreNewAndNonEmpty(lastWindow: Option<string>, observed: seq<Option<string>>)
    ensures forall t :: t in Uploads(lastWindow, observed) ==> t != ""
    ensures Uploads(lastWindow, observed) != [] ==> Some(Uploads(lastWindow, observed)[0]) != lastWindow
    decreases |observed|
  {
    if observed != [] {
      if ShouldUpload(observed[0], lastWindow) {
        UploadsAreNewAndNonEmpty(observed[0], observed[1..]);
      } else {
        UploadsAreNewAndNonEmpty(lastWindow, observed[1..]);
      }
    }
  }

  /** No title is uploaded twice in a row. */
  lemma {:induction false} UploadsHaveNoRepeats(lastWindow: Option<string>, observed: seq<Option<string>>)
    ensures NoRepeats(Uploads(lastWindow, observed))
    decreases |observed|
  {
    if observed != [] {
      if ShouldUpload(observed[0], lastWindow) {
        var rest := Uploads(observed[0], observed[1..]);
        UploadsHaveNoRepeats(observed[0], observed[1..]);
        UploadsAreNewAndNonEmpty(observed[0], observed[1..]);
        var sent := [observed[0].value] + rest;
        forall i | 0 <= i < |sent| - 1
          ensures sent[i] != sent[i + 1]
        {
          if i > 0 {
            assert sent[i] == rest[i - 1] && sent[i + 1] == rest[i];
          }
        }
      } else {
        UploadsHaveNoRepeats(lastWindow, observed[1..]);
      }
    }
  }

  /** The uploaded titles are a subsequence of the titles read, in the same order. */
  lemma {:induction false} UploadsAreSubsequence(lastWindow: Option<string>, observed: seq<Option<string>>)
    ensures IsSubsequence(Uploads(lastWindow, observed), Titles(observed))
    decreases |observed|
  {
    if observed != [] {
      var restTitles := Titles(observed[1..]);
      if ShouldUpload(observed[0], lastWindow) {
        UploadsAreSubsequence(observed[0], observed[1..]);
        var rest := Uploads(observed[0], observed[1..]);
        assert ([observed[0].value] + rest)[1..] == rest;
        assert ([observed[0].value] + restTitles)[1..] == restTitles;
      } else {
        UploadsAreSubsequence(lastWindow, observed[1..]);
        if observed[0].Some? {
          assert ([observed[0].value] + restTitles)[1..] == restTitles;
        } else {
          assert [] + restTitles == restTitles;
        }
      }
    }
  }

  /** Starting from `last_window = None`, the first truthy observation is always uploaded first. */
  lemma {:induction false} FirstTruthyIsUploaded(observed: seq<Option<string>>, i: int)
    requires 0 <= i < |observed| && IsTruthy(observed[i])
    requires forall j :: 0 <= j < i ==> !IsTruthy(observed[j])
    ensures Uploads(None, observed) != [] && Uploads(None, observed)[0] == observed[i].value
    decreases i
  {
    if i > 0 {
      FirstTruthyIsUploaded(observed[1..], i - 1);
    }
  }

  // ---------------------------------------------------------------------------
  // The monitoring flag and the loop
  // ---------------------------------------------------------------------------

  /**
   * What the loop sees between two checks of its guard: the title polled, or
   * that the Stop menu item ran (on the tray's thread) during the sleep.
   */
  datatype Tick = Poll(window: Option<string>) | StopRequest

  /** The polls the loop performs before the first stop request. */
  function PollsBeforeStop(ticks: seq<Tick>): seq<Option<string>> {
    if ticks == [] then []
    else match ticks[0]
      case StopRequest => []
      case Poll(window) => [window] + PollsBeforeStop(ticks[1..])
  }

  /**
   * The module-level state `monitoring` and `monitor_thread`. The thread
   * object is represented by the number of loop threads started so far.
   */
  class Agent {
    var monitoring: bool
    var loopsStarted: nat

    /** Lines 17-18: not monitoring, no thread. */
    constructor ()
      ensures !monitoring && loopsStarted == 0
    {
      monitoring := false;
      loopsStarted := 0;
    }

    /** Lines 90-96: only when not yet monitoring, set the flag and start one loop thread. */
    method StartMonitoring()
      modifies this
      ensures monitoring
      ensures loopsStarted == if old(monitoring) then old(loopsStarted) else old(loopsStarted) + 1
    {
      if !monitoring {
        monitoring := true;
        loopsStarted := loopsStarted + 1;
      }
    }

    /** Lines 98-101: clear the flag; a running loop ends at its next guard check. */
    method StopMonitoring()
      modifies this
      ensures !monitoring && loopsStarted == old(loopsStarted)
    {
      monitoring := false;
    }

    /**
     * Lines 75-88: `last_window` starts as `None`; while the flag is set, poll
     * the window and upload when ShouldUpload holds. Reading the user name,
     * the host name, the screenshot and the clock are left out; an upload is
     * represented by its window title.
     */
    method MonitorLoop(ticks: seq<Tick>) returns (sent: seq<string>, lastWindow: Option<string>)
      modifies this
      ensures sent == if old(monitoring) then Uploads(None, PollsBeforeStop(ticks)) else []
      ensures lastWindow == if sent == [] then None else Some(sent[|sent| - 1])
      ensures monitoring == (old(monitoring) && StopRequest !in ticks)
      ensures loopsStarted == old(loopsStarted)
    {
      ghost var wasMonitoring := monitoring;
      ghost var polled: seq<Option<string>> := [];
      sent, lastWindow := [], None;
      var i := 0;
      while monitoring && i < |ticks|
        invariant 0 <= i <= |ticks|
        invariant loopsStarted == old(loopsStarted)
        invariant monitoring ==> wasMonitoring && StopRequest !in ticks[..i]
        invariant !monitoring && wasMonitoring ==> StopRequest in ticks && PollsBeforeStop(ticks[..i]) == PollsBeforeStop(ticks)
        invariant polled == if wasMonitoring then PollsBeforeStop(ticks[..i]) else []
        invariant sent == Uploads(None, polled)
        invariant lastWindow == FinalWindow(None, polled)
      {
        PollsStep(ticks, i);
        match ticks[i] {
          case StopRequest =>
            StopMonitoring();
          case Poll(activeWindow) =>
            UploadsSnoc(None, polled, activeWindow);
            polled := polled + [activeWindow];
            if activeWindow.Some? && activeWindow.value != "" && activeWindow != lastWindow {
              sent := sent + [activeWindow.value];
              lastWindow := activeWindow;
            }
        }
        i := i + 1;
      }
      if monitoring {
        assert ticks[..i] == ticks;
      }
      FinalWindowIsLastUpload(None, polled);
    }
  }

  /** Polls of concatenated tick runs: the second run counts only if the first holds no stop. */
  lemma {:induction false} PollsAppend(a: seq<Tick>, b: seq<Tick>)
    ensures PollsBeforeStop(a + b) == PollsBeforeStop(a) + (if StopRequest in a then [] else PollsBeforeStop(b))
    decreases |a|
  {
    if a == [] {
      assert a + b == b;
    } else {
      assert (a + b)[0] == a[0];
      assert (a + b)[1..] == a[1..] + b;
      PollsAppend(a[1..], b);
      assert StopRequest in a <==> a[0] == StopRequest || StopRequest in a[1..];
    }
  }

  /** One more tick, read while no stop has been seen: a poll adds its window, a stop ends the polls. */
  lemma PollsStep(ticks: seq<Tick>, i: int)
    requires 0 <= i < |ticks| && StopRequest !in ticks[..i]
    ensures StopRequest in ticks[..i + 1] <==> ticks[i] == StopRequest
    ensures ticks[i] == StopRequest ==> StopRequest in ticks && PollsBeforeStop(ticks) == PollsBeforeStop(ticks[..i])
    ensures PollsBeforeStop(ticks[..i + 1])
            == PollsBeforeStop(ticks[..i]) + (if ticks[i].Poll? then [ticks[i].window] else [])
  {
    var done, rest := ticks[..i], ticks[i..];
    assert ticks[..i + 1] == done + [ticks[i]];
    PollsAppend(done, [ticks[i]]);
    assert ticks == done + rest;
    assert rest[0] == ticks[i];
    PollsAppend(done, rest);
  }

  /** Processing one more observation appends at most its title, judged against the current `last_window`. */
  lemma {:induction false} UploadsSnoc(lastWindow: Option<string>, observed: seq<Option<string>>, window: Option<string>)
    ensures var before := FinalWindow(lastWindow, observed);
            && Uploads(lastWindow, observed + [window])
               == Uploads(lastWindow, observed) + (if ShouldUpload(window, before) then [window.value] else [])
            && FinalWindow(lastWindow, observed + [window]) == (if ShouldUpload(window, before) then window else before)
    decreases |observed|
  {
    if observed == [] {
      assert [] + [window] == [window];
      assert [window][1..] == [];
    } else {
      assert (observed + [window])[0] == observed[0];
      assert (observed + [window])[1..] == observed[1..] + [window];
      if ShouldUpload(observed[0], lastWindow) {
        UploadsSnoc(observed[0], observed[1..], window);
      } else {
        UploadsSnoc(lastWindow, observed[1..], window);
      }
    }
  }
}
