/**
  Properties of the button over whole sequences of events.
 */
module RunProperties {
  import opened Wrappers
  import opened ButtonDelegate
  import opened ButtonState
  import opened Timers
  import opened Handlers
  import opened Machine

  /* ---------------------------------------------------------------------------
     Timers: orphans and silence
     ------------------------------------------------------------------------- */

  /** A new timer always gets an identity no scheduled timer has, so starting one grows the set by one. */
  lemma StartTimerIsFresh(b: Button)
    requires Inv(b) && LimitRequested(b)
    ensures b.nextTimer !in b.scheduled
    ensures |StartTimer(b).scheduled| == |b.scheduled| + 1
  {
  }

  /**
    Once no orphan timer exists, ending the long press leaves no timer scheduled at
    all, so no maximum-duration callback can follow the end notification.
   */
  lemma EndLeavesNothingScheduled(b: Button)
    requires NoOrphanTimer(b)
    ensures LongPressEndAction(b).button.scheduled == {}
    ensures forall id :: !CanOccur(LongPressEndAction(b).button, TimerFires(id))
  {
  }

  /**
    Every step keeps "no orphan timer" except a long-press start while the `timer`
    reference is still set.
   */
  lemma StepKeepsNoOrphan(b: Button, e: Event)
    requires CanOccur(b, e)
    requires NoOrphanTimer(b)
    requires !(StartsLongPress(b, e) && b.timer.Some?)
    ensures NoOrphanTimer(Step(b, e).button)
  {
  }

  /**
    A long-press start while the `timer` reference is set and a limit is requested
    leaves the previous timer scheduled but no longer referenced: an orphan that
    no later end can invalidate.
   */
  lemma StartOverLiveTimerOrphansIt(b: Button, e: Event)
    requires Inv(b)
    requires StartsLongPress(b, e) && b.timer.Some? && LimitRequested(b)
    ensures b.timer.value in Step(b, e).button.scheduled
    ensures Step(b, e).button.timer != b.timer
    ensures !NoOrphanTimer(Step(b, e).button)
  {
  }

  /**
    What one step does to timer identities: the counter never goes back, a timer
    it newly schedules has an identity at or above the old counter, and a timer
    that fires is not scheduled afterwards.
   */
  lemma StepTimerIds(b: Button, e: Event)
    requires CanOccur(b, e)
    ensures b.nextTimer <= Step(b, e).button.nextTimer
    ensures forall t :: t in Step(b, e).button.scheduled && t !in b.scheduled ==> b.nextTimer <= t
    ensures e.TimerFires? ==> e.id !in Step(b, e).button.scheduled
  {
  }

  /** A retired timer (issued before the counter and no longer scheduled) never fires later. */
  lemma {:induction false} RetiredStaysRetired(b: Button, es: seq<Event>, id: TimerId)
    requires Admissible(b, es)
    requires id < b.nextTimer && id !in b.scheduled
    ensures forall j :: 0 <= j < |es| && es[j].TimerFires? ==> es[j].id != id
    decreases |es|
  {
    if es != [] {
      StepTimerIds(b, es[0]);
      RetiredStaysRetired(Step(b, es[0]).button, es[1..], id);
      forall j | 1 <= j < |es| && es[j].TimerFires?
        ensures es[j].id != id
      {
        assert es[j] == es[1..][j - 1];
      }
    }
  }

  /** Timers are single-shot: no two firings of a run name the same timer. */
  lemma {:induction false} FiresAtMostOnce(b: Button, es: seq<Event>)
    requires Admissible(b, es) && Inv(b)
    ensures forall i, j :: 0 <= i < j < |es| && es[i].TimerFires? && es[j].TimerFires? ==> es[i].id != es[j].id
    decreases |es|
  {
    if es != [] {
      var next := Step(b, es[0]).button;
      FiresAtMostOnce(next, es[1..]);
      if es[0].TimerFires? {
        StepTimerIds(b, es[0]);
        RetiredStaysRetired(next, es[1..], es[0].id);
      }
      forall i, j | 0 <= i < j < |es| && es[i].TimerFires? && es[j].TimerFires?
        ensures es[i].id != es[j].id
      {
        assert es[j] == es[1..][j - 1];
        if i > 0 {
          assert es[i] == es[1..][i - 1];
        }
      }
    }
  }

  /** No event of `es` begins a long press while a timer reference is still set. */
  predicate SessionsDisjoint(b: Button, es: seq<Event>)
    requires Admissible(b, es)
    decreases |es|
  {
    es == [] ||
    (!(StartsLongPress(b, es[0]) && b.timer.Some?) && SessionsDisjoint(Step(b, es[0]).button, es[1..]))
  }

  /**
    When every long press ends (or times out) before the next one begins, at most
    the referenced timer is ever scheduled.
   */
  lemma {:induction false} DisjointSessionsLeaveNoOrphan(b: Button, es: seq<Event>)
    requires Admissible(b, es)
    requires NoOrphanTimer(b)
    requires SessionsDisjoint(b, es)
    ensures NoOrphanTimer(Run(b, es).button)
    decreases |es|
  {
    if es != [] {
      StepKeepsNoOrphan(b, es[0]);
      DisjointSessionsLeaveNoOrphan(Step(b, es[0]).button, es[1..]);
    }
  }

  /** The delegate, if any, fails the duration test, so it asks for no limit. */
  predicate Unlimited(d: Option<Delegate>) {
    d.None? || !AsksForLimit(d.value.maxVideoDuration)
  }

  /**
    With no timer scheduled and only delegates that ask for no limit, no timer is
    ever scheduled and the maximum-duration notification is never sent.
   */
  lemma {:induction false} NoLimitNeverTimesOut(b: Button, es: seq<Event>)
    requires Admissible(b, es)
    requires b.scheduled == {} && Unlimited(b.delegate)
    requires forall i :: 0 <= i < |es| && es[i].SetDelegate? ==> Unlimited(es[i].delegate)
    ensures Run(b, es).button.scheduled == {}
    ensures ReachedMaxDuration !in Run(b, es).trace
    decreases |es|
  {
    if es != [] {
      var first := Step(b, es[0]);
      assert !es[0].TimerFires?;
      assert first.button.scheduled == {} by {
        if StartsLongPress(b, es[0]) {
          assert !LimitRequested(b);
        }
      }
      assert Unlimited(first.button.delegate) by {
        if es[0].SetDelegate? {
          assert Unlimited(es[0].delegate);
        }
      }
      forall i | 0 <= i < |es[1..]| && es[1..][i].SetDelegate?
        ensures Unlimited(es[1..][i].delegate)
      {
        assert es[1..][i] == es[i + 1];
      }
      NoLimitNeverTimesOut(first.button, es[1..]);
    }
  }

  /* ---------------------------------------------------------------------------
     Notifications
     ------------------------------------------------------------------------- */

  /** With no delegate, and none set, the button sends nothing whatever happens. */
  lemma {:induction false} SilentWithoutDelegate(b: Button, es: seq<Event>)
    requires Admissible(b, es)
    requires b.delegate.None?
    requires forall i :: 0 <= i < |es| ==> !es[i].SetDelegate?
    ensures Run(b, es).trace == []
    decreases |es|
  {
    if es != [] {
      assert !es[0].SetDelegate?;
      forall i | 0 <= i < |es[1..]| ensures !es[1..][i].SetDelegate? {
        assert es[1..][i] == es[i + 1];
      }
      SilentWithoutDelegate(Step(b, es[0]).button, es[1..]);
    }
  }

  /** Every event of `es` is a tap. */
  predicate AllTaps(es: seq<Event>) {
    forall i :: 0 <= i < |es| ==> es[i].TapGesture?
  }

  /**
    Taps never change the button, and a run of `n` taps sends exactly `n`
    WasTapped notifications when the tap guard holds and a delegate is present,
    and nothing otherwise.
   */
  lemma {:induction false} TapsLeaveButtonUnchanged(b: Button, es: seq<Event>)
    requires AllTaps(es)
    ensures Admissible(b, es)
    ensures Run(b, es).button == b
    ensures b.buttonEnabled && b.photoCaptureEnabled && b.delegate.Some? ==>
              Run(b, es).trace == seq(|es|, _ => WasTapped)
    ensures !(b.buttonEnabled && b.photoCaptureEnabled && b.delegate.Some?) ==> Run(b, es).trace == []
    decreases |es|
  {
    if es != [] {
      assert es[0].TapGesture?;
      assert AllTaps(es[1..]) by {
        forall i | 0 <= i < |es[1..]| ensures es[1..][i].TapGesture? {
          assert es[1..][i] == es[i + 1];
        }
      }
      TapsLeaveButtonUnchanged(b, es[1..]);
      assert Step(b, es[0]).button == b;
      if b.buttonEnabled && b.photoCaptureEnabled && b.delegate.Some? {
        assert Run(b, es).trace == [WasTapped] + seq(|es| - 1, _ => WasTapped);
      }
    }
  }

  /** Every event of `es` is delivered by the long-press recognizer. */
  predicate AllLongPress(es: seq<Event>) {
    forall i :: 0 <= i < |es| ==> es[i].LongPressGesture?
  }

  /** The notifications a long-press phase should produce: one begin per `began`, one end per terminal phase. */
  function PhaseNotifications(es: seq<Event>): seq<Notification>
    requires AllLongPress(es)
  {
    if es == [] then []
    else
      var n := if es[0].phase.Began? then [DidBeginLongPress]
               else if IsTerminal(es[0].phase) then [DidEndLongPress]
               else [];
      n + PhaseNotifications(es[1..])
  }

  /** Counts the events of `es` that satisfy `p`. */
  function CountPhase(es: seq<Event>, p: Phase -> bool): nat
    requires AllLongPress(es)
  {
    if es == [] then 0 else (if p(es[0].phase) then 1 else 0) + CountPhase(es[1..], p)
  }

  /**
    The reference trace holds exactly one DidBeginLongPress per `began` phase and one
    DidEndLongPress per terminal phase, whether or not a long press is open: a
    repeated terminal phase is reported again.
   */
  lemma {:induction false} PhaseNotificationsCount(es: seq<Event>)
    requires AllLongPress(es)
    ensures multiset(PhaseNotifications(es))[DidBeginLongPress] == CountPhase(es, (p: Phase) => p.Began?)
    ensures multiset(PhaseNotifications(es))[DidEndLongPress] == CountPhase(es, IsTerminal)
    ensures multiset(PhaseNotifications(es))[WasTapped] == 0
    ensures multiset(PhaseNotifications(es))[ReachedMaxDuration] == 0
    decreases |es|
  {
    if es != [] {
      assert AllLongPress(es[1..]) by {
        forall i | 0 <= i < |es[1..]| ensures es[1..][i].LongPressGesture? {
          assert es[1..][i] == es[i + 1];
        }
      }
      PhaseNotificationsCount(es[1..]);
      var n := if es[0].phase.Began? then [DidBeginLongPress]
               else if IsTerminal(es[0].phase) then [DidEndLongPress]
               else [];
      assert PhaseNotifications(es) == n + PhaseNotifications(es[1..]);
      assert multiset(PhaseNotifications(es)) == multiset(n) + multiset(PhaseNotifications(es[1..]));
    }
  }

  /** Every event of `es` is a long-press phase or a scheduled timer going off. */
  predicate PressOrTimer(es: seq<Event>) {
    forall i :: 0 <= i < |es| ==> es[i].LongPressGesture? || es[i].TimerFires?
  }

  /** The long-press phases of `es`, in order. */
  function Phases(es: seq<Event>): (ps: seq<Event>)
    ensures AllLongPress(ps)
    ensures |ps| <= |es|
  {
    if es == [] then []
    else (if es[0].LongPressGesture? then [es[0]] else []) + Phases(es[1..])
  }

  /** The trace without its maximum-duration notifications. */
  function DropMax(t: seq<Notification>): seq<Notification> {
    if t == [] then []
    else (if t[0] == ReachedMaxDuration then [] else [t[0]]) + DropMax(t[1..])
  }

  lemma {:induction false} DropMaxAppend(x: seq<Notification>, y: seq<Notification>)
    ensures DropMax(x + y) == DropMax(x) + DropMax(y)
    decreases |x|
  {
    if x == [] {
      assert x + y == y;
    } else {
      assert (x + y)[0] == x[0];
      assert (x + y)[1..] == x[1..] + y;
      DropMaxAppend(x[1..], y);
    }
  }

  /**
    One phase or timer with the video guard open and a delegate present: a phase
    sends its reference notifications, a timer sends the maximum-duration one, and
    the guard and the delegate stay as they were.
   */
  lemma PhaseOrTimerStep(b: Button, e: Event)
    requires e.LongPressGesture? || e.TimerFires?
    requires CanOccur(b, e)
    requires VideoGuard(b) && b.delegate.Some?
    ensures VideoGuard(Step(b, e).button) && Step(b, e).button.delegate.Some?
    ensures e.LongPressGesture? ==> Step(b, e).trace == PhaseNotifications([e])
    ensures e.TimerFires? ==> Step(b, e).trace == [ReachedMaxDuration]
    ensures DropMax(Step(b, e).trace) == (if e.LongPressGesture? then PhaseNotifications([e]) else [])
    ensures multiset(Step(b, e).trace)[ReachedMaxDuration] == (if e.TimerFires? then 1 else 0)
  {
    if e.LongPressGesture? {
      assert ReachedMaxDuration !in Step(b, e).trace;
      assert DropMax(Step(b, e).trace) == Step(b, e).trace;
    }
  }

  /** The reference trace of a single phase followed by more phases. */
  lemma PhaseNotificationsCons(e: Event, ps: seq<Event>)
    requires e.LongPressGesture? && AllLongPress(ps)
    ensures AllLongPress([e] + ps)
    ensures PhaseNotifications([e] + ps) == PhaseNotifications([e]) + PhaseNotifications(ps)
  {
    assert ([e] + ps)[1..] == ps;
    assert [e][1..] == [];
  }

  /** The reference trace of the phases of `es`, split after the first event. */
  lemma PhaseNotificationsOfPhases(es: seq<Event>)
    requires es != []
    ensures PhaseNotifications(Phases(es)) ==
      (if es[0].LongPressGesture? then PhaseNotifications([es[0]]) else []) + PhaseNotifications(Phases(es[1..]))
  {
    var ps := Phases(es[1..]);
    if es[0].LongPressGesture? {
      assert Phases(es) == [es[0]] + ps;
      PhaseNotificationsCons(es[0], ps);
    } else {
      assert Phases(es) == ps;
    }
  }

  /** The events after the first of a phase-or-timer sequence are phases or timers too. */
  lemma PressOrTimerTail(es: seq<Event>)
    requires es != [] && PressOrTimer(es)
    ensures PressOrTimer(es[1..])
  {
    forall i | 0 <= i < |es[1..]| ensures es[1..][i].LongPressGesture? || es[1..][i].TimerFires? {
      assert es[1..][i] == es[i + 1];
    }
  }

  /**
    While the button and video capture are enabled and a delegate is present, any
    interleaving of long-press phases and timers going off sends exactly the
    reference trace of the phases once the maximum-duration notifications are removed.
   */
  lemma {:induction false} LongPressTraceMatchesPhases(b: Button, es: seq<Event>)
    requires PressOrTimer(es)
    requires Admissible(b, es)
    requires VideoGuard(b) && b.delegate.Some?
    ensures DropMax(Run(b, es).trace) == PhaseNotifications(Phases(es))
    decreases |es|
  {
    if es != [] {
      var e := es[0];
      var first := Step(b, e);
      var rest := Run(first.button, es[1..]);
      var head := if e.LongPressGesture? then PhaseNotifications([e]) else [];
      assert DropMax(Run(b, es).trace) == DropMax(first.trace) + DropMax(rest.trace) by {
        assert Run(b, es).trace == first.trace + rest.trace;
        DropMaxAppend(first.trace, rest.trace);
      }
      assert DropMax(first.trace) == head by {
        PhaseOrTimerStep(b, e);
      }
      assert DropMax(rest.trace) == PhaseNotifications(Phases(es[1..])) by {
        PressOrTimerTail(es);
        PhaseOrTimerStep(b, e);
        LongPressTraceMatchesPhases(first.button, es[1..]);
      }
      PhaseNotificationsOfPhases(es);
    }
  }

  /**
    Under the same conditions, every timer that goes off sends exactly one
    maximum-duration notification, and nothing else sends one.
   */
  lemma {:induction false} OneMaxNotificationPerFiring(b: Button, es: seq<Event>)
    requires PressOrTimer(es)
    requires Admissible(b, es)
    requires VideoGuard(b) && b.delegate.Some?
    ensures multiset(Run(b, es).trace)[ReachedMaxDuration] == |es| - |Phases(es)|
    decreases |es|
  {
    if es != [] {
      var e := es[0];
      var first := Step(b, e);
      var rest := Run(first.button, es[1..]);
      var head := if e.TimerFires? then 1 else 0;
      assert multiset(Run(b, es).trace)[ReachedMaxDuration] ==
        multiset(first.trace)[ReachedMaxDuration] + multiset(rest.trace)[ReachedMaxDuration] by {
        assert Run(b, es).trace == first.trace + rest.trace;
        assert multiset(first.trace + rest.trace) == multiset(first.trace) + multiset(rest.trace);
      }
      assert multiset(first.trace)[ReachedMaxDuration] == head by {
        PhaseOrTimerStep(b, e);
      }
      assert multiset(rest.trace)[ReachedMaxDuration] == |es[1..]| - |Phases(es[1..])| by {
        PressOrTimerTail(es);
        PhaseOrTimerStep(b, e);
        OneMaxNotificationPerFiring(first.button, es[1..]);
      }
      assert |Phases(es)| == (1 - head) + |Phases(es[1..])| by {
        if e.LongPressGesture? {
          assert Phases(es) == [e] + Phases(es[1..]);
        } else {
          assert Phases(es) == Phases(es[1..]);
        }
      }
    }
  }

  /** While the button or video capture is disabled, long-press phases change nothing and send nothing. */
  lemma {:induction false} DisabledVideoIgnoresLongPress(b: Button, es: seq<Event>)
    requires AllLongPress(es)
    requires !VideoGuard(b)
    ensures Admissible(b, es)
    ensures Run(b, es) == Outcome(b, [])
    decreases |es|
  {
    if es != [] {
      assert AllLongPress(es[1..]) by {
        forall i | 0 <= i < |es[1..]| ensures es[1..][i].LongPressGesture? {
          assert es[1..][i] == es[i + 1];
        }
      }
      assert Step(b, es[0]) == Outcome(b, []);
      DisabledVideoIgnoresLongPress(b, es[1..]);
    }
  }

  /* ---------------------------------------------------------------------------
     Settings
     ------------------------------------------------------------------------- */

  /** The value the latest event of `es` that `pick` selects carries, if any. */
  function Last<T>(es: seq<Event>, pick: Event -> Option<T>): Option<T>
  {
    if es == [] then None
    else
      match Last(es[1..], pick)
      case Some(v) => Some(v)
      case None => pick(es[0])
  }

  function PhotoSetting(e: Event): Option<bool> {
    if e.SetPhotoCapture? then Some(e.photo) else None
  }

  function VideoSetting(e: Event): Option<bool> {
    if e.SetVideoCapture? then Some(e.video) else None
  }

  function PressDurationSetting(e: Event): Option<real> {
    if e.SetMinimumPressDuration? then Some(e.duration) else None
  }

  /**
    After any run, `photoCaptureEnabled` holds the value last assigned to it, and the
    tap recognizer is attached exactly when that value is false; if it was never
    assigned, both are as they were.
   */
  lemma {:induction false} TapAttachmentFollowsLastSetting(b: Button, es: seq<Event>)
    requires Admissible(b, es)
    requires b.tapRecognizer.Some?
    ensures var r := Run(b, es).button;
      && r.photoCaptureEnabled == Last(es, PhotoSetting).OrElse(b.photoCaptureEnabled)
      && r.tapRecognizer.Some?
      && r.tapRecognizer.value.attached ==
           (match Last(es, PhotoSetting) case Some(v) => !v case None => b.tapRecognizer.value.attached)
    decreases |es|
  {
    if es != [] {
      StepFrame(b, es[0]);
      TapAttachmentFollowsLastSetting(Step(b, es[0]).button, es[1..]);
    }
  }

  /**
    After any run, `videoCaptureEnabled` holds the value last assigned to it, the
    long-press recognizer is attached exactly when that value is false, and its
    threshold is the press duration last assigned.
   */
  lemma {:induction false} LongPressRecognizerFollowsLastSettings(b: Button, es: seq<Event>)
    requires Admissible(b, es)
    requires b.longPressRecognizer.Some?
    ensures var r := Run(b, es).button;
      && r.videoCaptureEnabled == Last(es, VideoSetting).OrElse(b.videoCaptureEnabled)
      && r.longPressRecognizer.Some?
      && r.longPressRecognizer.value.attached ==
           (match Last(es, VideoSetting) case Some(v) => !v case None => b.longPressRecognizer.value.attached)
      && r.longPressRecognizer.value.minimumPressDuration ==
           Last(es, PressDurationSetting).OrElse(b.longPressRecognizer.value.minimumPressDuration)
      && r.videoMinimumPressDuration == Last(es, PressDurationSetting).OrElse(b.videoMinimumPressDuration)
    decreases |es|
  {
    if es != [] {
      StepFrame(b, es[0]);
      LongPressRecognizerFollowsLastSettings(Step(b, es[0]).button, es[1..]);
    }
  }

  /**
    On a constructed button the recognizers agree with their switches (attached
    and enabled) only until the switch is first assigned: afterwards each is
    attached exactly when its mode is disabled.
   */
  lemma InvertedAttachmentFromInit(es: seq<Event>)
    requires Admissible(Init(), es)
    ensures var r := Run(Init(), es).button;
      && (r.tapRecognizer.value.attached <==> Last(es, PhotoSetting) != Some(true))
      && (Last(es, PhotoSetting).Some? ==> (r.tapRecognizer.value.attached <==> !r.photoCaptureEnabled))
      && (r.longPressRecognizer.value.attached <==> Last(es, VideoSetting) != Some(true))
      && (Last(es, VideoSetting).Some? ==> (r.longPressRecognizer.value.attached <==> !r.videoCaptureEnabled))
  {
    TapAttachmentFollowsLastSetting(Init(), es);
    LongPressRecognizerFollowsLastSettings(Init(), es);
  }
}
