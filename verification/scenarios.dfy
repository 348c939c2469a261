/**
  Concrete event sequences on a freshly constructed button whose delegate asks
  for a one-second limit.
 */
module Scenarios {
  import opened Wrappers
  import opened ButtonDelegate
  import opened ButtonState
  import opened Handlers
  import opened Machine

  const OneSecond: Option<Delegate> := Some(Delegate(1.0))

  /** A fresh button with the one-second delegate set. */
  function Configured(): Button {
    Step(Init(), SetDelegate(OneSecond)).button
  }

  /** The configured button after a `began` phase: one timer, referenced. */
  lemma PressedState()
    ensures Step(Configured(), LongPressGesture(Began)).trace == [DidBeginLongPress]
    ensures Step(Configured(), LongPressGesture(Began)).button.scheduled == {0}
    ensures Step(Configured(), LongPressGesture(Began)).button.timer == Some(0)
    ensures Step(Configured(), LongPressGesture(Began)).button.nextTimer == 1
    ensures VideoGuard(Step(Configured(), LongPressGesture(Began)).button)
    ensures Step(Configured(), LongPressGesture(Began)).button.delegate == OneSecond
  {
  }

  /** Press, then release before the limit: begin and end are reported, and no timer is left to fire. */
  lemma EndBeforeLimit()
    ensures var es := [SetDelegate(OneSecond), LongPressGesture(Began), LongPressGesture(Ended)];
      && Admissible(Init(), es)
      && Run(Init(), es).trace == [DidBeginLongPress, DidEndLongPress]
      && Run(Init(), es).button.scheduled == {}
      && Run(Init(), es).button.timer.None?
  {
    PressedState();
    var b1 := Configured();
    var b2 := Step(b1, LongPressGesture(Began)).button;
    var o3 := Step(b2, LongPressGesture(Ended));
    assert o3.trace == [DidEndLongPress] && o3.button.scheduled == {};
    RunCons(b2, LongPressGesture(Ended), []);
    RunCons(b1, LongPressGesture(Began), [LongPressGesture(Ended)]);
    RunCons(Init(), SetDelegate(OneSecond), [LongPressGesture(Began), LongPressGesture(Ended)]);
  }

  /**
    Press and hold past the limit: the timer reports the maximum duration without
    ending the press; the later release is still reported as an end.
   */
  lemma HoldPastLimit()
    ensures var es := [SetDelegate(OneSecond), LongPressGesture(Began), TimerFires(0), LongPressGesture(Ended)];
      && Admissible(Init(), es)
      && Run(Init(), es).trace == [DidBeginLongPress, ReachedMaxDuration, DidEndLongPress]
      && Run(Init(), es).button.scheduled == {}
  {
    PressedState();
    var b1 := Configured();
    var b2 := Step(b1, LongPressGesture(Began)).button;
    var o3 := Step(b2, TimerFires(0));
    assert o3.trace == [ReachedMaxDuration] && o3.button.scheduled == {};
    var o4 := Step(o3.button, LongPressGesture(Ended));
    assert o4.trace == [DidEndLongPress];
    RunCons(o3.button, LongPressGesture(Ended), []);
    RunCons(b2, TimerFires(0), [LongPressGesture(Ended)]);
    RunCons(b1, LongPressGesture(Began), [TimerFires(0), LongPressGesture(Ended)]);
    RunCons(Init(), SetDelegate(OneSecond), [LongPressGesture(Began), TimerFires(0), LongPressGesture(Ended)]);
  }

  /** Disabling video capture and then pressing reports nothing and schedules nothing. */
  lemma VideoDisabledThenBegan()
    ensures var es := [SetDelegate(OneSecond), SetVideoCapture(false), LongPressGesture(Began)];
      && Admissible(Init(), es)
      && Run(Init(), es).trace == []
      && Run(Init(), es).button.scheduled == {}
  {
    var b1 := Configured();
    var b2 := Step(b1, SetVideoCapture(false)).button;
    assert !VideoGuard(b2) && b2.scheduled == {};
    RunCons(b2, LongPressGesture(Began), []);
    RunCons(b1, SetVideoCapture(false), [LongPressGesture(Began)]);
    RunCons(Init(), SetDelegate(OneSecond), [SetVideoCapture(false), LongPressGesture(Began)]);
  }

  /** Two terminal phases in a row are both reported as ends. */
  lemma RepeatedEndIsReportedTwice()
    ensures var es := [SetDelegate(OneSecond), LongPressGesture(Began), LongPressGesture(Ended), LongPressGesture(Cancelled)];
      && Admissible(Init(), es)
      && Run(Init(), es).trace == [DidBeginLongPress, DidEndLongPress, DidEndLongPress]
  {
    PressedState();
    var b1 := Configured();
    var b2 := Step(b1, LongPressGesture(Began)).button;
    var o3 := Step(b2, LongPressGesture(Ended));
    assert o3.trace == [DidEndLongPress] && VideoGuard(o3.button) && o3.button.delegate.Some?;
    var o4 := Step(o3.button, LongPressGesture(Cancelled));
    assert o4.trace == [DidEndLongPress];
    RunCons(o3.button, LongPressGesture(Cancelled), []);
    RunCons(b2, LongPressGesture(Ended), [LongPressGesture(Cancelled)]);
    RunCons(b1, LongPressGesture(Began), [LongPressGesture(Ended), LongPressGesture(Cancelled)]);
    RunCons(Init(), SetDelegate(OneSecond), [LongPressGesture(Began), LongPressGesture(Ended), LongPressGesture(Cancelled)]);
  }

  /** The configured button after a press and then the button being switched off. */
  function Disabled(): Button {
    Step(Step(Configured(), LongPressGesture(Began)).button, SetButtonEnabled(false)).button
  }

  /** ... and then switched back on: the release in between was dropped. */
  function Rearmed(): Button {
    Step(Disabled(), SetButtonEnabled(true)).button
  }

  /**
    A release delivered while the button is switched off is dropped by the guard,
    so timer 0 stays scheduled and referenced. The long-press recognizer stays
    attached throughout, so its next press does reach the handler.
   */
  lemma ReleaseIgnoredWhileDisabled()
    ensures Step(Disabled(), LongPressGesture(Ended)) == Outcome(Disabled(), [])
    ensures Rearmed().scheduled == {0} && Rearmed().timer == Some(0) && Rearmed().nextTimer == 1
    ensures VideoGuard(Rearmed()) && Rearmed().delegate == OneSecond
    ensures Rearmed().longPressRecognizer.Some? && Rearmed().longPressRecognizer.value.attached
  {
    PressedState();
  }

  /** From there, a second press and release invalidate only timer 1; timer 0 then fires. */
  lemma SecondSessionLeavesOrphan()
    ensures var es := [LongPressGesture(Began), LongPressGesture(Ended), TimerFires(0)];
      && Admissible(Rearmed(), es)
      && Run(Rearmed(), es).trace == [DidBeginLongPress, DidEndLongPress, ReachedMaxDuration]
  {
    ReleaseIgnoredWhileDisabled();
    var o6 := Step(Rearmed(), LongPressGesture(Began));
    assert o6.trace == [DidBeginLongPress] && o6.button.scheduled == {0, 1} && o6.button.timer == Some(1);
    var o7 := Step(o6.button, LongPressGesture(Ended));
    assert o7.trace == [DidEndLongPress] && o7.button.scheduled == {0};
    RunCons(o7.button, TimerFires(0), []);
    RunCons(o6.button, LongPressGesture(Ended), [TimerFires(0)]);
    RunCons(Rearmed(), LongPressGesture(Began), [LongPressGesture(Ended), TimerFires(0)]);
  }

  /** The events of the orphan-timer scenario after the first press. */
  function AfterFirstPress(): seq<Event> {
    [SetButtonEnabled(false), LongPressGesture(Ended), SetButtonEnabled(true),
     LongPressGesture(Began), LongPressGesture(Ended), TimerFires(0)]
  }

  /** The part after the first press sends begin, end, maximum reached. */
  lemma AfterFirstPressTrace()
    ensures Admissible(Step(Configured(), LongPressGesture(Began)).button, AfterFirstPress())
    ensures Run(Step(Configured(), LongPressGesture(Began)).button, AfterFirstPress()).trace ==
      [DidBeginLongPress, DidEndLongPress, ReachedMaxDuration]
  {
    ReleaseIgnoredWhileDisabled();
    SecondSessionLeavesOrphan();
    var suffix := [LongPressGesture(Began), LongPressGesture(Ended), TimerFires(0)];
    var b2 := Step(Configured(), LongPressGesture(Began)).button;
    RunCons(Disabled(), SetButtonEnabled(true), suffix);
    RunCons(Disabled(), LongPressGesture(Ended), [SetButtonEnabled(true)] + suffix);
    RunCons(b2, SetButtonEnabled(false), [LongPressGesture(Ended), SetButtonEnabled(true)] + suffix);
    assert [SetButtonEnabled(false)] + ([LongPressGesture(Ended), SetButtonEnabled(true)] + suffix) == AfterFirstPress();
  }

  /** From the first press on, the configured button sends begin, begin, end, maximum reached. */
  lemma FromFirstPressTrace()
    ensures Admissible(Configured(), [LongPressGesture(Began)] + AfterFirstPress())
    ensures Run(Configured(), [LongPressGesture(Began)] + AfterFirstPress()).trace ==
      [DidBeginLongPress, DidBeginLongPress, DidEndLongPress, ReachedMaxDuration]
  {
    PressedState();
    AfterFirstPressTrace();
    RunCons(Configured(), LongPressGesture(Began), AfterFirstPress());
  }

  /**
    A release delivered while the button is switched off is dropped, so the first
    timer survives; the next press overwrites the reference, its release invalidates
    only the new timer, and the first one then reports the maximum duration after
    the press has been reported ended.
   */
  lemma OrphanTimerFiresAfterEnd()
    ensures var es := [SetDelegate(OneSecond), LongPressGesture(Began)] + AfterFirstPress();
      && Admissible(Init(), es)
      && Run(Init(), es).trace == [DidBeginLongPress, DidBeginLongPress, DidEndLongPress, ReachedMaxDuration]
  {
    var fromPress := [LongPressGesture(Began)] + AfterFirstPress();
    FromFirstPressTrace();
    RunCons(Init(), SetDelegate(OneSecond), fromPress);
    assert [SetDelegate(OneSecond)] + fromPress == [SetDelegate(OneSecond), LongPressGesture(Began)] + AfterFirstPress();
  }

  /**
    On a fresh button, assigning true to `photoCaptureEnabled` (the value it already
    has) detaches the tap recognizer; assigning false attaches it.
   */
  lemma EnablingPhotoCaptureDetachesTap()
    ensures var r := SetPhotoCaptureEnabled(Init(), true);
      r.photoCaptureEnabled && !r.tapRecognizer.value.attached
    ensures var r := SetPhotoCaptureEnabled(Init(), false);
      !r.photoCaptureEnabled && r.tapRecognizer.value.attached
  {
  }
}
