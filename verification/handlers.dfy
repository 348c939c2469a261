/**
  The gesture handlers, the two public long-press actions and the property
  observers of SwiftyCamButton.
 */
module Handlers {
  import opened Wrappers
  import opened ButtonDelegate
  import opened ButtonState
  import opened Timers

  /** States a long-press recognizer reports to its action (`recognized` is the same state as `ended`). */
  datatype Phase = Possible | Began | Changed | Ended | Cancelled | Failed

  /** The phases that end a long press. */
  predicate IsTerminal(p: Phase) {
    p.Ended? || p.Cancelled? || p.Failed?
  }

  /** Tap: notifies the delegate when the button and photo capture are both enabled. */
  function Tap(b: Button): (o: Outcome)
    ensures o.button == b
    ensures o.trace == [WasTapped] <==> b.buttonEnabled && b.photoCaptureEnabled && b.delegate.Some?
    ensures o.trace == [] <==> !(b.buttonEnabled && b.photoCaptureEnabled && b.delegate.Some?)
  {
    if !(b.buttonEnabled && b.photoCaptureEnabled) then Outcome(b, [])
    else Outcome(b, Notify(b.delegate, WasTapped))
  }

  /**
    longPressStartAction: tells the delegate the long press began, then starts the
    maximum-duration timer. Any timer scheduled earlier stays scheduled; only the
    reference is overwritten.
   */
  function LongPressStartAction(b: Button): (o: Outcome)
    ensures o.trace == [DidBeginLongPress] <==> b.delegate.Some?
    ensures o.trace == [] <==> b.delegate.None?
    ensures LimitRequested(b) ==> o.button.timer == Some(b.nextTimer) && o.button.scheduled == b.scheduled + {b.nextTimer}
    ensures LimitRequested(b) ==> o.button.nextTimer == b.nextTimer + 1
    ensures !LimitRequested(b) ==> o.button == b
    ensures b.scheduled <= o.button.scheduled
    ensures OnlyTimersDiffer(b, o.button)
  {
    var notified := Notify(b.delegate, DidBeginLongPress);
    Outcome(StartTimer(b), notified)
  }

  /**
    longPressEndAction: invalidates and clears the current timer first, then tells
    the delegate the long press ended; with no timer the invalidation does nothing.
   */
  function LongPressEndAction(b: Button): (o: Outcome)
    ensures o.button.timer.None?
    ensures forall t :: t in o.button.scheduled <==> t in b.scheduled && b.timer != Some(t)
    ensures OnlyTimersDiffer(b, o.button) && o.button.nextTimer == b.nextTimer
    ensures o.trace == [DidEndLongPress] <==> b.delegate.Some?
    ensures o.trace == [] <==> b.delegate.None?
  {
    var cleared := InvalidateTimer(b);
    Outcome(cleared, Notify(cleared.delegate, DidEndLongPress))
  }

  /** The guard LongPress checks before looking at the phase. */
  predicate VideoGuard(b: Button) {
    b.buttonEnabled && b.videoCaptureEnabled
  }

  /**
    LongPress: the long-press recognizer's action. Does nothing unless the button and
    video capture are enabled; `began` starts, `cancelled`/`ended`/`failed` end, any
    other phase is ignored.
   */
  function LongPress(b: Button, p: Phase): (o: Outcome)
    ensures !VideoGuard(b) ==> o == Outcome(b, [])
    ensures VideoGuard(b) && p.Began? ==> o == LongPressStartAction(b)
    ensures VideoGuard(b) && IsTerminal(p) ==> o == LongPressEndAction(b)
    ensures (p.Possible? || p.Changed?) ==> o == Outcome(b, [])
  {
    if !(b.buttonEnabled && b.videoCaptureEnabled) then Outcome(b, [])
    else
      match p
      case Began => LongPressStartAction(b)
      case Cancelled | Ended | Failed => LongPressEndAction(b)
      case _ => Outcome(b, [])
  }

  /**
    Setting `photoCaptureEnabled`. Its observer, when the tap recognizer exists,
    REMOVES it from the button when the new value is true and ADDS it when the new
    value is false: the recognizer ends up attached exactly when photo capture is off.
   */
  function SetPhotoCaptureEnabled(b: Button, v: bool): (r: Button)
    ensures r.photoCaptureEnabled == v
    ensures b.tapRecognizer.Some? ==> r.tapRecognizer.Some? && (r.tapRecognizer.value.attached <==> !v)
    ensures b.tapRecognizer.None? ==> r.tapRecognizer.None?
    ensures r.(photoCaptureEnabled := b.photoCaptureEnabled, tapRecognizer := b.tapRecognizer) == b
  {
    var b' := b.(photoCaptureEnabled := v);
    match b'.tapRecognizer
    case None => b'
    case Some(tap) =>
      if b'.photoCaptureEnabled then b'.(tapRecognizer := Some(tap.(attached := false)))
      else b'.(tapRecognizer := Some(tap.(attached := true)))
  }

  /**
    Setting `videoCaptureEnabled`: the same inverted pattern for the long-press
    recognizer, whose threshold is left as it was.
   */
  function SetVideoCaptureEnabled(b: Button, v: bool): (r: Button)
    ensures r.videoCaptureEnabled == v
    ensures b.longPressRecognizer.Some? ==>
      && r.longPressRecognizer.Some?
      && (r.longPressRecognizer.value.attached <==> !v)
      && r.longPressRecognizer.value.minimumPressDuration == b.longPressRecognizer.value.minimumPressDuration
    ensures b.longPressRecognizer.None? ==> r.longPressRecognizer.None?
    ensures r.(videoCaptureEnabled := b.videoCaptureEnabled, longPressRecognizer := b.longPressRecognizer) == b
  {
    var b' := b.(videoCaptureEnabled := v);
    match b'.longPressRecognizer
    case None => b'
    case Some(press) =>
      if b'.videoCaptureEnabled then b'.(longPressRecognizer := Some(press.(attached := false)))
      else b'.(longPressRecognizer := Some(press.(attached := true)))
  }

  /** Setting `videoMinimumPressDuration`: forwarded to the long-press recognizer's threshold, if it exists. */
  function SetVideoMinimumPressDuration(b: Button, d: real): (r: Button)
    ensures r.videoMinimumPressDuration == d
    ensures b.longPressRecognizer.Some? ==>
      && r.longPressRecognizer.Some?
      && r.longPressRecognizer.value.minimumPressDuration == d
      && r.longPressRecognizer.value.attached == b.longPressRecognizer.value.attached
    ensures b.longPressRecognizer.None? ==> r.longPressRecognizer.None?
    ensures r.(videoMinimumPressDuration := b.videoMinimumPressDuration, longPressRecognizer := b.longPressRecognizer) == b
  {
    var b' := b.(videoMinimumPressDuration := d);
    match b'.longPressRecognizer
    case None => b'
    case Some(press) => b'.(longPressRecognizer := Some(press.(minimumPressDuration := b'.videoMinimumPressDuration)))
  }
}
