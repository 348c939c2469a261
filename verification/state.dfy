/**
  The state of one SwiftyCamButton: its two gesture recognizers, its weak delegate,
  its three switches, the minimum press duration it forwards to the long-press
  recognizer, and its maximum-duration timer.
 */
module ButtonState {
  import opened Wrappers
  import opened ButtonDelegate

  /** A timer object; each scheduled timer gets a fresh identity. */
  type TimerId = nat

  /** Minimum press duration a long-press recognizer starts with (the platform default, in seconds). */
  const RecognizerDefaultPressDuration: real := 0.5

  /** Initial value of the button's `videoMinimumPressDuration` property, in seconds. */
  const DefaultVideoMinimumPressDuration: real := 0.5

  /** The tap recognizer; only whether it is attached to the button is recorded. */
  datatype TapRecognizer = TapRecognizer(attached: bool)

  /** The long-press recognizer: attachment and its press-duration threshold. */
  datatype LongPressRecognizer = LongPressRecognizer(attached: bool, minimumPressDuration: real)

  datatype Button = Button(
    tapRecognizer: Option<TapRecognizer>,
    longPressRecognizer: Option<LongPressRecognizer>,
    delegate: Option<Delegate>,
    buttonEnabled: bool,
    photoCaptureEnabled: bool,
    videoCaptureEnabled: bool,
    videoMinimumPressDuration: real,
    /** The button's `timer` reference. */
    timer: Option<TimerId>,
    /** Timers still scheduled on the run loop, whether or not `timer` refers to them. */
    scheduled: set<TimerId>,
    /** Source of fresh timer identities. */
    nextTimer: TimerId)

  /** What a handler produces: the new button and the notifications it sent, in order. */
  datatype Outcome = Outcome(button: Button, trace: seq<Notification>)

  /** The two buttons agree on everything except the timer reference, the scheduled timers and the id source. */
  predicate OnlyTimersDiffer(a: Button, b: Button) {
    a.(timer := b.timer, scheduled := b.scheduled, nextTimer := b.nextTimer) == b
  }

  /**
    Invariant of every constructed button: both recognizers exist, the `timer`
    reference names a timer that is still scheduled, and every scheduled timer
    was issued before `nextTimer`.
   */
  predicate Inv(b: Button) {
    && b.tapRecognizer.Some?
    && b.longPressRecognizer.Some?
    && (b.timer.Some? ==> b.timer.value in b.scheduled)
    && (forall t :: t in b.scheduled ==> t < b.nextTimer)
  }

  /**
    No timer other than the one `timer` refers to is scheduled: invalidating the
    current timer is then enough to silence the maximum-duration callback.
   */
  predicate NoOrphanTimer(b: Button) {
    forall t :: t in b.scheduled ==> b.timer == Some(t)
  }

  /** The button as its stored-property initializers leave it, before any recognizer exists. */
  function Uninitialized(): Button {
    Button(
      tapRecognizer := None,
      longPressRecognizer := None,
      delegate := None,
      buttonEnabled := true,
      photoCaptureEnabled := true,
      videoCaptureEnabled := true,
      videoMinimumPressDuration := DefaultVideoMinimumPressDuration,
      timer := None,
      scheduled := {},
      nextTimer := 0)
  }

  /**
    createGestureRecognizers: builds a tap and a long-press recognizer and attaches
    both. The long-press recognizer keeps the platform's default threshold; the
    button's own `videoMinimumPressDuration` is not copied into it here.
   */
  function CreateGestureRecognizers(b: Button): (r: Button)
    ensures r.tapRecognizer == Some(TapRecognizer(attached := true))
    ensures r.longPressRecognizer == Some(LongPressRecognizer(attached := true, minimumPressDuration := RecognizerDefaultPressDuration))
    ensures r.(tapRecognizer := b.tapRecognizer, longPressRecognizer := b.longPressRecognizer) == b
  {
    b.(tapRecognizer := Some(TapRecognizer(true)),
       longPressRecognizer := Some(LongPressRecognizer(true, RecognizerDefaultPressDuration)))
  }

  /** A freshly constructed button (either initializer runs createGestureRecognizers). */
  function Init(): (b: Button)
    ensures b.tapRecognizer.Some? && b.tapRecognizer.value.attached
    ensures b.longPressRecognizer.Some? && b.longPressRecognizer.value.attached
    ensures b.buttonEnabled && b.photoCaptureEnabled && b.videoCaptureEnabled
    ensures b.videoMinimumPressDuration == 0.5 && b.longPressRecognizer.value.minimumPressDuration == 0.5
    ensures b.timer.None? && b.scheduled == {}
    ensures b.delegate.None?
    ensures Inv(b) && NoOrphanTimer(b)
  {
    CreateGestureRecognizers(Uninitialized())
  }
}
