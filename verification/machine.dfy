/**
  The button as a closed state machine: every input the environment can deliver is
  an event, and Step gives the new button and the notifications sent.
  Which recognizer delivers a gesture (and whether a detached one delivers anything)
  is left to the environment: a gesture event stands for the handler being called.
 */
module Machine {
  import opened Wrappers
  import opened ButtonDelegate
  import opened ButtonState
  import opened Timers
  import opened Handlers

  datatype Event =
    | TapGesture                              // the tap recognizer calls Tap()
    | LongPressGesture(phase: Phase)          // the long-press recognizer calls LongPress(_:)
    | StartAction                             // a direct call of longPressStartAction()
    | EndAction                               // a direct call of longPressEndAction()
    | TimerFires(id: TimerId)                 // a scheduled timer goes off
    | SetButtonEnabled(enabled: bool)
    | SetPhotoCapture(photo: bool)
    | SetVideoCapture(video: bool)
    | SetMinimumPressDuration(duration: real)
    | SetDelegate(delegate: Option<Delegate>) // includes the weak reference being cleared

  /** Only a timer still scheduled on the run loop can fire; every other event can always happen. */
  predicate CanOccur(b: Button, e: Event) {
    e.TimerFires? ==> e.id in b.scheduled
  }

  /** The events that begin a long press when they reach the button in state `b`. */
  predicate StartsLongPress(b: Button, e: Event) {
    e.StartAction? || (e.LongPressGesture? && e.phase.Began? && VideoGuard(b))
  }

  function Step(b: Button, e: Event): (o: Outcome)
    requires CanOccur(b, e)
    ensures Inv(b) ==> Inv(o.button)
  {
    match e
    case TapGesture => Tap(b)
    case LongPressGesture(p) => LongPress(b, p)
    case StartAction => LongPressStartAction(b)
    case EndAction => LongPressEndAction(b)
    case TimerFires(id) => TimerFinished(b, id)
    case SetButtonEnabled(v) => Outcome(b.(buttonEnabled := v), [])
    case SetPhotoCapture(v) => Outcome(SetPhotoCaptureEnabled(b, v), [])
    case SetVideoCapture(v) => Outcome(SetVideoCaptureEnabled(b, v), [])
    case SetMinimumPressDuration(d) => Outcome(SetVideoMinimumPressDuration(b, d), [])
    case SetDelegate(d) => Outcome(b.(delegate := d), [])
  }

  /**
    What one event may change and send: at most one notification, none without a
    delegate, each only from its own kind of event; each switch, the delegate and
    each recognizer change only through their own setter.
   */
  lemma StepFrame(b: Button, e: Event)
    requires CanOccur(b, e)
    ensures |Step(b, e).trace| <= 1
    ensures Step(b, e).trace != [] ==> b.delegate.Some?
    ensures WasTapped in Step(b, e).trace ==> e.TapGesture?
    ensures DidBeginLongPress in Step(b, e).trace ==> StartsLongPress(b, e)
    ensures DidEndLongPress in Step(b, e).trace ==> e.EndAction? || (e.LongPressGesture? && IsTerminal(e.phase))
    ensures ReachedMaxDuration in Step(b, e).trace ==> e.TimerFires?
    ensures !e.SetButtonEnabled? ==> Step(b, e).button.buttonEnabled == b.buttonEnabled
    ensures !e.SetPhotoCapture? ==> Step(b, e).button.photoCaptureEnabled == b.photoCaptureEnabled
    ensures !e.SetVideoCapture? ==> Step(b, e).button.videoCaptureEnabled == b.videoCaptureEnabled
    ensures !e.SetDelegate? ==> Step(b, e).button.delegate == b.delegate
    ensures !e.SetPhotoCapture? ==> Step(b, e).button.tapRecognizer == b.tapRecognizer
    ensures !e.SetVideoCapture? && !e.SetMinimumPressDuration? ==> Step(b, e).button.longPressRecognizer == b.longPressRecognizer
    ensures !e.SetMinimumPressDuration? ==> Step(b, e).button.videoMinimumPressDuration == b.videoMinimumPressDuration
  {
  }

  /** Every event of `es` can occur in the state the events before it lead to. */
  predicate Admissible(b: Button, es: seq<Event>)
    decreases |es|
  {
    es == [] || (CanOccur(b, es[0]) && Admissible(Step(b, es[0]).button, es[1..]))
  }

  /** Runs the events in order, concatenating the notifications each step sends. */
  function Run(b: Button, es: seq<Event>): (o: Outcome)
    requires Admissible(b, es)
    ensures Inv(b) ==> Inv(o.button)
    ensures |o.trace| <= |es|
    ensures es == [] ==> o == Outcome(b, [])
    decreases |es|
  {
    if es == [] then Outcome(b, [])
    else
      var first := Step(b, es[0]);
      var rest := Run(first.button, es[1..]);
      StepFrame(b, es[0]);
      Outcome(rest.button, first.trace + rest.trace)
  }

  /** Running `e` and then `rest` is running `[e] + rest`: the traces concatenate. */
  lemma RunCons(b: Button, e: Event, rest: seq<Event>)
    requires CanOccur(b, e) && Admissible(Step(b, e).button, rest)
    ensures Admissible(b, [e] + rest)
    ensures Run(b, [e] + rest).button == Run(Step(b, e).button, rest).button
    ensures Run(b, [e] + rest).trace == Step(b, e).trace + Run(Step(b, e).button, rest).trace
  {
  }
}
