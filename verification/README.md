# SwiftyCamButton as a state machine

SwiftyCam's `SwiftyCamButton` is a button that tells a tap (take a photo) from a
press-and-hold (record video). It reports what happens to a weakly held delegate
through four notifications: `buttonWasTapped`, `buttonDidBeginLongPress`,
`buttonDidEndLongPress` and `longPressDidReachMaximumDuration`. It asks that delegate
once per press for a maximum video duration. When that answer is positive it
schedules a single-shot timer whose callback reports that the maximum was reached.

This project models that logic in Dafny. There is no UIKit in it:

- `ButtonState.Button` is an immutable record. It holds the two gesture recognizers
  (whether each exists, whether it is attached, and the long-press threshold), the
  optional delegate, the three switches (`buttonEnabled`, `photoCaptureEnabled`,
  `videoCaptureEnabled`), `videoMinimumPressDuration`, the `timer` reference, and the
  set of timers still scheduled on the run loop.
- `ButtonDelegate` holds the notification datatype and an abstract delegate. The
  delegate is reduced to its answer to the maximum-duration query.
- `Timers` holds `startTimer`, `invalidateTimer` and `timerFinished`.
- `Handlers` holds `Tap`, `LongPress`, `longPressStartAction`, `longPressEndAction`
  and the property observers.
- `Machine.Step(button, event)` returns the new button and the notifications sent.
  `Machine.Run` folds it over a sequence of events. A timer may fire only while it is
  still scheduled (`Machine.Admissible`).
- `RunProperties` holds lemmas over event sequences.
- `Scenarios` runs concrete sequences.

Timers get fresh identities from a counter. That lets the model tell the timer
`timer` refers to apart from one that is still scheduled but no longer referenced.

## Behaviour the code has that its comments do not suggest

The model follows the code in each of these cases:

- **Orphan timers.** The comment on `invalidateTimer` (Source/SwiftyCamButton.swift:176)
  says it ends the timer when the press ends before the limit. But it only ends the
  timer that `timer` refers to at that moment. `longPressStartAction` never invalidates
  an earlier timer; it only overwrites the reference (:171). Here is how this goes wrong:
  - A press begins and schedules timer 0.
  - The button is switched off (`buttonEnabled` false). The release that arrives now is
    dropped by the guard in `LongPress` (:134). The long-press recognizer stays attached.
  - The button is switched on again. A second press schedules timer 1 and overwrites
    the reference. Its release invalidates only timer 1.
  - Timer 0 then reports the maximum duration after the press has been reported ended.

  See `Scenarios.OrphanTimerFiresAfterEnd` and `RunProperties.StartOverLiveTimerOrphansIt`.
  When every press ends before the next one begins, no orphan exists
  (`RunProperties.DisjointSessionsLeaveNoOrphan`).
- **Repeated terminal phases.** The delegate's `buttonDidEndLongPress` is documented as
  called when the recognizer enters the end state (:33). The handler calls it for every
  `ended`, `cancelled` or `failed` phase that passes the guard (:141-142), even with no
  `began` in between. So two terminal phases in a row report two ends
  (`Scenarios.RepeatedEndIsReportedTwice`, `RunProperties.PhaseNotificationsCount`).
- **Tap needs a delegate.** `Tap` checks `buttonEnabled` and `photoCaptureEnabled`
  (:125). It then notifies through the optional delegate (:129), so without a delegate
  a tap sends nothing (`Handlers.Tap`).
- **Inverted attachment.** The property comments (:66, :81) say each switch sets whether
  its capture mode is enabled. The observers detach the recognizer when the switch
  becomes true and attach it when it becomes false (:73-77, :88-92). This is modelled
  as written (`Scenarios.EnablingPhotoCaptureDetachesTap`).

## Model

| member | source | states |
|---|---|---|
| `ButtonState.CreateGestureRecognizers` | Source/SwiftyCamButton.swift:185-194 | both recognizers exist and are attached afterwards; the long-press one has the platform's default threshold; nothing else changes |
| `ButtonState.Init` | Source/SwiftyCamButton.swift:64-120 | a constructed button has both recognizers attached, all three switches on, threshold and `videoMinimumPressDuration` 0.5, no timer and nothing scheduled, no delegate; it satisfies the invariant and has no orphan timer |
| `Timers.StartTimer` | Source/SwiftyCamButton.swift:167-174 | a fresh timer is scheduled and referenced exactly when a delegate is present and its maximum duration is positive; otherwise the button is unchanged; previously scheduled timers stay scheduled; only timer fields change, and the identity counter advances by one exactly when a timer is scheduled |
| `Timers.InvalidateTimer` | Source/SwiftyCamButton.swift:178-181 | the reference is cleared and exactly the referenced timer leaves the scheduled set; with no reference nothing is removed |
| `Timers.TimerFinished` | Source/SwiftyCamButton.swift:160-163 | the fired timer and the referenced timer are no longer scheduled and the reference is cleared; exactly one maximum-duration notification is sent iff a delegate is present; never an end notification; switches and recognizers unchanged |
| `Handlers.Tap` | Source/SwiftyCamButton.swift:124-130 | the button is unchanged; one tap notification is sent iff the button and photo capture are enabled and a delegate is present, otherwise nothing |
| `Handlers.LongPress` | Source/SwiftyCamButton.swift:133-146 | nothing happens unless the button and video capture are enabled; then `began` behaves as the start action, `ended`/`cancelled`/`failed` as the end action, and the other phases do nothing |
| `Handlers.LongPressStartAction` | Source/SwiftyCamButton.swift:148-151 | one begin notification iff a delegate is present; a fresh timer is scheduled and referenced iff a positive limit is requested; no previously scheduled timer is invalidated |
| `Handlers.LongPressEndAction` | Source/SwiftyCamButton.swift:153-156 | the reference is cleared and only the referenced timer is unscheduled; one end notification is sent iff a delegate is present, with or without a timer |
| `Handlers.SetPhotoCaptureEnabled` | Source/SwiftyCamButton.swift:67-79 | the switch takes the new value; an existing tap recognizer ends up attached iff the new value is false; nothing else changes |
| `Handlers.SetVideoCaptureEnabled` | Source/SwiftyCamButton.swift:82-94 | the switch takes the new value; an existing long-press recognizer ends up attached iff the new value is false, keeping its threshold; nothing else changes |
| `Handlers.SetVideoMinimumPressDuration` | Source/SwiftyCamButton.swift:97-101 | the property and an existing long-press recognizer's threshold take the new value; attachment and everything else unchanged |
| `Machine.Step` | Source/SwiftyCamButton.swift:124-181 | every event keeps the invariant: both recognizers exist, the reference names a scheduled timer, and every scheduled id is below the counter |
| `Machine.StepFrame` | Source/SwiftyCamButton.swift:64-163 | each event sends at most one notification, and none without a delegate; a tap notification only from a tap, a begin only from a start, an end only from an end action or terminal phase, a maximum only from a timer; each switch, the delegate and each recognizer change only through their own setter or observer |
| `Machine.Run` | Source/SwiftyCamButton.swift:105-181 | any admissible sequence of events keeps the invariant (recognizers exist, the reference names a scheduled timer, ids are fresh) and sends at most one notification per event |
| `RunProperties.StartTimerIsFresh` | Source/SwiftyCamButton.swift:167-173 | on a constructed button a new timer is distinct from every scheduled one, so the scheduled set grows by exactly one |
| `RunProperties.EndLeavesNothingScheduled` | Source/SwiftyCamButton.swift:153-156 | with no orphan timer, the end action leaves nothing scheduled, so no maximum-duration callback can follow the end notification |
| `RunProperties.StepKeepsNoOrphan` | Source/SwiftyCamButton.swift:148-181 | every event keeps "only the referenced timer is scheduled" except a long-press start while a timer is referenced |
| `RunProperties.StartOverLiveTimerOrphansIt` | Source/SwiftyCamButton.swift:148-173 | a start while a timer is referenced and a limit is requested leaves the old timer scheduled but unreferenced |
| `RunProperties.StepTimerIds` | Source/SwiftyCamButton.swift:160-181 | one event never moves the identity counter back, schedules only timers at or above it, and leaves a timer that fired unscheduled |
| `RunProperties.RetiredStaysRetired` | Source/SwiftyCamButton.swift:160-181 | a timer that was issued and is no longer scheduled never fires in any later admissible run |
| `RunProperties.FiresAtMostOnce` | Source/SwiftyCamButton.swift:171 | timers are single-shot (`repeats: false`): in any admissible run from a button satisfying the invariant, no two firings name the same timer |
| `RunProperties.DisjointSessionsLeaveNoOrphan` | Source/SwiftyCamButton.swift:148-181 | if no press begins while a timer is referenced, no orphan timer ever exists |
| `RunProperties.NoLimitNeverTimesOut` | Source/SwiftyCamButton.swift:167-173 | while every delegate asks for no limit (zero or negative), nothing is ever scheduled and the maximum-duration notification is never sent |
| `RunProperties.SilentWithoutDelegate` | Source/SwiftyCamButton.swift:124-163 | with no delegate, and none set, no event sends a notification |
| `RunProperties.TapsLeaveButtonUnchanged` | Source/SwiftyCamButton.swift:124-130 | any number of taps leave the button unchanged and send exactly one tap notification each when the tap guard holds and a delegate is present, none otherwise |
| `RunProperties.PhaseNotificationsCount` | Source/SwiftyCamButton.swift:138-145 | the expected long-press trace has exactly one begin per `began` phase and one end per terminal phase, and no other notification |
| `RunProperties.LongPressTraceMatchesPhases` | Source/SwiftyCamButton.swift:133-163 | with the video guard open and a delegate present, any interleaving of long-press phases and timer firings sends, once the maximum-duration notifications are removed, exactly the reference trace of its phases |
| `RunProperties.OneMaxNotificationPerFiring` | Source/SwiftyCamButton.swift:160-163 | in such an interleaving, each timer firing sends exactly one maximum-duration notification and the phases send none; with `RunProperties.FiresAtMostOnce` that is at most one per timer |
| `RunProperties.PhaseOrTimerStep` | Source/SwiftyCamButton.swift:133-163 | one phase or timer firing keeps the video guard and the delegate, and sends the phase's reference notifications or exactly one maximum-duration notification |
| `RunProperties.DisabledVideoIgnoresLongPress` | Source/SwiftyCamButton.swift:133-136 | with the button or video capture disabled, long-press phases change nothing and send nothing |
| `RunProperties.TapAttachmentFollowsLastSetting` | Source/SwiftyCamButton.swift:67-79 | after any run, `photoCaptureEnabled` is the value last assigned and the tap recognizer is attached iff that value is false (unchanged if never assigned) |
| `RunProperties.LongPressRecognizerFollowsLastSettings` | Source/SwiftyCamButton.swift:82-101 | after any run, `videoCaptureEnabled` is the value last assigned, the long-press recognizer is attached iff that value is false, and its threshold is the press duration last assigned |
| `RunProperties.InvertedAttachmentFromInit` | Source/SwiftyCamButton.swift:67-94 | from construction, each recognizer is attached unless its switch was last assigned true; once assigned, attached iff the mode is disabled |
| `Scenarios.PressedState` | Source/SwiftyCamButton.swift:148-173 | a press on a configured button sends a begin and schedules timer 0 as the referenced one |
| `Scenarios.EndBeforeLimit` | Source/SwiftyCamButton.swift:148-181 | press then release: begin, end, and no timer left scheduled or referenced |
| `Scenarios.HoldPastLimit` | Source/SwiftyCamButton.swift:160-163 | press, timer fires, release: begin, maximum reached, end; the timer does not end the press |
| `Scenarios.VideoDisabledThenBegan` | Source/SwiftyCamButton.swift:133-136 | disabling video capture then pressing sends nothing and schedules nothing |
| `Scenarios.RepeatedEndIsReportedTwice` | Source/SwiftyCamButton.swift:138-156 | press, `ended`, `cancelled`: the end is reported twice |
| `Scenarios.ReleaseIgnoredWhileDisabled` | Source/SwiftyCamButton.swift:133-136 | a release delivered while the button is switched off (`buttonEnabled` false) changes nothing, so timer 0 stays scheduled and referenced after it is switched back on; the long-press recognizer stays attached |
| `Scenarios.SecondSessionLeavesOrphan` | Source/SwiftyCamButton.swift:148-181 | a second press and release then invalidate only timer 1, and timer 0 fires afterwards: begin, end, maximum reached |
| `Scenarios.AfterFirstPressTrace` | Source/SwiftyCamButton.swift:133-181 | after the first press: switch off, release, switch on, press, release and timer 0 firing send begin, end, maximum reached |
| `Scenarios.FromFirstPressTrace` | Source/SwiftyCamButton.swift:133-181 | from the first press on, the configured button sends begin, begin, end, maximum reached |
| `Scenarios.OrphanTimerFiresAfterEnd` | Source/SwiftyCamButton.swift:133-181 | the whole sequence (delegate set, press, switch off, release, switch on, press, release, timer 0) sends begin, begin, end, maximum reached: a maximum-duration notification after the end |
| `Scenarios.EnablingPhotoCaptureDetachesTap` | Source/SwiftyCamButton.swift:73-77 | on a fresh button, assigning true to photo capture detaches the tap recognizer, and assigning false attaches it |

## Left out

- Platform view plumbing. `init(frame:)` and `init?(coder:)` are modelled only as the initial state they produce (`ButtonState.Init`). Rendering and the button's `UIControl` state are not modelled.
- Real time. A timer's duration is not stored. A scheduled timer may fire at any later step, and only while it is still scheduled. Statements of the form "after D seconds" become statements about which timers are scheduled.
- Floating point. Durations are `real`, so NaN and rounding do not arise. The source's redundant test `d != 0.0 && d > 0.0` is kept as written.
- Gesture delivery. Whether a detached recognizer still delivers events, or an attached one does, is up to the platform. Attachment is recorded state only, and a gesture event stands for the handler being called.
- The weak delegate. Its memory semantics are reduced to an optional value. The environment may set or clear it (`SetDelegate`).
- Re-entrancy. The delegate cannot change the button or its own answer from inside a notification. It is a fixed value between `SetDelegate` events.
- Handlers.LongPressStartAction: the source notifies the begin and only then asks for the maximum duration (Source/SwiftyCamButton.swift:149-150). The model returns the trace as a value next to the new button, so that order is not represented. A delegate here cannot observe the button between the two calls or act on it from inside the notification.
- Handlers.LongPressEndAction: the source invalidates the timer and only then notifies the end (Source/SwiftyCamButton.swift:154-155). That order is not represented, because the notification is a trace entry returned with the final button, not a call the delegate could re-enter from.
- Timers.TimerFinished: the source invalidates the timer and only then notifies that the maximum was reached (Source/SwiftyCamButton.swift:161-162). That order is not represented, for the same reason.
- The `recognized` recognizer state. It is the same state as `ended`, so it has no constructor of its own.
- Adding a recognizer that is already attached, or removing one that is not, is modelled as leaving it attached or detached.
