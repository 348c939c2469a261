/**
  The maximum-duration timer: starting it, invalidating it, and its callback.
  Time itself is not modelled: a scheduled timer may fire at any later step.
 */
module Timers {
  import opened Wrappers
  import opened ButtonDelegate
  import opened ButtonState

  /** The duration test of startTimer, as the source writes it (`d != 0.0 && d > 0.0`). */
  predicate AsksForLimit(duration: real) {
    duration != 0.0 && duration > 0.0
  }

  /** A delegate is present and its maximum duration passes the duration test. */
  predicate LimitRequested(b: Button) {
    b.delegate.Some? && AsksForLimit(b.delegate.value.maxVideoDuration)
  }

  /**
    startTimer: asks the delegate for the maximum duration once and, when it is
    positive, schedules a single-shot timer and stores it in `timer`. A timer the
    reference pointed to before stays scheduled.
   */
  function StartTimer(b: Button): (r: Button)
    ensures LimitRequested(b) ==> r.timer == Some(b.nextTimer) && r.scheduled == b.scheduled + {b.nextTimer}
    ensures LimitRequested(b) ==> r.nextTimer == b.nextTimer + 1
    ensures !LimitRequested(b) ==> r == b
    ensures b.scheduled <= r.scheduled
    ensures OnlyTimersDiffer(b, r)
  {
    match b.delegate
    case None => b
    case Some(d) =>
      if AsksForLimit(d.maxVideoDuration) then
        b.(timer := Some(b.nextTimer), scheduled := b.scheduled + {b.nextTimer}, nextTimer := b.nextTimer + 1)
      else
        b
  }

  /** invalidateTimer: invalidates the timer `timer` refers to, if any, and clears the reference. */
  function InvalidateTimer(b: Button): (r: Button)
    ensures r.timer.None?
    ensures forall t :: t in r.scheduled <==> t in b.scheduled && b.timer != Some(t)
    ensures OnlyTimersDiffer(b, r) && r.nextTimer == b.nextTimer
  {
    match b.timer
    case None => b
    case Some(t) => b.(timer := None, scheduled := b.scheduled - {t})
  }

  /**
    timerFinished, run when the scheduled timer `fired` goes off. The run loop
    retires a non-repeating timer once it has fired; the callback then invalidates
    whatever `timer` refers to (which need not be `fired`) and tells the delegate the
    maximum duration was reached. It does not end the long press.
   */
  function TimerFinished(b: Button, fired: TimerId): (o: Outcome)
    requires fired in b.scheduled
    ensures o.button.timer.None?
    ensures forall t :: t in o.button.scheduled <==> t in b.scheduled && t != fired && b.timer != Some(t)
    ensures OnlyTimersDiffer(b, o.button) && o.button.nextTimer == b.nextTimer
    ensures o.trace == [ReachedMaxDuration] <==> b.delegate.Some?
    ensures o.trace == [] <==> b.delegate.None?
    ensures DidEndLongPress !in o.trace
  {
    var retired := b.(scheduled := b.scheduled - {fired});
    Outcome(InvalidateTimer(retired), Notify(b.delegate, ReachedMaxDuration))
  }
}
