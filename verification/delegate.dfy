/**
  The delegate protocol of the button: four notifications the button sends, and one
  query (the maximum video duration) the button asks of its delegate.
  The delegate is held weakly by the button; here it is an optional value that the
  environment may set or clear at any time.
 */
module ButtonDelegate {
  import opened Wrappers

  /** The notifications of the delegate protocol, one per callback. */
  datatype Notification =
    | WasTapped            // buttonWasTapped()
    | DidBeginLongPress    // buttonDidBeginLongPress()
    | DidEndLongPress      // buttonDidEndLongPress()
    | ReachedMaxDuration   // longPressDidReachMaximumDuration()

  /**
    An abstract delegate. Its only observable part is its answer to the
    maximum-duration query (spelled `setMaxiumVideoDuration` by the source), in seconds;
    an answer that is not positive means "no limit".
   */
  datatype Delegate = Delegate(maxVideoDuration: real)

  /** Optional chaining on the weak delegate: a notification to an absent delegate is dropped. */
  function Notify(d: Option<Delegate>, n: Notification): seq<Notification> {
    if d.Some? then [n] else []
  }
}
