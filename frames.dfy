/**
 * The browser's animation-frame queue as requestAnimationFrame and
 * cancelAnimationFrame see it: handles are positive integers handed out in
 * increasing order, and a frame stays pending until its callback runs or it
 * is cancelled.
 */
module AnimationFrames {
  type FrameHandle = nat

  datatype FrameQueue = FrameQueue(next: FrameHandle, pending: set<FrameHandle>) {
    /** Every handle is positive (so truthy) and was issued before `next`. */
    predicate Valid() {
      1 <= next && forall h :: h in pending ==> 1 <= h < next
    }

    /** requestAnimationFrame: a fresh, non-zero handle becomes pending. */
    function Request(): (r: (FrameQueue, FrameHandle))
      requires Valid()
      ensures r.0.Valid()
      ensures r.1 != 0 && r.1 !in pending
      ensures r.0.pending == pending + {r.1}
    {
      (FrameQueue(next + 1, pending + {next}), next)
    }

    /**
     * cancelAnimationFrame, and equally the browser taking a frame off the
     * queue to run its callback: the handle is no longer pending, and a handle
     * that is unknown or already gone leaves the queue as it was.
     */
    function Cancel(h: FrameHandle): (r: FrameQueue)
      requires Valid()
      ensures r.Valid()
      ensures r.pending == pending - {h}
      ensures h !in pending ==> r == this
    {
      FrameQueue(next, pending - {h})
    }
  }

  /** A queue with nothing pending. */
  const Idle: FrameQueue := FrameQueue(1, {})
}
