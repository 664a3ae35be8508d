/**
 * The two-stage debounce of scheduleRefresh: a throttle timer whose callback
 * arms an animation frame, whose callback runs refresh. Only whether each
 * handle is armed matters to the engine; the 120 ms delay and the browser's
 * frame timing are left to the host.
 */
module Scheduler {

  /** `timerHandle` and `rafHandle`, each either null or armed. */
  datatype Handles = Handles(timer: bool, frame: bool)

  const Idle: Handles := Handles(false, false)

  /** The engine never has a throttle timer and a frame pending at once. */
  predicate NeverBoth(h: Handles) {
    !(h.timer && h.frame)
  }

  /** Whether a refresh is on its way. */
  predicate Pending(h: Handles) {
    h.timer || h.frame
  }

  /** scheduleRefresh(immediate). */
  function Schedule(h: Handles, immediate: bool): (r: Handles)
    // Afterwards a refresh is pending, and from a state that never has both
    // stages armed, exactly one stage is.
    ensures Pending(r) && (NeverBoth(h) ==> NeverBoth(r))
    // The fast path cancels the timer and leaves only a frame.
    ensures immediate ==> !r.timer && r.frame
    // A normal call while something is pending does nothing.
    ensures !immediate && Pending(h) ==> r == h
    // A normal call with nothing pending starts at the timer stage.
    ensures !immediate && !Pending(h) ==> r.timer && !r.frame
  {
    if immediate then Handles(false, true)
    else if h.timer || h.frame then h
    else Handles(true, false)
  }

  /** The timer callback: it clears its own handle and requests a frame. A
      cancelled timer never fires, so firing with no timer armed does nothing. */
  function TimerFired(h: Handles): (r: Handles)
    ensures !r.timer
    ensures h.timer ==> r.frame
    ensures !h.timer ==> r == h
  {
    if h.timer then Handles(false, true) else h
  }

  /** The frame callback clears its own handle; `FrameRuns` tells whether it
      then runs refresh. */
  function FrameFired(h: Handles): (r: Handles)
    ensures !r.frame && r.timer == h.timer
  {
    if h.frame then h.(frame := false) else h
  }

  predicate FrameRuns(h: Handles) {
    h.frame
  }

  /** What can happen to the scheduler: a scheduleRefresh call or one of the two
      callbacks firing. */
  datatype Event = Request(immediate: bool) | TimerFires | FrameFires

  function Step(h: Handles, e: Event): Handles {
    match e
    case Request(immediate) => Schedule(h, immediate)
    case TimerFires => TimerFired(h)
    case FrameFires => FrameFired(h)
  }

  /** Whether event `e` in state `h` runs refresh. */
  function Refreshes(h: Handles, e: Event): nat {
    if e == FrameFires && FrameRuns(h) then 1 else 0
  }

  /** The state after a run of events, and how many refreshes ran on the way
      (a fold on the last event). */
  function Run(h: Handles, es: seq<Event>): (Handles, nat) {
    if es == [] then (h, 0)
    else
      var (p, n) := Run(h, es[..|es| - 1]);
      var e := es[|es| - 1];
      (Step(p, e), n + Refreshes(p, e))
  }

  /** Every step keeps the timer and the frame from both being armed. */
  lemma StepKeepsNeverBoth(h: Handles, e: Event)
    requires NeverBoth(h)
    ensures NeverBoth(Step(h, e))
  {
  }

  lemma {:induction false} RunKeepsNeverBoth(h: Handles, es: seq<Event>)
    requires NeverBoth(h)
    ensures NeverBoth(Run(h, es).0)
  {
    if es != [] {
      RunKeepsNeverBoth(h, es[..|es| - 1]);
      StepKeepsNeverBoth(Run(h, es[..|es| - 1]).0, es[|es| - 1]);
    }
  }

  /** `n` normal scheduleRefresh calls. */
  function Requests(n: nat): (es: seq<Event>)
    ensures |es| == n && forall i :: 0 <= i < n ==> es[i] == Request(false)
  {
    if n == 0 then [] else Requests(n - 1) + [Request(false)]
  }

  /** Any burst of normal calls has the effect of the first one and runs no
      refresh by itself. */
  lemma {:induction false} RequestsCoalesce(h: Handles, n: nat)
    requires n >= 1
    ensures Run(h, Requests(n)) == (Schedule(h, false), 0)
  {
    var es := Requests(n);
    assert es[..n - 1] == Requests(n - 1);
    if n > 1 {
      RequestsCoalesce(h, n - 1);
    }
  }

  /** From rest, any number (at least one) of normal calls followed by the timer
      and then the frame firing runs refresh exactly once and returns to rest. */
  lemma BurstRefreshesOnce(n: nat)
    requires n >= 1
    ensures Run(Idle, Requests(n) + [TimerFires, FrameFires]) == (Idle, 1)
  {
    var es := Requests(n) + [TimerFires, FrameFires];
    RequestsCoalesce(Idle, n);
    assert es[..|es| - 1][..|es| - 2] == Requests(n);
    assert es[..|es| - 1] == Requests(n) + [TimerFires];
  }

  /** The number of refreshes a run performs never exceeds the number of frame
      callbacks in it. */
  function FrameCount(es: seq<Event>): nat {
    if es == [] then 0
    else FrameCount(es[..|es| - 1]) + (if es[|es| - 1] == FrameFires then 1 else 0)
  }

  lemma {:induction false} RefreshesBoundedByFrames(h: Handles, es: seq<Event>)
    ensures Run(h, es).1 <= FrameCount(es)
  {
    if es != [] {
      RefreshesBoundedByFrames(h, es[..|es| - 1]);
    }
  }

  /** A frame callback runs refresh only if a request armed it since the last
      one: from rest, a run with no request performs no refresh. */
  lemma {:induction false} NoRequestNoRefresh(es: seq<Event>)
    requires forall i :: 0 <= i < |es| ==> !es[i].Request?
    ensures Run(Idle, es) == (Idle, 0)
  {
    if es != [] {
      NoRequestNoRefresh(es[..|es| - 1]);
    }
  }
}
