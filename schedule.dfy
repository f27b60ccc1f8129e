/**
 * Where the narration thread's waits end on a given action schedule: the
 * pause wait, the busy wait of a page, one loop iteration, and the whole
 * session. The methods of `App.AudioBookApp` are proved to end exactly
 * there; the lemmas say what those ends mean.
 */
module Schedule {
  import opened Text
  import opened Extraction
  import opened Controls
  import opened Narration

  /** The pause loop holds the thread: paused and not stopped. */
  predicate Held(c: ControlState)
  {
    c.isPaused && !c.stopFlag
  }

  /** How many observation points in `lo..hi` are busy-wait sleeps, i.e. not held by the pause loop. */
  function Releases(c0: ControlState, acts: seq<Action>, lo: nat, hi: nat): nat
    requires lo <= hi <= |acts|
    decreases hi - lo
  {
    if lo == hi then 0
    else (if Held(Replay(c0, acts[..lo])) then 0 else 1) + Releases(c0, acts, lo + 1, hi)
  }

  /** The observation point at which the pause loop started at `t` lets go (or the end of the schedule). */
  function PauseEnd(c0: ControlState, acts: seq<Action>, t: nat): (r: nat)
    requires t <= |acts|
    ensures t <= r <= |acts|
    decreases |acts| - t
  {
    if t < |acts| && Held(Replay(c0, acts[..t])) then PauseEnd(c0, acts, t + 1) else t
  }

  /** Where a wait ends, and whether it is stuck in the pause loop with no actions left. */
  datatype Wait = Wait(tick: nat, suspended: bool)

  /**
   * The busy wait of a page started at `t` with `left` busy answers to go:
   * each answer waits out the pause, then sleeps once; the stop flag ends it.
   */
  function BusyEnd(c0: ControlState, acts: seq<Action>, t: nat, left: nat): (w: Wait)
    requires t <= |acts|
    ensures t <= w.tick <= |acts|
    decreases left
  {
    if left == 0 || Replay(c0, acts[..t]).stopFlag then Wait(t, false)
    else
      var p := PauseEnd(c0, acts, t);
      if Held(Replay(c0, acts[..p])) then Wait(p, true)
      else BusyEnd(c0, acts, if p < |acts| then p + 1 else p, left - 1)
  }

  /** Where one loop iteration over page `i` ends: the page to visit next, the tick, and whether the loop goes on. */
  datatype Visit = Visit(next: nat, tick: nat, running: bool, suspended: bool)

  /** A non-blank page whose busy wait starts at `s`. */
  function SpeakEnd(c0: ControlState, busy: nat, acts: seq<Action>, i: nat, s: nat): (v: Visit)
    requires s <= |acts|
    ensures v.tick <= |acts| && (v.running ==> v.next == i + 1)
  {
    var w := BusyEnd(c0, acts, s, busy);
    if w.suspended then Visit(i, w.tick, false, true)
    else Visit(i + 1, w.tick, !Replay(c0, acts[..w.tick]).stopFlag, false)
  }

  /** One iteration over page `i` from tick `t`: the stop check takes an action, then the page is left, skipped or spoken. */
  function VisitEnd(c0: ControlState, page: Page, busy: nat, acts: seq<Action>, i: nat, t: nat): (v: Visit)
    requires t <= |acts|
    ensures v.tick <= |acts| && (v.running ==> v.next == i + 1)
  {
    var s := if t < |acts| then t + 1 else t;
    if Replay(c0, acts[..s]).stopFlag then Visit(i, s, false, false)
    else if IsBlank(page.text) then Visit(i + 1, s, true, false)
    else SpeakEnd(c0, busy, acts, i, s)
  }

  /** How a session ends: pages visited, actions used, and whether it is stuck paused. */
  datatype Run = Run(visited: nat, used: nat, suspended: bool)

  /** The session from page `i`, tick `t` and utterance `u` on. */
  function Narrate(c0: ControlState, pages: seq<Page>, busyTicks: seq<nat>, acts: seq<Action>, i: nat, t: nat, u: nat): (r: Run)
    requires i <= |pages| && t <= |acts|
    ensures i <= r.visited <= |pages| && t <= r.used <= |acts|
    decreases |pages| - i
  {
    if i == |pages| then Run(i, t, false)
    else
      var v := VisitEnd(c0, pages[i], BusyAt(busyTicks, u), acts, i, t);
      if !v.running then Run(v.next, v.tick, v.suspended)
      else Narrate(c0, pages, busyTicks, acts, v.next, v.tick, if IsBlank(pages[i].text) then u else u + 1)
  }

  /** Observation points the pause loop holds add no release. */
  lemma {:induction false} ReleasesHeld(c0: ControlState, acts: seq<Action>, lo: nat, mid: nat, hi: nat)
    requires lo <= mid <= hi <= |acts|
    requires forall k :: lo <= k < mid ==> Held(Replay(c0, acts[..k]))
    ensures Releases(c0, acts, lo, hi) == Releases(c0, acts, mid, hi)
    decreases mid - lo
  {
    if lo < mid {
      ReleasesHeld(c0, acts, lo + 1, mid, hi);
    }
  }

  /**
   * The pause loop takes an action at every point where it is held, and
   * lets go at the first point where it is not (or where the actions run out).
   */
  lemma {:induction false} PauseEndHeld(c0: ControlState, acts: seq<Action>, t: nat)
    requires t <= |acts|
    ensures forall k :: t <= k < PauseEnd(c0, acts, t) ==> Held(Replay(c0, acts[..k]))
    ensures PauseEnd(c0, acts, t) < |acts| ==> !Held(Replay(c0, acts[..PauseEnd(c0, acts, t)]))
    decreases |acts| - t
  {
    if t < |acts| && Held(Replay(c0, acts[..t])) {
      PauseEndHeld(c0, acts, t + 1);
    }
  }

  /** A busy wait is suspended only held in its pause loop with every action used. */
  lemma {:induction false} BusyEndSuspended(c0: ControlState, acts: seq<Action>, t: nat, left: nat)
    requires t <= |acts|
    ensures BusyEnd(c0, acts, t, left).suspended ==> BusyEnd(c0, acts, t, left).tick == |acts| && Held(Replay(c0, acts))
    decreases left
  {
    if left > 0 && !Replay(c0, acts[..t]).stopFlag {
      var p := PauseEnd(c0, acts, t);
      PauseEndHeld(c0, acts, t);
      if Held(Replay(c0, acts[..p])) {
        assert acts[..p] == acts;
      } else {
        BusyEndSuspended(c0, acts, if p < |acts| then p + 1 else p, left - 1);
      }
    }
  }

  /**
   * A busy wait with `left` answers to go releases at most `left` times,
   * and exactly `left` times when it ends on its own before the schedule does.
   */
  lemma {:induction false} BusyEndReleases(c0: ControlState, acts: seq<Action>, t: nat, left: nat)
    requires t <= |acts|
    ensures var w := BusyEnd(c0, acts, t, left);
      && Releases(c0, acts, t, w.tick) <= left
      && (!w.suspended && !Replay(c0, acts[..w.tick]).stopFlag && w.tick < |acts| ==> Releases(c0, acts, t, w.tick) == left)
    decreases left
  {
    if left > 0 && !Replay(c0, acts[..t]).stopFlag {
      var p := PauseEnd(c0, acts, t);
      PauseEndHeld(c0, acts, t);
      if Held(Replay(c0, acts[..p])) {
        ReleasesHeld(c0, acts, t, p, p);
      } else {
        var q := if p < |acts| then p + 1 else p;
        var w := BusyEnd(c0, acts, q, left - 1);
        assert BusyEnd(c0, acts, t, left) == w;
        BusyEndReleases(c0, acts, q, left - 1);
        ReleasesHeld(c0, acts, t, p, w.tick);
        if p < |acts| {
          assert Releases(c0, acts, p, w.tick) == 1 + Releases(c0, acts, q, w.tick);
        }
      }
    }
  }

  /**
   * A busy wait that takes an action and ends before the schedule does ends
   * on a busy-wait sleep: it never leaves a page from inside the pause loop.
   */
  lemma {:induction false} BusyEndLastRelease(c0: ControlState, acts: seq<Action>, t: nat, left: nat)
    requires t <= |acts|
    ensures var w := BusyEnd(c0, acts, t, left);
      !w.suspended && t < w.tick < |acts| ==> !Held(Replay(c0, acts[..w.tick - 1]))
    decreases left
  {
    if left > 0 && !Replay(c0, acts[..t]).stopFlag {
      var p := PauseEnd(c0, acts, t);
      PauseEndHeld(c0, acts, t);
      if !Held(Replay(c0, acts[..p])) && p < |acts| {
        BusyEndLastRelease(c0, acts, p + 1, left - 1);
      }
    }
  }

  /**
   * Two pages, the first answered busy twice: pause pressed at its first
   * busy-wait sleep holds that page through three idle sleeps until resume,
   * so the session finishes unpaused, having used all six actions.
   */
  lemma PauseHoldsPage(c0: ControlState, pages: seq<Page>)
    requires c0 == ControlState(true, false, false)
    requires |pages| == 2 && !IsBlank(pages[0].text) && !IsBlank(pages[1].text)
    ensures Narrate(c0, pages, [2], [Idle, PressPause, Idle, Idle, Idle, PressPause], 0, 0, 0) == Run(2, 6, false)
    ensures Replay(c0, [Idle, PressPause, Idle, Idle, Idle, PressPause]) == c0
  {
    var acts := [Idle, PressPause, Idle, Idle, Idle, PressPause];
    var paused := ControlState(true, true, false);
    ReplayStep(c0, acts, 0);
    ReplayStep(c0, acts, 1);
    ReplayStep(c0, acts, 2);
    ReplayStep(c0, acts, 3);
    ReplayStep(c0, acts, 4);
    ReplayStep(c0, acts, 5);
    assert acts[..0] == [] && acts[..6] == acts;
    assert Replay(c0, acts[..1]) == c0;
    assert Replay(c0, acts[..2]) == paused;
    assert Replay(c0, acts[..5]) == paused;
    assert Replay(c0, acts) == c0;
    assert PauseEnd(c0, acts, 2) == 6;
    assert PauseEnd(c0, acts, 1) == 1;
    assert BusyEnd(c0, acts, 2, 1) == Wait(6, false);
    assert BusyEnd(c0, acts, 1, 2) == Wait(6, false);
    assert VisitEnd(c0, pages[0], 2, acts, 0, 0) == Visit(1, 6, true, false);
    assert VisitEnd(c0, pages[1], 0, acts, 1, 6) == Visit(2, 6, true, false);
    assert BusyAt([2], 0) == 2 && BusyAt([2], 1) == 0;
    assert Narrate(c0, pages, [2], acts, 2, 6, 2) == Run(2, 6, false);
    assert Narrate(c0, pages, [2], acts, 1, 6, 1) == Run(2, 6, false);
  }
}
