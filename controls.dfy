/**
 * The reading controls as a state machine over the three fields
 * `is_reading`, `is_paused` and `stop_flag` (`start_reading`,
 * `pause_resume_reading`, `stop_reading`).
 */
module Controls {

  datatype ControlState = ControlState(isReading: bool, isPaused: bool, stopFlag: bool)

  /** The state `__init__` sets up: not reading, not paused, stop flag clear. */
  const Initial: ControlState := ControlState(false, false, false)

  /** `start_reading`: ignored while reading; otherwise reading, stop flag cleared. */
  function Start(c: ControlState): ControlState
  {
    if c.isReading then c else c.(isReading := true, stopFlag := false)
  }

  /** `pause_resume_reading`: ignored unless reading; otherwise flips the pause flag. */
  function PauseResume(c: ControlState): ControlState
  {
    if c.isReading then c.(isPaused := !c.isPaused) else c
  }

  /** `stop_reading`: stop flag set, no longer reading. */
  function Stop(c: ControlState): ControlState
  {
    c.(stopFlag := true, isReading := false)
  }

  /** The pause button pressed `k` times in a row. */
  function PressPauseTimes(c: ControlState, k: nat): ControlState
  {
    if k == 0 then c else PauseResume(PressPauseTimes(c, k - 1))
  }

  /** What the user does at one observation point of the narration thread. */
  datatype Action = Idle | PressPause | PressStop

  /** The control state after one user action: the pause button or the stop button. */
  function ApplyAction(a: Action, c: ControlState): ControlState
  {
    match a
    case Idle => c
    case PressPause => PauseResume(c)
    case PressStop => Stop(c)
  }

  /** The control state after the user's actions `acts`, taken in order. */
  function Replay(c: ControlState, acts: seq<Action>): ControlState
    decreases |acts|
  {
    if acts == [] then c else ApplyAction(acts[|acts| - 1], Replay(c, acts[..|acts| - 1]))
  }

  /** Taking the action at position `t` extends the replay of the first `t` actions. */
  lemma ReplayStep(c: ControlState, acts: seq<Action>, t: nat)
    requires t < |acts|
    ensures Replay(c, acts[..t + 1]) == ApplyAction(acts[t], Replay(c, acts[..t]))
  {
    assert acts[..t + 1][..t] == acts[..t];
  }

  /** The stop flag is set after a run of actions exactly when it was set before or one of them is a stop. */
  lemma {:induction false} ReplayStopFlag(c: ControlState, acts: seq<Action>)
    ensures Replay(c, acts).stopFlag <==> c.stopFlag || PressStop in acts
    decreases |acts|
  {
    if acts != [] {
      var init := acts[..|acts| - 1];
      ReplayStopFlag(c, init);
      assert acts == init + [acts[|acts| - 1]];
    }
  }

  /**
   * Without a stop, a session stays open and its pause flag flips once per
   * press of the pause button: it ends paused exactly when it started paused
   * or the button was pressed an odd number of times, not both.
   */
  lemma {:induction false} ReplayWithoutStop(c: ControlState, acts: seq<Action>)
    requires c.isReading && PressStop !in acts
    ensures Replay(c, acts) == c.(isPaused := c.isPaused != (multiset(acts)[PressPause] % 2 == 1))
    decreases |acts|
  {
    if acts != [] {
      var init, last := acts[..|acts| - 1], acts[|acts| - 1];
      assert acts == init + [last];
      assert multiset(acts) == multiset(init) + multiset{last};
      ReplayWithoutStop(c, init);
    }
  }

  /** Start does nothing during a session, and otherwise opens one without touching the pause flag. */
  lemma StartSemantics(c: ControlState)
    ensures c.isReading ==> Start(c) == c
    ensures !c.isReading ==> Start(c) == ControlState(true, c.isPaused, false)
  {
  }

  /** Pressing pause `k` times during a session flips the pause flag exactly when `k` is odd; outside a session nothing changes. */
  lemma {:induction false} PauseResumeParity(c: ControlState, k: nat)
    ensures PressPauseTimes(c, k) ==
      if c.isReading then c.(isPaused := c.isPaused != (k % 2 == 1)) else c
  {
    if k > 0 {
      PauseResumeParity(c, k - 1);
    }
  }

  /** Two presses of pause restore the state. */
  lemma PauseResumeTwice(c: ControlState)
    ensures PauseResume(PauseResume(c)) == c
  {
  }

  /** Stop is idempotent and never touches the pause flag. */
  lemma StopIdempotent(c: ControlState)
    ensures Stop(Stop(c)) == Stop(c)
    ensures Stop(c).isPaused == c.isPaused && !Stop(c).isReading && Stop(c).stopFlag
  {
  }

  /** Stopping a paused session and starting again begins the new session paused. */
  lemma RestartAfterPausedStop()
    ensures Start(Stop(PauseResume(Start(Initial)))) == ControlState(true, true, false)
  {
  }
}
