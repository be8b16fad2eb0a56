/**
 The activity monitor: its own thread and the threads that signify activity step in turn, each
 holding the mutex; the monitor gives it up only while it waits and while it runs the stop hook.
 */
module ActivityMonitor {

  datatype Status = Inactive | Active | TimingOut

  /** Where the monitor thread is: about to look at the state, waiting in one of its loops, or in the stop hook. */
  datatype Place = Looking | WaitForActive | WaitForInactive | WaitTimed | Stopping

  /** `started` and `stopped` count the changes of state that go with the two hooks. */
  datatype World = World(state: Status, playing: bool, place: Place, noTimeout: bool, started: nat, stopped: nat)

  function Initial(noTimeout: bool): World
  {
    World(Inactive, false, Looking, noTimeout, 0, 0)
  }

  /** `activity_monitor_signify_activity`, up to where it gives up the mutex. */
  function Signify(w: World, active: bool): World
  {
    if w.state.Inactive? && active then w.(playing := active, state := Active, started := w.started + 1)
    else if w.state.Active? && !active && w.noTimeout then
      w.(playing := active, state := Inactive, stopped := w.stopped + 1)
    else w.(playing := active)
  }

  /** One step of the monitor thread: from where it is to its next test. */
  function Monitor(w: World, timedOut: bool): World
  {
    match w.place
    case Looking =>
      (match w.state
       case Inactive => if !w.playing then w.(place := WaitForActive) else w
       case Active => if w.playing then w.(place := WaitForInactive) else w.(state := TimingOut)
       case TimingOut => if !w.playing then w.(place := WaitTimed) else w.(state := Active))
    case WaitForActive => if w.playing then w.(place := Looking) else w
    case WaitForInactive =>
      if w.playing then w
      else if w.state.Inactive? then w.(place := Looking)
      else w.(state := TimingOut, place := Looking)
    case WaitTimed =>
      if w.playing then w.(state := Active, place := Looking)
      else if timedOut then w.(state := Inactive, place := Stopping, stopped := w.stopped + 1)
      else w
    case Stopping => w.(place := Looking)
  }

  datatype Step = Signified(active: bool) | Monitored(timedOut: bool)

  /** Others step only while the monitor does not hold the mutex. */
  predicate Enabled(w: World, s: Step)
  {
    s.Signified? ==> w.place != Looking
  }

  function After(w: World, s: Step): World
  {
    match s
    case Signified(active) => Signify(w, active)
    case Monitored(timedOut) => Monitor(w, timedOut)
  }

  /** The state after a run of the two threads from the start. */
  function Reached(noTimeout: bool, steps: seq<Step>): World
  {
    if |steps| == 0 then Initial(noTimeout) else After(Reached(noTimeout, steps[..|steps| - 1]), steps[|steps| - 1])
  }

  /** In the run no thread steps while another holds the mutex. */
  predicate Allowed(noTimeout: bool, steps: seq<Step>)
  {
    |steps| > 0 ==>
      Allowed(noTimeout, steps[..|steps| - 1]) && Enabled(Reached(noTimeout, steps[..|steps| - 1]), steps[|steps| - 1])
  }

  predicate Invariant(w: World)
  {
    && (w.state.Inactive? ==> !w.playing)
    && w.started - w.stopped == (if w.state.Inactive? then 0 else 1)
    && (w.noTimeout ==> !w.state.TimingOut? && (w.state.Active? ==> w.playing))
    && (w.place.WaitTimed? ==> w.state.TimingOut?)
  }

  lemma StepKeepsInvariant(w: World, s: Step)
    requires Invariant(w) && Enabled(w, s)
    ensures Invariant(After(w, s))
  {
  }

  /**
   In every reachable state: inactive means that the player is not playing; activations less
   deactivations are 1 unless inactive; and with no timeout the state is never timing out.
   */
  lemma {:induction false} RunInvariant(noTimeout: bool, steps: seq<Step>)
    requires Allowed(noTimeout, steps)
    ensures Invariant(Reached(noTimeout, steps)) && Reached(noTimeout, steps).noTimeout == noTimeout
    decreases |steps|
  {
    if |steps| > 0 {
      var before := steps[..|steps| - 1];
      RunInvariant(noTimeout, before);
      StepKeepsInvariant(Reached(noTimeout, before), steps[|steps| - 1]);
    }
  }

  /** No deactivation while the player is active, and no activation while it is not. */
  lemma HooksMatchPlayer(noTimeout: bool, steps: seq<Step>, s: Step)
    requires Allowed(noTimeout, steps + [s])
    ensures var w, v := Reached(noTimeout, steps), Reached(noTimeout, steps + [s]);
      && (v.stopped > w.stopped ==> !v.playing && v.state.Inactive? && !w.state.Inactive?)
      && (v.started > w.started ==> v.playing && w.state.Inactive? && !v.state.Inactive?)
      && w.started <= v.started <= w.started + 1 && w.stopped <= v.stopped <= w.stopped + 1
  {
    assert (steps + [s])[..|steps + [s]| - 1] == steps;
    RunInvariant(noTimeout, steps);
  }

  /** At most `k` steps of the monitor thread, until it gives up the mutex. */
  function Settle(w: World, timedOut: bool, k: nat): World
    decreases k
  {
    if k == 0 || w.place != Looking then w else Settle(Monitor(w, timedOut), timedOut, k - 1)
  }

  /** The monitor thread from when it gets the mutex: the test it was waiting at, and then up to two looks at the state. */
  function Turn(w: World, timedOut: bool): World
  {
    Settle(if w.place == Looking then w else Monitor(w, timedOut), timedOut, 2)
  }

  lemma SettlesInTwo(w: World, timedOut: bool)
    requires Invariant(w)
    ensures Settle(w, timedOut, 2).place != Looking
    ensures w.place == Looking && w.state.Inactive? ==> Monitor(w, timedOut).place == WaitForActive
  {
    var v := Monitor(w, timedOut);
    StepKeepsInvariant(w, Monitored(timedOut));
    if w.place == Looking {
      assert Settle(w, timedOut, 2) == Settle(v, timedOut, 1);
      assert Settle(v, timedOut, 1) == if v.place != Looking then v else Settle(Monitor(v, timedOut), timedOut, 0);
    }
  }

  /**
   The monitor never spins: with the mutex in hand it is waiting again, or in the stop hook, after two
   looks at the state at most.
   */
  lemma MonitorDoesNotSpin(noTimeout: bool, steps: seq<Step>, timedOut: bool)
    requires Allowed(noTimeout, steps)
    ensures var w := Reached(noTimeout, steps);
      && Turn(w, timedOut).place != Looking
      && (w.place == Looking && w.state.Inactive? ==> Turn(w, timedOut) == w.(place := WaitForActive))
  {
    hide Reached, Turn, Invariant;
    RunInvariant(noTimeout, steps);
    TurnEnds(Reached(noTimeout, steps), timedOut);
  }

  lemma TurnEnds(w: World, timedOut: bool)
    requires Invariant(w)
    ensures Turn(w, timedOut).place != Looking
    ensures w.place == Looking && w.state.Inactive? ==> Turn(w, timedOut) == w.(place := WaitForActive)
  {
    hide Settle;
    StepKeepsInvariant(w, Monitored(timedOut));
    SettlesInTwo(if w.place == Looking then w else Monitor(w, timedOut), timedOut);
    if w.place == Looking && w.state.Inactive? {
      SettledAtOnce(w, timedOut);
    }
  }

  lemma SettledAtOnce(w: World, timedOut: bool)
    requires w.place == Looking && Monitor(w, timedOut).place != Looking
    ensures Settle(w, timedOut, 2) == Monitor(w, timedOut)
  {
  }

  // ---------- the hooks run ----------

  /** Activity is signified at once: the change of state that goes with the start hook is made by the signal itself. */
  lemma StartsAtOnce(noTimeout: bool, steps: seq<Step>)
    requires Allowed(noTimeout, steps) && Reached(noTimeout, steps).place != Looking
    ensures var w, v := Reached(noTimeout, steps), Signify(Reached(noTimeout, steps), true);
      v.playing && !v.state.Inactive? && v.started == w.started + if w.state.Inactive? then 1 else 0
  {
    hide Reached;
    RunInvariant(noTimeout, steps);
  }

  /**
   Whether inactivity is noticed. With no timeout the signal itself makes the change of state that goes
   with the stop hook. Otherwise, while the player is not playing, the monitor gets to its timed wait with
   its next turn if and only if it is not still waiting for activity; a turn there that is not timed out
   changes nothing, and one that is makes the change, once.
   */
  lemma StopsInTime(noTimeout: bool, steps: seq<Step>)
    requires Allowed(noTimeout, steps)
    ensures var w := Reached(noTimeout, steps);
      && (noTimeout && w.state.Active? && w.place != Looking ==>
            Signify(w, false).state.Inactive? && Signify(w, false).stopped == w.stopped + 1)
      && (!w.playing && !w.state.Inactive? && w.place != WaitTimed ==>
            (Turn(w, false) == w.(state := TimingOut, place := WaitTimed) <==> w.place != WaitForActive))
      && (!w.playing && w.place == WaitTimed ==>
            Turn(w, false) == w && Turn(w, true) == w.(state := Inactive, place := Stopping, stopped := w.stopped + 1))
  {
    hide Reached, Turn;
    RunInvariant(noTimeout, steps);
    if !Reached(noTimeout, steps).playing {
      IdleTurn(Reached(noTimeout, steps));
    }
  }

  lemma IdleTurn(w: World)
    requires Invariant(w) && !w.playing
    ensures w.place == WaitForActive ==> Turn(w, false) == w && Turn(w, true) == w
    ensures !w.state.Inactive? && w.place != WaitTimed && w.place != WaitForActive ==>
      Turn(w, false) == w.(state := TimingOut, place := WaitTimed)
    ensures w.place == WaitTimed ==>
      Turn(w, false) == w && Turn(w, true) == w.(state := Inactive, place := Stopping, stopped := w.stopped + 1)
  {
    if !w.state.Inactive? && w.place != WaitTimed && w.place != WaitForActive {
      var v := if w.place == Looking then w else Monitor(w, false);
      assert v.place == Looking;
      assert Settle(v, false, 2) == Settle(Monitor(v, false), false, 1);
    }
  }

  lemma OneMore(noTimeout: bool, steps: seq<Step>, s: Step)
    requires Allowed(noTimeout, steps) && Enabled(Reached(noTimeout, steps), s)
    ensures Allowed(noTimeout, steps + [s]) && Reached(noTimeout, steps + [s]) == After(Reached(noTimeout, steps), s)
  {
    assert (steps + [s])[..|steps|] == steps;
  }

  /** The monitor takes `n` steps on its own. */
  function Alone(timedOut: bool, n: nat): seq<Step>
  {
    seq(n, _ => Monitored(timedOut))
  }

  /**
   Activity that ends before the monitor has woken up is missed: the start hook has run, but however often
   the monitor is woken up, timed out or not, the stop hook does not run.
   */
  lemma {:induction false} ShortActivityMissed(timedOut: bool, n: nat) returns (steps: seq<Step>)
    ensures steps == [Monitored(false), Signified(true), Signified(false)] + Alone(timedOut, n) && Allowed(false, steps)
    ensures var w := Reached(false, steps); w.started == 1 && w.stopped == 0 && !w.playing && w.state.Active?
    ensures Reached(false, steps).place == WaitForActive
  {
    var start := [Monitored(false), Signified(true), Signified(false)];
    steps := start + Alone(timedOut, n);
    if n == 0 {
      assert steps == start;
      OneMore(false, [], Monitored(false));
      OneMore(false, [Monitored(false)], Signified(true));
      OneMore(false, [Monitored(false), Signified(true)], Signified(false));
    } else {
      var before := ShortActivityMissed(timedOut, n - 1);
      assert steps[..|steps| - 1] == before && steps[|steps| - 1] == Monitored(timedOut);
    }
  }

  // ---------- the shared variables ----------

  class ActivityMonitor {
    var state: Status
    var playerActive: bool
    var place: Place
    const noTimeout: bool
    ghost var started: nat
    ghost var stopped: nat

    ghost function View(): World
      reads this
    {
      World(state, playerActive, place, noTimeout, started, stopped)
    }

    constructor (noTimeout: bool)
      ensures View() == Initial(noTimeout)
    {
      state, playerActive, place, this.noTimeout, started, stopped := Inactive, false, Looking, noTimeout, 0, 0;
    }

    /** `activity_monitor_signify_activity`. */
    method SignifyActivity(active: int)
      requires place != Looking
      modifies this
      ensures View() == Signify(old(View()), active != 0)
    {
      playerActive := active != 0;
      if state == Inactive && playerActive {
        state := Active;
        started := started + 1;
      } else if state == Active && !playerActive && noTimeout {
        state := Inactive;
        stopped := stopped + 1;
      }
    }

    /** The test at which the monitor thread was waiting. */
    method WakeUp(timedOut: bool)
      modifies this
      ensures View() == if old(place) == Looking then old(View()) else Monitor(old(View()), timedOut)
    {
      match place {
        case Looking =>
        case WaitForActive =>
          if playerActive {
            place := Looking;
          }
        case WaitForInactive =>
          if !playerActive {
            if state != Inactive {
              state := TimingOut;
            }
            place := Looking;
          }
        case WaitTimed =>
          if playerActive {
            state, place := Active, Looking;
          } else if timedOut {
            state, place := Inactive, Stopping;
            stopped := stopped + 1;
          }
        case Stopping =>
          place := Looking;
      }
    }

    /** One look at the state, with the mutex in hand. */
    method Look(ghost timedOut: bool)
      requires place == Looking
      modifies this
      ensures View() == Monitor(old(View()), timedOut)
    {
      match state {
        case Inactive =>
          if !playerActive {
            place := WaitForActive;
          }
        case Active =>
          if playerActive {
            place := WaitForInactive;
          } else {
            state := TimingOut;
          }
        case TimingOut =>
          if !playerActive {
            place := WaitTimed;
          } else {
            state := Active;
          }
      }
    }

    /** `activity_monitor_thread_code`, from when the thread gets the mutex to when it gives it up again. */
    method TakeTurn(timedOut: bool)
      requires Invariant(View())
      modifies this
      ensures Invariant(View()) && place != Looking && View() == Turn(old(View()), timedOut)
    {
      hide Monitor, Invariant;
      ghost var k: nat := 2;
      StepKeepsInvariant(View(), Monitored(timedOut));
      WakeUp(timedOut);
      SettlesInTwo(View(), timedOut);
      while place == Looking
        invariant Invariant(View()) && Settle(View(), timedOut, k) == Turn(old(View()), timedOut)
        invariant Settle(View(), timedOut, k).place != Looking
        decreases k
      {
        StepKeepsInvariant(View(), Monitored(timedOut));
        Look(timedOut);
        k := k - 1;
      }
    }
  }
}
