/** `TimedStateMachine<T>` of Runtime/StateMachine.cs: a driver that holds
    one current state, one pending state and an absolute dwell deadline, and
    updates them step by step, calling Exit and Enter on its states in
    between. Every method is proved to change the fields exactly as the
    function of the same name in MachineSpec says. */
module StateMachine {
  import opened StateContract
  import opened Lifecycle
  import opened MachineSpec

  class TimedStateMachine<S(==)> {
    /** What each state's methods do. */
    const states: States<S>
    /** The host's clock, Unity's `Time.time`. */
    var now: real
    var current: Option<S>    // currentState
    var pending: Option<S>    // nextDelayedState
    var deadline: Deadline    // timeDelay
    /** Every call made on a state so far, in order. */
    ghost var trace: seq<Event<S>>

    ghost function Snapshot(): Config<S>
      reads this
    {
      Config(current, pending, deadline, trace)
    }

    /** Between calls into the machine the deadline is a clock reading and the
        calls made on states follow the Enter/Exit protocol. */
    ghost predicate Valid()
      reads this
    {
      deadline.Finite? && Consistent(Snapshot())
    }

    /** The constructor `TimedStateMachine(currentState)`, at clock reading
        `clock`. */
    constructor (states: States<S>, clock: real, initial: Option<S>)
      ensures Valid()
      ensures this.states == states && now == clock
      ensures Snapshot() == Init(states, clock, initial)
    {
      this.states := states;
      now := clock;
      current := initial;
      pending := None;
      trace := [];
      if initial.Some? {
        deadline := Infinite;
      } else {
        deadline := Finite(clock);
      }
      new;
      if initial.Some? {
        var s := initial.value;
        // Enter: recorded first, then the request it makes on this machine.
        trace := [Entered(s)];
        assert Replay(None, trace) == Replay(Some(s), []);
        match states(s).onEnter(now) {
          case NoRequest =>
          case RequestChange(t) =>
            var changed := ChangeState(Some(t));
          case RequestDelayed(t) =>
            ChangeStateDelayed(Some(t));
        }
        SetDelay(states(s).dwell(now));
      }
    }

    /** The host's clock moves forward between calls. */
    method AdvanceClock(t: real)
      requires t >= now
      modifies this`now
      ensures now == t
    {
      now := t;
    }

    /** The getter of `delay`: the time left until a change is allowed. */
    function Delay(): (remaining: real)
      reads this
      requires deadline.Finite?
      ensures remaining <= 0.0 <==> ChangeAllowed(deadline, now)
      ensures deadline == Finite(now + remaining)
    {
      deadline.at - now
    }

    /** The setter of `delay`: a change is allowed `value` time units from now. */
    method SetDelay(value: real)
      modifies this`deadline
      ensures deadline == Finite(now + value)
    {
      deadline := Finite(now + value);
    }

    method IsStateChangeAllowed() returns (allowed: bool)
      ensures allowed == ChangeAllowed(deadline, now)
    {
      allowed := deadline.Finite? && now >= deadline.at;
    }

    /** ForceChangeState (the `forceState` setter). It is also entered while a
        state's Enter runs, when that Enter calls ChangeState or
        ChangeStateDelayed; those calls find an infinite deadline, so they
        never lead back here, which is what makes the recursion terminate. */
    method ForceChangeState(next: S)
      requires Consistent(Snapshot())
      modifies this`current, this`pending, this`deadline, this`trace
      decreases 1
      ensures Valid()
      ensures Snapshot() == ForceChange(states, old(Snapshot()), now, next)
    {
      ghost var before := Snapshot();
      if current.Some? {
        trace := trace + [Exited(current.value)];
      }
      pending := None;
      current := Some(next);
      deadline := Infinite;
      // Enter: recorded first, then the request it makes on this machine.
      trace := trace + [Entered(next)];
      assert trace == before.trace + ExitEvents(before.current) + [Entered(next)];
      SwitchKeepsProtocol(before.trace, before.current, next);
      match states(next).onEnter(now) {
        case NoRequest =>
        case RequestChange(t) =>
          var changed := ChangeState(Some(t));
        case RequestDelayed(t) =>
          ChangeStateDelayed(Some(t));
      }
      SetDelay(states(next).dwell(now));
    }

    /** ChangeState: returns whether the change was made. */
    method ChangeState(next: Option<S>) returns (changed: bool)
      requires Consistent(Snapshot())
      requires next.Some? || !ChangeAllowed(deadline, now)
      modifies this`current, this`pending, this`deadline, this`trace
      decreases if deadline.Infinite? then 0 else 2
      ensures Consistent(Snapshot())
      ensures changed == ChangeAllowed(old(deadline), now)
      ensures Snapshot() == Change(states, old(Snapshot()), now, next)
    {
      var allowed := IsStateChangeAllowed();
      if !allowed {
        return false;
      }
      ForceChangeState(next.value);
      return true;
    }

    /** ChangeStateDelayed (the `state` setter). */
    method ChangeStateDelayed(next: Option<S>)
      requires Consistent(Snapshot())
      requires next.Some? || !ChangeAllowed(deadline, now)
      modifies this`current, this`pending, this`deadline, this`trace
      decreases if deadline.Infinite? then 0 else 2
      ensures Consistent(Snapshot())
      ensures old(deadline).Finite? ==> deadline.Finite?
      ensures Snapshot() == ChangeDelayed(states, old(Snapshot()), now, next)
    {
      var allowed := IsStateChangeAllowed();
      if !allowed {
        pending := next;
      } else {
        ForceChangeState(next.value);
      }
    }

    /** DoDelayedStateChange: enters the pending state if its time has come,
        and says whether it did. */
    method DoDelayedStateChange() returns (changed: bool)
      requires Valid()
      modifies this`current, this`pending, this`deadline, this`trace
      ensures Valid()
      ensures changed == (old(pending).Some? && ChangeAllowed(old(deadline), now))
      ensures Snapshot() == if changed then ForceChange(states, old(Snapshot()), now, old(pending).value)
                            else old(Snapshot())
    {
      if pending.Some? {
        var allowed := IsStateChangeAllowed();
        if allowed {
          ForceChangeState(pending.value);
          return true;
        }
      }
      return false;
    }

    /** Update: the per-frame tick. */
    method Update()
      requires Valid()
      modifies this`current, this`pending, this`deadline, this`trace
      ensures Valid()
      ensures Snapshot() == Step(states, old(Snapshot()), now, FrameTick)
    {
      var changed := DoDelayedStateChange();
      if changed {
        return;
      }
      if current.Some? {
        TickKeepsProtocol(trace, current.value, FrameTick);
        trace := trace + [Ticked(current.value, FrameTick)];
        var next := states(current.value).update(now);
        if next.Some? {
          ForceChangeState(next.value);
        }
      }
    }

    /** FixedUpdate: the per-physics-step tick. */
    method FixedUpdate()
      requires Valid()
      modifies this`current, this`pending, this`deadline, this`trace
      ensures Valid()
      ensures Snapshot() == Step(states, old(Snapshot()), now, PhysicsTick)
    {
      var changed := DoDelayedStateChange();
      if changed {
        return;
      }
      if current.Some? {
        TickKeepsProtocol(trace, current.value, PhysicsTick);
        trace := trace + [Ticked(current.value, PhysicsTick)];
        var next := states(current.value).fixedUpdate(now);
        if next.Some? {
          ForceChangeState(next.value);
        }
      }
    }
  }
}
