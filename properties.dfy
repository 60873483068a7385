/** What the timed state machine promises over one call and over runs of
    calls: the dwell window, the outcomes of the change requests, last write
    wins for the pending slot, a pending state applied exactly once, ticks
    with and without a state, and the default state. */
module Properties {
  import opened StateContract
  import opened Lifecycle
  import opened MachineSpec
  import opened StateMachine

  /** After a forced change to `next` at `now`, a non-forced change is refused
      at every clock reading below `now` plus `next`'s dwell time and allowed
      at every reading from there on. */
  lemma DwellWindow<S>(states: States<S>, c: Config<S>, now: real, next: S, t: real)
    ensures ChangeAllowed(ForceChange(states, c, now, next).deadline, t) <==> t >= now + states(next).dwell(now)
  {
  }

  /** The constructor enters its initial state exactly as a forced change
      from a machine with no state and no pending state does, whatever that
      machine's deadline. */
  lemma InitIsForcedEntry<S>(states: States<S>, now: real, s: S, d: Deadline)
    ensures Init(states, now, Some(s)) == ForceChange(states, Config(None, None, d, []), now, s)
  {
  }

  /** A ChangeState that is allowed is exactly a ForceChangeState. */
  lemma ChangeWhenAllowed<S>(states: States<S>, c: Config<S>, now: real, next: S)
    requires ChangeAllowed(c.deadline, now)
    ensures Change(states, c, now, Some(next)) == ForceChange(states, c, now, next)
    ensures ChangeDelayed(states, c, now, Some(next)) == ForceChange(states, c, now, next)
  {
  }

  /** Two delayed requests while the dwell time runs: the second overwrites
      the first, and the current state is untouched. */
  lemma LastWriteWins<S>(states: States<S>, c: Config<S>, t1: real, t2: real, b: S, d: S)
    requires !ChangeAllowed(c.deadline, t1) && !ChangeAllowed(c.deadline, t2)
    ensures ChangeDelayed(states, ChangeDelayed(states, c, t1, Some(b)), t2, Some(d)) == c.(pending := Some(d))
  {
  }

  /** A moment of a host's tick: its clock reading and which entry point. */
  datatype Tick = Tick(at: real, kind: TickKind)

  /** The machine after a run of ticks. */
  function Run<S(==)>(states: States<S>, c: Config<S>, ticks: seq<Tick>): Config<S>
    decreases |ticks|
  {
    if ticks == [] then c else Run(states, Step(states, c, ticks[0].at, ticks[0].kind), ticks[1..])
  }

  /** The tick callbacks a run of ticks makes on state `a`. */
  function Callbacks<S>(a: Option<S>, ticks: seq<Tick>): seq<Event<S>>
    decreases |ticks|
  {
    if ticks == [] || a.None? then [] else [Ticked(a.value, ticks[0].kind)] + Callbacks(a, ticks[1..])
  }

  /** A tick that neither finds its pending state due nor draws a transition
      from the current state. */
  predicate Quiet<S>(states: States<S>, c: Config<S>, tk: Tick)
  {
    !(c.pending.Some? && ChangeAllowed(c.deadline, tk.at)) &&
    (c.current.Some? ==> Callback(states(c.current.value), tk.kind, tk.at).None?)
  }

  /** Running two runs one after the other is running their concatenation. */
  lemma {:induction false} RunAppend<S>(states: States<S>, c: Config<S>, u: seq<Tick>, v: seq<Tick>)
    ensures Run(states, c, u + v) == Run(states, Run(states, c, u), v)
    decreases |u|
  {
    if u == [] {
      assert u + v == v;
    } else {
      assert (u + v)[0] == u[0];
      assert (u + v)[1..] == u[1..] + v;
      RunAppend(states, Step(states, c, u[0].at, u[0].kind), u[1..], v);
    }
  }

  /** A run of ticks keeps the Enter/Exit protocol. */
  lemma {:induction false} RunKeepsProtocol<S>(states: States<S>, c: Config<S>, ticks: seq<Tick>)
    requires Consistent(c)
    ensures Consistent(Run(states, c, ticks))
    decreases |ticks|
  {
    if ticks != [] {
      StepKeepsProtocol(states, c, ticks[0].at, ticks[0].kind);
      RunKeepsProtocol(states, Step(states, c, ticks[0].at, ticks[0].kind), ticks[1..]);
    }
  }

  /** Quiet ticks change nothing but the record of the callbacks they make on
      the current state. */
  lemma {:induction false} QuietRun<S>(states: States<S>, c: Config<S>, ticks: seq<Tick>)
    requires forall i | 0 <= i < |ticks| :: Quiet(states, c, ticks[i])
    ensures Run(states, c, ticks) == c.(trace := c.trace + Callbacks(c.current, ticks))
    decreases |ticks|
  {
    if ticks == [] {
      assert c.trace + [] == c.trace;
    } else {
      var c' := Step(states, c, ticks[0].at, ticks[0].kind);
      assert Quiet(states, c, ticks[0]);
      assert c' == c.(trace := c.trace + Callbacks(c.current, ticks[..1]));
      forall i | 0 <= i < |ticks[1..]|
        ensures Quiet(states, c', ticks[1..][i])
      {
        assert Quiet(states, c, ticks[i + 1]);
      }
      QuietRun(states, c', ticks[1..]);
      if c.current.Some? {
        assert Callbacks(c.current, ticks) == Callbacks(c.current, ticks[..1]) + Callbacks(c.current, ticks[1..]);
      }
    }
  }

  /** A driver with no current and no pending state ignores every tick and
      calls no state method. */
  lemma {:induction false} NoStateTolerance<S>(states: States<S>, c: Config<S>, ticks: seq<Tick>)
    requires c.current.None? && c.pending.None?
    ensures Run(states, c, ticks) == c
  {
    QuietRun(states, c, ticks);
    assert Callbacks(c.current, ticks) == [];
    assert c.trace + [] == c.trace;
  }

  /** A delayed state is entered on the first tick at which a change is
      allowed, and not before: until then the machine keeps its current and
      pending states, provided the current state draws no transition; on that
      tick the old state is exited, the delayed state is entered exactly once,
      and no state receives the tick's callback. */
  lemma DelayedAppliesOnce<S>(states: States<S>, c: Config<S>, ticks: seq<Tick>, k: nat, b: S)
    requires c.pending == Some(b)
    requires k < |ticks|
    requires forall i | 0 <= i < k :: Quiet(states, c, ticks[i])
    requires ChangeAllowed(c.deadline, ticks[k].at)
    ensures forall j | 0 <= j <= k :: Run(states, c, ticks[..j]).current == c.current &&
                                      Run(states, c, ticks[..j]).pending == Some(b)
    ensures Run(states, c, ticks[..k + 1]).current == Some(b)
    ensures Run(states, c, ticks[..k + 1]).pending == Queued(states(b).onEnter(ticks[k].at))
    ensures Run(states, c, ticks[..k + 1]).deadline == Finite(ticks[k].at + states(b).dwell(ticks[k].at))
    ensures Run(states, c, ticks[..k + 1]).trace ==
            c.trace + Callbacks(c.current, ticks[..k]) + ExitEvents(c.current) + [Entered(b)]
  {
    forall j | 0 <= j <= k
      ensures Run(states, c, ticks[..j]).current == c.current && Run(states, c, ticks[..j]).pending == Some(b)
    {
      QuietRun(states, c, ticks[..j]);
    }
    QuietRun(states, c, ticks[..k]);
    var w := Run(states, c, ticks[..k]);
    assert ticks[..k + 1] == ticks[..k] + [ticks[k]];
    RunAppend(states, c, ticks[..k], [ticks[k]]);
    assert Run(states, w, [ticks[k]]) == Step(states, w, ticks[k].at, ticks[k].kind);
  }

  /** Last write wins, over a run: after delayed requests for `b` and then
      `d` while the dwell time runs, the machine goes on to `d` and never
      enters `b`. */
  lemma LastWriteWinsOverRun<S>(states: States<S>, c: Config<S>, t1: real, t2: real, b: S, d: S,
                                     ticks: seq<Tick>, k: nat)
    requires b != d
    requires !ChangeAllowed(c.deadline, t1) && !ChangeAllowed(c.deadline, t2)
    requires k < |ticks|
    requires forall i | 0 <= i < k :: Quiet(states, c.(pending := Some(d)), ticks[i])
    requires ChangeAllowed(c.deadline, ticks[k].at)
    ensures var e := ChangeDelayed(states, ChangeDelayed(states, c, t1, Some(b)), t2, Some(d));
            var r := Run(states, e, ticks[..k + 1]);
            r.current == Some(d) && |c.trace| <= |r.trace| && Entered(b) !in r.trace[|c.trace|..]
  {
    var e := ChangeDelayed(states, ChangeDelayed(states, c, t1, Some(b)), t2, Some(d));
    LastWriteWins(states, c, t1, t2, b, d);
    DelayedAppliesOnce(states, e, ticks, k, d);
    var r := Run(states, e, ticks[..k + 1]);
    var added := Callbacks(c.current, ticks[..k]) + ExitEvents(c.current) + [Entered(d)];
    assert r.trace[|c.trace|..] == added;
    CallbacksAreTicks(c.current, ticks[..k]);
    assert forall i | 0 <= i < |added| :: added[i] != Entered(b);
  }

  lemma {:induction false} CallbacksAreTicks<S>(a: Option<S>, ticks: seq<Tick>)
    ensures forall i | 0 <= i < |Callbacks(a, ticks)| :: Callbacks(a, ticks)[i].Ticked?
    decreases |ticks|
  {
    if ticks != [] && a.Some? {
      CallbacksAreTicks(a, ticks[1..]);
    }
  }

  /** Entering a default state allows a change at once. */
  lemma AStateAllowsChangeAtOnce<S>(states: States<S>, c: Config<S>, now: real, next: S)
    requires states(next) == AState()
    ensures ChangeAllowed(ForceChange(states, c, now, next).deadline, now)
    ensures ForceChange(states, c, now, next).pending == None
  {
  }

  /** A default state never asks to leave: with no pending state due, a tick
      on it only records its callback. */
  lemma AStateStays<S>(states: States<S>, c: Config<S>, now: real, kind: TickKind)
    requires c.current.Some? && states(c.current.value) == AState()
    requires !(c.pending.Some? && ChangeAllowed(c.deadline, now))
    ensures Step(states, c, now, kind) == c.(trace := c.trace + [Ticked(c.current.value, kind)])
  {
  }

  /** The clock starts at 0 and state `a`, entered by the constructor, asks
      for a dwell of 2: at time 1 a ChangeState to `b` is refused and leaves
      `a` current; at time 2 it is made, `a` receiving Exit before `b`
      receives Enter. */
  lemma DwellScenario<S>(states: States<S>, a: S, b: S)
    requires states(a).dwell(0.0) == 2.0
    ensures var c0 := Init(states, 0.0, Some(a));
            !ChangeAllowed(c0.deadline, 1.0) && Change(states, c0, 1.0, Some(b)) == c0 &&
            ChangeAllowed(c0.deadline, 2.0) &&
            Change(states, c0, 2.0, Some(b)).current == Some(b) &&
            Change(states, c0, 2.0, Some(b)).trace == [Entered(a), Exited(a), Entered(b)]
  {
  }

  /** The same scenario, driven through the class. */
  method ScenarioOnMachine<S(==)>(states: States<S>, a: S, b: S) returns (atOne: bool, atTwo: bool)
    requires states(a).dwell(0.0) == 2.0
    ensures !atOne && atTwo
  {
    var m := new TimedStateMachine(states, 0.0, Some(a));
    m.AdvanceClock(1.0);
    atOne := m.ChangeState(Some(b));
    assert m.current == Some(a);
    m.AdvanceClock(2.0);
    atTwo := m.ChangeState(Some(b));
    assert m.current == Some(b) && m.trace == [Entered(a), Exited(a), Entered(b)];
  }
}
