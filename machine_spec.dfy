/** What the timed state machine of Runtime/StateMachine.cs does, as
    functions from one configuration to the next.

    A configuration holds the three fields of `TimedStateMachine<T>` (the
    current state, the pending "delayed" state and the absolute deadline
    `timeDelay`) and the trace of calls the machine has made on its states.
    The clock reading `now` is an argument: Unity's `Time.time` does not move
    while a single call into the machine runs. */
module MachineSpec {
  import opened StateContract
  import opened Lifecycle

  /** `timeDelay`: an absolute clock reading, or `float.MaxValue`, which no
      clock reading reaches. */
  datatype Deadline = Finite(at: real) | Infinite

  /** IsStateChangeAllowed: the clock has reached the deadline. */
  predicate ChangeAllowed(d: Deadline, now: real)
  {
    d.Finite? && now >= d.at
  }

  datatype Config<S> = Config(
    current: Option<S>,
    pending: Option<S>,
    deadline: Deadline,
    trace: seq<Event<S>>)

  /** The behaviour of every state the machine may meet. */
  type States<!S> = S -> Behaviour<S>

  /** The calls recorded so far follow the Enter/Exit protocol and leave the
      current state active. */
  predicate Consistent<S(==)>(c: Config<S>)
  {
    Replay(None, c.trace) == Current(c.current)
  }

  /** The pending state an Enter-time request leaves behind, given that the
      machine refuses every immediate change while a state is being entered. */
  function Queued<S>(r: EnterRequest<S>): Option<S>
  {
    if r.RequestDelayed? then Some(r.target) else None
  }

  /** The constructor. An initial state is made current with an infinite
      deadline and entered, exactly as a forced change from a machine with no
      state does: the requests its Enter makes on this machine are served and
      its dwell time counts from `now`. Without one, a change is allowed at
      once. */
  function Init<S(==)>(states: States<S>, now: real, initial: Option<S>): (r: Config<S>)
    ensures Consistent(r)
    ensures r.current == initial
    ensures initial.None? ==> r.pending == None && r.trace == [] && r.deadline == Finite(now)
    ensures initial.Some? ==> r.trace == [Entered(initial.value)]
    ensures initial.Some? ==> r.pending == Queued(states(initial.value).onEnter(now))
    ensures initial.Some? ==> r.deadline == Finite(now + states(initial.value).dwell(now))
    ensures initial.Some? ==> forall t :: ChangeAllowed(r.deadline, t) <==> t >= now + states(initial.value).dwell(now)
  {
    match initial
    case None => Config(None, None, Finite(now), [])
    case Some(s) =>
      var entering := Config(initial, None, Infinite, [Entered(s)]);
      assert Replay(None, entering.trace) == Replay(Some(s), []);
      var requested := OnEnter(states, entering, now, states(s).onEnter(now));
      requested.(deadline := Finite(now + states(s).dwell(now)))
  }

  /** ForceChangeState: exit the current state, void the pending state, make
      `next` current with an infinite deadline, enter it (serving the requests
      its Enter makes on the machine), and count its dwell time from `now`. */
  function ForceChange<S(==)>(states: States<S>, c: Config<S>, now: real, next: S): (r: Config<S>)
    decreases 1, 0
    ensures r.current == Some(next)
    ensures r.deadline == Finite(now + states(next).dwell(now))
    ensures r.pending == Queued(states(next).onEnter(now))
    ensures r.trace == c.trace + ExitEvents(c.current) + [Entered(next)]
  {
    var exited := if c.current.Some? then c.trace + [Exited(c.current.value)] else c.trace;
    var entering := Config(Some(next), None, Infinite, exited + [Entered(next)]);
    var requested := OnEnter(states, entering, now, states(next).onEnter(now));
    requested.(deadline := Finite(now + states(next).dwell(now)))
  }

  /** A request a state makes on its machine from inside Enter, served by
      ChangeState or ChangeStateDelayed. While the deadline is infinite no
      immediate change is allowed, so a ChangeState is refused and a
      ChangeStateDelayed only fills the pending slot. */
  function OnEnter<S(==)>(states: States<S>, c: Config<S>, now: real, req: EnterRequest<S>): (r: Config<S>)
    decreases if c.deadline.Infinite? then 0 else 2, 1
    ensures c.deadline.Infinite? ==> r == c.(pending := if req.RequestDelayed? then Some(req.target) else c.pending)
  {
    match req
    case NoRequest => c
    case RequestChange(t) => Change(states, c, now, Some(t))
    case RequestDelayed(t) => ChangeDelayed(states, c, now, Some(t))
  }

  /** ChangeState: refused, with no effect, while the dwell time runs;
      otherwise a forced change. A null `next` is harmless only when refused:
      otherwise ForceChangeState dereferences it. */
  function Change<S(==)>(states: States<S>, c: Config<S>, now: real, next: Option<S>): (r: Config<S>)
    requires next.Some? || !ChangeAllowed(c.deadline, now)
    decreases if c.deadline.Infinite? then 0 else 2, 0
    ensures !ChangeAllowed(c.deadline, now) ==> r == c
    ensures ChangeAllowed(c.deadline, now) ==>
      r.current == next && r.deadline == Finite(now + states(next.value).dwell(now)) &&
      r.trace == c.trace + ExitEvents(c.current) + [Entered(next.value)]
  {
    if !ChangeAllowed(c.deadline, now) then c else ForceChange(states, c, now, next.value)
  }

  /** ChangeStateDelayed (the `state` property's setter): while the dwell time
      runs, only the pending slot is overwritten (last write wins; a null
      `next` empties it); otherwise a forced change at once. */
  function ChangeDelayed<S(==)>(states: States<S>, c: Config<S>, now: real, next: Option<S>): (r: Config<S>)
    requires next.Some? || !ChangeAllowed(c.deadline, now)
    decreases if c.deadline.Infinite? then 0 else 2, 0
    ensures !ChangeAllowed(c.deadline, now) ==> r == c.(pending := next)
    ensures ChangeAllowed(c.deadline, now) ==>
      r.current == next && r.deadline == Finite(now + states(next.value).dwell(now)) &&
      r.trace == c.trace + ExitEvents(c.current) + [Entered(next.value)]
  {
    if !ChangeAllowed(c.deadline, now) then c.(pending := next) else ForceChange(states, c, now, next.value)
  }

  /** Update (kind FrameTick) and FixedUpdate (kind PhysicsTick). A pending
      state whose time has come is entered and that consumes the tick;
      otherwise the tick goes to the current state, and a state it returns is
      entered by a forced change. */
  function Step<S(==)>(states: States<S>, c: Config<S>, now: real, kind: TickKind): (r: Config<S>)
    ensures c.trace <= r.trace
    ensures r.current != c.current ==>
      r.current.Some? && |r.trace| > 0 && r.trace[|r.trace| - 1] == Entered(r.current.value)
    // A pending state that is due is entered, and neither state gets the callback.
    ensures c.pending.Some? && ChangeAllowed(c.deadline, now) ==>
      var b := c.pending.value;
      r.current == c.pending && r.pending == Queued(states(b).onEnter(now)) &&
      r.deadline == Finite(now + states(b).dwell(now)) &&
      r.trace == c.trace + ExitEvents(c.current) + [Entered(b)]
    // Otherwise the current state gets the callback; a state it returns is
    // entered at once, whatever the deadline, and the pending state is dropped.
    ensures !(c.pending.Some? && ChangeAllowed(c.deadline, now)) && c.current.Some? ==>
      var s := c.current.value;
      match Callback(states(s), kind, now)
      case None => r == c.(trace := c.trace + [Ticked(s, kind)])
      case Some(x) =>
        r.current == Some(x) && r.pending == Queued(states(x).onEnter(now)) &&
        r.deadline == Finite(now + states(x).dwell(now)) &&
        r.trace == c.trace + [Ticked(s, kind), Exited(s), Entered(x)]
    // With neither, a tick does nothing.
    ensures !(c.pending.Some? && ChangeAllowed(c.deadline, now)) && c.current.None? ==> r == c
  {
    if c.pending.Some? && ChangeAllowed(c.deadline, now) then
      ForceChange(states, c, now, c.pending.value)
    else if c.current.Some? then
      var s := c.current.value;
      var ticked := c.(trace := c.trace + [Ticked(s, kind)]);
      match Callback(states(s), kind, now)
      case Some(next) => ForceChange(states, ticked, now, next)
      case None => ticked
    else
      c
  }

  /** A forced change keeps the Enter/Exit protocol. */
  lemma ForceChangeKeepsProtocol<S>(states: States<S>, c: Config<S>, now: real, next: S)
    requires Consistent(c)
    ensures Consistent(ForceChange(states, c, now, next))
  {
    SwitchKeepsProtocol(c.trace, c.current, next);
  }

  /** ChangeState and ChangeStateDelayed keep the Enter/Exit protocol. */
  lemma ChangeKeepsProtocol<S>(states: States<S>, c: Config<S>, now: real, next: Option<S>)
    requires Consistent(c)
    requires next.Some? || !ChangeAllowed(c.deadline, now)
    ensures Consistent(Change(states, c, now, next))
    ensures Consistent(ChangeDelayed(states, c, now, next))
  {
    if ChangeAllowed(c.deadline, now) {
      ForceChangeKeepsProtocol(states, c, now, next.value);
    }
  }

  /** A tick keeps the Enter/Exit protocol. */
  lemma StepKeepsProtocol<S>(states: States<S>, c: Config<S>, now: real, kind: TickKind)
    requires Consistent(c)
    ensures Consistent(Step(states, c, now, kind))
  {
    if c.pending.Some? && ChangeAllowed(c.deadline, now) {
      ForceChangeKeepsProtocol(states, c, now, c.pending.value);
    } else if c.current.Some? {
      var s := c.current.value;
      var ticked := c.(trace := c.trace + [Ticked(s, kind)]);
      TickKeepsProtocol(c.trace, s, kind);
      if Callback(states(s), kind, now).Some? {
        ForceChangeKeepsProtocol(states, ticked, now, Callback(states(s), kind, now).value);
      }
    }
  }
}
