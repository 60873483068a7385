/** The order in which a machine calls its states' methods.

    Every call the machine makes on a state is recorded as an event. A trace
    follows the protocol when Enter is called only while no state is active,
    and Exit and the tick callbacks only on the active state; so each state
    that becomes current is entered once, then exited once when it stops being
    current. */
module Lifecycle {
  import opened StateContract

  datatype Event<S> =
    | Entered(state: S)
    | Exited(state: S)
    | Ticked(state: S, kind: TickKind)

  /** The outcome of replaying a trace: the active state it leaves, or a
      violation of the protocol. */
  datatype Replayed<S> = Violation | Current(active: Option<S>)

  /** One event, applied to the state that is active before it. */
  function Apply<S(==)>(active: Option<S>, e: Event<S>): Replayed<S>
  {
    match e
    case Entered(s) => if active.None? then Current(Some(s)) else Violation
    case Exited(s) => if active == Some(s) then Current(None) else Violation
    case Ticked(s, _) => if active == Some(s) then Current(active) else Violation
  }

  function Replay<S(==)>(active: Option<S>, t: seq<Event<S>>): Replayed<S>
    decreases |t|
  {
    if t == [] then Current(active)
    else
      match Apply(active, t[0])
      case Violation => Violation
      case Current(next) => Replay(next, t[1..])
  }

  /** Continues a replay with more events. */
  function Then<S(==)>(r: Replayed<S>, u: seq<Event<S>>): Replayed<S>
  {
    match r
    case Violation => Violation
    case Current(a) => Replay(a, u)
  }

  /** The Exit call made when the active state `a` is replaced (none when no
      state is active). */
  function ExitEvents<S>(a: Option<S>): seq<Event<S>>
  {
    if a.Some? then [Exited(a.value)] else []
  }

  /** Replaying a concatenation replays the two parts one after the other. */
  lemma {:induction false} ReplayAppend<S>(a: Option<S>, t: seq<Event<S>>, u: seq<Event<S>>)
    ensures Replay(a, t + u) == Then(Replay(a, t), u)
    decreases |t|
  {
    if t == [] {
      assert t + u == u;
    } else {
      assert (t + u)[0] == t[0];
      assert (t + u)[1..] == t[1..] + u;
      match Apply(a, t[0])
      case Violation =>
      case Current(next) => ReplayAppend(next, t[1..], u);
    }
  }

  /** Exiting the active state and entering `next` keeps the protocol and
      leaves `next` active. */
  lemma SwitchKeepsProtocol<S>(t: seq<Event<S>>, a: Option<S>, next: S)
    requires Replay(None, t) == Current(a)
    ensures Replay(None, t + ExitEvents(a) + [Entered(next)]) == Current(Some(next))
  {
    ReplayAppend(None, t, ExitEvents(a));
    ReplayAppend(None, t + ExitEvents(a), [Entered(next)]);
    if a.Some? {
      assert Replay(a, [Exited(a.value)]) == Replay(None, []);
    } else {
      assert t + ExitEvents(a) == t;
    }
    assert Replay(None, [Entered(next)]) == Replay(Some(next), []);
  }

  /** A tick callback on the active state keeps the protocol. */
  lemma TickKeepsProtocol<S>(t: seq<Event<S>>, s: S, kind: TickKind)
    requires Replay(None, t) == Current(Some(s))
    ensures Replay(None, t + [Ticked(s, kind)]) == Current(Some(s))
  {
    ReplayAppend(None, t, [Ticked(s, kind)]);
    assert Replay(Some(s), [Ticked(s, kind)]) == Replay(Some(s), []);
  }

  function Enters<S>(t: seq<Event<S>>): nat
  {
    if t == [] then 0 else (if t[0].Entered? then 1 else 0) + Enters(t[1..])
  }

  function Exits<S>(t: seq<Event<S>>): nat
  {
    if t == [] then 0 else (if t[0].Exited? then 1 else 0) + Exits(t[1..])
  }

  function Occupied<S>(a: Option<S>): nat
  {
    if a.Some? then 1 else 0
  }

  /** Enter and Exit calls pair up: along a trace that follows the protocol,
      every Enter is matched by an Exit except the one of the state still
      active at the end. */
  lemma {:induction false} EntersMatchExits<S>(a: Option<S>, t: seq<Event<S>>, b: Option<S>)
    requires Replay(a, t) == Current(b)
    ensures Enters(t) + Occupied(a) == Exits(t) + Occupied(b)
    decreases |t|
  {
    if t != [] {
      match Apply(a, t[0])
      case Current(next) => EntersMatchExits(next, t[1..], b);
    }
  }

  /** `e` is a tick callback on `s`. */
  predicate CallsTick<S(==)>(e: Event<S>, s: S)
  {
    e.Ticked? && e.state == s
  }

  /** Every Exit in a trace that follows the protocol closes an activation of
      the same state: looking back from it, the calls on that state since the
      last Enter (or since the start, if the state was active then) are tick
      callbacks only. */
  lemma {:induction false} ExitClosesActivation<S>(a: Option<S>, t: seq<Event<S>>, i: nat)
    requires Replay(a, t).Current?
    requires i < |t| && t[i].Exited?
    ensures (a == Some(t[i].state) && forall k | 0 <= k < i :: CallsTick(t[k], t[i].state))
         || (exists j | 0 <= j < i :: t[j] == Entered(t[i].state) &&
               forall k | j < k < i :: CallsTick(t[k], t[i].state))
    decreases |t|
  {
    var s := t[i].state;
    match Apply(a, t[0])
    case Current(next) =>
      if i > 0 {
        assert Replay(next, t[1..]).Current?;
        ExitClosesActivation(next, t[1..], i - 1);
        if next == Some(s) && forall k | 0 <= k < i - 1 :: CallsTick(t[1..][k], s) {
          if t[0].Entered? {
            assert t[0] == Entered(s);
            assert forall k | 0 < k < i :: t[k] == t[1..][k - 1];
          } else {
            assert CallsTick(t[0], s);
            assert a == Some(s);
            assert forall k | 0 < k < i :: t[k] == t[1..][k - 1];
          }
        } else {
          var j :| 0 <= j < i - 1 && t[1..][j] == Entered(s) &&
                   forall k | j < k < i - 1 :: CallsTick(t[1..][k], s);
          assert t[j + 1] == Entered(s);
          assert forall k | j + 1 < k < i :: t[k] == t[1..][k - 1];
        }
      }
  }
}
