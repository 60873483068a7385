/** The contract between a timed state machine and its states (Runtime/IState.cs).

    A state is known to the machine by its identity (a value of a type S with
    equality, as C# object references compare) and by what its four methods do.
    Each method is given as a total function of the clock reading at which it
    is called, so a state may answer differently at every activation and at
    every tick; a state whose results depend on hidden mutable fields of its
    own is modelled only through the clock reading. */
module StateContract {

  /** A C# reference that may be null: `None` is null. */
  datatype Option<T> = None | Some(value: T)

  /** A call a state makes back into this machine while its Enter runs,
      through the handle `AState.parent` (Runtime/States/AudioClipState.cs
      assigns the machine's `state` property there). A state whose handle
      refers to another machine makes no request on this one. */
  datatype EnterRequest<S> =
    | NoRequest
    | RequestChange(target: S)    // parent.ChangeState(target)
    | RequestDelayed(target: S)   // parent.state = target, that is ChangeStateDelayed

  /** What one state object does when the machine calls it. */
  datatype Behaviour<S> = Behaviour(
    dwell: real -> real,              // the result of Enter() at a clock reading: minimum time to stay active
    onEnter: real -> EnterRequest<S>, // what Enter at a clock reading asks of the machine before it returns
    update: real -> Option<S>,        // the result of Update() at a clock reading; None stays
    fixedUpdate: real -> Option<S>)   // the result of FixedUpdate() at a clock reading

  /** The two tick entry points: the variable-rate frame update and the
      fixed-rate physics update. */
  datatype TickKind = FrameTick | PhysicsTick

  /** The callback a tick of kind `kind` makes on a state with behaviour `b`. */
  function Callback<S>(b: Behaviour<S>, kind: TickKind, now: real): Option<S>
  {
    match kind
    case FrameTick => b.update(now)
    case PhysicsTick => b.fixedUpdate(now)
  }

  /** The default state `AState`: Enter asks for no dwell time and makes no
      request, Update and FixedUpdate never ask for a transition, and Exit
      does nothing. */
  function AState<S>(): (b: Behaviour<S>)
    ensures forall t :: b.dwell(t) == 0.0 && b.onEnter(t) == NoRequest
    ensures forall t :: b.update(t) == None && b.fixedUpdate(t) == None
  {
    Behaviour((t: real) => 0.0, (t: real) => NoRequest, (t: real) => None, (t: real) => None)
  }
}
