# Timed state machine, modelled and verified in Dafny

This project models the core of a Unity timed finite-state-machine library:
the driver `TimedStateMachine<T>` (Runtime/StateMachine.cs) and the state
contract `IState<T>` with its default `AState<T>` (Runtime/IState.cs).

The driver holds one current state, one pending ("delayed") state and an
absolute dwell deadline. Entering a state returns the minimum time the state
must stay active. A non-forced change (`ChangeState`) is refused until the
clock reaches the deadline. A delayed change (`ChangeStateDelayed`, the
`state` setter) fills the pending slot until then; the last request wins. A
forced change (`ForceChangeState`, the `forceState` setter) ignores the timer.
Each tick (`Update`, `FixedUpdate`) first enters a pending state whose time has
come, and that consumes the tick. Otherwise the tick goes to the current
state, and a state it returns is entered by a forced change.

Layout, one module per file:

- `state_contract.dfy` (`StateContract`): a state as its identity plus a
  `Behaviour`. The behaviour holds, as functions of the clock reading at the
  call, the dwell Enter returns, the request Enter makes back on the machine,
  and the results of Update and FixedUpdate. A state may so answer
  differently at each activation. `AState` is the default behaviour. `Option` stands
  for C#'s nullable reference.
- `lifecycle.dfy` (`Lifecycle`): the trace of calls the machine makes on its
  states (`Entered`, `Exited`, `Ticked`). `Replay` checks the protocol: Enter
  only when no state is active, and Exit and tick callbacks only on the active
  state.
- `machine_spec.dfy` (`MachineSpec`): the semantics of the driver as
  functions over a `Config`. A `Config` holds current, pending, deadline and
  trace. `float.MaxValue` is `Deadline.Infinite`. Requests made from inside
  Enter are served by the same `Change`/`ChangeDelayed` functions. That makes
  `ForceChange`, `OnEnter`, `Change` and `ChangeDelayed` mutually recursive.
  The recursion ends because the deadline is infinite while Enter runs.
- `state_machine.dfy` (`StateMachine`): the class `TimedStateMachine` with
  the source's fields. `now` stands for `Time.time`, and a ghost `trace`
  records the calls. Each method updates the fields step by step, as the C#
  does, and is proved to produce the configuration the matching
  `MachineSpec` function gives. The Enter-time requests really call back into
  `ChangeState`/`ChangeStateDelayed`.
- `properties.dfy` (`Properties`): lemmas over single calls and over runs of
  ticks.

The interface members `allowChange`, `state`, `forceState` and `nextState`
(Runtime/StateMachine.cs:26-29) are aliases: of `IsStateChangeAllowed`, of
`ChangeStateDelayed` plus the `current` field, of `ForceChangeState`, and of
the `pending` field.

`ChangeState`, `ChangeStateDelayed` and `ForceChangeState` apply normally
when no state is current (Runtime/StateMachine.cs:55-59, 73-91); there is
then no Exit call to make.

## Model

| member | source | states |
|---|---|---|
| StateContract.AState | Runtime/IState.cs:40-51 | Enter asks for no dwell and makes no request; Update and FixedUpdate never ask for a transition; Exit does nothing. |
| MachineSpec.Init | Runtime/StateMachine.cs:32-40 | Construction: with an initial state, that state is current and received exactly one Enter. The pending slot holds only what that Enter asked for with a delayed request, and a change is allowed exactly from `now + dwell`. Without one, no state method is called, nothing is pending and the deadline is `now`, so a change is allowed at once. |
| MachineSpec.ForceChange | Runtime/StateMachine.cs:55-66 | After a forced change, `next` is current and the deadline is `now + dwell(next)`. The trace gained Exit of the old state (if any) followed by Enter of `next`, and nothing else. The pending slot holds only what `next`'s Enter asked for with a delayed request, because the slot is cleared before Enter. |
| MachineSpec.OnEnter | Runtime/StateMachine.cs:64-65 | While the deadline is infinite, a ChangeState made from Enter changes nothing. A ChangeStateDelayed made from Enter only sets the pending slot. |
| MachineSpec.Change | Runtime/StateMachine.cs:73-79 | Refused: returns the configuration unchanged. Allowed: `next` is current with its dwell counted from now, after Exit of the old state and Enter of `next`. |
| MachineSpec.ChangeDelayed | Runtime/StateMachine.cs:86-92 | Refused: only the pending slot is overwritten. A null request empties it. Allowed: an immediate forced change. |
| MachineSpec.Step | Runtime/StateMachine.cs:111-140 | A tick only appends to the trace. A pending state that is due is entered (after Exit of the current one) and consumes the tick: no Update/FixedUpdate call, the pending slot holds only what its Enter requested, and its dwell counts from the tick. Otherwise the current state gets the callback; a non-null result is entered at once, whatever the deadline, dropping the pending state, and a null result changes nothing else. With no current state and nothing due, a tick does nothing. |
| MachineSpec.ForceChangeKeepsProtocol | Runtime/StateMachine.cs:55-66 | A forced change keeps the Enter/Exit protocol. |
| MachineSpec.ChangeKeepsProtocol | Runtime/StateMachine.cs:73-92 | ChangeState and ChangeStateDelayed keep the Enter/Exit protocol. |
| MachineSpec.StepKeepsProtocol | Runtime/StateMachine.cs:111-140 | Update and FixedUpdate keep the Enter/Exit protocol. |
| Lifecycle.ReplayAppend | Runtime/StateMachine.cs:55-66 | Replaying a trace in two parts gives the same outcome as replaying it whole. The protocol is checked one call at a time. |
| Lifecycle.SwitchKeepsProtocol | Runtime/StateMachine.cs:56-65 | Exit of the active state followed by Enter of the next state leaves the next state active. |
| Lifecycle.TickKeepsProtocol | Runtime/StateMachine.cs:115-122 | An Update or FixedUpdate call on the active state keeps it active. |
| Lifecycle.EntersMatchExits | Runtime/StateMachine.cs:55-66 | On a trace that follows the protocol, the Enter count equals the Exit count plus one if a state is still active. |
| Lifecycle.ExitClosesActivation | Runtime/StateMachine.cs:56-59 | Every Exit of a state is preceded by an Enter of that same state, or the state was already active at the start. Between the two, only tick callbacks on that state occur. |
| StateMachine.TimedStateMachine.constructor | Runtime/StateMachine.cs:32-40 | The new machine is valid and its fields are those `Init` gives; the initial state's Enter-time request is served through `ChangeState`/`ChangeStateDelayed` while the deadline is infinite. |
| StateMachine.TimedStateMachine.AdvanceClock | Runtime/StateMachine.cs:19 | The host's `Time.time` only moves forward. |
| StateMachine.TimedStateMachine.Delay | Runtime/StateMachine.cs:25 | The remaining delay is the deadline minus now. It is at most zero exactly when a change is allowed. |
| StateMachine.TimedStateMachine.SetDelay | Runtime/StateMachine.cs:25 | Setting the delay puts the deadline that far ahead of now. |
| StateMachine.TimedStateMachine.IsStateChangeAllowed | Runtime/StateMachine.cs:47-49 | A change is allowed exactly when the deadline is a clock reading that now has reached. An infinite deadline never allows one. |
| StateMachine.TimedStateMachine.ForceChangeState | Runtime/StateMachine.cs:55-66 | The step-by-step update (Exit, clear pending, set current, infinite deadline, Enter and its requests, set deadline) yields `ForceChange` of the old fields and leaves the machine valid. |
| StateMachine.TimedStateMachine.ChangeState | Runtime/StateMachine.cs:73-79 | Returns whether a change was allowed before the call. The fields become `Change` of the old fields. |
| StateMachine.TimedStateMachine.ChangeStateDelayed | Runtime/StateMachine.cs:86-92 | The fields become `ChangeDelayed` of the old fields. A finite deadline stays finite. |
| StateMachine.TimedStateMachine.DoDelayedStateChange | Runtime/StateMachine.cs:98-106 | Returns true exactly when a pending state existed and a change was allowed. It then made a forced change to it; otherwise nothing changed. |
| StateMachine.TimedStateMachine.Update | Runtime/StateMachine.cs:111-123 | The fields become `Step(..., FrameTick)` of the old fields, and the machine stays valid. |
| StateMachine.TimedStateMachine.FixedUpdate | Runtime/StateMachine.cs:128-140 | The fields become `Step(..., PhysicsTick)` of the old fields, and the machine stays valid. |
| Properties.DwellWindow | Runtime/IState.cs:15-18 | After a forced change to `s` at `now`, a change is refused at every clock reading below `now + Enter()` and allowed at every reading at or above it. |
| Properties.InitIsForcedEntry | Runtime/StateMachine.cs:32-40 | Constructing with an initial state gives the same configuration as a forced change to that state from a machine with no current and no pending state, whatever its deadline. |
| Properties.ChangeWhenAllowed | Runtime/StateMachine.cs:73-92 | An allowed ChangeState, and an allowed ChangeStateDelayed, is exactly a ForceChangeState. |
| Properties.LastWriteWins | Runtime/StateMachine.cs:84-92 | Delayed(B) then Delayed(C) while the dwell runs leaves C pending. Current state, deadline and trace are unchanged. |
| Properties.RunKeepsProtocol | Runtime/StateMachine.cs:111-140 | Any run of Update/FixedUpdate ticks keeps the Enter/Exit protocol. |
| Properties.RunAppend | Runtime/StateMachine.cs:111-140 | Ticking through two runs of ticks one after the other is the same as ticking through their concatenation. |
| Properties.QuietRun | Runtime/StateMachine.cs:115-122 | Ticks that find no due pending state and draw no transition change nothing but the record of their callbacks. |
| Properties.NoStateTolerance | Runtime/StateMachine.cs:111-140 | With no current and no pending state, any run of ticks changes nothing and calls no state method. |
| Properties.DelayedAppliesOnce | Runtime/StateMachine.cs:98-114 | A pending state B is not entered before the first tick at which a change is allowed. On that tick, the old state is exited, B is entered exactly once, no Update/FixedUpdate is called, and B's dwell starts. |
| Properties.LastWriteWinsOverRun | Runtime/StateMachine.cs:84-92 | After Delayed(B) then Delayed(C), the machine goes on to C and never enters B. |
| Properties.CallbacksAreTicks | Runtime/StateMachine.cs:115-122 | A run of quiet ticks records only tick callbacks, never Enter or Exit. |
| Properties.AStateAllowsChangeAtOnce | Runtime/IState.cs:47 | Entering a default state allows a change at once and leaves nothing pending. |
| Properties.AStateStays | Runtime/IState.cs:48-50 | A tick on a default state, with no pending state due, only records the callback. |
| Properties.DwellScenario | Runtime/StateMachine.cs:73-79 | Clock at 0, A entered by the constructor with dwell 2: at time 1, ChangeState(B) is refused and A stays. At time 2, it succeeds, and the calls are Enter A, Exit A, Enter B. |
| Properties.ScenarioOnMachine | Runtime/StateMachine.cs:73-79 | The same scenario through the class: the first ChangeState returns false and the second returns true. |

## Left out

- Unity's `Time.time` and float arithmetic. Time is a `real` field that only `AdvanceClock` moves forward. `float.MaxValue` is an explicit `Infinite` deadline, so float rounding (for instance `Time.time + value` losing precision) is not modelled.
- `TimedStateMachine<T>` only requires `T : IState<T>`, so `T` may be a value type. The model reads `T` as a reference type: `Option` stands for null, and the null tests at Runtime/StateMachine.cs:35, 56, 99, 115, 118, 132 and 135 can fail. For a value type those tests always pass and `default(T)` is a real state, so `DoDelayedStateChange` would force the zero value whenever a change is allowed, and every Update and FixedUpdate would force the value its state returns, `default(T)` included. That case is not modelled.
- Exceptions thrown by state methods are not modelled. `ForceChangeState(null)` dereferences null at Runtime/StateMachine.cs:65, so `ForceChangeState` takes a non-null state. `ChangeState` and `ChangeStateDelayed` accept null only when the change is refused: there null is harmless, and in `ChangeStateDelayed` it empties the pending slot.
- A state that forces a change (the `forceState` setter) from inside its own Enter is not modelled. That recursion is unbounded, and the outer call would then overwrite the deadline with its own state's dwell. Enter-time `ChangeState` and `ChangeStateDelayed` requests are modelled.
- Calls a state makes back into the machine from Update, FixedUpdate or Exit are not modelled. Exit has no effect on the machine beyond being recorded.
- A state's Enter-time request is the call it makes on this machine. A state whose `parent` handle refers to another machine is described with `NoRequest`; its calls on that other machine are not modelled. This holds in particular for a constructor's initial state, which in C# cannot yet hold a handle to the machine being built; the model still serves whatever request the behaviour names, at construction as at every later entry, as the code would.
- StateMachine.TimedStateMachine.Delay: defined only for a finite deadline. The value the getter would report while a state's Enter runs (about `float.MaxValue - Time.time`) is not modelled.
- A state's Enter, Update and FixedUpdate results are functions of the clock reading at the call. A state whose results depend on its own mutable fields is covered only through that.
- Runtime/States/AudioClipState.cs is not part of this model (Unity audio playback). Its Enter-time `parent.state = nextState` is modelled as the `RequestDelayed` Enter request.
- Runtime/StateMachineMonoBehaviour.cs (MonoBehaviour forwarding and the display strings with the `Mathf.Max(0, delay)` clamp) and Editor/StateMachineEditor.cs (inspector UI) are not part of this model.
- Concurrency: the driver is single-threaded and every call is atomic in the model.
