/**
 * `FiniteStateMachine`: a current state, and per frame either the first valid
 * transition out of it or the state's own `Update`.
 *
 * States and transitions are objects of the caller; here they are identified
 * by numbers. What the machine does to them is recorded as a trace of calls
 * (`Enter`, `Exit`, `OnTransition`, the state's `Update`). The answers of the
 * transitions' `IsValid` are an input of each frame.
 */
module FiniteStateMachine {
  import opened Wrappers

  type StateId = nat

  type TransitionId = nat

  /** An `FSMTransition`: its identity and the state `GetState` names. */
  datatype Transition = Transition(id: TransitionId, target: StateId)

  /** A call the machine makes on a state or a transition. */
  datatype Event =
    | Enter(state: StateId)
    | Exit(state: StateId)
    | OnTransition(transition: TransitionId)
    | Update(state: StateId, deltaTime: real)

  // ---------------------------------------------------------------------------
  // The transition lists of the states

  /** The transition lists of all states, `FSMState::myTransitions` each. */
  type TransitionTable = map<StateId, seq<Transition>>

  /** `GetTransitions`: the list in the order the transitions were added. */
  function GetTransitions(table: TransitionTable, s: StateId): seq<Transition>
  {
    if s in table then table[s] else []
  }

  /** `AddTransition`: the transition joins the end of the state's list. */
  function AddTransition(table: TransitionTable, s: StateId, t: Transition): (r: TransitionTable)
    ensures GetTransitions(r, s) == GetTransitions(table, s) + [t]
    ensures forall other | other != s :: GetTransitions(r, other) == GetTransitions(table, other)
  {
    table[s := GetTransitions(table, s) + [t]]
  }

  // ---------------------------------------------------------------------------
  // One frame

  /** Index of the first transition whose `IsValid` answers true, or `|ts|` if none. */
  function FirstValid(ts: seq<Transition>, isValid: TransitionId -> bool): (k: nat)
    ensures k <= |ts|
    ensures k < |ts| ==> isValid(ts[k].id)
    ensures forall j | 0 <= j < k :: !isValid(ts[j].id)
  {
    if ts == [] then 0
    else if isValid(ts[0].id) then 0
    else 1 + FirstValid(ts[1..], isValid)
  }

  /** The outcome of one `Update`: the new current state and the calls made. */
  datatype Step = Step(current: StateId, events: seq<Event>)

  /** What `Update(deltaTime)` does from `current` with transition list `ts`: the first
      valid transition is taken (exit, switch, `OnTransition`, enter) and the frame
      ends there; with none valid the current state's `Update` runs. */
  function StepOf(current: StateId, ts: seq<Transition>, isValid: TransitionId -> bool, deltaTime: real): Step
  {
    var k := FirstValid(ts, isValid);
    if k < |ts| then Step(ts[k].target, [Exit(current), OnTransition(ts[k].id), Enter(ts[k].target)])
    else Step(current, [Update(current, deltaTime)])
  }

  /** A frame either takes exactly one transition, the first valid one, and runs no
      state's `Update`; or takes none, stays, and runs the current state's `Update`
      exactly once. */
  lemma StepRule(current: StateId, ts: seq<Transition>, isValid: TransitionId -> bool, deltaTime: real)
    ensures var st := StepOf(current, ts, isValid, deltaTime);
      && ((exists k | 0 <= k < |ts| :: isValid(ts[k].id)) <==> |st.events| == 3)
      && ((forall k | 0 <= k < |ts| :: !isValid(ts[k].id)) <==>
            st.current == current && st.events == [Update(current, deltaTime)])
      && (forall i | 0 <= i < |st.events| :: st.events[i].Update? ==> |st.events| == 1)
      && (|st.events| == 3 ==>
            exists k | 0 <= k < |ts| ::
              && isValid(ts[k].id) && (forall j | 0 <= j < k :: !isValid(ts[j].id))
              && st.current == ts[k].target
              && st.events == [Exit(current), OnTransition(ts[k].id), Enter(ts[k].target)])
  {
    var st := StepOf(current, ts, isValid, deltaTime);
    var k := FirstValid(ts, isValid);
    if k < |ts| {
      assert isValid(ts[k].id);
    } else {
      assert forall j | 0 <= j < |ts| :: !isValid(ts[j].id);
    }
  }

  // ---------------------------------------------------------------------------
  // Well-bracketed traces

  /** Where a trace has brought the states: none entered, one entered and not yet
      exited, or a call out of turn has been made. */
  datatype Phase = Idle | Active(state: StateId) | Broken

  /** The effect of one call: only an idle machine enters, only the active state is
      exited or updated, and transitions fire between an exit and an enter. */
  function Next(p: Phase, e: Event): Phase
  {
    match e
    case Enter(s) => if p == Idle then Active(s) else Broken
    case Exit(s) => if p == Active(s) then Idle else Broken
    case OnTransition(_) => if p == Idle then Idle else Broken
    case Update(s, _) => if p == Active(s) then p else Broken
  }

  /** The phase after a whole trace. */
  function Replay(p: Phase, events: seq<Event>): Phase
    decreases |events|
  {
    if events == [] then p else Replay(Next(p, events[0]), events[1..])
  }

  lemma {:induction false} ReplayAppend(p: Phase, a: seq<Event>, b: seq<Event>)
    ensures Replay(p, a + b) == Replay(Replay(p, a), b)
    decreases |a|
  {
    if a != [] {
      assert (a + b)[0] == a[0];
      assert (a + b)[1..] == a[1..] + b;
      ReplayAppend(Next(p, a[0]), a[1..], b);
    } else {
      assert a + b == b;
    }
  }

  /** One frame run from the active current state leaves the new current state active:
      the old state is exited before the new one is entered, and only the active state
      is ever updated. */
  lemma StepBracketed(current: StateId, ts: seq<Transition>, isValid: TransitionId -> bool, deltaTime: real)
    ensures var st := StepOf(current, ts, isValid, deltaTime);
      Replay(Active(current), st.events) == Active(st.current)
  {
    var st := StepOf(current, ts, isValid, deltaTime);
    var e := st.events;
    if |e| == 3 {
      assert e[1..][1..][1..] == [];
      assert Replay(Active(current), e) == Replay(Idle, e[1..]);
      assert Replay(Idle, e[1..]) == Replay(Idle, e[1..][1..]);
    } else {
      assert e[1..] == [];
    }
  }

  /** The input of one frame: the `IsValid` answers and the time step. */
  datatype Frame = Frame(isValid: TransitionId -> bool, deltaTime: real)

  /** The calls of a run of frames, and the state it ends in. */
  function Run(table: TransitionTable, current: StateId, frames: seq<Frame>): Step
    decreases |frames|
  {
    if frames == [] then Step(current, [])
    else
      var st := StepOf(current, GetTransitions(table, current), frames[0].isValid, frames[0].deltaTime);
      var rest := Run(table, st.current, frames[1..]);
      Step(rest.current, st.events + rest.events)
  }

  /** `Init` followed by any number of frames and then destruction makes a well-bracketed
      trace: every entered state is exited exactly once, before the next is entered,
      and `Update` only ever runs on the entered state. */
  lemma {:induction false} RunBracketed(table: TransitionTable, current: StateId, frames: seq<Frame>)
    ensures Replay(Active(current), Run(table, current, frames).events) == Active(Run(table, current, frames).current)
    ensures Replay(Idle, [Enter(current)] + Run(table, current, frames).events
                         + [Exit(Run(table, current, frames).current)]) == Idle
    decreases |frames|
  {
    var r := Run(table, current, frames);
    if frames != [] {
      var st := StepOf(current, GetTransitions(table, current), frames[0].isValid, frames[0].deltaTime);
      var rest := Run(table, st.current, frames[1..]);
      StepBracketed(current, GetTransitions(table, current), frames[0].isValid, frames[0].deltaTime);
      RunBracketed(table, st.current, frames[1..]);
      ReplayAppend(Active(current), st.events, rest.events);
    }
    ReplayAppend(Idle, [Enter(current)], r.events);
    ReplayAppend(Idle, [Enter(current)] + r.events, [Exit(r.current)]);
  }

  // ---------------------------------------------------------------------------
  // The machine

  class FiniteStateMachine {
    /** `myStates`: the states handed over with `AddState`. */
    var states: seq<StateId>
    /** `myInitialState`. */
    var initialState: Option<StateId>
    /** `myCurrentState`. */
    var currentState: Option<StateId>
    /** The calls made so far on states and transitions. */
    var trace: seq<Event>

    /** The trace agrees with the current state: it is the one entered and not exited. */
    ghost predicate Valid()
      reads this
    {
      Replay(Idle, trace) == if currentState.Some? then Active(currentState.value) else Idle
    }

    /** `FiniteStateMachine() = default`: the pointers are taken as null. */
    constructor ()
      ensures states == [] && initialState == None && currentState == None && trace == []
      ensures Valid()
    {
      states, initialState, currentState, trace := [], None, None, [];
    }

    /** `AddState`. */
    method AddState(s: StateId)
      modifies this
      ensures states == old(states) + [s]
      ensures initialState == old(initialState) && currentState == old(currentState) && trace == old(trace)
    {
      states := states + [s];
    }

    /** `Init`: the initial state becomes current and is entered once. */
    method Init(initial: StateId)
      modifies this
      ensures initialState == Some(initial) && currentState == Some(initial)
      ensures trace == old(trace) + [Enter(initial)] && states == old(states)
      ensures old(currentState) == None && old(Valid()) ==> Valid()
    {
      initialState := Some(initial);
      currentState := initialState;
      trace := trace + [Enter(currentState.value)];
      ReplayAppend(Idle, old(trace), [Enter(initial)]);
    }

    /** `Update`: the first valid transition of the current state, in the order they
        were added, is taken and the call returns; if none is valid the current
        state's `Update` runs. */
    method Update(deltaTime: real, table: TransitionTable, isValid: TransitionId -> bool)
      requires currentState.Some?
      modifies this
      ensures var st := StepOf(old(currentState).value, GetTransitions(table, old(currentState).value), isValid, deltaTime);
        currentState == Some(st.current) && trace == old(trace) + st.events
      ensures states == old(states) && initialState == old(initialState)
      ensures old(Valid()) ==> Valid()
    {
      var from := currentState.value;
      var transitions := GetTransitions(table, from);
      ghost var st := StepOf(from, transitions, isValid, deltaTime);
      StepBracketed(from, transitions, isValid, deltaTime);
      ReplayAppend(Idle, trace, st.events);
      var i := 0;
      while i < |transitions|
        invariant 0 <= i <= |transitions|
        invariant forall j | 0 <= j < i :: !isValid(transitions[j].id)
        invariant currentState == Some(from) && trace == old(trace)
      {
        var transition := transitions[i];
        if isValid(transition.id) {
          assert FirstValid(transitions, isValid) == i;
          trace := trace + [Exit(currentState.value)];
          currentState := Some(transition.target);
          trace := trace + [OnTransition(transition.id)];
          trace := trace + [Enter(currentState.value)];
          return;
        }
        i := i + 1;
      }
      assert FirstValid(transitions, isValid) == |transitions|;
      trace := trace + [Event.Update(currentState.value, deltaTime)];
    }

    /** `~FiniteStateMachine`: the current state, if any, is exited; nothing else is
        called on the states (deleting them is not modelled). */
    method Destroy()
      modifies this
      ensures trace == old(trace) + (if old(currentState).Some? then [Exit(old(currentState).value)] else [])
      ensures old(Valid()) ==> Replay(Idle, trace) == Idle
    {
      if currentState.Some? {
        ReplayAppend(Idle, trace, [Exit(currentState.value)]);
        trace := trace + [Exit(currentState.value)];
      }
    }
  }
}
