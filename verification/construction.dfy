/**
  Construction of the engine: a fold over the states, then over the
  transitions, then the check of the initial-state name. The first check that
  fails raises; no partially built engine is ever returned.
 */
module Construction {
  import opened Results
  import opened Model

  /** The names carried by a list of states. */
  ghost function Names<H>(states: seq<State<H>>): set<string> {
    set s | s in states :: s.name
  }

  /** Registers one state; a name that is already registered raises. */
  function AddState<H>(table: Table<H>, state: State<H>): (r: Result<Table<H>, Error<H>>)
    ensures r.Failure? <==> state.name in table
    ensures r.Failure? ==> r.error == FsmException(DuplicateState)
    ensures r.Success? ==> r.value.Keys == table.Keys + {state.name}
    ensures r.Success? ==> forall s :: s in table ==> r.value[s] == table[s]
    ensures r.Success? ==> r.value[state.name] == Entry(state, map[], map[])
    ensures r.Success? && WellFormed(table) ==> WellFormed(r.value)
  {
    if state.name in table then Failure(FsmException(DuplicateState))
    else Success(table[state.name := Entry(state, map[], map[])])
  }

  /** Registers the states in list order, stopping at the first duplicate. */
  function AddStates<H>(table: Table<H>, states: seq<State<H>>): (r: Result<Table<H>, Error<H>>)
    decreases |states|
    ensures r.Failure? ==> r.error == FsmException(DuplicateState)
    ensures r.Success? ==> r.value.Keys == table.Keys + Names(states)
    ensures r.Success? ==> forall s :: s in table ==> r.value[s] == table[s]
    ensures r.Success? ==> forall s :: s in r.value && s !in table ==>
              && r.value[s].state in states
              && r.value[s].transitions == map[]
              && r.value[s].destinations == map[]
    ensures r.Success? && WellFormed(table) ==> WellFormed(r.value)
  {
    if |states| == 0 then Success(table)
    else
      match AddState(table, states[0])
      case Failure(e) => Failure(e)
      case Success(next) =>
        var r := AddStates(next, states[1..]);
        assert states == [states[0]] + states[1..];
        assert Names(states) == {states[0].name} + Names(states[1..]);
        r
  }

  /**
    Registers one transition under its source. Raises, in this order, when the
    source is unregistered, when the destination is unregistered, when the
    source already has an edge to that destination, and when the source
    already has a transition of that name. Otherwise both of the source's
    maps gain the transition.
   */
  function AddTransition<H>(table: Table<H>, t: Transition<H>): (r: Result<Table<H>, Error<H>>)
    ensures r.Success? ==> r.value.Keys == table.Keys
    ensures r.Success? ==> forall s :: s in table ==> r.value[s].state == table[s].state
    ensures r.Success? ==>
              && t.source in r.value
              && t.name in r.value[t.source].transitions && r.value[t.source].transitions[t.name] == t
              && t.destination in r.value[t.source].destinations && r.value[t.source].destinations[t.destination] == t
    ensures r.Success? && WellFormed(table) ==> WellFormed(r.value)
  {
    if !IsValidState(table, t.source) then Failure(FsmException(InvalidSource))
    else if !IsValidState(table, t.destination) then Failure(FsmException(InvalidDestination))
    else if t.destination in table[t.source].destinations then Failure(FsmException(DuplicateEdge))
    else if t.name in table[t.source].transitions then Failure(FsmException(DuplicateTransitionName))
    else
      var e := table[t.source];
      var next := table[t.source := e.(transitions := e.transitions[t.name := t],
                                       destinations := e.destinations[t.destination := t])];
      AddTransitionKeepsWellFormed(table, t, next);
      Success(next)
  }

  /** Inserting a transition into both maps of its source, when neither key is taken, keeps the lookup invariant. */
  lemma AddTransitionKeepsWellFormed<H>(table: Table<H>, t: Transition<H>, next: Table<H>)
    requires t.source in table && t.destination in table
    requires t.destination !in table[t.source].destinations
    requires t.name !in table[t.source].transitions
    requires next == table[t.source := table[t.source].(transitions := table[t.source].transitions[t.name := t],
                                                        destinations := table[t.source].destinations[t.destination := t])]
    ensures WellFormed(table) ==> WellFormed(next)
  {
    if WellFormed(table) {
      forall s, n | s in next && n in next[s].transitions
        ensures ByNameConsistent(next, s, n)
      {
        if s == t.source && n != t.name {
          assert ByNameConsistent(table, s, n);
        } else if s != t.source {
          assert ByNameConsistent(table, s, n);
        }
      }
      forall s, d | s in next && d in next[s].destinations
        ensures ByDestinationConsistent(next, s, d)
      {
        if s == t.source && d != t.destination {
          assert ByDestinationConsistent(table, s, d);
        } else if s != t.source {
          assert ByDestinationConsistent(table, s, d);
        }
      }
    }
  }

  /** Registers the transitions in list order, stopping at the first one that raises. */
  function AddTransitions<H>(table: Table<H>, transitions: seq<Transition<H>>): (r: Result<Table<H>, Error<H>>)
    decreases |transitions|
    ensures r.Failure? ==> r.error.FsmException?
    ensures r.Failure? ==> r.error.site in {InvalidSource, InvalidDestination, DuplicateEdge, DuplicateTransitionName}
    ensures r.Success? ==> r.value.Keys == table.Keys
    ensures r.Success? ==> forall s :: s in table ==> r.value[s].state == table[s].state
    ensures r.Success? && WellFormed(table) ==> WellFormed(r.value)
  {
    if |transitions| == 0 then Success(table)
    else
      match AddTransition(table, transitions[0])
      case Failure(e) => Failure(e)
      case Success(next) => AddTransitions(next, transitions[1..])
  }

  /** Fixes the current state; a missing (`None`), empty or unregistered name raises. */
  function SetInitialState<H>(table: Table<H>, initial: Option<string>): (r: Result<Machine<H>, Error<H>>)
    ensures r.Success? <==> initial.Some? && initial.value != "" && initial.value in table
    ensures r.Failure? ==> r.error == FsmException(InvalidInitialState)
    ensures r.Success? ==> r.value.table == table && r.value.current == initial.value
    ensures r.Success? && WellFormed(table) ==> r.value.Valid()
  {
    if initial.None? || initial.value == "" || initial.value !in table then
      Failure(FsmException(InvalidInitialState))
    else
      Success(Machine(table, initial.value))
  }

  /** Builds the engine from the initial-state name, the states and the transitions. */
  function Create<H>(initial: Option<string>, states: seq<State<H>>, transitions: seq<Transition<H>>): (r: Result<Machine<H>, Error<H>>)
    ensures r.Success? ==> r.value.Valid() && initial == Some(r.value.current)
    ensures r.Success? ==> r.value.table.Keys == Names(states)
    ensures r.Failure? ==> r.error.FsmException?
  {
    var registered :- AddStates(map[], states);
    var linked :- AddTransitions(registered, transitions);
    SetInitialState(linked, initial)
  }
}
