/**
  Executing transitions on a built engine. Hooks are opaque tags; whether a
  hook raises when called with a payload is given by the caller as the
  `raises` oracle. The result is the trace of hook calls that happened, the
  engine afterwards, and what was raised, if anything.
 */
module Execution {
  import opened Results
  import opened Model

  /** Which of the three protocol steps called a hook. */
  datatype Step = Exit | Run | Enter

  /** One hook call: the step, the state or transition that owns the hook, the hook, and the payload. */
  datatype Event<H, P> = Event(step: Step, owner: string, hook: H, payload: P)

  /** The effect of one call into the engine. */
  datatype Effect<H, P> = Effect(trace: seq<Event<H, P>>, machine: Machine<H>, error: Option<Error<H>>)

  /** The calls made by invoking a hook slot: one if the slot holds a hook, none if it is empty. */
  function Invoked<H, P>(step: Step, owner: string, hook: Option<H>, payload: P): (r: seq<Event<H, P>>)
    ensures |r| <= 1
    ensures r != [] <==> hook.Some?
    ensures hook.Some? ==> r[0] == Event(step, owner, hook.value, payload)
  {
    if hook.Some? then [Event(step, owner, hook.value, payload)] else []
  }

  /** The slot holds a hook and that hook raises on this payload. */
  predicate Raises<H, P>(hook: Option<H>, payload: P, raises: (H, P) -> bool) {
    hook.Some? && raises(hook.value, payload)
  }

  /** None of the three hooks of a protocol run raises on the payload. */
  predicate Quiet<H, P>(source: State<H>, t: Transition<H>, destination: State<H>, payload: P, raises: (H, P) -> bool) {
    && !Raises(source.beforeExit, payload, raises)
    && !Raises(t.onTransition, payload, raises)
    && !Raises(destination.afterEntry, payload, raises)
  }

  /** The hook calls of a complete protocol run, in order: source exit, transition, destination entry. */
  ghost function Planned<H, P>(source: State<H>, t: Transition<H>, destination: State<H>, payload: P): seq<Event<H, P>> {
    Invoked(Exit, source.name, source.beforeExit, payload)
    + Invoked(Run, t.name, t.onTransition, payload)
    + Invoked(Enter, destination.name, destination.afterEntry, payload)
  }

  /**
    The execution protocol: the source's exit hook, the transition's hook,
    the destination's entry hook, and only then the change of current state.
    A hook that raises stops the protocol at that call.
   */
  function Perform<H, P>(m: Machine<H>, source: State<H>, t: Transition<H>, destination: State<H>,
                         payload: P, raises: (H, P) -> bool): (r: Effect<H, P>)
    ensures r.error.None? <==>
              && !Raises(source.beforeExit, payload, raises)
              && !Raises(t.onTransition, payload, raises)
              && !Raises(destination.afterEntry, payload, raises)
    ensures r.error.None? ==>
              r.trace == Planned(source, t, destination, payload) && r.machine == m.(current := destination.name)
    ensures r.error.Some? ==> r.machine == m && r.error.value.HookRaised?
    ensures r.error.Some? ==>
              && 0 < |r.trace| <= |Planned(source, t, destination, payload)|
              && r.trace == Planned(source, t, destination, payload)[..|r.trace|]
              && r.trace[|r.trace| - 1].hook == r.error.value.hook
              && raises(r.error.value.hook, payload)
              && forall i :: 0 <= i < |r.trace| - 1 ==> !raises(r.trace[i].hook, payload)
  {
    var exited := Invoked(Exit, source.name, source.beforeExit, payload);
    if Raises(source.beforeExit, payload, raises) then
      Effect(exited, m, Some(HookRaised(source.beforeExit.value)))
    else
      var ran := exited + Invoked(Run, t.name, t.onTransition, payload);
      if Raises(t.onTransition, payload, raises) then
        Effect(ran, m, Some(HookRaised(t.onTransition.value)))
      else
        var entered := ran + Invoked(Enter, destination.name, destination.afterEntry, payload);
        if Raises(destination.afterEntry, payload, raises) then
          Effect(entered, m, Some(HookRaised(destination.afterEntry.value)))
        else
          Effect(entered, m.(current := destination.name), None)
  }

  /** The current-state name; always a registered state. */
  function CurrentState<H>(m: Machine<H>): (r: string)
    requires m.Valid()
    ensures r == m.current
    ensures IsValidState(m.table, r) && m.table[r].state.name == r
  {
    m.current
  }

  /**
    Runs the outgoing transition of the current state that has the given
    name. Raises, without calling any hook, when the current state has no
    such transition, even if another state has one of that name.
   */
  function ExecuteTransition<H, P>(m: Machine<H>, name: string, payload: P, raises: (H, P) -> bool): (r: Effect<H, P>)
    requires m.Valid()
    ensures r.machine.Valid() && r.machine.table == m.table
    ensures r.error == Some(FsmException(InvalidTransition)) <==> forall t :: t in m.Outgoing() ==> t.name != name
    ensures r.error == Some(FsmException(InvalidTransition)) ==> r.trace == []
    ensures r.error.Some? ==> r.machine == m
    ensures r.error.Some? ==> r.error == Some(FsmException(InvalidTransition)) || r.error.value.HookRaised?
    ensures r.error.None? <==>
              exists t :: && t in m.Outgoing() && t.name == name && t.destination in m.table
                          && Quiet(m.table[m.current].state, t, m.table[t.destination].state, payload, raises)
    ensures r.error.None? ==>
              exists t :: && t in m.Outgoing() && t.name == name && t.destination in m.table
                          && r.machine.current == t.destination
                          && r.trace == Planned(m.table[m.current].state, t, m.table[t.destination].state, payload)
    ensures r.error.Some? && r.error.value.HookRaised? ==>
              exists t :: && t in m.Outgoing() && t.name == name && t.destination in m.table
                          && 0 < |r.trace| <= |Planned(m.table[m.current].state, t, m.table[t.destination].state, payload)|
                          && r.trace == Planned(m.table[m.current].state, t, m.table[t.destination].state, payload)[..|r.trace|]
                          && r.trace[|r.trace| - 1].hook == r.error.value.hook
                          && raises(r.error.value.hook, payload)
                          && forall i :: 0 <= i < |r.trace| - 1 ==> !raises(r.trace[i].hook, payload)
  {
    var e := m.table[m.current];
    NamesOfOutgoing(m, name);
    if name !in e.transitions then
      Effect([], m, Some(FsmException(InvalidTransition)))
    else
      var t := e.transitions[name];
      assert ByNameConsistent(m.table, m.current, name);
      OutgoingByName(m, name);
      Perform(m, e.state, t, m.table[t.destination].state, payload, raises)
  }

  /** At most one outgoing transition of the current state has a given name: the one the name-keyed map holds. */
  lemma OutgoingByName<H>(m: Machine<H>, name: string)
    requires m.Valid() && name in m.table[m.current].transitions
    ensures forall t :: t in m.Outgoing() && t.name == name ==> t == m.table[m.current].transitions[name]
  {
    var e := m.table[m.current];
    forall t | t in m.Outgoing() && t.name == name
      ensures t == e.transitions[name]
    {
      var n :| n in e.transitions && e.transitions[n] == t;
      assert ByNameConsistent(m.table, m.current, n);
    }
  }

  /** At most one outgoing transition of the current state leads to a given state: the one the destination-keyed map holds. */
  lemma OutgoingByDestination<H>(m: Machine<H>, destination: string)
    requires m.Valid() && destination in m.table[m.current].destinations
    ensures forall t :: t in m.Outgoing() && t.destination == destination ==> t == m.table[m.current].destinations[destination]
  {
    var e := m.table[m.current];
    forall t | t in m.Outgoing() && t.destination == destination
      ensures t == e.destinations[destination]
    {
      var n :| n in e.transitions && e.transitions[n] == t;
      assert ByNameConsistent(m.table, m.current, n);
    }
  }

  /** Some outgoing transition of the current state has a given name exactly when the name-keyed map has that key. */
  lemma NamesOfOutgoing<H>(m: Machine<H>, name: string)
    requires m.Valid()
    ensures (exists t :: t in m.Outgoing() && t.name == name) <==> name in m.table[m.current].transitions
  {
    var e := m.table[m.current];
    if exists t :: t in m.Outgoing() && t.name == name {
      var t :| t in m.Outgoing() && t.name == name;
      var n :| n in e.transitions && e.transitions[n] == t;
      assert ByNameConsistent(m.table, m.current, n);
    }
    if name in e.transitions {
      assert ByNameConsistent(m.table, m.current, name);
      assert e.transitions[name] in m.Outgoing();
    }
  }

  /** Some outgoing transition of the current state leads to a given state exactly when the destination-keyed map has that key. */
  lemma DestinationsOfOutgoing<H>(m: Machine<H>, destination: string)
    requires m.Valid()
    ensures (exists t :: t in m.Outgoing() && t.destination == destination) <==> destination in m.table[m.current].destinations
  {
    var e := m.table[m.current];
    if exists t :: t in m.Outgoing() && t.destination == destination {
      var t :| t in m.Outgoing() && t.destination == destination;
      var n :| n in e.transitions && e.transitions[n] == t;
      assert ByNameConsistent(m.table, m.current, n);
    }
    if destination in e.destinations {
      assert ByDestinationConsistent(m.table, m.current, destination);
      assert e.transitions[e.destinations[destination].name] in m.Outgoing();
    }
  }

  /**
    Runs the transition from the current state to the named state. Raises,
    without calling any hook, first when that state is not registered, then
    when there is no direct edge to it from the current state.
   */
  function ExecuteTransitionTo<H, P>(m: Machine<H>, destination: string, payload: P, raises: (H, P) -> bool): (r: Effect<H, P>)
    requires m.Valid()
    ensures r.machine.Valid() && r.machine.table == m.table
    ensures r.error == Some(FsmException(InvalidState)) <==> destination !in m.table
    ensures r.error == Some(FsmException(NoDirectTransition)) <==>
              destination in m.table && forall t :: t in m.Outgoing() ==> t.destination != destination
    ensures r.error.Some? && r.error.value.FsmException? ==> r.trace == []
    ensures r.error.Some? ==> r.machine == m
    ensures r.error.Some? && r.error.value.FsmException? ==>
              r.error.value.site == InvalidState || r.error.value.site == NoDirectTransition
    ensures r.error.None? <==>
              && destination in m.table
              && exists t :: && t in m.Outgoing() && t.destination == destination
                             && Quiet(m.table[m.current].state, t, m.table[destination].state, payload, raises)
    ensures r.error.None? ==>
              && destination in m.table
              && r.machine.current == destination
              && exists t :: && t in m.Outgoing() && t.destination == destination
                             && r.trace == Planned(m.table[m.current].state, t, m.table[destination].state, payload)
    ensures r.error.Some? && r.error.value.HookRaised? ==>
              && destination in m.table
              && exists t :: && t in m.Outgoing() && t.destination == destination
                             && 0 < |r.trace| <= |Planned(m.table[m.current].state, t, m.table[destination].state, payload)|
                             && r.trace == Planned(m.table[m.current].state, t, m.table[destination].state, payload)[..|r.trace|]
                             && r.trace[|r.trace| - 1].hook == r.error.value.hook
                             && raises(r.error.value.hook, payload)
                             && forall i :: 0 <= i < |r.trace| - 1 ==> !raises(r.trace[i].hook, payload)
  {
    if !IsValidState(m.table, destination) then
      Effect([], m, Some(FsmException(InvalidState)))
    else
      var e := m.table[m.current];
      DestinationsOfOutgoing(m, destination);
      if destination !in e.destinations then
        Effect([], m, Some(FsmException(NoDirectTransition)))
      else
        var t := e.destinations[destination];
        assert ByDestinationConsistent(m.table, m.current, destination);
        assert t in m.Outgoing();
        OutgoingByDestination(m, destination);
        Perform(m, e.state, t, m.table[destination].state, payload, raises)
  }

  /** A call a client makes on the engine. */
  datatype Command<P> = ByName(name: string, payload: P) | ToState(destination: string, payload: P)

  /** Carries out one call. */
  function Apply<H, P>(m: Machine<H>, c: Command<P>, raises: (H, P) -> bool): (r: Effect<H, P>)
    requires m.Valid()
    ensures r.machine.Valid() && r.machine.table == m.table
    ensures r.error.Some? ==> r.machine == m
  {
    match c
    case ByName(name, payload) => ExecuteTransition(m, name, payload, raises)
    case ToState(destination, payload) => ExecuteTransitionTo(m, destination, payload, raises)
  }

  /**
    Carries out a sequence of calls, the client catching whatever each one
    raises and going on with the engine as that call left it.
   */
  function Drive<H, P>(m: Machine<H>, cs: seq<Command<P>>, raises: (H, P) -> bool): (r: Machine<H>)
    requires m.Valid()
    ensures r.Valid() && r.table == m.table
    ensures r.current == m.current ||
            exists s, n :: s in m.table && n in m.table[s].transitions && m.table[s].transitions[n].destination == r.current
    decreases |cs|
  {
    if |cs| == 0 then m
    else
      var step := Apply(m, cs[0], raises);
      assert step.machine.current == m.current ||
             exists s, n :: s in m.table && n in m.table[s].transitions && m.table[s].transitions[n].destination == step.machine.current;
      Drive(step.machine, cs[1..], raises)
  }

  /**
    A self-transition runs the current state's exit hook, the transition's
    hook and the same state's entry hook, and leaves the engine where it was.
   */
  lemma SelfTransitionStays<H, P>(m: Machine<H>, t: Transition<H>, payload: P, raises: (H, P) -> bool)
    requires m.Valid() && t in m.Outgoing() && t.destination == m.current
    requires !Raises(m.table[m.current].state.beforeExit, payload, raises)
    requires !Raises(t.onTransition, payload, raises)
    requires !Raises(m.table[m.current].state.afterEntry, payload, raises)
    ensures ExecuteTransitionTo(m, m.current, payload, raises)
            == Effect(Planned(m.table[m.current].state, t, m.table[m.current].state, payload), m, None)
  {
    var e := m.table[m.current];
    var n :| n in e.transitions && e.transitions[n] == t;
    assert ByNameConsistent(m.table, m.current, n);
  }
}
