/**
  The data model of the FSM engine: states, transitions, the per-state lookup
  structure the engine builds, and the single exception the engine raises.
  Hook callables are opaque tags of type `H`; what they do is not modelled.
 */
module Model {
  import opened Results

  /** A named state with optional exit and entry hooks. */
  datatype State<H> = State(name: string, beforeExit: Option<H>, afterEntry: Option<H>)

  /** A named edge from `source` to `destination` with an optional hook. */
  datatype Transition<H> = Transition(name: string, source: string, destination: string, onTransition: Option<H>)

  /**
    What the engine keeps for one state: the state itself, its outgoing
    transitions keyed by transition name, and the same transitions keyed by
    destination-state name.
   */
  datatype Entry<H> = Entry(state: State<H>, transitions: map<string, Transition<H>>, destinations: map<string, Transition<H>>)

  /** The lookup structure: state name to its entry. */
  type Table<H> = map<string, Entry<H>>

  /** The place in the engine that raised its (single) exception class. */
  datatype Site =
    | DuplicateState           // a state name registered twice
    | InvalidSource            // a transition whose source is not registered
    | InvalidDestination       // a transition whose destination is not registered
    | DuplicateEdge            // a second transition between the same ordered pair
    | DuplicateTransitionName  // a second transition name under the same source
    | InvalidInitialState      // initial name missing, empty or unregistered
    | InvalidTransition        // no outgoing transition of that name from the current state
    | InvalidState             // the requested destination is not registered
    | NoDirectTransition       // no edge from the current state to the requested destination

  /**
    What an operation can raise: the engine's own exception, tagged by where it
    was raised, or whatever a hook raised, which propagates unchanged.
   */
  datatype Error<H> = FsmException(site: Site) | HookRaised(hook: H)

  /** The outgoing transition `table[s].transitions[n]` is indexed consistently. */
  ghost predicate ByNameConsistent<H>(table: Table<H>, s: string, n: string)
    requires s in table && n in table[s].transitions
  {
    var e := table[s];
    var t := e.transitions[n];
    && t.name == n
    && t.source == s
    && t.destination in table
    && t.destination in e.destinations
    && e.destinations[t.destination] == t
  }

  /** The outgoing transition `table[s].destinations[d]` is indexed consistently. */
  ghost predicate ByDestinationConsistent<H>(table: Table<H>, s: string, d: string)
    requires s in table && d in table[s].destinations
  {
    var e := table[s];
    var t := e.destinations[d];
    && t.destination == d
    && t.source == s
    && t.name in e.transitions
    && e.transitions[t.name] == t
  }

  /**
    The invariant of the built lookup structure: every entry holds the state
    of its own name, and its two maps index the same transitions, all sourced
    at that state and leading to registered states.
   */
  ghost predicate WellFormed<H>(table: Table<H>) {
    && (forall s :: s in table ==> table[s].state.name == s)
    && (forall s, n :: s in table && n in table[s].transitions ==> ByNameConsistent(table, s, n))
    && (forall s, d :: s in table && d in table[s].destinations ==> ByDestinationConsistent(table, s, d))
  }

  /** The name is registered with the engine. */
  function IsValidState<H>(table: Table<H>, name: string): (r: bool)
    ensures r <==> name in table.Keys
    ensures r && WellFormed(table) ==> table[name].state.name == name
  {
    name in table
  }

  /** A built engine: the lookup structure and the current-state name, its one mutable field. */
  datatype Machine<H> = Machine(table: Table<H>, current: string) {

    /** The engine invariant: a well-formed table and a registered current state. */
    ghost predicate Valid() {
      WellFormed(table) && current in table
    }

    /** The transitions leaving the current state. */
    ghost function Outgoing(): set<Transition<H>>
      requires current in table
    {
      table[current].transitions.Values
    }
  }
}
