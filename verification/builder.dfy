/**
  The staging helper: it only records states, transitions and the initial
  name, and hands them to construction in `Build`. Nothing is validated
  while staging.
 */
module Builder {
  import opened Results
  import opened Model
  import Construction
  import ConstructionSpec

  /** The staged states and transitions, in call order, and the initial name if one was set. */
  datatype Staged<H> = Staged(states: seq<State<H>>, transitions: seq<Transition<H>>, initial: Option<string>)

  /** A fresh builder: nothing staged and no initial name, so building it raises at the initial-state check. */
  function NewBuilder<H>(): (b: Staged<H>)
    ensures b.states == [] && b.transitions == [] && b.initial.None?
    ensures Build(b) == Failure(FsmException(InvalidInitialState))
  {
    Staged([], [], None)
  }

  /** Stages a state with a caller-chosen name; a repeated name is accepted here and raises only in `Build`. */
  function AddNamedState<H>(b: Staged<H>, name: string, beforeExit: Option<H>, afterEntry: Option<H>): (r: (Staged<H>, State<H>))
    ensures r.1.name == name && r.1.beforeExit == beforeExit && r.1.afterEntry == afterEntry
    ensures r.0.states == b.states + [r.1] && r.0.transitions == b.transitions && r.0.initial == b.initial
  {
    var s := State(name, beforeExit, afterEntry);
    (b.(states := b.states + [s]), s)
  }

  /** Stages a transition with a caller-chosen name; it is checked only in `Build`. */
  function AddNamedTransition<H>(b: Staged<H>, name: string, source: string, destination: string,
                                 onTransition: Option<H>): (r: (Staged<H>, Transition<H>))
    ensures r.1.name == name && r.1.source == source && r.1.destination == destination && r.1.onTransition == onTransition
    ensures r.0.transitions == b.transitions + [r.1] && r.0.states == b.states && r.0.initial == b.initial
  {
    var t := Transition(name, source, destination, onTransition);
    (b.(transitions := b.transitions + [t]), t)
  }

  /** Records the initial-state name, replacing any earlier one. */
  function SetInitialState<H>(b: Staged<H>, name: string): (r: Staged<H>)
    ensures r.initial == Some(name) && r.states == b.states && r.transitions == b.transitions
  {
    b.(initial := Some(name))
  }

  /**
    Constructs the engine from everything staged. It succeeds exactly when
    the staged lists and name meet the construction conditions, and the
    engine then indexes exactly the staged transitions; otherwise it raises
    what construction raises, and without an initial name it always raises.
   */
  function Build<H>(b: Staged<H>): (r: Result<Machine<H>, Error<H>>)
    ensures r.Success? <==> ConstructionSpec.Acceptable(b.initial, b.states, b.transitions)
    ensures r.Success? ==> r.value.Valid() && b.initial == Some(r.value.current)
    ensures b.initial.None? ==> r.Failure? && r.error.FsmException?
    ensures r.Success? ==>
              && r.value.table.Keys == Construction.Names(b.states)
              && (forall s :: s in r.value.table ==> r.value.table[s].state in b.states)
              && ConstructionSpec.Indexes(r.value.table, b.transitions)
    ensures !ConstructionSpec.DistinctNames(b.states) ==> r == Failure(FsmException(DuplicateState))
    ensures ConstructionSpec.DistinctNames(b.states) && ConstructionSpec.FirstFault(Construction.Names(b.states), [], b.transitions).Some? ==>
              r == Failure(FsmException(ConstructionSpec.FirstFault(Construction.Names(b.states), [], b.transitions).value))
    ensures && ConstructionSpec.DistinctNames(b.states)
            && ConstructionSpec.FirstFault(Construction.Names(b.states), [], b.transitions).None?
            && !ConstructionSpec.InitialOk(b.initial, Construction.Names(b.states)) ==>
              r == Failure(FsmException(InvalidInitialState))
  {
    ConstructionSpec.CreateAccepts(b.initial, b.states, b.transitions);
    ConstructionSpec.CreateRaisesFirstFault(b.initial, b.states, b.transitions);
    var r := Construction.Create(b.initial, b.states, b.transitions);
    if r.Success? then
      ConstructionSpec.CreateIndexesExactly(b.initial, b.states, b.transitions);
      r
    else
      r
  }

  /** A staging call. */
  datatype Stage<H> =
    | StageState(name: string, beforeExit: Option<H>, afterEntry: Option<H>)
    | StageTransition(name: string, source: string, destination: string, onTransition: Option<H>)
    | StageInitial(name: string)

  /** Makes the staging calls in order. */
  function Replay<H>(b: Staged<H>, stages: seq<Stage<H>>): Staged<H>
    decreases |stages|
  {
    if |stages| == 0 then b
    else
      var next := match stages[0]
        case StageState(n, x, y) => AddNamedState(b, n, x, y).0
        case StageTransition(n, s, d, h) => AddNamedTransition(b, n, s, d, h).0
        case StageInitial(n) => SetInitialState(b, n);
      Replay(next, stages[1..])
  }

  /** Staging calls other than `SetInitialState` never touch the initial name. */
  lemma {:induction false} ReplayKeepsInitial<H>(b: Staged<H>, stages: seq<Stage<H>>)
    requires forall i :: 0 <= i < |stages| ==> !stages[i].StageInitial?
    ensures Replay(b, stages).initial == b.initial
    decreases |stages|
  {
    if |stages| > 0 {
      ReplayKeepsInitial(match stages[0]
        case StageState(n, x, y) => AddNamedState(b, n, x, y).0
        case StageTransition(n, s, d, h) => AddNamedTransition(b, n, s, d, h).0
        case StageInitial(n) => SetInitialState(b, n), stages[1..]);
    }
  }

  /** A builder on which `SetInitialState` was never called raises in `Build`, whatever else was staged. */
  lemma NeverSetInitialRaises<H>(stages: seq<Stage<H>>)
    requires forall i :: 0 <= i < |stages| ==> !stages[i].StageInitial?
    ensures Build(Replay(NewBuilder(), stages)).Failure?
  {
    ReplayKeepsInitial(NewBuilder(), stages);
  }

  /** Staging a name that is already staged succeeds, and `Build` then raises at the duplicate-state check. */
  lemma DuplicateStateRaisesAtBuild<H>(b: Staged<H>, name: string, beforeExit: Option<H>, afterEntry: Option<H>)
    requires exists s :: s in b.states && s.name == name
    ensures Build(AddNamedState(b, name, beforeExit, afterEntry).0) == Failure(FsmException(DuplicateState))
  {
    var b' := AddNamedState(b, name, beforeExit, afterEntry).0;
    var s :| s in b.states && s.name == name;
    var i :| 0 <= i < |b.states| && b.states[i] == s;
    assert b'.states[i].name == b'.states[|b.states|].name;
    assert !ConstructionSpec.DistinctNames(b'.states);
    ConstructionSpec.CreateRaisesFirstFault(b'.initial, b'.states, b'.transitions);
  }
}
