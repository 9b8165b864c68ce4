# GrootFSM engine in Dafny

A model of the finite-state-machine engine of GrootFSM (`fsm/base.py`), with proofs about it.

- **States** have an optional exit hook and an optional entry hook.
- **Transitions** join a source state to a destination state and have one optional hook.
- **The engine** (`FSM`) keeps a per-state lookup structure. It maps each state name to:
  - the state itself;
  - its outgoing transitions, keyed by transition name;
  - the same transitions, keyed by destination name.
- The current-state name is the engine's only mutable field.

Construction folds over the states, then over the transitions, then checks the initial-state name. It raises the single `FSMException` at the first violation. Execution has two entry points:

- by transition name (`execute_transition`);
- by destination name (`execute_transition_to`).

Both resolve an edge from the current state, or raise without calling any hook. On a match they call the source's exit hook, the transition's hook and the destination's entry hook, in that order. Only after those three calls do they change the current state. The `FSMBuilder` staging layer is modelled as well.

Modules, one file each:

- `results.dfy`, module `Results`: `Option` and `Result`.
- `model.dfy`, module `Model`:
  - `State`, `Transition`, `Entry`, the lookup `Table` and `Machine`;
  - `Error`: the engine's one exception, tagged by raise site (`Site`), or an exception raised by a hook;
  - `WellFormed`: the invariant of the lookup structure;
  - `IsValidState`: the registration test `_is_valid_state`.
- `construction.dfy`, module `Construction`: `FSM.__init__` and its `_validate_and_add_*` helpers, as a fold that returns a `Result`.
- `construction_spec.dfy`, module `ConstructionSpec`: a list-level account of the same construction, and the lemmas that tie it to the fold.
  - `Acceptable` says when construction should succeed.
  - `Fault` and `FirstFault` say which check raises first.
- `execution.dfy`, module `Execution`:
  - `execute_transition`, `execute_transition_to`, `_execute` and `state`;
  - `Drive`: a client's sequence of calls.
- `builder.dfy`, module `Builder`: `FSMBuilder`.
- `scenarios.dfy`, module `Scenarios`: the scenarios of `tests/test_base.py`, restated as lemmas.

How the model maps onto the Python code:

- **Hooks** are opaque tags of type `H`, and payloads are an opaque type `P`.
  - Whether a hook raises on a payload is the caller-supplied oracle `raises: (H, P) -> bool`.
  - An execution returns three things: the trace of hook calls that happened (`Event`s), the engine afterwards, and what was raised.
  - A hook slot that is empty (`None`) makes no call. This is the `if self._before_exit:` test in the source.
- **Membership tests.** In the source, every `.get(...)` test on the lookup structure is a membership test. Registry entries are non-empty dicts, and transition objects are always truthy, so the model writes each such test as map membership.
- **The initial-state check** `not initial_state_name` is true for `None` and for the empty string. The initial name is therefore an `Option<string>`, and both `None` and `Some("")` raise.
- **Empty state name.** A state named `""` can be registered, but it can never be the initial state. This is the code's behaviour and the model keeps it.
- **One exception class.** The code raises one class, `FSMException`, at nine sites. The model has one error constructor, `FsmException(site)`, and the `Site` tag only records which of the nine `raise`s fired.
- **Edge check before name check.** The repository's duplicate-transition-name test (tests/test_base.py:153-165) stages two `transition11`s that both go from state1 to state1. That test therefore raises at the duplicate-edge check (fsm/base.py:214), not at the name check. `Scenarios.SecondSelfEdgeRaises` states this.

## Model

| member | source | states |
|---|---|---|
| Construction.AddState | fsm/base.py:187-197 | Registering a state raises, tagged as a duplicate state, exactly when its name is already registered. Otherwise it adds a fresh entry with both transition maps empty, leaves every other entry alone and keeps the lookup invariant. |
| Construction.AddStates | fsm/base.py:110-112 | The state fold can only raise the duplicate-state error. On success the registered names are the old ones plus the names of the list. Each new entry holds one of the listed states with no transitions, and the invariant is kept. |
| Construction.AddTransition | fsm/base.py:199-221 | On success the transition is indexed under its source by its name and by its destination. No state is added or replaced, and the lookup invariant is kept. |
| Construction.AddTransitionKeepsWellFormed | fsm/base.py:219-221 | Inserting a transition into both of its source's maps at once, when neither key is taken, keeps the two maps indexing the same transitions. |
| Construction.AddTransitions | fsm/base.py:114-116 | The transition fold raises only at the four transition checks. It never adds or replaces a state, and it keeps the invariant. |
| Construction.SetInitialState | fsm/base.py:223-233 | Succeeds exactly when the name is set, non-empty and registered, and then the current state is that name. Otherwise it raises the initial-state error. |
| Construction.Create | fsm/base.py:99-119 | A built engine satisfies the engine invariant. It starts in the initial state, and its registered names are exactly the given state names. Every failure is an `FSMException`. |
| ConstructionSpec.AddStatesAccepts | fsm/base.py:187-197 | The state fold succeeds exactly when the listed names are pairwise distinct and none is already registered. |
| ConstructionSpec.IndexesGrow | fsm/base.py:219-221 | Adding a transition that passes every check keeps the lookup structure indexing exactly the transitions accepted so far. |
| ConstructionSpec.AddTransitionMatchesFault | fsm/base.py:210-221 | One step of the transition fold raises exactly when the list-level `Fault` predicts a fault, and at the predicted site. The order is: unregistered source, unregistered destination, existing edge, existing name. Otherwise the transitions indexed are the earlier ones plus this one. |
| ConstructionSpec.AddTransitionsMatchesFirstFault | fsm/base.py:114-116 | The whole transition fold raises exactly the fault of the first faulty transition in list order. Otherwise it indexes every listed transition and nothing else. |
| ConstructionSpec.FirstFaultNoneIff | fsm/base.py:114-116 | The first-fault scan finds nothing exactly when every transition is fault-free with respect to the ones before it. |
| ConstructionSpec.FirstFaultIsEarliest | fsm/base.py:114-116 | A reported fault belongs to a transition all of whose predecessors are fault-free. |
| ConstructionSpec.FaultFreeIffPairwise | fsm/base.py:199-217 | A transition list is fault-free exactly when three conditions hold: every endpoint is registered; no ordered (source, destination) pair has two transitions; and no source has two transitions of one name. |
| ConstructionSpec.CreatePhases | fsm/base.py:107-119 | Construction runs the state phase, then the transition phase on the table the state phase built, then the initial-state check. Each phase raises before the next one runs. |
| ConstructionSpec.TransitionPhaseAccepts | fsm/base.py:114-116 | Over freshly registered states, the transition phase succeeds exactly when the three pairwise conditions hold. |
| ConstructionSpec.CreateAccepts | fsm/base.py:99-119 | Construction succeeds exactly when all five conditions hold: distinct state names, registered endpoints, distinct edges, distinct names per source, and an initial name that is set, non-empty and registered. The engine then starts in the initial state. |
| ConstructionSpec.CreateRaisesFirstFault | fsm/base.py:107-119 | Which check raises: a duplicate state name comes before any transition check. Next comes the first transition fault in list order. The initial-state check raises only when everything before it passed. |
| ConstructionSpec.CreateIndexesExactly | fsm/base.py:219-221 | A built engine indexes each given transition under its source, both by name and by destination, and indexes nothing else. Every entry holds one of the given states. |
| ConstructionSpec.RegisteredAreTheGivenStates | fsm/base.py:179-185 | On a built engine, `_is_valid_state` holds of a name exactly when one of the given states has that name. |
| ConstructionSpec.SecondEdgeRaisesWhateverName | fsm/base.py:214-217 | A second transition on an ordered pair that already has one raises the duplicate-edge error whatever the two names are, including when the names are equal. |
| ConstructionSpec.RepeatedNameUnderOneSourceRaises | fsm/base.py:216-217 | Two transitions of one name that leave one state raise the duplicate-name error, even when their destinations differ. |
| ConstructionSpec.SameNameUnderTwoSourcesAccepted | fsm/base.py:51-52 | One transition name may label transitions that leave two different states. |
| Execution.Perform | fsm/base.py:164-177 | The protocol succeeds exactly when none of the three hooks raises. It then makes exactly the planned calls (source exit, transition, destination entry, each with the payload) and moves to the destination. If a hook raises, the state is unchanged. The trace is then a non-empty prefix of the plan that ends with the raising hook, and no earlier hook raised. |
| Execution.CurrentState | fsm/base.py:121-127 | The getter returns the engine's current state, which is always registered and whose entry holds the state of that name. |
| Model.IsValidState | fsm/base.py:179-185 | A name is valid exactly when it is registered; on a well-formed lookup structure its entry then holds the state of that name. |
| Execution.Invoked | fsm/base.py:28-44 | Invoking a hook slot makes one call, with the step, owner and payload, when the slot holds a hook, and no call when it is empty. |
| Execution.OutgoingByName | fsm/base.py:199-221 | At most one outgoing transition of a state has a given name: the one the name-keyed map holds. |
| Execution.OutgoingByDestination | fsm/base.py:199-221 | At most one outgoing transition of a state leads to a given state: the one the destination-keyed map holds. |
| Execution.NamesOfOutgoing | fsm/base.py:219-221 | Some outgoing transition of the current state has a given name exactly when the name-keyed map has that key. |
| Execution.DestinationsOfOutgoing | fsm/base.py:219-221 | Some outgoing transition of the current state leads to a given state exactly when the destination-keyed map has that key. |
| Execution.ExecuteTransition | fsm/base.py:129-143 | Raises the invalid-transition error exactly when no outgoing transition of the current state has that name, even if another state has one. That failure calls no hook. On any failure the state is unchanged. The call succeeds exactly when the current state has an outgoing transition of that name and none of its three hooks raises; then the engine moves to that transition's destination, after the planned hook calls. A hook error names a hook that raised, and the trace is a prefix of that transition's planned calls ending at it, with no earlier hook in it raising. The invariant and the lookup structure are kept. |
| Execution.ExecuteTransitionTo | fsm/base.py:145-162 | Raises first if the destination is unregistered, then if the current state has no direct edge to it; multi-hop paths do not count. These failures call no hook, and no failure changes the state. The call succeeds exactly when the destination is registered, the current state has a direct edge to it and none of that edge's three hooks raises; then the current state is the destination, after the planned hook calls of that edge. A hook error names a hook that raised, and the trace is a prefix of that edge's planned calls ending at it, with no earlier hook in it raising. |
| Execution.Apply | fsm/base.py:129-162 | Either entry point keeps the engine invariant and the lookup structure, and leaves the state unchanged when it raises. |
| Execution.Drive | fsm/base.py:164-177 | After any sequence of calls whose exceptions the client catches, the current state is registered. It is either the starting state or the destination of a registered transition. |
| Execution.SelfTransitionStays | tests/test_base.py:46-53 | A self-transition whose hooks do not raise calls the state's exit hook, the transition's hook and the same state's entry hook, in that order, and leaves the engine unchanged. |
| Builder.NewBuilder | fsm/base.py:269-272 | A fresh builder has no staged states, no staged transitions and no initial name, so building it raises the initial-state error. |
| Builder.AddNamedState | fsm/base.py:284-294 | Staging a state appends it, with the given name and hooks, and touches nothing else. |
| Builder.AddNamedTransition | fsm/base.py:307-319 | Staging a transition appends it, with the given name, endpoints and hook, and touches nothing else. |
| Builder.SetInitialState | fsm/base.py:321-328 | Records the initial name, replacing any earlier one, and leaves the staged lists alone. |
| Builder.Build | fsm/base.py:330-335 | Building succeeds exactly when the staged lists and name meet the five construction conditions. The engine then starts in the staged initial state, registers exactly the staged state names and indexes exactly the staged transitions. Otherwise it raises what the constructor raises: the duplicate-state error first, then the first transition fault in staging order, then the initial-state error. Without an initial name it always raises an `FSMException`. |
| Builder.ReplayKeepsInitial | fsm/base.py:321-328 | Staging calls other than `set_initial_state` never change the initial name. |
| Builder.NeverSetInitialRaises | fsm/base.py:272 | A builder on which `set_initial_state` was never called raises in `build`, whatever was staged. |
| Builder.DuplicateStateRaisesAtBuild | fsm/base.py:284-294 | Staging a name that is already staged is accepted. `build` then raises the duplicate-state error. |
| Scenarios.NamedMachineBuilds | tests/test_base.py:78-93 | The three named states and four named transitions build the expected lookup structure, starting in state1. |
| Scenarios.RunStep1 | tests/test_base.py:98-102 | `execute_transition_to('state1', test_arg=111)` from state1 calls before_exit1, on_transition11 and after_entry1 once each with the payload, and stays in state1. |
| Scenarios.RunStep2 | tests/test_base.py:104 | `execute_transition_to('state3')` from state1 raises at the no-direct-edge site and calls nothing. |
| Scenarios.RunStep3 | tests/test_base.py:106-112 | `execute_transition_to('state2')` from state1 calls before_exit1, on_transition12 and after_entry2, and moves to state2. |
| Scenarios.RunStep4 | tests/test_base.py:114-116 | `execute_transition('transition31', test_arg=111)` from state2 raises and calls no hook, because transition31 leaves state3. |
| Scenarios.RunStep5 | tests/test_base.py:118-125 | `execute_transition('transition23')` from state2 calls before_exit2, on_transition23 and after_entry3, and moves to state3. |
| Scenarios.NamedMachineRun | tests/test_base.py:98-125 | The five calls of the named test, made one after another with each exception caught, end in state3. |
| Scenarios.BuildWithoutInitialRaises | tests/test_base.py:127-136 | Two states with any distinct generated names, one transition and no initial state: building raises the initial-state error. |
| Scenarios.SecondSelfEdgeRaises | tests/test_base.py:139-165 | Two self-transitions on one state, with any names, equal or not, raise the duplicate-edge error. |
| Scenarios.DuplicateStateNameRaises | tests/test_base.py:167-179 | Staging state1 twice raises the duplicate-state error before any transition is examined. |

## Left out

- `logging.debug` in `_execute` (fsm/base.py:173): a side effect only.
- `FSMBuilder.add_state` and `add_transition`: the model does not generate names. These two methods are `add_named_state` and `add_named_transition` with a name drawn from `uuid` (fsm/base.py:337-338). The model takes every name from the caller, so `AddNamedState` and `AddNamedTransition` cover them. The random-names test (tests/test_base.py:26-76) is the named test under other names, so only the named test is restated.
- What hooks do, and what the keyword payload contains: both are foreign calls. A hook is an opaque tag, and whether it raises is the `raises` oracle. Whatever a hook does outside the engine is not modelled.
- Execution.Perform: assumes hooks never call back into the engine. In the source a hook may call `execute_transition` itself, which assigns `_state` (fsm/base.py:177) before the outer protocol ends; if a later hook then raises, the state is the nested call's destination, so "a raising hook leaves the state unchanged" holds only without such re-entrant calls. It also assumes a hook's failure depends only on the hook and the payload: `raises` is one fixed oracle for a whole `Drive`, so a stateful hook (one callable used as both exit and entry hook of a self-transition that raises only on its second call, say) is not represented.
- Exception message strings, and the `_message` field of `FSMException`. Only the raise site is kept.
- Object identity: Python compares State and Transition objects by identity, and the model compares them as values. Two staged transitions with equal fields can never both be indexed under one source, because they share a (source, destination) pair.
- Mutation: the engine is an immutable value. Each execution returns the engine it leaves behind, instead of assigning `self._state`. Thread safety does not arise.
- Dynamic typing: names are strings, and the initial name may also be `None`. Other falsy or non-string values that Python would accept are not modelled.
- `Execution.Drive`: it does not record the concatenated trace of the whole call sequence. Its contract is about the resulting state only.
- `setup.py`: packaging and file I/O.
