/**
  The scenarios of the repository's test suite (tests/test_base.py), restated
  as lemmas about the model. Hooks are named by strings, payloads are
  keyword-argument maps, and no hook raises.
 */
module Scenarios {
  import opened Results
  import opened Model
  import opened Execution
  import opened Builder
  import Construction
  import ConstructionSpec

  type Kwargs = map<string, int>

  /** Mock hooks never raise. */
  const NeverRaises: (string, Kwargs) -> bool := (h: string, p: Kwargs) => false

  const TestArg: Kwargs := map["test_arg" := 111]
  const NoArgs: Kwargs := map[]

  const S1 := State("state1", Some("before_exit1"), Some("after_entry1"))
  const S2 := State("state2", Some("before_exit2"), Some("after_entry2"))
  const S3 := State("state3", Some("before_exit3"), Some("after_entry3"))
  const T11 := Transition("transition11", "state1", "state1", Some("on_transition11"))
  const T12 := Transition("transition12", "state1", "state2", Some("on_transition12"))
  const T23 := Transition("transition23", "state2", "state3", Some("on_transition23"))
  const T31 := Transition("transition31", "state3", "state1", Some("on_transition31"))

  /** Three named states, the edges 1->1, 1->2, 2->3, 3->1, initial state1. */
  function NamedBuilder(): Staged<string> {
    var b := NewBuilder();
    var b := AddNamedState(b, S1.name, S1.beforeExit, S1.afterEntry).0;
    var b := AddNamedState(b, S2.name, S2.beforeExit, S2.afterEntry).0;
    var b := AddNamedState(b, S3.name, S3.beforeExit, S3.afterEntry).0;
    var b := AddNamedTransition(b, T11.name, T11.source, T11.destination, T11.onTransition).0;
    var b := AddNamedTransition(b, T12.name, T12.source, T12.destination, T12.onTransition).0;
    var b := AddNamedTransition(b, T23.name, T23.source, T23.destination, T23.onTransition).0;
    var b := AddNamedTransition(b, T31.name, T31.source, T31.destination, T31.onTransition).0;
    SetInitialState(b, "state1")
  }

  /** The engine the named builder should produce. */
  function NamedMachine(): Machine<string> {
    Machine(map["state1" := Entry(S1, map["transition11" := T11, "transition12" := T12], map["state1" := T11, "state2" := T12]),
                "state2" := Entry(S2, map["transition23" := T23], map["state3" := T23]),
                "state3" := Entry(S3, map["transition31" := T31], map["state1" := T31])],
            "state1")
  }

  lemma DistinctLiterals()
    ensures "state1" != "state2" && "state1" != "state3" && "state2" != "state3"
    ensures "transition11" != "transition12"
  {
    assert "state1"[5] != "state2"[5] && "state1"[5] != "state3"[5] && "state2"[5] != "state3"[5];
    assert "transition11"[11] != "transition12"[11];
  }

  // The lookup structure after each registration step of the named builder.
  const Registered1: Table<string> := map["state1" := Entry(S1, map[], map[])]
  const Registered2: Table<string> := Registered1["state2" := Entry(S2, map[], map[])]
  const Registered3: Table<string> := Registered2["state3" := Entry(S3, map[], map[])]
  const Linked1: Table<string> := Registered3["state1" := Entry(S1, map["transition11" := T11], map["state1" := T11])]
  const Linked2: Table<string> := Linked1["state1" := NamedMachine().table["state1"]]
  const Linked3: Table<string> := Linked2["state2" := NamedMachine().table["state2"]]
  const Linked4: Table<string> := Linked3["state3" := NamedMachine().table["state3"]]

  lemma RegisterStates()
    ensures Construction.AddStates(map[], [S1, S2, S3]) == Success(Registered3)
  {
    DistinctLiterals();
    assert Construction.AddStates(Registered2, [S3]) == Success(Registered3) by {
      assert [S3][1..] == [];
    }
    assert Construction.AddStates(Registered1, [S2, S3]) == Success(Registered3) by {
      assert [S2, S3][1..] == [S3];
    }
    assert [S1, S2, S3][1..] == [S2, S3];
  }

  lemma LinkFirstTwo()
    ensures Construction.AddTransition(Registered3, T11) == Success(Linked1)
    ensures Construction.AddTransition(Linked1, T12) == Success(Linked2)
  {
    DistinctLiterals();
  }

  lemma LinkLastTwo()
    ensures Construction.AddTransition(Linked2, T23) == Success(Linked3)
    ensures Construction.AddTransition(Linked3, T31) == Success(Linked4)
  {
    DistinctLiterals();
  }

  lemma LinkTransitions()
    ensures Construction.AddTransitions(Registered3, [T11, T12, T23, T31]) == Success(Linked4)
  {
    LinkFirstTwo();
    LinkLastTwo();
    assert Construction.AddTransitions(Linked3, [T31]) == Success(Linked4) by {
      assert [T31][1..] == [];
    }
    assert Construction.AddTransitions(Linked2, [T23, T31]) == Success(Linked4) by {
      assert [T23, T31][1..] == [T31];
    }
    assert Construction.AddTransitions(Linked1, [T12, T23, T31]) == Success(Linked4) by {
      assert [T12, T23, T31][1..] == [T23, T31];
    }
    assert [T11, T12, T23, T31][1..] == [T12, T23, T31];
  }

  lemma NamedBuilderStages()
    ensures NamedBuilder() == Staged([S1, S2, S3], [T11, T12, T23, T31], Some("state1"))
  {
  }

  lemma LinkedIsNamed()
    ensures Linked4 == NamedMachine().table
  {
    DistinctLiterals();
  }

  lemma CreateNamed()
    ensures Construction.Create(Some("state1"), [S1, S2, S3], [T11, T12, T23, T31]) == Success(Machine(Linked4, "state1"))
  {
    RegisterStates();
    LinkTransitions();
  }

  /** Building the named machine succeeds, with the lookup structure of the test, in state1. */
  lemma NamedMachineBuilds()
    ensures Build(NamedBuilder()) == Success(NamedMachine())
  {
    NamedBuilderStages();
    CreateNamed();
    LinkedIsNamed();
  }

  /** The named machine moved to another of its states. */
  function NamedMachineAt(current: string): Machine<string> {
    NamedMachine().(current := current)
  }

  lemma NamedMachineValid(current: string)
    requires current in {"state1", "state2", "state3"}
    ensures NamedMachineAt(current).Valid()
  {
    NamedMachineBuilds();
  }

  lemma RunStep1()
    ensures NamedMachineAt("state1").Valid()
    ensures ExecuteTransitionTo(NamedMachineAt("state1"), "state1", TestArg, NeverRaises)
            == Effect([Event(Exit, "state1", "before_exit1", TestArg),
                          Event(Run, "transition11", "on_transition11", TestArg),
                          Event(Enter, "state1", "after_entry1", TestArg)],
                         NamedMachineAt("state1"), None)
  {
    NamedMachineValid("state1");
    DistinctLiterals();
    var m := NamedMachineAt("state1");
    assert T11 == m.table["state1"].transitions["transition11"];
    SelfTransitionStays(m, T11, TestArg, NeverRaises);
  }

  /** `execute_transition_to(state3)` from state1 raises: there is no direct edge, only a path through state2. */
  lemma RunStep2()
    ensures NamedMachineAt("state1").Valid()
    ensures ExecuteTransitionTo(NamedMachineAt("state1"), "state3", NoArgs, NeverRaises)
            == Effect([], NamedMachineAt("state1"), Some(FsmException(NoDirectTransition)))
  {
    NamedMachineValid("state1");
    DistinctLiterals();
  }

  /** `execute_transition_to(state2)` from state1 runs transition12's hooks and moves to state2. */
  lemma RunStep3()
    ensures NamedMachineAt("state1").Valid()
    ensures ExecuteTransitionTo(NamedMachineAt("state1"), "state2", NoArgs, NeverRaises)
            == Effect([Event(Exit, "state1", "before_exit1", NoArgs),
                          Event(Run, "transition12", "on_transition12", NoArgs),
                          Event(Enter, "state2", "after_entry2", NoArgs)],
                         NamedMachineAt("state2"), None)
  {
    NamedMachineValid("state1");
    DistinctLiterals();
    var m := NamedMachineAt("state1");
    assert m.table["state1"].destinations["state2"] == T12;
    assert ExecuteTransitionTo(m, "state2", NoArgs, NeverRaises) == Perform(m, S1, T12, S2, NoArgs, NeverRaises);
  }

  /** `execute_transition(transition31, test_arg=111)` from state2 raises and calls no hook: transition31 leaves state3. */
  lemma RunStep4()
    ensures NamedMachineAt("state2").Valid()
    ensures ExecuteTransition(NamedMachineAt("state2"), "transition31", TestArg, NeverRaises)
            == Effect([], NamedMachineAt("state2"), Some(FsmException(InvalidTransition)))
  {
    NamedMachineValid("state2");
    DistinctLiterals();
  }

  /** `execute_transition(transition23)` from state2 runs its hooks and moves to state3. */
  lemma RunStep5()
    ensures NamedMachineAt("state2").Valid()
    ensures ExecuteTransition(NamedMachineAt("state2"), "transition23", NoArgs, NeverRaises)
            == Effect([Event(Exit, "state2", "before_exit2", NoArgs),
                          Event(Run, "transition23", "on_transition23", NoArgs),
                          Event(Enter, "state3", "after_entry3", NoArgs)],
                         NamedMachineAt("state3"), None)
  {
    NamedMachineValid("state2");
    DistinctLiterals();
    var m := NamedMachineAt("state2");
    assert m.table["state2"].transitions["transition23"] == T23;
    assert ExecuteTransition(m, "transition23", NoArgs, NeverRaises) == Perform(m, S2, T23, S3, NoArgs, NeverRaises);
  }

  /** The calls of the named-machine test, in order. */
  const NamedRun: seq<Command<Kwargs>> :=
    [ToState("state1", TestArg), ToState("state3", NoArgs), ToState("state2", NoArgs),
     ByName("transition31", TestArg), ByName("transition23", NoArgs)]

  /** The `k`-th call of the named run, unfolded. */
  lemma DriveStep(k: nat, m: Machine<string>, next: Machine<string>)
    requires k < |NamedRun| && m.Valid() && Apply(m, NamedRun[k], NeverRaises).machine == next
    ensures next.Valid()
    ensures Drive(m, NamedRun[k..], NeverRaises) == Drive(next, NamedRun[k + 1..], NeverRaises)
  {
    assert NamedRun[k..][0] == NamedRun[k] && NamedRun[k..][1..] == NamedRun[k + 1..];
  }

  /** The calls of the named run, one at a time, as `Apply` sees them. */
  lemma ApplyStep1()
    ensures NamedMachineAt("state1").Valid()
    ensures Apply(NamedMachineAt("state1"), NamedRun[0], NeverRaises).machine == NamedMachineAt("state1")
  {
    RunStep1();
  }

  lemma ApplyStep2()
    ensures NamedMachineAt("state1").Valid()
    ensures Apply(NamedMachineAt("state1"), NamedRun[1], NeverRaises).machine == NamedMachineAt("state1")
  {
    RunStep2();
  }

  lemma ApplyStep3()
    ensures NamedMachineAt("state1").Valid()
    ensures Apply(NamedMachineAt("state1"), NamedRun[2], NeverRaises).machine == NamedMachineAt("state2")
  {
    RunStep3();
  }

  lemma ApplyStep4()
    ensures NamedMachineAt("state2").Valid()
    ensures Apply(NamedMachineAt("state2"), NamedRun[3], NeverRaises).machine == NamedMachineAt("state2")
  {
    RunStep4();
  }

  lemma ApplyStep5()
    ensures NamedMachineAt("state2").Valid()
    ensures Apply(NamedMachineAt("state2"), NamedRun[4], NeverRaises).machine == NamedMachineAt("state3")
  {
    RunStep5();
  }

  /** The whole named-machine run as one sequence of calls ends in state3. */
  lemma NamedMachineRun()
    ensures NamedMachineAt("state1").Valid()
    ensures Drive(NamedMachineAt("state1"), NamedRun, NeverRaises) == NamedMachineAt("state3")
  {
    ApplyStep1();
    ApplyStep2();
    ApplyStep3();
    ApplyStep4();
    ApplyStep5();
    DriveStep(0, NamedMachineAt("state1"), NamedMachineAt("state1"));
    DriveStep(1, NamedMachineAt("state1"), NamedMachineAt("state1"));
    DriveStep(2, NamedMachineAt("state1"), NamedMachineAt("state2"));
    DriveStep(3, NamedMachineAt("state2"), NamedMachineAt("state2"));
    DriveStep(4, NamedMachineAt("state2"), NamedMachineAt("state3"));
    assert NamedRun[0..] == NamedRun && NamedRun[5..] == [];
  }

  /** Two states with generated names, one transition, and no initial state: building raises at the initial-state check. */
  lemma BuildWithoutInitialRaises(s1: string, s2: string, n: string, x1: Option<string>, y1: Option<string>,
                                  x2: Option<string>, y2: Option<string>, h: Option<string>)
    requires s1 != s2
    ensures Build(Staged([State(s1, x1, y1), State(s2, x2, y2)], [Transition(n, s1, s2, h)], None))
            == Failure(FsmException(InvalidInitialState))
  {
    var states := [State(s1, x1, y1), State(s2, x2, y2)];
    var ts := [Transition(n, s1, s2, h)];
    assert ConstructionSpec.DistinctNames(states);
    assert Construction.Names(states) == {s1, s2};
    assert ConstructionSpec.FirstFault({s1, s2}, [], ts).None? by {
      assert ts[1..] == [];
    }
    ConstructionSpec.CreateRaisesFirstFault(None, states, ts);
  }

  /**
    A second transition from a state to itself raises at the edge check,
    whatever names the two transitions were given. In the repository's
    duplicate-name test both transitions named transition11 also join the
    same pair, so that test too raises at the edge check.
   */
  lemma SecondSelfEdgeRaises(s1: string, s2: string, n1: string, n2: string, n3: string,
                             x1: Option<string>, y1: Option<string>, x2: Option<string>, y2: Option<string>,
                             h1: Option<string>, h2: Option<string>)
    requires s1 != s2
    ensures Build(Staged([State(s1, x1, y1), State(s2, x2, y2)],
                          [Transition(n1, s1, s1, h1), Transition(n2, s1, s1, h1), Transition(n3, s1, s2, h2)],
                          Some(s1)))
            == Failure(FsmException(DuplicateEdge))
  {
    var states := [State(s1, x1, y1), State(s2, x2, y2)];
    var ts := [Transition(n1, s1, s1, h1), Transition(n2, s1, s1, h1), Transition(n3, s1, s2, h2)];
    assert ConstructionSpec.DistinctNames(states);
    assert Construction.Names(states) == {s1, s2};
    assert ConstructionSpec.HasEdge([ts[0]], s1, s1) by { assert ts[0] in [ts[0]]; }
    assert ConstructionSpec.FirstFault({s1, s2}, [], ts) == Some(DuplicateEdge) by {
      assert ts[1..][0] == ts[1];
      assert [] + [ts[0]] == [ts[0]];
    }
    ConstructionSpec.CreateRaisesFirstFault(Some(s1), states, ts);
  }

  /** A state name staged twice raises at the duplicate-state check, before any transition is looked at. */
  lemma DuplicateStateNameRaises(s2: string, n1: string, n2: string,
                                 x1: Option<string>, y1: Option<string>, x2: Option<string>, y2: Option<string>,
                                 h1: Option<string>, h2: Option<string>)
    ensures Build(Staged([State("state1", x1, y1), State("state1", x1, y1), State(s2, x2, y2)],
                          [Transition(n1, "state1", "state1", h1), Transition(n2, "state1", s2, h2)],
                          Some("state1")))
            == Failure(FsmException(DuplicateState))
  {
    var states := [State("state1", x1, y1), State("state1", x1, y1), State(s2, x2, y2)];
    assert states[0].name == states[1].name;
    ConstructionSpec.CreateRaisesFirstFault(Some("state1"), states,
                                            [Transition(n1, "state1", "state1", h1), Transition(n2, "state1", s2, h2)]);
  }
}
