/**
  A declarative account of when construction succeeds and which check raises
  first, stated over the input lists rather than over the lookup structure,
  and proved to agree with the fold in `Construction`.
 */
module ConstructionSpec {
  import opened Results
  import opened Model
  import opened Construction

  /** No two states share a name. */
  ghost predicate DistinctNames<H>(states: seq<State<H>>) {
    forall i, j :: 0 <= i < j < |states| ==> states[i].name != states[j].name
  }

  /** Every transition starts and ends at one of `names`. */
  ghost predicate EndpointsRegistered<H>(names: set<string>, transitions: seq<Transition<H>>) {
    forall t :: t in transitions ==> t.source in names && t.destination in names
  }

  /** No two transitions join the same ordered (source, destination) pair. */
  ghost predicate DistinctEdges<H>(ts: seq<Transition<H>>) {
    forall i, j :: 0 <= i < j < |ts| ==> !(ts[i].source == ts[j].source && ts[i].destination == ts[j].destination)
  }

  /** No two transitions leaving the same state share a name. */
  ghost predicate DistinctNamesPerSource<H>(ts: seq<Transition<H>>) {
    forall i, j :: 0 <= i < j < |ts| && ts[i].source == ts[j].source ==> ts[i].name != ts[j].name
  }

  /** The initial-state name is set, non-empty and one of `names`. */
  ghost predicate InitialOk(initial: Option<string>, names: set<string>) {
    initial.Some? && initial.value != "" && initial.value in names
  }

  /** All five structural conditions the engine demands of its inputs. */
  ghost predicate Acceptable<H>(initial: Option<string>, states: seq<State<H>>, ts: seq<Transition<H>>) {
    && DistinctNames(states)
    && EndpointsRegistered(Names(states), ts)
    && DistinctEdges(ts)
    && DistinctNamesPerSource(ts)
    && InitialOk(initial, Names(states))
  }

  /**
    The check that rejects transition `t` when the states `names` are
    registered and the transitions `prior` were accepted before it, if any.
   */
  ghost function Fault<H>(names: set<string>, prior: seq<Transition<H>>, t: Transition<H>): Option<Site> {
    if t.source !in names then Some(InvalidSource)
    else if t.destination !in names then Some(InvalidDestination)
    else if HasEdge(prior, t.source, t.destination) then Some(DuplicateEdge)
    else if HasName(prior, t.source, t.name) then Some(DuplicateTransitionName)
    else None
  }

  /** The fault of the first transition of `rest` that has one, scanning in list order. */
  ghost function FirstFault<H>(names: set<string>, prior: seq<Transition<H>>, rest: seq<Transition<H>>): Option<Site>
    decreases |rest|
  {
    if |rest| == 0 then None
    else
      match Fault(names, prior, rest[0])
      case Some(site) => Some(site)
      case None => FirstFault(names, prior + [rest[0]], rest[1..])
  }

  /** Some transition of `prior` leads from `s` to `d`. */
  ghost predicate HasEdge<H>(prior: seq<Transition<H>>, s: string, d: string) {
    exists u :: u in prior && u.source == s && u.destination == d
  }

  /** Some transition of `prior` leaving `s` is named `n`. */
  ghost predicate HasName<H>(prior: seq<Transition<H>>, s: string, n: string) {
    exists u :: u in prior && u.source == s && u.name == n
  }

  /** Transition `u` is indexed under its source, by its name and by its destination. */
  ghost predicate Placed<H>(table: Table<H>, u: Transition<H>) {
    && u.source in table
    && u.name in table[u.source].transitions && table[u.source].transitions[u.name] == u
    && u.destination in table[u.source].destinations && table[u.source].destinations[u.destination] == u
  }

  /** The table's transition maps hold exactly the transitions of `prior`. */
  ghost predicate Indexes<H>(table: Table<H>, prior: seq<Transition<H>>) {
    && (forall u :: u in prior ==> Placed(table, u))
    && (forall s, n :: s in table && n in table[s].transitions ==> HasName(prior, s, n))
    && (forall s, d :: s in table && d in table[s].destinations ==> HasEdge(prior, s, d))
  }

  lemma DistinctNamesCons<H>(states: seq<State<H>>)
    requires |states| > 0
    ensures DistinctNames(states) <==> DistinctNames(states[1..]) && states[0].name !in Names(states[1..])
  {
    var rest := states[1..];
    if DistinctNames(states) {
      forall i, j | 0 <= i < j < |rest| ensures rest[i].name != rest[j].name {
        assert rest[i] == states[i + 1] && rest[j] == states[j + 1];
      }
      forall s | s in rest ensures s.name != states[0].name {
        var k :| 0 <= k < |rest| && rest[k] == s;
        assert states[k + 1] == s;
      }
    }
    if DistinctNames(rest) && states[0].name !in Names(rest) {
      forall i, j | 0 <= i < j < |states| ensures states[i].name != states[j].name {
        assert states[j] == rest[j - 1];
        if i > 0 {
          assert states[i] == rest[i - 1];
        }
      }
    }
  }

  /** Registering states succeeds exactly when their names are distinct and new. */
  lemma {:induction false} AddStatesAccepts<H>(table: Table<H>, states: seq<State<H>>)
    ensures AddStates(table, states).Success? <==> DistinctNames(states) && Names(states) !! table.Keys
    decreases |states|
  {
    if |states| > 0 {
      var rest := states[1..];
      assert states == [states[0]] + rest;
      assert Names(states) == {states[0].name} + Names(rest);
      DistinctNamesCons(states);
      match AddState(table, states[0])
      case Failure(_) =>
      case Success(next) => AddStatesAccepts(next, rest);
    }
  }

  /** Adding a transition that passes every check keeps the index exact. */
  lemma IndexesGrow<H>(table: Table<H>, prior: seq<Transition<H>>, t: Transition<H>)
    requires Indexes(table, prior)
    requires t.source in table && t.destination in table
    requires t.destination !in table[t.source].destinations
    requires t.name !in table[t.source].transitions
    ensures var e := table[t.source];
      Indexes(table[t.source := e.(transitions := e.transitions[t.name := t],
                                   destinations := e.destinations[t.destination := t])], prior + [t])
  {
    var e := table[t.source];
    var next := table[t.source := e.(transitions := e.transitions[t.name := t],
                                     destinations := e.destinations[t.destination := t])];
    var all := prior + [t];
    forall u | u in all ensures Placed(next, u) {
      if u != t {
        assert u in prior && Placed(table, u);
      }
    }
    forall s, n | s in next && n in next[s].transitions ensures HasName(all, s, n) {
      if s == t.source && n == t.name {
        assert t in all;
      } else {
        assert HasName(prior, s, n);
        var u :| u in prior && u.source == s && u.name == n;
        assert u in all;
      }
    }
    forall s, d | s in next && d in next[s].destinations ensures HasEdge(all, s, d) {
      if s == t.source && d == t.destination {
        assert t in all;
      } else {
        assert HasEdge(prior, s, d);
        var u :| u in prior && u.source == s && u.destination == d;
        assert u in all;
      }
    }
  }

  /** One step of the transition fold raises exactly the fault the list-level account predicts. */
  lemma AddTransitionMatchesFault<H>(table: Table<H>, prior: seq<Transition<H>>, t: Transition<H>)
    requires Indexes(table, prior)
    ensures AddTransition(table, t).Failure? <==> Fault(table.Keys, prior, t).Some?
    ensures AddTransition(table, t).Failure? ==> AddTransition(table, t).error == FsmException(Fault(table.Keys, prior, t).value)
    ensures AddTransition(table, t).Success? ==> Indexes(AddTransition(table, t).value, prior + [t])
  {
    if t.source in table && t.destination in table {
      var e := table[t.source];
      assert HasEdge(prior, t.source, t.destination) <==> t.destination in e.destinations by {
        if HasEdge(prior, t.source, t.destination) {
          var u :| u in prior && u.source == t.source && u.destination == t.destination;
          assert Placed(table, u);
        }
      }
      assert HasName(prior, t.source, t.name) <==> t.name in e.transitions by {
        if HasName(prior, t.source, t.name) {
          var u :| u in prior && u.source == t.source && u.name == t.name;
          assert Placed(table, u);
        }
      }
      if t.destination !in e.destinations && t.name !in e.transitions {
        IndexesGrow(table, prior, t);
      }
    }
  }

  /** The whole transition fold raises exactly the first fault of the list, and otherwise indexes all of it. */
  lemma {:induction false} AddTransitionsMatchesFirstFault<H>(table: Table<H>, prior: seq<Transition<H>>, rest: seq<Transition<H>>)
    requires Indexes(table, prior)
    ensures AddTransitions(table, rest).Success? <==> FirstFault(table.Keys, prior, rest).None?
    ensures FirstFault(table.Keys, prior, rest).Some? ==>
              AddTransitions(table, rest) == Failure(FsmException(FirstFault(table.Keys, prior, rest).value))
    ensures AddTransitions(table, rest).Success? ==> Indexes(AddTransitions(table, rest).value, prior + rest)
    decreases |rest|
  {
    if |rest| == 0 {
      assert prior + rest == prior;
    } else {
      AddTransitionMatchesFault(table, prior, rest[0]);
      match AddTransition(table, rest[0])
      case Failure(_) =>
      case Success(next) =>
        AddTransitionsMatchesFirstFault(next, prior + [rest[0]], rest[1..]);
        assert prior + [rest[0]] + rest[1..] == prior + rest;
    }
  }

  /** Moving the head of `rest` onto `prior` shifts every position by one. */
  lemma ShiftPrefix<H>(prior: seq<Transition<H>>, rest: seq<Transition<H>>, k: nat)
    requires k + 1 < |rest|
    ensures (prior + [rest[0]]) + rest[1..][..k] == prior + rest[..k + 1]
    ensures rest[1..][k] == rest[k + 1]
  {
    assert rest[..k + 1] == [rest[0]] + rest[1..][..k];
  }

  /** `FirstFault` finds nothing exactly when no transition of the list has a fault. */
  lemma {:induction false} FirstFaultNoneIff<H>(names: set<string>, prior: seq<Transition<H>>, rest: seq<Transition<H>>)
    ensures FirstFault(names, prior, rest).None? <==>
              forall k :: 0 <= k < |rest| ==> Fault(names, prior + rest[..k], rest[k]).None?
    decreases |rest|
  {
    if |rest| > 0 {
      assert prior + rest[..0] == prior;
      if Fault(names, prior, rest[0]).None? {
        var prior' := prior + [rest[0]];
        var rest' := rest[1..];
        FirstFaultNoneIff(names, prior', rest');
        if FirstFault(names, prior', rest').None? {
          forall k | 0 <= k < |rest| ensures Fault(names, prior + rest[..k], rest[k]).None? {
            if k > 0 {
              ShiftPrefix(prior, rest, k - 1);
              assert Fault(names, prior' + rest'[..k - 1], rest'[k - 1]).None?;
            }
          }
        } else {
          var k' :| 0 <= k' < |rest'| && Fault(names, prior' + rest'[..k'], rest'[k']).Some?;
          ShiftPrefix(prior, rest, k');
          assert Fault(names, prior + rest[..k' + 1], rest[k' + 1]).Some?;
        }
      }
    }
  }

  /** When `FirstFault` reports a fault, it is the fault of a transition all of whose predecessors have none. */
  lemma {:induction false} FirstFaultIsEarliest<H>(names: set<string>, prior: seq<Transition<H>>, rest: seq<Transition<H>>)
    ensures FirstFault(names, prior, rest).Some? ==>
              exists k :: 0 <= k < |rest|
                && Fault(names, prior + rest[..k], rest[k]) == FirstFault(names, prior, rest)
                && forall j :: 0 <= j < k ==> Fault(names, prior + rest[..j], rest[j]).None?
    decreases |rest|
  {
    if |rest| > 0 {
      assert prior + rest[..0] == prior;
      if Fault(names, prior, rest[0]).None? && FirstFault(names, prior, rest).Some? {
        var prior' := prior + [rest[0]];
        var rest' := rest[1..];
        FirstFaultIsEarliest(names, prior', rest');
        var k' :| 0 <= k' < |rest'|
          && Fault(names, prior' + rest'[..k'], rest'[k']) == FirstFault(names, prior', rest')
          && forall j :: 0 <= j < k' ==> Fault(names, prior' + rest'[..j], rest'[j]).None?;
        ShiftPrefix(prior, rest, k');
        forall j | 0 <= j < k' + 1 ensures Fault(names, prior + rest[..j], rest[j]).None? {
          if j > 0 {
            ShiftPrefix(prior, rest, j - 1);
            assert Fault(names, prior' + rest'[..j - 1], rest'[j - 1]).None?;
          }
        }
      }
    }
  }

  /** A transition list is fault-free exactly when the three pairwise conditions hold. */
  lemma FaultFreeIffPairwise<H>(names: set<string>, ts: seq<Transition<H>>)
    ensures (forall k :: 0 <= k < |ts| ==> Fault(names, ts[..k], ts[k]).None?) <==>
              EndpointsRegistered(names, ts) && DistinctEdges(ts) && DistinctNamesPerSource(ts)
  {
    if forall k :: 0 <= k < |ts| ==> Fault(names, ts[..k], ts[k]).None? {
      forall t | t in ts ensures t.source in names && t.destination in names {
        var k :| 0 <= k < |ts| && ts[k] == t;
        assert Fault(names, ts[..k], ts[k]).None?;
      }
      forall i, j | 0 <= i < j < |ts|
        ensures !(ts[i].source == ts[j].source && ts[i].destination == ts[j].destination)
        ensures ts[i].source == ts[j].source ==> ts[i].name != ts[j].name
      {
        assert Fault(names, ts[..j], ts[j]).None?;
        assert ts[..j][i] == ts[i];
        assert ts[i] in ts[..j];
      }
    }
    if EndpointsRegistered(names, ts) && DistinctEdges(ts) && DistinctNamesPerSource(ts) {
      forall k | 0 <= k < |ts| ensures Fault(names, ts[..k], ts[k]).None? {
        assert ts[k] in ts;
        forall u | u in ts[..k] ensures u.source == ts[k].source ==> u.destination != ts[k].destination && u.name != ts[k].name {
          var i :| 0 <= i < k && ts[..k][i] == u;
          assert ts[i] == u;
        }
      }
    }
  }

  /** The table the state fold builds from nothing indexes no transitions. */
  lemma RegisteredStatesIndexNothing<H>(states: seq<State<H>>)
    requires AddStates(map[], states).Success?
    ensures Indexes(AddStates(map[], states).value, [])
  {
  }

  /** Construction is the three phases in order, each raising before the next runs. */
  lemma CreatePhases<H>(initial: Option<string>, states: seq<State<H>>, ts: seq<Transition<H>>)
    ensures AddStates(map[], states).Failure? ==> Create(initial, states, ts) == Failure(AddStates(map[], states).error)
    ensures AddStates(map[], states).Success? ==>
              var registered := AddStates(map[], states).value;
              && registered.Keys == Names(states)
              && Indexes(registered, [])
              && (AddTransitions(registered, ts).Failure? ==>
                    Create(initial, states, ts) == Failure(AddTransitions(registered, ts).error))
              && (AddTransitions(registered, ts).Success? ==>
                    && AddTransitions(registered, ts).value.Keys == Names(states)
                    && Create(initial, states, ts) == SetInitialState(AddTransitions(registered, ts).value, initial))
  {
    if AddStates(map[], states).Success? {
      RegisteredStatesIndexNothing(states);
    }
  }

  /** The transition fold over the registered states succeeds exactly on a fault-free list. */
  lemma TransitionPhaseAccepts<H>(registered: Table<H>, ts: seq<Transition<H>>)
    requires Indexes(registered, [])
    ensures AddTransitions(registered, ts).Success? <==>
              EndpointsRegistered(registered.Keys, ts) && DistinctEdges(ts) && DistinctNamesPerSource(ts)
  {
    AddTransitionsMatchesFirstFault(registered, [], ts);
    FirstFaultNoneIff(registered.Keys, [], ts);
    forall k | 0 <= k < |ts| ensures [] + ts[..k] == ts[..k] { }
    FaultFreeIffPairwise(registered.Keys, ts);
  }

  /**
    Construction succeeds exactly when the state names are distinct, every
    transition joins registered states, no ordered pair carries two
    transitions, no source carries two transitions of one name, and the
    initial name is set, non-empty and registered; the engine then starts
    in the initial state.
   */
  lemma CreateAccepts<H>(initial: Option<string>, states: seq<State<H>>, ts: seq<Transition<H>>)
    ensures Create(initial, states, ts).Success? <==> Acceptable(initial, states, ts)
    ensures Create(initial, states, ts).Success? ==> Create(initial, states, ts).value.current == initial.value
  {
    AddStatesAccepts(map[], states);
    CreatePhases(initial, states, ts);
    if AddStates(map[], states).Success? {
      TransitionPhaseAccepts(AddStates(map[], states).value, ts);
    }
  }

  /**
    Which check raises: a duplicate state name before anything about
    transitions, then the first transition fault in list order, and the
    initial-state check only when everything before it passed.
   */
  lemma CreateRaisesFirstFault<H>(initial: Option<string>, states: seq<State<H>>, ts: seq<Transition<H>>)
    ensures !DistinctNames(states) ==> Create(initial, states, ts) == Failure(FsmException(DuplicateState))
    ensures DistinctNames(states) && FirstFault(Names(states), [], ts).Some? ==>
              Create(initial, states, ts) == Failure(FsmException(FirstFault(Names(states), [], ts).value))
    ensures DistinctNames(states) && FirstFault(Names(states), [], ts).None? && !InitialOk(initial, Names(states)) ==>
              Create(initial, states, ts) == Failure(FsmException(InvalidInitialState))
  {
    AddStatesAccepts(map[], states);
    CreatePhases(initial, states, ts);
    if AddStates(map[], states).Success? {
      AddTransitionsMatchesFirstFault(AddStates(map[], states).value, [], ts);
    }
  }

  /**
    A built engine indexes exactly the given transitions: each one under its
    source by name and by destination, and nothing else; and every entry
    holds one of the given states.
   */
  lemma CreateIndexesExactly<H>(initial: Option<string>, states: seq<State<H>>, ts: seq<Transition<H>>)
    requires Create(initial, states, ts).Success?
    ensures var table := Create(initial, states, ts).value.table;
      && (forall t :: t in ts ==>
            && t.source in table
            && t.name in table[t.source].transitions && table[t.source].transitions[t.name] == t
            && t.destination in table[t.source].destinations && table[t.source].destinations[t.destination] == t)
      && (forall s, n :: s in table && n in table[s].transitions ==> table[s].transitions[n] in ts)
      && (forall s :: s in table ==> table[s].state in states)
      && Indexes(table, ts)
  {
    var registered := AddStates(map[], states).value;
    RegisteredStatesIndexNothing(states);
    AddTransitionsMatchesFirstFault(registered, [], ts);
    var table := Create(initial, states, ts).value.table;
    assert [] + ts == ts;
    forall s, n | s in table && n in table[s].transitions ensures table[s].transitions[n] in ts {
      var u :| u in ts && u.source == s && u.name == n;
    }
  }

  /** The states a built engine recognises as registered are exactly the given ones. */
  lemma RegisteredAreTheGivenStates<H>(initial: Option<string>, states: seq<State<H>>, ts: seq<Transition<H>>, name: string)
    requires Create(initial, states, ts).Success?
    ensures IsValidState(Create(initial, states, ts).value.table, name) <==> exists s :: s in states && s.name == name
  {
  }

  /**
    A second transition between an ordered pair that already has one is
    rejected whatever the two names are, at the edge check, which runs
    before the name check.
   */
  lemma SecondEdgeRaisesWhateverName<H>(initial: Option<string>, states: seq<State<H>>,
                                        a: string, b: string, n1: string, n2: string, h1: Option<H>, h2: Option<H>)
    requires DistinctNames(states) && a in Names(states) && b in Names(states)
    ensures Create(initial, states, [Transition(n1, a, b, h1), Transition(n2, a, b, h2)]) == Failure(FsmException(DuplicateEdge))
  {
    var ts := [Transition(n1, a, b, h1), Transition(n2, a, b, h2)];
    assert Fault(Names(states), [], ts[0]).None?;
    assert HasEdge([ts[0]], a, b) by { assert ts[0] in [ts[0]]; }
    assert FirstFault(Names(states), [], ts) == Some(DuplicateEdge) by {
      assert ts[1..] == [ts[1]];
      assert [] + [ts[0]] == [ts[0]];
    }
    CreateRaisesFirstFault(initial, states, ts);
  }

  /** Two transitions of one name leaving one state are rejected, even towards different destinations. */
  lemma RepeatedNameUnderOneSourceRaises<H>(initial: Option<string>, states: seq<State<H>>,
                                            a: string, b: string, c: string, n: string, h1: Option<H>, h2: Option<H>)
    requires DistinctNames(states) && a in Names(states) && b in Names(states) && c in Names(states) && b != c
    ensures Create(initial, states, [Transition(n, a, b, h1), Transition(n, a, c, h2)]) == Failure(FsmException(DuplicateTransitionName))
  {
    var ts := [Transition(n, a, b, h1), Transition(n, a, c, h2)];
    assert Fault(Names(states), [], ts[0]).None?;
    assert HasName([ts[0]], a, n) by { assert ts[0] in [ts[0]]; }
    assert FirstFault(Names(states), [], ts) == Some(DuplicateTransitionName) by {
      assert ts[1..] == [ts[1]];
      assert [] + [ts[0]] == [ts[0]];
    }
    CreateRaisesFirstFault(initial, states, ts);
  }

  /** One transition name may label transitions leaving two different states. */
  lemma SameNameUnderTwoSourcesAccepted<H>(initial: Option<string>, states: seq<State<H>>,
                                           a: string, b: string, c: string, d: string, n: string, h1: Option<H>, h2: Option<H>)
    requires DistinctNames(states) && InitialOk(initial, Names(states))
    requires a in Names(states) && b in Names(states) && c in Names(states) && d in Names(states) && a != c
    ensures Create(initial, states, [Transition(n, a, b, h1), Transition(n, c, d, h2)]).Success?
  {
    var ts := [Transition(n, a, b, h1), Transition(n, c, d, h2)];
    assert EndpointsRegistered(Names(states), ts);
    assert DistinctEdges(ts) && DistinctNamesPerSource(ts) by {
      assert ts[0].source != ts[1].source;
    }
    CreateAccepts(initial, states, ts);
  }
}
