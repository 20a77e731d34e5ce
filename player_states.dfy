/**
 * The sample enumeration PlayerStates { Init, Idle, Walk, Run } as a concrete
 * instance of the state machine.
 */
module PlayerStates {
  import opened Wrappers
  import opened Enumerations
  import opened TransitionKeys
  import opened FiniteStateMachines

  datatype PlayerState = Init | Idle | Walk | Run

  /** The values in value order, which for this enumeration is also declaration order. */
  const AllStates: seq<PlayerState> := [Init, Idle, Walk, Run]

  function Name(s: PlayerState): string
  {
    match s
    case Init => "Init"
    case Idle => "Idle"
    case Walk => "Walk"
    case Run => "Run"
  }

  /** Every state's name matches the identifier pattern. */
  lemma NameIsIdentifier(s: PlayerState)
    ensures IsIdentifier(Name(s))
  {
    match s
    case Init =>
    case Idle =>
    case Walk =>
    case Run =>
  }

  /** The enumeration meets what the machine's constructor asks of it. */
  lemma AllStatesWellFormed()
    ensures Distinct(AllStates) && ValidNames(AllStates, Name)
    ensures forall s: PlayerState :: s in AllStates
  {
    forall a: PlayerState, b: PlayerState | Name(a) == Name(b) ensures a == b {
      assert Name(a)[0] == Name(b)[0] && Name(a)[1] == Name(b)[1];
    }
    forall s: PlayerState ensures s in AllStates && ArrowFree(Name(s)) {
      NameIsIdentifier(s);
    }
  }

  /** The strict key "Idle->Walk" names Idle and Walk. */
  lemma ParseStrictKey()
    ensures ParseTransitionStates(AllStates, Name, "Idle->Walk") == Some((Idle, Walk))
  {
    var key := JoinKey(Name(Idle), Name(Walk));
    assert key == "Idle->Walk";
    AllStatesWellFormed();
    NameIsIdentifier(Idle);
    NameIsIdentifier(Walk);
    ParseJoinedKey(AllStates, Name, Idle, Walk);
  }

  /** A key with spaces around the arrow is repaired and names its two states. */
  lemma ParseSpacedKey(a: PlayerState, b: PlayerState)
    ensures ParseTransitionStates(AllStates, Name, Name(a) + " -> " + Name(b)) == Some((a, b))
  {
    AllStatesWellFormed();
    NameIsIdentifier(a);
    NameIsIdentifier(b);
    SpacedKeyIsRepaired(Name(a), Name(b));
    ParseTransitionStatesExact(AllStates, Name, Name(a) + " -> " + Name(b), a, b);
  }

  /** "Jump" is not the name of a state. */
  lemma JumpIsNotAState()
    ensures ParseState(AllStates, Name, "Jump").None?
  {
    forall s | s in AllStates ensures Name(s) != "Jump" {
      assert Name(s)[0] != 'J';
    }
  }

  /**
   * The typed steps of the walk-through, from a fresh machine in Init:
   * register Init->Idle and move there, fail to move to Run (nothing is
   * registered), register Idle->Walk with a guard that always blocks and fail
   * to take it.
   */
  method TypedSteps(m: FiniteStateMachine<PlayerState, ()>) returns (outcomes: seq<bool>)
    requires m.Valid() && m.states == AllStates && m.current == Init && m.transitions == map[]
    modifies m
    ensures m.Valid() && m.states == AllStates && m.current == Idle
    ensures m.transitions.Keys == {(Init, Idle), (Idle, Walk)}
    ensures outcomes == [true, true, false, true, false]
  {
    var addInitIdle := m.AddTransition(Init, Idle, None);
    var toIdle := m.Transition(Idle, ());
    var toRun := m.Transition(Run, ());
    var addIdleWalk := m.AddTransition(Idle, Walk, Some((e: ()) => false));
    var toWalk := m.Transition(Walk, ());
    outcomes := [addInitIdle, toIdle, toRun, addIdleWalk, toWalk];
  }

  /**
   * The textual steps of the walk-through, from Idle with Idle->Walk
   * registered and Walk->Run not: the key "Idle->Walk" is refused as a
   * duplicate, "Walk -> Run" is repaired and registered, and the name "Jump"
   * is refused.
   */
  method TextualSteps(m: FiniteStateMachine<PlayerState, ()>) returns (outcomes: seq<bool>)
    requires m.Valid() && m.states == AllStates && m.name == Name && m.current == Idle
    requires (Idle, Walk) in m.transitions && (Walk, Run) !in m.transitions
    modifies m
    ensures m.Valid() && m.current == Idle
    ensures outcomes == [false, true, false]
  {
    AllStatesWellFormed();
    NameIsIdentifier(Idle);
    NameIsIdentifier(Walk);
    ParseJoinedKey(AllStates, Name, Idle, Walk);
    var addedAgain := m.AddTransitionByKey(JoinKey(Name(Idle), Name(Walk)), None);
    ParseSpacedKey(Walk, Run);
    var addedWalkRun := m.AddTransitionByKey(Name(Walk) + " -> " + Name(Run), None);
    JumpIsNotAState();
    var movedToJump := m.TransitionByName("Jump", ());
    outcomes := [addedAgain, addedWalkRun, movedToJump];
  }

  /** The whole walk-through on a machine built with the default initial state. */
  method Scenario() returns (current: PlayerState, outcomes: seq<bool>)
    ensures current == Idle
    ensures outcomes == [true, true, false, true, false, false, true, false]
  {
    AllStatesWellFormed();
    var m := new FiniteStateMachine<PlayerState, ()>(AllStates, Name, None);
    var typed := TypedSteps(m);
    var textual := TextualSteps(m);
    current := m.CurrentState();
    outcomes := typed + textual;
  }
}
