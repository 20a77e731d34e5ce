/**
 * The typed layer: a finite-state machine over the values of an enumeration.
 * It caches the ordered list of states, keeps a current state, and holds a
 * table of registered transitions, each with a guard that decides at the
 * moment of the transition whether it may proceed.
 */
module FiniteStateMachines {
  import opened Wrappers
  import opened Enumerations
  import opened TransitionKeys

  /**
   * A guard is a pure predicate over the environment the caller's delegate
   * would consult; the environment is passed to each transition.
   */
  type Guard<!E> = E -> bool

  /** The guard a registration stores: the caller's, or one that always allows. */
  function GuardOrDefault<E(!new)>(guard: Option<Guard<E>>): (g: Guard<E>)
    ensures forall e :: g(e) == (guard.None? || guard.value(e))
  {
    match guard
    case None => (e: E) => true
    case Some(f) => f
  }

  class FiniteStateMachine<T(==), E(!new)> {
    /** The current state. */
    var current: T
    /** The cached list of all states, in the order of their underlying values. */
    var states: seq<T>
    /** The registered transitions, keyed by (from, to). */
    var transitions: map<(T, T), Guard<E>>
    /** The name of each state (its ToString). */
    const name: T -> string

    /**
     * The machine's invariant: a non-empty list of distinct states with
     * distinct, arrow-free names; the current state is one of them; every
     * registered transition joins two different listed states.
     */
    ghost predicate Valid()
      reads this
    {
      |states| > 0 && Distinct(states) && ValidNames(states, name)
      && current in states
      && forall key :: key in transitions ==> key.0 != key.1 && key.0 in states && key.1 in states
    }

    /** The string keys "From->To" under which the source stores the registered transitions. */
    ghost function StoredKeys(): set<string>
      reads this
    {
      set key | key in transitions :: JoinKey(name(key.0), name(key.1))
    }

    /** AddTransition(from, to) would succeed in the present state. */
    ghost predicate CanAdd(from: T, to: T)
      reads this
    {
      from != to && from in states && to in states && (from, to) !in transitions
    }

    /**
     * Caches every value of the enumeration, in value order, and starts in `initial`
     * when one is given, otherwise in the first state.
     */
    constructor (values: seq<T>, name: T -> string, initial: Option<T>)
      requires |values| > 0 && Distinct(values) && ValidNames(values, name)
      requires initial.Some? ==> initial.value in values
      ensures Valid()
      ensures states == values && this.name == name && transitions == map[]
      ensures current == if initial.Some? then initial.value else values[0]
    {
      this.name := name;
      current := values[0];
      states := [];
      transitions := map[];
      new;
      var i := 0;
      while i < |values|
        invariant 0 <= i <= |values|
        invariant states == values[..i]
        invariant transitions == map[]
      {
        states := states + [values[i]];
        i := i + 1;
      }
      current := states[0];
      if initial.Some? {
        current := initial.value;
      }
    }

    /** The current state, always one of the listed states. */
    function CurrentState(): (s: T)
      reads this
      requires Valid()
      ensures s in states
    {
      current
    }

    /**
     * Registers the transition (from, to) with `guard`, or with an always-true
     * guard when none is given.  Rejects a self transition, a state that is
     * not listed, and a pair that is already registered (its guard is kept).
     */
    method AddTransition(from: T, to: T, guard: Option<Guard<E>>) returns (added: bool)
      requires Valid()
      modifies this`transitions
      ensures Valid()
      ensures added <==> old(CanAdd(from, to))
      ensures added <==> from != to && from in states && to in states
                         && JoinKey(name(from), name(to)) !in old(StoredKeys())
      ensures transitions == if added then old(transitions)[(from, to) := GuardOrDefault(guard)]
                             else old(transitions)
      ensures current == old(current) && states == old(states)
    {
      if from == to {
        return false;
      }
      if from !in states || to !in states {
        return false;
      }
      if (from, to) in transitions {
        return false;
      }
      forall key | key in transitions
        ensures JoinKey(name(key.0), name(key.1)) != JoinKey(name(from), name(to))
      {
        StateKeyInjective(states, name, key.0, key.1, from, to);
      }
      transitions := transitions[(from, to) := GuardOrDefault(guard)];
      return true;
    }

    /**
     * Registers a transition given as a textual key "From->To", repairing a
     * key with stray symbols first; a key that does not name two states is
     * rejected without touching the table.
     */
    method AddTransitionByKey(key: string, guard: Option<Guard<E>>) returns (added: bool)
      requires Valid()
      modifies this`transitions
      ensures Valid()
      ensures match ParseTransitionStates(states, name, key)
        case None => !added && transitions == old(transitions)
        case Some((from, to)) =>
          (added <==> old(CanAdd(from, to)))
          && transitions == if added then old(transitions)[(from, to) := GuardOrDefault(guard)]
                            else old(transitions)
      ensures current == old(current) && states == old(states)
    {
      match ParseTransitionStates(states, name, key)
      case None =>
        added := false;
      case Some((from, to)) =>
        added := AddTransition(from, to, guard);
    }

    /**
     * Moves to `to` when (current, to) is registered and its guard allows it
     * in `env`; otherwise stays put.  The table never changes.
     */
    method Transition(to: T, env: E) returns (moved: bool)
      requires Valid()
      modifies this`current
      ensures Valid()
      ensures moved <==> (old(current), to) in transitions && transitions[(old(current), to)](env)
      ensures current == if moved then to else old(current)
      ensures transitions == old(transitions) && states == old(states)
    {
      var key := (current, to);
      if key in transitions && transitions[key](env) {
        current := to;
        moved := true;
      } else {
        moved := false;
      }
    }

    /**
     * Moves to the state named `target`; a name that is not a state's is
     * rejected and the current state is kept.
     */
    method TransitionByName(target: string, env: E) returns (moved: bool)
      requires Valid()
      modifies this`current
      ensures Valid()
      ensures match ParseState(states, name, target)
        case None => !moved && current == old(current)
        case Some(to) =>
          (moved <==> (old(current), to) in transitions && transitions[(old(current), to)](env))
          && current == if moved then to else old(current)
      ensures transitions == old(transitions) && states == old(states)
    {
      match ParseState(states, name, target)
      case None =>
        moved := false;
      case Some(to) =>
        moved := Transition(to, env);
    }
  }

  /**
   * Registering the same pair twice: the second call is refused, the first
   * call's guard (or the one already there) stays, and the table grows by at
   * most one entry.
   */
  method AddTransitionTwice<T(==), E(!new)>(m: FiniteStateMachine<T, E>, from: T, to: T,
                                     first: Option<Guard<E>>, second: Option<Guard<E>>)
    returns (addedFirst: bool, addedSecond: bool)
    requires m.Valid()
    modifies m`transitions
    ensures m.Valid()
    ensures !addedSecond
    ensures addedFirst <==> old(m.CanAdd(from, to))
    ensures |m.transitions| == |old(m.transitions)| + (if addedFirst then 1 else 0)
    ensures m.transitions == if addedFirst then old(m.transitions)[(from, to) := GuardOrDefault(first)]
                             else old(m.transitions)
    ensures m.current == old(m.current) && m.states == old(m.states)
  {
    addedFirst := m.AddTransition(from, to, first);
    addedSecond := m.AddTransition(from, to, second);
  }

  /**
   * A transition registered from the current state without a guard can be
   * taken at once.
   */
  method AddThenTransition<T(==), E(!new)>(m: FiniteStateMachine<T, E>, to: T, env: E)
    returns (added: bool, moved: bool)
    requires m.Valid() && m.CanAdd(m.current, to)
    modifies m`transitions, m`current
    ensures m.Valid()
    ensures added && moved && m.current == to
    ensures m.transitions == old(m.transitions)[(old(m.current), to) := GuardOrDefault(None)]
    ensures m.states == old(m.states)
  {
    added := m.AddTransition(m.current, to, None);
    moved := m.Transition(to, env);
  }
}
