# Finite-state machine over an enumeration — Dafny model

This project models `FiniteStateMachine<T>` from `FiniteStateMachine/FiniteStateMachine.cs`, a small generic state machine over the values of a C# enumeration, and proves properties of the model.

The machine has two layers.

- **Typed layer.** The class `FiniteStateMachines.FiniteStateMachine<T, E>` caches the ordered list of states. It keeps the current state and a table of registered transitions, each with a guard. `AddTransition(from, to, guard)` registers a pair only after three checks: the states differ, both are listed, and the pair is new. `Transition(to, env)` moves only when the pair (current, to) is registered and its guard allows the move. Each operation returns a boolean, and changes exactly one field or nothing.
- **Textual layer.** Module `TransitionKeys` holds the pure string functions behind the string overloads: matching a key against the pattern `^([A-Za-z]+[A-Za-z0-9]*)->([A-Za-z]+[A-Za-z0-9]*)`, repairing a key with stray symbols (`ParseGarbageKey`), validating (`ValidateKey`), splitting at the first `-` and the first `>`, and parsing both halves into states (`ParseTransitionStates`).

Modules:

- `Wrappers`: `Option`, the model of a `null` result.
- `Enumerations`: an enumeration as a sequence of values plus a naming function (`Enum.GetValues`, `ToString`). It also holds `Enum.Parse` as an exact name lookup.
- `TransitionKeys`: the textual layer.
- `FiniteStateMachines`: the class, plus two client methods for properties that span several calls.
- `PlayerStates`: the sample enumeration `PlayerStates { Init, Idle, Walk, Run }` from `FiniteStateMachine/Program.cs`, with a walk-through of the machine on it.

Modelling choices:

- **States.** A state type `T` comes with a non-empty, duplicate-free sequence of its values and a name function. `Enum.GetValues` lists the values sorted by the unsigned magnitude of their underlying values (so negative members come after the non-negative ones), not in declaration order, so the sequence is in value order. For `PlayerStates` the two orders agree. The names are distinct and contain no `-` or `>`, as the names of a C# enumeration always are. The constructor requires this (`ValidNames`), and the class invariant keeps it.
- **Transition table.** A `map<(T, T), Guard<E>>`. The source keys its dictionary by the string `name(from) + "->" + name(to)`. `TransitionKeys.JoinKeyInjective` shows that this string determines the pair of names whenever the names contain no `-` or `>`. `TransitionKeys.StateKeyInjective` adds distinct names, so the string determines the pair of states. The invariant carries both conditions, so keying by the pair loses nothing. `AddTransition` also states its duplicate check in the source's own terms: the string key is not among the stored keys (`StoredKeys`).
- **Guards.** A guard is a pure predicate `E -> bool` over an environment value that the caller passes to `Transition`. A missing guard (`null` in the source) becomes the always-true guard (`GuardOrDefault`).
- **Construction.** There is a single constructor. It fills the state list in a loop, in order, starts in the first state, and then switches to a supplied initial state if one is given. This departs from the source on purpose. There, the parameterized constructor chains `: base()` instead of `: this()`. The list and the dictionary are then never created and `StoreStates` never runs. On such a machine, `Transition(T)` fails with a null reference, and so does any `AddTransition` of two different states. The print methods fail the same way. Other calls never reach the missing fields and behave normally: `CurrentState`, `AddTransition(a, a)`, a string key that cannot be repaired, and `Transition(string)` with an unknown name. The model always populates the state list, and requires a supplied initial state to be one of the states.
- **Overloads.** C# overloads are renamed. The string overload `AddTransition(string)` is `AddTransitionByKey`, and `Transition(string)` is `TransitionByName`.
- **Garbage symbols.** `IsGarbage` tests membership in the source's list of 31 symbols by four ASCII ranges. `IsGarbageIsMembership` proves it equal to membership in the literal list.
- **Key repair.** The best-effort repair of malformed keys is modelled as the code has it, not replaced by a strict `Name->Name` parse.
- **Unanchored pattern.** The key pattern has no end anchor, so it is modelled as a prefix match. `MatchesKeyFormatIsPattern` ties the executable check to the pattern's definition. As a result, `"Idle->Walk!"` passes validation, but its TO part `"Walk!"` names no state, so the key is rejected.

## Model

| member | source | states |
|---|---|---|
| `Enumerations.ParseState` | FiniteStateMachine/FiniteStateMachine.cs:210-221 | Name lookup returns a listed value with exactly that name. It returns None exactly when no listed value has that name. |
| `Enumerations.ParseStateOfName` | FiniteStateMachine/FiniteStateMachine.cs:212-214 | With distinct names, parsing the name of a listed value gives that value back. |
| `TransitionKeys.MatchesKeyFormatIsPattern` | FiniteStateMachine/FiniteStateMachine.cs:235-238 | The executable key check holds iff some prefix of the key is identifier, `->`, identifier (the pattern, anchored at the start only). |
| `TransitionKeys.AlphanumericRun` | FiniteStateMachine/FiniteStateMachine.cs:235 | Returns the length of the longest `[A-Za-z0-9]` prefix: every character before it is alphanumeric and the one at it is not. |
| `TransitionKeys.IndexOfAny` | FiniteStateMachine/FiniteStateMachine.cs:270 | Returns -1 exactly when no character of the string is one being searched for. Otherwise returns the position of the first such character, with none before it. |
| `TransitionKeys.LastIndexOfAny` | FiniteStateMachine/FiniteStateMachine.cs:278 | Returns -1 exactly when no character of the string is one being searched for. Otherwise returns the position of the last such character, with none after it. |
| `TransitionKeys.IsGarbageIsMembership` | FiniteStateMachine/FiniteStateMachine.cs:267 | The garbage test is exactly membership in the source's list of garbage symbols. |
| `TransitionKeys.ParseGarbageKey` | FiniteStateMachine/FiniteStateMachine.cs:263-280 | Returns None iff the key has no garbage symbol. Otherwise returns the text before the first garbage symbol, then `->`, then the text after the last one. |
| `TransitionKeys.ValidateKey` | FiniteStateMachine/FiniteStateMachine.cs:231-257 | An accepted key matches the pattern and is either the key itself or its repair. A matching key is accepted unchanged. The key is refused iff neither it nor its repair matches. |
| `TransitionKeys.ValidateKeyIdempotent` | FiniteStateMachine/FiniteStateMachine.cs:231-257 | Validating an accepted key again accepts it unchanged. |
| `TransitionKeys.SplitKey` | FiniteStateMachine/FiniteStateMachine.cs:205-207 | FROM is the text before the first `-` and contains no `-`. TO is the text after the first `>`, or the whole key when there is no `>`. |
| `TransitionKeys.SplitKeyOfFormat` | FiniteStateMachine/FiniteStateMachine.cs:205-207 | For a key matching the pattern, FROM is an identifier, TO starts with a letter, and the key is FROM, `->`, TO. |
| `TransitionKeys.SplitJoinKey` | FiniteStateMachine/FiniteStateMachine.cs:77 | Splitting `from + "->" + to` gives back `(from, to)` when `from` has no `-` or `>`. |
| `TransitionKeys.JoinKeyInjective` | FiniteStateMachine/FiniteStateMachine.cs:77 | The source's string key `from + "->" + to` determines the pair, so a pair-keyed table is equivalent. |
| `TransitionKeys.StateKeyInjective` | FiniteStateMachine/FiniteStateMachine.cs:77-79 | With distinct, arrow-free names, two listed pairs of states share a string key iff they are the same pair. |
| `TransitionKeys.JoinKeyOfIdentifiersMatches` | FiniteStateMachine/FiniteStateMachine.cs:235 | A key built from two identifier names matches the pattern. |
| `TransitionKeys.RepairedKeySplits` | FiniteStateMachine/FiniteStateMachine.cs:276-279 | A repaired key splits back into the text before the first and after the last garbage symbol of the original. |
| `TransitionKeys.AlphanumericIsNotGarbage` | FiniteStateMachine/FiniteStateMachine.cs:267 | No `[A-Za-z0-9]` character is a garbage symbol. |
| `TransitionKeys.SpacedKeyIsRepaired` | FiniteStateMachine/FiniteStateMachine.cs:243-247 | `From -> To`, with spaces around the arrow, is repaired into the strict key `From->To` and accepted. |
| `TransitionKeys.ParseTransitionStates` | FiniteStateMachine/FiniteStateMachine.cs:198-224 | A parsed pair consists of listed states. The validated key is exactly `name(a) + "->" + name(b)`. |
| `TransitionKeys.ParseTransitionStatesExact` | FiniteStateMachine/FiniteStateMachine.cs:198-224 | With valid names, a key parses to (a, b) iff a and b are listed and validation turns the key into `name(a)->name(b)`. |
| `TransitionKeys.ParseJoinedKey` | FiniteStateMachine/FiniteStateMachine.cs:100-109 | Textual round trip: for identifier names, `name(a) + "->" + name(b)` parses to (a, b). So the textual overload registers exactly what `AddTransition(a, b)` would. |
| `FiniteStateMachines.GuardOrDefault` | FiniteStateMachine/FiniteStateMachine.cs:82-85 | The stored guard is the caller's, or always true when none was given. |
| `FiniteStateMachines.FiniteStateMachine.constructor` | FiniteStateMachine/FiniteStateMachine.cs:174-191 | The state list is every value in value order, with distinct, arrow-free names. The table is empty. The current state is the supplied initial state, or `states[0]`. The invariant holds. |
| `FiniteStateMachines.FiniteStateMachine.CurrentState` | FiniteStateMachine/FiniteStateMachine.cs:26 | The current state is always a listed state. |
| `FiniteStateMachines.FiniteStateMachine.AddTransition` | FiniteStateMachine/FiniteStateMachine.cs:54-93 | Succeeds iff from ≠ to, both are listed, and the pair is new, which is equivalent to the source's test that the string key `name(from)->name(to)` is not yet stored. On success only that key is added, with the given or always-true guard. Otherwise the table is unchanged, so an existing guard is never overwritten. Only the table may change, and the invariant is kept. |
| `FiniteStateMachines.FiniteStateMachine.AddTransitionByKey` | FiniteStateMachine/FiniteStateMachine.cs:100-109 | An unparseable key returns false with the table unchanged. A parsed key behaves exactly as `AddTransition` on the parsed pair. |
| `FiniteStateMachines.FiniteStateMachine.Transition` | FiniteStateMachine/FiniteStateMachine.cs:116-128 | Moves iff (current, to) is registered and its guard holds for the environment. The current state becomes `to` exactly then and is unchanged otherwise. The table never changes. |
| `FiniteStateMachines.FiniteStateMachine.TransitionByName` | FiniteStateMachine/FiniteStateMachine.cs:134-145 | An unknown name returns false with the state unchanged. A known name behaves as `Transition` to that state. |
| `FiniteStateMachines.AddTransitionTwice` | FiniteStateMachine/FiniteStateMachine.cs:77-92 | Registering the same pair twice: the second call fails. The new table is the old one with `(from, to)` bound to the first call's guard (or the always-true guard) when the first call succeeds, and is unchanged otherwise. It grows by at most one entry, and a pair already present keeps its guard. Only the table may change. |
| `FiniteStateMachines.AddThenTransition` | FiniteStateMachine/FiniteStateMachine.cs:116-128 | After registering (current, to) without a guard, `Transition(to)` succeeds and the machine is in `to`. The table gains exactly that pair with the always-true guard, and the state list is unchanged. |
| `PlayerStates.NameIsIdentifier` | FiniteStateMachine/Program.cs:8 | Every sample state's name matches the identifier pattern. |
| `PlayerStates.AllStatesWellFormed` | FiniteStateMachine/Program.cs:8 | The sample states are distinct and every state is listed. Their names are distinct and contain no `-` or `>`. |
| `PlayerStates.ParseStrictKey` | FiniteStateMachine/FiniteStateMachine.cs:198-224 | `"Idle->Walk"` parses to (Idle, Walk). |
| `PlayerStates.ParseSpacedKey` | FiniteStateMachine/FiniteStateMachine.cs:243-247 | `"A -> B"` is repaired and parses to (A, B) for every pair of sample states. |
| `PlayerStates.JumpIsNotAState` | FiniteStateMachine/FiniteStateMachine.cs:138-143 | `"Jump"` names no state. |
| `PlayerStates.TypedSteps` | FiniteStateMachine/FiniteStateMachine.cs:54-128 | Sample run: Init->Idle is added and taken. Run is refused. The blocking guard on Idle->Walk stops the move. The machine ends in Idle. |
| `PlayerStates.TextualSteps` | FiniteStateMachine/FiniteStateMachine.cs:100-145 | Sample run: `"Idle->Walk"` is refused as a duplicate, `"Walk -> Run"` is repaired and added, and `"Jump"` is refused. |
| `PlayerStates.Scenario` | FiniteStateMachine/Program.cs:11 | The whole sample run on a default-constructed machine gives the stated outcomes and ends in Idle. |

## Left out

- `FiniteStateMachine.constructor`: the `: base()` chaining of the parameterized constructor (FiniteStateMachine/FiniteStateMachine.cs:42-45) is not reproduced. In the source that machine never gets its list, dictionary or states. The model always populates them, and requires a supplied initial state to be one of the states.
- `FiniteStateMachine.constructor`: the `typeof(T).IsEnum` check and its failure path are not modelled. The state type is always an enumeration here, given as a non-empty, duplicate-free sequence of values. An enumeration with no values would make `m_States[0]` throw, so the constructor requires a non-empty list.
- `Enumerations.ParseState`: `Enum.Parse` accepts numeric strings, comma-separated lists of names and surrounding whitespace. The model accepts only an exact, case-sensitive match against a declared name. Under this model, a key such as `"Idle->Walk "` is rejected, while .NET would trim the space.
- `TransitionKeys.SplitKey`: `String.IndexOf(string)` compares culture-sensitively. The model compares characters ordinally.
- Strings are sequences of Unicode characters. UTF-16 code units and null strings are not modelled.
- Guards are pure predicates over an environment value. Side effects of caller-supplied delegates, and exceptions they throw, are not modelled.
- The `Debug` diagnostics (warnings and errors sent to a logging sink) are treated as no-ops. The model therefore does not report which state was invalid in a rejected registration.
- `PrintStates` and `PrintTransitions` are console output. They are not modelled, and neither is the dictionary's enumeration order.
- `FiniteStateMachineDebug.cs` (the interactive console harness and the compile-time-selected logger) and `ContextualDebug.cs` (console and Unity log wrappers) are I/O and not part of this model.
- `[Serializable]` is not modelled.
