/**
 * The part of .NET's enumeration support that the state machine relies on:
 * the list of an enumeration's values (Enum.GetValues) and the lookup of a
 * value by its declared name (Enum.Parse).  An enumeration is given as the
 * sequence of its values and the function that names them (ToString).
 */
module Enumerations {
  import opened Wrappers

  /** No value occurs twice. */
  predicate Distinct<T(==)>(values: seq<T>)
  {
    forall i, j :: 0 <= i < j < |values| ==> values[i] != values[j]
  }

  /** A name contains neither of the two characters of the "->" separator. */
  predicate ArrowFree(s: string)
  {
    '-' !in s && '>' !in s
  }

  /**
   * The names of an enumeration: distinct values have distinct names, and
   * none contains '-' or '>' (no C# identifier does).
   */
  predicate ValidNames<T(==)>(values: seq<T>, name: T -> string)
  {
    (forall a, b :: a in values && b in values && name(a) == name(b) ==> a == b)
    && (forall v :: v in values ==> ArrowFree(name(v)))
  }

  /** Enum.Parse as an exact, case-sensitive match against the declared names. */
  function ParseState<T(==)>(values: seq<T>, name: T -> string, s: string): (r: Option<T>)
    ensures r.Some? ==> r.value in values && name(r.value) == s
    ensures r.None? <==> forall v :: v in values ==> name(v) != s
  {
    if |values| == 0 then None
    else if name(values[0]) == s then Some(values[0])
    else ParseState(values[1..], name, s)
  }

  /** Parsing the name of a value gives that value back. */
  lemma ParseStateOfName<T>(values: seq<T>, name: T -> string, v: T)
    requires ValidNames(values, name) && v in values
    ensures ParseState(values, name, name(v)) == Some(v)
  {
  }
}
