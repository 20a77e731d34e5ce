/**
 * The textual layer of the state machine: transition keys of the form
 * "From->To", their validation against the key pattern, the repair of keys
 * that carry stray punctuation, and their parsing into a pair of states.
 */
module TransitionKeys {
  import opened Wrappers
  import opened Enumerations

  /** The character class [A-Za-z]. */
  predicate IsLetter(c: char)
  {
    'A' <= c <= 'Z' || 'a' <= c <= 'z'
  }

  /** The character class [A-Za-z0-9]. */
  predicate IsAlphanumeric(c: char)
  {
    IsLetter(c) || '0' <= c <= '9'
  }

  /** The whole of s matches [A-Za-z]{1,}[A-Za-z0-9]*. */
  predicate IsIdentifier(s: string)
  {
    |s| > 0 && IsLetter(s[0]) && forall i :: 0 < i < |s| ==> IsAlphanumeric(s[i])
  }

  /** The key a transition from state name `from` to state name `to` is stored under. */
  function JoinKey(from: string, to: string): string
  {
    from + "->" + to
  }

  /**
   * Reference definition of the key pattern
   * ^([A-Za-z]{1,}[A-Za-z0-9]*)->(([A-Za-z]{1,}[A-Za-z0-9]*)), which is
   * anchored at the start only: s[..i] is the FROM identifier, the arrow
   * follows, and s[i+2..j] is the TO identifier; anything may come after j.
   */
  ghost predicate KeyPatternMatchesAt(s: string, i: nat, j: nat)
  {
    0 < i && i + 2 < j <= |s|
    && IsIdentifier(s[..i]) && s[i] == '-' && s[i + 1] == '>' && IsIdentifier(s[i + 2..j])
  }

  ghost predicate KeyPatternMatches(s: string)
  {
    exists i: nat, j: nat :: KeyPatternMatchesAt(s, i, j)
  }

  /** Length of the longest prefix of s made of [A-Za-z0-9]. */
  function AlphanumericRun(s: string): (n: nat)
    ensures n <= |s|
    ensures forall k :: 0 <= k < n ==> IsAlphanumeric(s[k])
    ensures n < |s| ==> !IsAlphanumeric(s[n])
  {
    if |s| == 0 || !IsAlphanumeric(s[0]) then 0 else 1 + AlphanumericRun(s[1..])
  }

  /** Executable form of matching a key against the key pattern (Regex.IsMatch). */
  predicate MatchesKeyFormat(s: string)
  {
    var n := AlphanumericRun(s);
    0 < n && IsLetter(s[0]) && n + 2 < |s| && s[n] == '-' && s[n + 1] == '>' && IsLetter(s[n + 2])
  }

  /** The executable match agrees with the pattern, in both directions. */
  lemma MatchesKeyFormatIsPattern(s: string)
    ensures MatchesKeyFormat(s) <==> KeyPatternMatches(s)
  {
    var n := AlphanumericRun(s);
    if MatchesKeyFormat(s) {
      assert IsIdentifier(s[..n]);
      assert IsIdentifier(s[n + 2..n + 3]);
      assert KeyPatternMatchesAt(s, n, n + 3);
    }
    if KeyPatternMatches(s) {
      var i: nat, j: nat :| KeyPatternMatchesAt(s, i, j);
      assert s[..i][0] == s[0];
      assert forall k :: 0 <= k < i ==> IsAlphanumeric(s[k]) by {
        forall k | 0 <= k < i ensures IsAlphanumeric(s[k]) {
          assert s[..i][k] == s[k];
        }
      }
      assert s[i + 2..j][0] == s[i + 2];
    }
  }

  // ---------------------------------------------------------------------
  // String.IndexOfAny / LastIndexOfAny, with -1 for "not found"; the set of
  // characters searched for is given by its membership test

  function IndexOfAny(s: string, isAny: char -> bool): (r: int)
    ensures -1 <= r < |s|
    ensures 0 <= r ==> isAny(s[r]) && forall k :: 0 <= k < r ==> !isAny(s[k])
    ensures r < 0 ==> forall k :: 0 <= k < |s| ==> !isAny(s[k])
  {
    if |s| == 0 then -1
    else if isAny(s[0]) then 0
    else
      var r := IndexOfAny(s[1..], isAny);
      if r < 0 then -1 else r + 1
  }

  function LastIndexOfAny(s: string, isAny: char -> bool): (r: int)
    ensures -1 <= r < |s|
    ensures 0 <= r ==> isAny(s[r]) && forall k :: r < k < |s| ==> !isAny(s[k])
    ensures r < 0 ==> forall k :: 0 <= k < |s| ==> !isAny(s[k])
  {
    if |s| == 0 then -1
    else if isAny(s[|s| - 1]) then |s| - 1
    else LastIndexOfAny(s[..|s| - 1], isAny)
  }

  /** A position holding a searched-for character, with none before it, is the first. */
  lemma IndexOfAnyIs(s: string, isAny: char -> bool, i: nat)
    requires i < |s| && isAny(s[i])
    requires forall k :: 0 <= k < i ==> !isAny(s[k])
    ensures IndexOfAny(s, isAny) == i
  {
  }

  predicate IsDash(c: char) { c == '-' }

  predicate IsGreaterThan(c: char) { c == '>' }

  // ---------------------------------------------------------------------
  // Repair of keys with stray symbols

  /** The symbols the repair treats as removable garbage, as the source lists them. */
  const GarbageSymbols: string := "!@#$%^&*()-_=+;:'\",<.>/?\\|[{]} "

  /**
   * Membership in GarbageSymbols, written as the four ASCII ranges those 31
   * symbols fill: ' '..'/', ':'..'@', '['..'_' and '{'..'}'.  '-' and '>'
   * are garbage.
   */
  predicate IsGarbage(c: char)
  {
    (' ' <= c <= '/') || (':' <= c <= '@') || ('[' <= c <= '_') || ('{' <= c <= '}')
  }

  lemma IsGarbageIsMembership(c: char)
    ensures IsGarbage(c) <==> c in GarbageSymbols
  {
  }

  /**
   * `repaired` is the text of `key` before its first garbage symbol (at p),
   * then "->", then the text after its last garbage symbol (at q).
   */
  ghost predicate RepairedAt(key: string, p: nat, q: nat, repaired: string)
  {
    p <= q < |key| && IsGarbage(key[p]) && IsGarbage(key[q])
    && (forall k :: 0 <= k < p ==> !IsGarbage(key[k]))
    && (forall k :: q < k < |key| ==> !IsGarbage(key[k]))
    && repaired == JoinKey(key[..p], key[q + 1..])
  }

  /** Salvages a malformed key; None when the key holds no garbage symbol at all. */
  function ParseGarbageKey(key: string): (r: Option<string>)
    ensures r.None? <==> forall k :: 0 <= k < |key| ==> !IsGarbage(key[k])
    ensures r.Some? ==> exists p: nat, q: nat :: RepairedAt(key, p, q, r.value)
  {
    var first := IndexOfAny(key, IsGarbage);
    if first < 0 then None
    else
      var last := LastIndexOfAny(key, IsGarbage);
      var repaired := JoinKey(key[..first], key[last + 1..]);
      assert RepairedAt(key, first, last, repaired);
      Some(repaired)
  }

  /**
   * Accepts a key that matches the pattern as it is, otherwise the repaired
   * key when that matches; the result is the key to be split.
   */
  function ValidateKey(key: string): (r: Option<string>)
    ensures r.Some? ==> MatchesKeyFormat(r.value)
    ensures r.Some? ==> r.value == key || ParseGarbageKey(key) == r
    ensures MatchesKeyFormat(key) ==> r == Some(key)
    ensures r.None? <==>
      !MatchesKeyFormat(key)
      && (ParseGarbageKey(key).None? || !MatchesKeyFormat(ParseGarbageKey(key).value))
  {
    if MatchesKeyFormat(key) then Some(key)
    else
      match ParseGarbageKey(key)
      case None => None
      case Some(repaired) => if MatchesKeyFormat(repaired) then Some(repaired) else None
  }

  /** Validating an accepted key again accepts it unchanged. */
  lemma ValidateKeyIdempotent(key: string)
    requires ValidateKey(key).Some?
    ensures ValidateKey(ValidateKey(key).value) == ValidateKey(key)
  {
  }

  // ---------------------------------------------------------------------
  // Splitting a key into its two state names

  /**
   * FROM is the text before the first '-', TO the text after the first '>'
   * (the whole key when it has no '>').
   */
  function SplitKey(key: string): (r: (string, string))
    requires '-' in key
    ensures |r.0| < |key| && key[..|r.0|] == r.0 && key[|r.0|] == '-' && '-' !in r.0
    ensures '>' in key ==>
      |r.1| < |key| && key[|key| - |r.1|..] == r.1 && key[|key| - |r.1| - 1] == '>'
      && '>' !in key[..|key| - |r.1| - 1]
    ensures '>' !in key ==> r.1 == key
  {
    var dash := IndexOfAny(key, IsDash);
    var arrow := IndexOfAny(key, IsGreaterThan);
    (key[..dash], key[arrow + 1..])
  }

  /** A key matching the pattern is its FROM identifier, the arrow, and its TO text. */
  lemma SplitKeyOfFormat(key: string)
    requires MatchesKeyFormat(key)
    ensures '-' in key
    ensures IsIdentifier(SplitKey(key).0)
    ensures key == JoinKey(SplitKey(key).0, SplitKey(key).1)
    ensures |SplitKey(key).1| > 0 && IsLetter(SplitKey(key).1[0])
  {
    var n := AlphanumericRun(key);
    IndexOfAnyIs(key, IsDash, n);
    IndexOfAnyIs(key, IsGreaterThan, n + 1);
    assert key == key[..n] + "->" + key[n + 2..];
  }

  /** Splitting a joined key gives back its two names when FROM is arrow free. */
  lemma {:induction false} SplitJoinKey(from: string, to: string)
    requires ArrowFree(from)
    ensures '-' in JoinKey(from, to)
    ensures SplitKey(JoinKey(from, to)) == (from, to)
  {
    var key := JoinKey(from, to);
    assert forall k :: 0 <= k < |from| ==> key[k] == from[k];
    IndexOfAnyIs(key, IsDash, |from|);
    IndexOfAnyIs(key, IsGreaterThan, |from| + 1);
    assert key[..|from|] == from;
    assert key[|from| + 2..] == to;
  }

  /**
   * The source stores transitions under the string JoinKey(name(from),
   * name(to)); for arrow-free FROM names that string determines the pair, so
   * a table keyed by the pair itself holds the same information.
   */
  lemma JoinKeyInjective(f1: string, t1: string, f2: string, t2: string)
    requires ArrowFree(f1) && ArrowFree(f2)
    requires JoinKey(f1, t1) == JoinKey(f2, t2)
    ensures f1 == f2 && t1 == t2
  {
    SplitJoinKey(f1, t1);
    SplitJoinKey(f2, t2);
  }

  /**
   * With distinct, arrow-free names, two listed pairs of states have the same
   * string key only when they are the same pair.
   */
  lemma StateKeyInjective<T>(values: seq<T>, name: T -> string, a: T, b: T, c: T, d: T)
    requires ValidNames(values, name)
    requires a in values && b in values && c in values && d in values
    ensures JoinKey(name(a), name(b)) == JoinKey(name(c), name(d)) <==> (a, b) == (c, d)
  {
    if JoinKey(name(a), name(b)) == JoinKey(name(c), name(d)) {
      JoinKeyInjective(name(a), name(b), name(c), name(d));
    }
  }

  /** A key built from two identifiers matches the pattern. */
  lemma JoinKeyOfIdentifiersMatches(from: string, to: string)
    requires IsIdentifier(from) && IsIdentifier(to)
    ensures MatchesKeyFormat(JoinKey(from, to))
  {
    var key := JoinKey(from, to);
    assert forall k :: 0 <= k < |from| ==> key[k] == from[k];
    assert key[|from|] == '-';
    assert key[|from| + 2] == to[0];
  }

  /**
   * The repaired key splits back into the text before the first and after
   * the last garbage symbol of the original key.
   */
  lemma RepairedKeySplits(key: string, p: nat, q: nat, repaired: string)
    requires RepairedAt(key, p, q, repaired)
    ensures '-' in repaired
    ensures SplitKey(repaired) == (key[..p], key[q + 1..])
  {
    assert forall k :: 0 <= k < p ==> key[..p][k] == key[k];
    assert ArrowFree(key[..p]);
    SplitJoinKey(key[..p], key[q + 1..]);
  }

  /** No character of [A-Za-z0-9] is a garbage symbol. */
  lemma AlphanumericIsNotGarbage(c: char)
    requires IsAlphanumeric(c)
    ensures !IsGarbage(c)
  {
  }

  /**
   * The repair at work: "From -> To", with a space on each side of the
   * arrow, is turned into the strict key "From->To".
   */
  lemma SpacedKeyIsRepaired(from: string, to: string)
    requires IsIdentifier(from) && IsIdentifier(to)
    ensures ValidateKey(from + " -> " + to) == Some(JoinKey(from, to))
  {
    var key := from + " -> " + to;
    var p, q := |from|, |from| + 3;
    forall k | 0 <= k < |key| && (k < p || q < k)
      ensures !IsGarbage(key[k])
    {
      if k < p {
        assert key[k] == from[k];
        AlphanumericIsNotGarbage(from[k]);
      } else {
        assert key[k] == to[k - q - 1];
        AlphanumericIsNotGarbage(to[k - q - 1]);
      }
    }
    assert key[p] == ' ' && key[q] == ' ';
    assert !MatchesKeyFormat(key);
    assert key[..p] == from && key[q + 1..] == to;
    var first := IndexOfAny(key, IsGarbage);
    var last := LastIndexOfAny(key, IsGarbage);
    assert first == p && last == q;
    JoinKeyOfIdentifiersMatches(from, to);
  }

  // ---------------------------------------------------------------------
  // From a textual key to a pair of states

  /** Turns a textual key into the two states it names, or None. */
  function ParseTransitionStates<T(==)>(values: seq<T>, name: T -> string, key: string): (r: Option<(T, T)>)
    ensures r.Some? ==> r.value.0 in values && r.value.1 in values
    ensures r.Some? ==> ValidateKey(key) == Some(JoinKey(name(r.value.0), name(r.value.1)))
  {
    match ValidateKey(key)
    case None => None
    case Some(valid) =>
      SplitKeyOfFormat(valid);
      var (from, to) := SplitKey(valid);
      match (ParseState(values, name, from), ParseState(values, name, to))
      case (Some(a), Some(b)) => Some((a, b))
      case _ => None
  }

  /**
   * With valid names, a key parses to (a, b) exactly when validation turns it
   * into the stored key of (a, b).
   */
  lemma ParseTransitionStatesExact<T>(values: seq<T>, name: T -> string, key: string, a: T, b: T)
    requires ValidNames(values, name)
    ensures ParseTransitionStates(values, name, key) == Some((a, b)) <==>
      a in values && b in values && ValidateKey(key) == Some(JoinKey(name(a), name(b)))
  {
    if a in values && b in values && ValidateKey(key) == Some(JoinKey(name(a), name(b))) {
      SplitJoinKey(name(a), name(b));
      ParseStateOfName(values, name, a);
      ParseStateOfName(values, name, b);
    }
  }

  /**
   * Textual round trip: when both names match the identifier pattern, the key
   * "name(a)->name(b)" parses to (a, b).
   */
  lemma ParseJoinedKey<T>(values: seq<T>, name: T -> string, a: T, b: T)
    requires ValidNames(values, name) && a in values && b in values
    requires IsIdentifier(name(a)) && IsIdentifier(name(b))
    ensures ParseTransitionStates(values, name, JoinKey(name(a), name(b))) == Some((a, b))
  {
    JoinKeyOfIdentifiersMatches(name(a), name(b));
    ParseTransitionStatesExact(values, name, JoinKey(name(a), name(b)), a, b);
  }
}
