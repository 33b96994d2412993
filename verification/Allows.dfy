/** Write capabilities of credentials: server/allow.go. */
module Allows {
  import opened Outcomes
  import opened Text
  import opened Patterns

  /** An `Allow` block; `commands` and `refs` tell an absent list from an empty one. */
  datatype Allow = Allow(types: seq<string>, commands: Option<seq<string>>, refs: Option<seq<string>>)

  function TrimOption(names: Option<seq<string>>): Option<seq<string>> {
    match names
    case None => None
    case Some(list) => Some(TrimAll(list))
  }

  function TrimAllow(allow: Allow): Allow {
    Allow(TrimAll(allow.types), TrimOption(allow.commands), TrimOption(allow.refs))
  }

  predicate ValidTypes(types: seq<string>) {
    && (forall i | 0 <= i < |types| :: ValidTypePattern(types[i]))
    && NoDuplicates(types)
    && (forall i, j | 0 <= i < j < |types| :: NamespaceOf(types[i]) == NamespaceOf(types[j]))
  }

  predicate ValidCommands(commands: seq<string>) {
    (forall i | 0 <= i < |commands| :: ValidCommand(commands[i])) && NoDuplicates(commands)
  }

  predicate ValidRefs(refs: seq<string>) {
    (forall i | 0 <= i < |refs| :: ValidRefPattern(refs[i])) && NoDuplicates(refs)
  }

  /** What `validateAllow` accepts, once every element is trimmed. */
  predicate ValidTrimmed(allow: Allow) {
    && ValidTypes(allow.types)
    && (allow.commands.Some? ==> allow.types != [] && ValidCommands(allow.commands.value))
    && (allow.refs.Some? ==> ValidRefs(allow.refs.value))
  }

  predicate ValidAllow(allow: Option<Allow>) {
    allow.Some? ==> ValidTrimmed(TrimAllow(allow.value))
  }

  /** The type loop of `validateAllow`: trims the elements in place and checks them on the way. */
  method ValidateTypes(types: array<string>) returns (ok: bool)
    modifies types
    ensures ok <==> ValidTypes(TrimAll(old(types[..])))
    ensures ok ==> types[..] == TrimAll(old(types[..]))
  {
    hide Trim, ValidTypePattern, NamespaceOf, HasNamespace;
    ghost var all := TrimAll(types[..]);
    var namespaces: set<string> := {};
    var seen: set<string> := {};
    for i := 0 to types.Length
      invariant forall k | 0 <= k < i :: types[k] == all[k] && ValidTypePattern(all[k])
      invariant forall k | i <= k < types.Length :: types[k] == old(types[k])
      invariant forall name :: name in seen <==> exists k :: 0 <= k < i && all[k] == name
      invariant NoDuplicates(all[..i])
      invariant forall k | 0 <= k < i :: NamespaceOf(all[k]).Ok?
      invariant forall name :: name in namespaces <==> exists k :: 0 <= k < i && NamespaceOf(all[k]) == Ok(name)
    {
      var pattern := Trim(types[i]);
      types[i] := pattern;
      assert pattern == all[i];
      if !ValidTypePattern(pattern) {
        return false;
      }
      if pattern in seen {
        return false;
      }
      seen := seen + {pattern};
      ValidPatternHasNamespace(pattern);
      var namespace := NamespaceOf(pattern);
      if namespace.Err? {
        return false;
      }
      namespaces := namespaces + {namespace.value};
    }
    assert all[..types.Length] == all && types[..] == all;
    if |namespaces| > 1 {
      TwoNamespaces(namespaces, all);
      return false;
    }
    forall i, j | 0 <= i < j < |all| ensures NamespaceOf(all[i]) == NamespaceOf(all[j]) {
      OneMember(namespaces, NamespaceOf(all[i]).value, NamespaceOf(all[j]).value);
    }
    return true;
  }

  lemma ValidPatternHasNamespace(pattern: string)
    requires ValidTypePattern(pattern)
    ensures NamespaceOf(pattern) == Ok(pattern[..FirstDot(pattern)])
  {
    PatternHasNamespace(pattern);
  }

  lemma OneMember(names: set<string>, name: string, other: string)
    requires |names| <= 1 && name in names && other in names
    ensures name == other
  {
    assert |names - {name}| == |names| - 1;
  }

  lemma TwoNamespaces(names: set<string>, types: seq<string>)
    requires |names| > 1
    requires forall name | name in names :: exists k :: 0 <= k < |types| && NamespaceOf(types[k]) == Ok(name)
    ensures !ValidTypes(types)
  {
    hide NamespaceOf, ValidTypePattern;
    var name :| name in names;
    var rest := names - {name};
    assert |rest| == |names| - 1;
    var other :| other in rest;
    var i :| 0 <= i < |types| && NamespaceOf(types[i]) == Ok(name);
    var j :| 0 <= j < |types| && NamespaceOf(types[j]) == Ok(other);
  }

  /** The command and ref loops of `validateAllow`. */
  method ValidateNames(names: array<string>, valid: string -> bool) returns (ok: bool)
    modifies names
    ensures ok <==>
              && (forall name | name in TrimAll(old(names[..])) :: valid(name))
              && NoDuplicates(TrimAll(old(names[..])))
    ensures ok ==> names[..] == TrimAll(old(names[..]))
  {
    hide Trim;
    ghost var all := TrimAll(names[..]);
    var seen: set<string> := {};
    for i := 0 to names.Length
      invariant forall k | 0 <= k < i :: names[k] == all[k] && valid(all[k])
      invariant forall k | i <= k < names.Length :: names[k] == old(names[k])
      invariant forall name :: name in seen <==> exists k :: 0 <= k < i && all[k] == name
      invariant NoDuplicates(all[..i])
    {
      var name := Trim(names[i]);
      names[i] := name;
      assert name == all[i];
      if !valid(name) || name in seen {
        return false;
      }
      seen := seen + {name};
    }
    assert all[..names.Length] == all && names[..] == all;
    return true;
  }

  lemma CommandsByMember(names: seq<string>)
    ensures ValidCommands(names) <==> (forall name | name in names :: ValidCommand(name)) && NoDuplicates(names)
  {
    hide ValidCommand, NoDuplicates;
    assert forall i | 0 <= i < |names| :: names[i] in names;
  }

  lemma RefsByMember(names: seq<string>)
    ensures ValidRefs(names) <==> (forall name | name in names :: ValidRefPattern(name)) && NoDuplicates(names)
  {
    hide ValidRefPattern, NoDuplicates;
    assert forall i | 0 <= i < |names| :: names[i] in names;
  }

  function ListOf(names: array?<string>): Option<seq<string>>
    reads names
  {
    if names == null then None else Some(names[..])
  }

  /** `validateAllow` of a block that is present; an absent list is null. Every element is trimmed in place. */
  method ValidateAllow(types: array<string>, commands: array?<string>, refs: array?<string>) returns (ok: bool)
    requires types != commands && types != refs && (commands != null ==> commands != refs)
    modifies types, commands, refs
    ensures ok <==> ValidAllow(Some(old(Allow(types[..], ListOf(commands), ListOf(refs)))))
    ensures ok ==> Allow(types[..], ListOf(commands), ListOf(refs)) ==
                   TrimAllow(old(Allow(types[..], ListOf(commands), ListOf(refs))))
  {
    hide Trim, ValidTypes, ValidCommand, ValidRefPattern, TrimAll, NoDuplicates;
    var typesOk := ValidateTypes(types);
    if !typesOk {
      return false;
    }
    if commands != null && types.Length == 0 {
      assert old(types[..]) == [];
      return false;
    }
    if commands != null {
      ghost var trimmed := TrimAll(commands[..]);
      var commandsOk := ValidateNames(commands, s => ValidCommand(s));
      CommandsByMember(trimmed);
      if !commandsOk {
        return false;
      }
    }
    if refs != null {
      ghost var trimmed := TrimAll(refs[..]);
      var refsOk := ValidateNames(refs, s => ValidRefPattern(s));
      RefsByMember(trimmed);
      if !refsOk {
        return false;
      }
    }
    return true;
  }

  /** `authorizeAppend`. */
  predicate AllowsAppend(allow: Option<Allow>, kind: string, command: string) {
    allow.Some? ==>
      && (exists i :: 0 <= i < |allow.value.types| && TypeAllowed(allow.value.types[i], kind))
      && (allow.value.commands.Some? ==> command in allow.value.commands.value)
  }

  /** `authorizeAppend` as its loops search. */
  method AuthorizeAppend(allow: Option<Allow>, kind: string, command: string) returns (ok: bool)
    ensures ok == AllowsAppend(allow, kind, command)
  {
    hide TypeAllowed;
    if allow.None? {
      return true;
    }
    var matched := false;
    for i := 0 to |allow.value.types|
      invariant !matched && forall k | 0 <= k < i :: !TypeAllowed(allow.value.types[k], kind)
    {
      if TypeAllowed(allow.value.types[i], kind) {
        matched := true;
        break;
      }
    }
    if !matched {
      return false;
    }
    if allow.value.commands.None? {
      return true;
    }
    for i := 0 to |allow.value.commands.value|
      invariant command !in allow.value.commands.value[..i]
    {
      if allow.value.commands.value[i] == command {
        return true;
      }
    }
    return false;
  }

  /** Trimming a type that matches a valid pattern keeps its namespace: it cuts no further than behind the dot. */
  lemma TrimKeepsNamespace(pattern: string, kind: string)
    requires ValidTypePattern(pattern) && TypeAllowed(pattern, kind)
    ensures NamespaceOf(Trim(kind)) == NamespaceOf(pattern) && NamespaceOf(pattern).Ok?
    ensures WildType(pattern) ==> HasPrefix(Trim(kind), pattern[..|pattern| - 1])
    ensures ExactType(pattern) ==> Trim(kind) == kind == pattern
  {
    ValidPatternHasNamespace(pattern);
    if ExactType(pattern) {
      ExactIsNotWild(pattern);
      ExactTypesAreTrimmed(kind);
      ExactIsNoWildType(pattern);
    } else {
      WildEndsInStar(pattern);
      var ns := pattern[..FirstDot(pattern)];
      assert IsLower(pattern[0]) && ns[0] == pattern[0];
      assert forall i | 0 <= i < |ns| :: ns[i] == pattern[i];
      hide WildType, HasNamespace, FirstDot;
      PrefixSurvivesTrim(kind, ns + ".");
      FirstDotOfPrefix(Trim(kind), ns);
      assert Trim(kind)[..|ns|] == (ns + ".")[..|ns|] == ns;
    }
  }

  lemma ExactIsNoWildType(pattern: string)
    requires ExactType(pattern)
    ensures !WildType(pattern)
  {
  }

  /** A prefix without white space at its ends survives trimming. */
  lemma PrefixSurvivesTrim(s: string, prefix: string)
    requires HasPrefix(s, prefix) && prefix != "" && !IsSpace(prefix[0]) && !IsSpace(prefix[|prefix| - 1])
    ensures HasPrefix(Trim(s), prefix)
  {
    var from, to := TrimDropsSpaces(s);
    assert s[0] == prefix[0] && s[|prefix| - 1] == prefix[|prefix| - 1];
    assert from == 0 && to >= |prefix|;
  }

  /** Scoped writes stay in one namespace: the type that is stored after trimming lies in the namespace that all
      patterns of the credential share. */
  lemma ScopedTypeStaysInNamespace(allow: Allow, kind: string, command: string)
    requires ValidTrimmed(allow) && AllowsAppend(Some(allow), kind, command)
    ensures NamespaceOf(Trim(kind)).Ok?
    ensures forall i | 0 <= i < |allow.types| :: NamespaceOf(allow.types[i]) == NamespaceOf(Trim(kind))
  {
    hide NamespaceOf, ValidTypePattern, TypeAllowed, Trim;
    var k :| 0 <= k < |allow.types| && TypeAllowed(allow.types[k], kind);
    TrimKeepsNamespace(allow.types[k], kind);
  }

  /** The stored type need not match the pattern that admitted it: the check runs before the trimming. It matches
      exactly when trimming leaves something behind the dot. */
  lemma StoredTypeMatchesExactly(pattern: string, kind: string)
    requires WildType(pattern) && TypeAllowed(pattern, kind)
    ensures TypeAllowed(pattern, Trim(kind)) <==> Trim(kind) != pattern[..|pattern| - 1]
  {
    TrimKeepsNamespace(pattern, kind);
    WildEndsInStar(pattern);
    hide WildType, Trim;
    if |Trim(kind)| == |pattern| - 1 {
      assert Trim(kind) == pattern[..|pattern| - 1];
    }
  }

  /** For instance, "ns.*" admits "ns. ", which is stored as "ns.". */
  lemma StoredTypeMayNotMatch()
    ensures TypeAllowed("ns.*", "ns. ") && Trim("ns. ") == "ns." && !TypeAllowed("ns.*", "ns.")
  {
    var from, to := TrimDropsSpaces("ns. ");
    assert "ns. "[2] == '.' && "ns. "[3] == ' ' && "ns. "[0] == 'n';
    assert !IsSpace('.') && !IsSpace('n') && IsSpace(' ');
    assert from == 0 && to >= 3;
    assert "ns. "[0..4] == "ns. " && !Trimmed("ns. ");
    assert "ns. "[0..3] == "ns.";
    assert "ns.*"[2..] == ".*" && "ns.*"[..3] == "ns." && "ns. "[..3] == "ns.";
  }

  /** `pattern` is a wildcard or an exact type of the namespace. */
  ghost predicate OfNamespace(ns: string, pattern: string) {
    pattern == ns + ".*" || exists name: string :: NameWord(name) && pattern == ns + "." + name
  }

  /** The types of a valid block are different patterns of one namespace. */
  lemma ValidTypesExactly(types: seq<string>)
    ensures ValidTypes(types) <==>
              && (forall i, j | 0 <= i < j < |types| :: types[i] != types[j])
              && exists ns: string :: NamespaceWord(ns) && forall i | 0 <= i < |types| :: OfNamespace(ns, types[i])
  {
    assert NamespaceWord("a");
    forall i | 0 <= i < |types| {
      PatternOfItsNamespace(types[i]);
    }
    hide ValidTypePattern, NamespaceOf, NamespaceWord, OfNamespace;
    if ValidTypes(types) && types != [] {
      var ns := NamespaceOf(types[0]).value;
      assert forall i | 0 <= i < |types| :: OfNamespace(ns, types[i]);
    }
    if ns: string :| NamespaceWord(ns) && forall i | 0 <= i < |types| :: OfNamespace(ns, types[i]) {
      forall i | 0 <= i < |types| ensures ValidTypePattern(types[i]) && NamespaceOf(types[i]) == Ok(ns) {
        NamespacePatternIsValid(ns, types[i]);
      }
    }
  }

  lemma PatternOfItsNamespace(pattern: string)
    ensures ValidTypePattern(pattern) ==>
              NamespaceOf(pattern).Ok? && NamespaceWord(NamespaceOf(pattern).value) &&
              OfNamespace(NamespaceOf(pattern).value, pattern)
  {
    if ValidTypePattern(pattern) {
      ValidPatternHasNamespace(pattern);
      ExactTypesSplit(pattern);
      WildTypesSplit(pattern);
      hide ExactType, WildType, HasNamespace, ValidTypePattern;
      if ns: string, name: string :| NamespaceWord(ns) && NameWord(name) && pattern == ns + "." + name {
        SplitsAtFirstDot(pattern, ns, name);
      } else if ns: string :| NamespaceWord(ns) && pattern == ns + ".*" {
        assert pattern == ns + "." + "*";
        SplitsAtFirstDot(pattern, ns, "*");
      }
    }
  }

  lemma NamespacePatternIsValid(ns: string, pattern: string)
    requires NamespaceWord(ns) && OfNamespace(ns, pattern)
    ensures ValidTypePattern(pattern) && NamespaceOf(pattern) == Ok(ns)
  {
    ExactTypesSplit(pattern);
    WildTypesSplit(pattern);
    if pattern == ns + ".*" {
      assert pattern == ns + "." + "*";
      SplitsAtFirstDot(pattern, ns, "*");
    } else {
      var name: string :| NameWord(name) && pattern == ns + "." + name;
      SplitsAtFirstDot(pattern, ns, name);
    }
    hide ExactType, WildType;
    ValidPatternHasNamespace(pattern);
  }

  /** `pattern` is an exact type and `kind` is that type, or a wildcard and `kind` goes on behind its dot. */
  ghost predicate Admits(pattern: string, kind: string) {
    || ((exists ns: string, name: string :: NamespaceWord(ns) && NameWord(name) && pattern == ns + "." + name) &&
        kind == pattern)
    || (exists ns: string ::
          NamespaceWord(ns) && pattern == ns + ".*" && HasPrefix(kind, ns + ".") && |kind| > |ns| + 1)
  }

  lemma ValidPatternsAdmit(pattern: string, kind: string)
    requires ValidTypePattern(pattern)
    ensures TypeAllowed(pattern, kind) <==> Admits(pattern, kind)
  {
    ExactTypesSplit(pattern);
    WildTypesSplit(pattern);
    hide NamespaceWord, NameWord, HasNamespace, HasPrefix;
    if ExactType(pattern) {
      ExactIsNotWild(pattern);
      ExactIsNoWildType(pattern);
      hide ExactType, WildType;
      assert forall ns: string :: NamespaceWord(ns) ==> pattern != ns + ".*";
    } else {
      var ns: string :| NamespaceWord(ns) && pattern == ns + ".*";
      hide ExactType, WildType;
      assert pattern[|ns|..] == ".*" && pattern[..|pattern| - 1] == ns + ".";
      assert forall other: string :: pattern == other + ".*" ==> |other| == |ns| && other == pattern[..|ns|];
    }
  }

  /** What a credential admits: everything without a block; otherwise a type that some pattern admits, with a command of
      the list if there is one. */
  lemma AllowsExactly(allow: Option<Allow>, kind: string, command: string)
    requires allow.Some? ==> ValidTrimmed(allow.value)
    ensures AllowsAppend(allow, kind, command) <==>
              allow.None? ||
              ((exists i :: 0 <= i < |allow.value.types| && Admits(allow.value.types[i], kind)) &&
               (allow.value.commands.None? || command in allow.value.commands.value))
  {
    if allow.Some? {
      forall i | 0 <= i < |allow.value.types|
        ensures TypeAllowed(allow.value.types[i], kind) <==> Admits(allow.value.types[i], kind)
      {
        ValidPatternsAdmit(allow.value.types[i], kind);
      }
    }
    hide TypeAllowed, Admits, ValidTrimmed;
  }
}
