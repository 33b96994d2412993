/** The name patterns of server/allow.go. */
module Patterns {
  import opened Outcomes
  import opened Text

  const MAX_CATALOG_ENTRIES := 256
  const MAX_CATALOG_COMMANDS := 32

  predicate IsLower(c: char) { 'a' <= c <= 'z' }

  predicate IsAlnum(c: char) { IsLower(c) || 'A' <= c <= 'Z' || '0' <= c <= '9' }

  predicate NamespaceChar(c: char) { IsLower(c) || '0' <= c <= '9' || c == '_' || c == '-' }

  predicate NameChar(c: char) { NamespaceChar(c) || c == '.' }

  predicate CommandChar(c: char) { IsAlnum(c) || c == ' ' || c == '.' || c == '_' || c == '-' }

  /** The position of the first dot, or the length. */
  function FirstDot(s: string): (d: nat)
    ensures d <= |s| && (d < |s| ==> s[d] == '.') && forall i | 0 <= i < d :: s[i] != '.'
  {
    if s == "" || s[0] == '.' then 0 else 1 + FirstDot(s[1..])
  }

  /** `^[a-z][a-z0-9_-]{0,30}\.` up to the first dot. */
  predicate HasNamespace(s: string) {
    var d := FirstDot(s);
    1 <= d <= 31 && d < |s| && IsLower(s[0]) && forall i | 1 <= i < d :: NamespaceChar(s[i])
  }

  /** `exactTypePattern`. */
  predicate ExactType(s: string) {
    && HasNamespace(s)
    && var d := FirstDot(s);
       && d + 2 <= |s| <= d + 65 && (IsLower(s[d + 1]) || '0' <= s[d + 1] <= '9')
       && forall i | d + 2 <= i < |s| :: NameChar(s[i])
  }

  /** `wildTypePattern`. */
  predicate WildType(s: string) {
    HasNamespace(s) && |s| == FirstDot(s) + 2 && s[FirstDot(s) + 1] == '*'
  }

  /** `validateTypePattern`. */
  predicate ValidTypePattern(s: string) {
    ExactType(s) || WildType(s)
  }

  /** `validateCommand`. */
  predicate ValidCommand(s: string) {
    1 <= |s| <= 64 && IsAlnum(s[0]) && forall i | 1 <= i < |s| :: CommandChar(s[i])
  }

  /** `validateRefPattern`. */
  predicate ValidRefPattern(s: string) {
    var body := if HasSuffix(s, "*") then s[..|s| - 1] else s;
    && '*' !in body
    && body != "" && body != "." && !Contains(body, "..") && '/' !in body && '\\' !in body
  }

  /** `namespaceOf`. */
  function NamespaceOf(s: string): Result<string> {
    var d := FirstDot(s);
    if d == |s| || d == 0 || '*' in s[..d] then Err(Validation) else Ok(s[..d])
  }

  /** `typeAllowed`. */
  predicate TypeAllowed(pattern: string, kind: string) {
    if HasSuffix(pattern, ".*") then
      HasPrefix(kind, pattern[..|pattern| - 1]) && |kind| > |pattern| - 1
    else pattern == kind
  }

  /** Valid names have no white space at their ends, so trimming leaves them alone. */
  lemma ExactTypesAreTrimmed(s: string)
    requires ExactType(s)
    ensures Trim(s) == s
  {
    TrimKeepsTrimmed(s);
  }

  lemma PatternHasNamespace(s: string)
    requires HasNamespace(s)
    ensures NamespaceOf(s) == Ok(s[..FirstDot(s)])
  {
    assert IsLower(s[..FirstDot(s)][0]);
  }

  lemma {:induction false} FirstDotOfPrefix(s: string, ns: string)
    requires HasPrefix(s, ns + ".") && '.' !in ns
    ensures FirstDot(s) == |ns|
  {
    assert s[|ns|] == (ns + ".")[|ns|];
    assert forall i | 0 <= i < |ns| :: s[i] == (ns + ".")[i] == ns[i];
  }

  /** Only exact types end in something else than ".*". */
  lemma ExactIsNotWild(s: string)
    requires ExactType(s)
    ensures !HasSuffix(s, ".*")
  {
    var last := |s| - 1;
    assert last == FirstDot(s) + 1 || NameChar(s[last]);
    assert s[last] != '*' && s[|s| - 2..][1] == s[last];
  }

  lemma WildEndsInStar(s: string)
    requires WildType(s)
    ensures HasSuffix(s, ".*") && s[..|s| - 1] == s[..FirstDot(s)] + "."
  {
    var d := FirstDot(s);
    hide HasNamespace, FirstDot;
    assert s[d] == '.' && s[d + 1] == '*' && |s| == d + 2;
    assert s[d..] == [s[d], s[d + 1]] == ".*";
    assert s[..d + 1] == s[..d] + [s[d]];
  }

  /** A namespace: a lower-case letter and up to 30 more characters. */
  predicate NamespaceWord(ns: string) {
    1 <= |ns| <= 31 && IsLower(ns[0]) && forall i | 1 <= i < |ns| :: NamespaceChar(ns[i])
  }

  /** A type's own name: a lower-case letter or digit and up to 63 more characters. */
  predicate NameWord(name: string) {
    1 <= |name| <= 64 && (IsLower(name[0]) || '0' <= name[0] <= '9') && forall i | 1 <= i < |name| :: NameChar(name[i])
  }

  lemma SplitsAtFirstDot(s: string, ns: string, rest: string)
    requires s == ns + "." + rest && NamespaceWord(ns)
    ensures FirstDot(s) == |ns| && HasNamespace(s) && s[..|ns|] == ns && s[|ns| + 1..] == rest
  {
    assert forall i | 0 <= i < |ns| :: s[i] == ns[i];
    assert s[|ns|] == '.';
  }

  /** Exact types are a namespace, a dot and a name. */
  lemma ExactTypesSplit(s: string)
    ensures ExactType(s) <==>
              exists ns: string, name: string :: NamespaceWord(ns) && NameWord(name) && s == ns + "." + name
  {
    if ExactType(s) {
      var d := FirstDot(s);
      var ns, name := s[..d], s[d + 1..];
      assert s == ns + "." + name;
      assert NamespaceWord(ns) && NameWord(name);
    }
    if ns: string, name: string :| NamespaceWord(ns) && NameWord(name) && s == ns + "." + name {
      SplitsAtFirstDot(s, ns, name);
      assert forall i | |ns| + 1 <= i < |s| :: s[i] == name[i - |ns| - 1];
    }
  }

  /** Wildcards are a namespace, a dot and a star. */
  lemma WildTypesSplit(s: string)
    ensures WildType(s) <==> exists ns: string :: NamespaceWord(ns) && s == ns + ".*"
  {
    if WildType(s) {
      var ns := s[..FirstDot(s)];
      assert s == ns + ".*";
      assert NamespaceWord(ns);
    }
    if ns: string :| NamespaceWord(ns) && s == ns + ".*" {
      assert s == ns + "." + "*";
      SplitsAtFirstDot(s, ns, "*");
    }
  }

  /** What a pattern admits: an exact type admits itself, and a wildcard every type that goes on behind its dot. */
  lemma PatternsAdmitExactly(pattern: string, ns: string, kind: string)
    requires NamespaceWord(ns)
    ensures ExactType(pattern) ==> (TypeAllowed(pattern, kind) <==> kind == pattern)
    ensures pattern == ns + ".*" ==>
              (TypeAllowed(pattern, kind) <==> exists rest: string :: rest != "" && kind == ns + "." + rest)
  {
    if ExactType(pattern) {
      ExactIsNotWild(pattern);
    }
    if pattern == ns + ".*" {
      assert pattern[|ns|..] == ".*" && pattern[..|pattern| - 1] == ns + ".";
      hide ExactType;
      if TypeAllowed(pattern, kind) {
        assert kind == ns + "." + kind[|ns| + 1..];
      }
    }
  }

  const LOWER := "abcdefghijklmnopqrstuvwxyz"
  const UPPER := "ABCDEFGHIJKLMNOPQRSTUVWXYZ"
  const DIGITS := "0123456789"

  /** The character classes of the patterns, letter by letter. */
  lemma ClassesByLetter(c: char)
    ensures IsLower(c) <==> c in LOWER
    ensures IsAlnum(c) <==> c in LOWER || c in UPPER || c in DIGITS
    ensures NamespaceChar(c) <==> c in LOWER || c in DIGITS || c in "_-"
    ensures NameChar(c) <==> c in LOWER || c in DIGITS || c in "._-"
    ensures CommandChar(c) <==> c in LOWER || c in UPPER || c in DIGITS || c in " ._-"
  {
    LettersInOrder(c);
  }

  lemma LettersInOrder(c: char)
    ensures c in LOWER <==> 'a' <= c <= 'z'
    ensures c in UPPER <==> 'A' <= c <= 'Z'
    ensures c in DIGITS <==> '0' <= c <= '9'
  {
    assert InOrder('a', LOWER);
    assert InOrder('A', UPPER);
    assert InOrder('0', DIGITS);
    assert |LOWER| == 26 && |UPPER| == 26 && |DIGITS| == 10;
    hide LOWER, UPPER, DIGITS, InOrder;
    RangeOf('a', LOWER, c);
    RangeOf('A', UPPER, c);
    RangeOf('0', DIGITS, c);
  }

  /** `letters` are consecutive characters from `first` on. */
  predicate InOrder(first: char, letters: string) {
    |letters| <= 26 && first <= 'a' && forall i | 0 <= i < |letters| :: letters[i] == first + i as char
  }

  lemma RangeOf(first: char, letters: string, c: char)
    requires InOrder(first, letters)
    ensures c in letters <==> first <= c && (c as int) < first as int + |letters|
  {
    if first <= c && (c as int) < first as int + |letters| {
      assert letters[(c - first) as int] == c;
    }
  }

  /** A command starts with a letter or digit and has at most 64 characters of its class. */
  lemma CommandsExactly(s: string)
    ensures ValidCommand(s) <==>
              && 1 <= |s| <= 64
              && (s[0] in LOWER || s[0] in UPPER || s[0] in DIGITS)
              && forall i | 1 <= i < |s| :: s[i] in LOWER || s[i] in UPPER || s[i] in DIGITS || s[i] in " ._-"
  {
    forall i | 0 <= i < |s|
      ensures IsAlnum(s[i]) <==> s[i] in LOWER || s[i] in UPPER || s[i] in DIGITS
      ensures CommandChar(s[i]) <==> s[i] in LOWER || s[i] in UPPER || s[i] in DIGITS || s[i] in " ._-"
    {
      ClassesByLetter(s[i]);
    }
    hide IsAlnum, CommandChar;
  }

  /** A ref pattern is a body, or a body and a star; the body is a name of one path element without a star. */
  lemma RefPatternsExactly(s: string)
    ensures ValidRefPattern(s) <==>
              exists body: string ::
                && (s == body || s == body + "*")
                && '*' !in body && '/' !in body && '\\' !in body
                && body != "" && body != "." && !Contains(body, "..")
  {
    hide Contains;
    var body := if HasSuffix(s, "*") then s[..|s| - 1] else s;
    if HasSuffix(s, "*") {
      assert s[|s| - 1..] == "*" && s[|s| - 1] == "*"[0];
      assert s == body + "*";
    }
    if other: string :| (s == other || s == other + "*") && '*' !in other && '/' !in other && '\\' !in other
                        && other != "" && other != "." && !Contains(other, "..") {
      if s == other + "*" {
        assert s[|s| - 1..] == "*" && s[..|s| - 1] == other;
      }
    }
  }
}
