/** The few operations of Go's `strings` package that the repository relies on. */
module Text {

  /** White space as `unicode.IsSpace` defines it. */
  predicate IsSpace(c: char) {
    || '\t' <= c <= '\r' || c == ' ' || c == '\U{85}' || c == '\U{A0}' || c == '\U{1680}'
    || '\U{2000}' <= c <= '\U{200A}' || c == '\U{2028}' || c == '\U{2029}' || c == '\U{202F}'
    || c == '\U{205F}' || c == '\U{3000}'
  }

  /** No white space at either end. */
  predicate Trimmed(s: string) {
    s == "" || (!IsSpace(s[0]) && !IsSpace(s[|s| - 1]))
  }

  /** The first position from `from` on that holds no white space. */
  function SkipSpaces(s: string, from: nat): (i: nat)
    requires from <= |s|
    ensures from <= i <= |s|
    decreases |s| - from
  {
    if from < |s| && IsSpace(s[from]) then SkipSpaces(s, from + 1) else from
  }

  /** The end of `s[from..to]` without the white space that closes it. */
  function DropSpaces(s: string, from: nat, to: nat): (i: nat)
    requires from <= to <= |s|
    ensures from <= i <= to
  {
    if from < to && IsSpace(s[to - 1]) then DropSpaces(s, from, to - 1) else to
  }

  /** `strings.TrimSpace`. */
  function Trim(s: string): string {
    var from := SkipSpaces(s, 0);
    s[from..DropSpaces(s, from, |s|)]
  }

  lemma {:induction false} SkipsOnlySpaces(s: string, from: nat)
    requires from <= |s|
    ensures var r := SkipSpaces(s, from);
            (forall i | from <= i < r :: IsSpace(s[i])) && (r < |s| ==> !IsSpace(s[r]))
    decreases |s| - from
  {
    if from < |s| && IsSpace(s[from]) {
      SkipsOnlySpaces(s, from + 1);
    }
  }

  lemma {:induction false} DropsOnlySpaces(s: string, from: nat, to: nat)
    requires from <= to <= |s|
    ensures var r := DropSpaces(s, from, to);
            (forall i | r <= i < to :: IsSpace(s[i])) && (from < r ==> !IsSpace(s[r - 1]))
  {
    if from < to && IsSpace(s[to - 1]) {
      DropsOnlySpaces(s, from, to - 1);
    }
  }

  /** Trimming drops white space at both ends and nothing else. */
  lemma TrimDropsSpaces(s: string) returns (from: nat, to: nat)
    ensures from <= to <= |s| && Trim(s) == s[from..to] && Trimmed(Trim(s))
    ensures forall i | 0 <= i < |s| && !(from <= i < to) :: IsSpace(s[i])
  {
    from := SkipSpaces(s, 0);
    to := DropSpaces(s, from, |s|);
    SkipsOnlySpaces(s, 0);
    DropsOnlySpaces(s, from, |s|);
  }

  /** A string without white space at its ends is left alone. */
  lemma TrimKeepsTrimmed(s: string)
    requires Trimmed(s)
    ensures Trim(s) == s
  {
  }

  lemma TrimIsTrimmed(s: string)
    ensures Trimmed(Trim(s)) && Trim(Trim(s)) == Trim(s)
  {
    var _, _ := TrimDropsSpaces(s);
    TrimKeepsTrimmed(Trim(s));
  }

  predicate HasPrefix(s: string, prefix: string) {
    |prefix| <= |s| && s[..|prefix|] == prefix
  }

  predicate HasSuffix(s: string, suffix: string) {
    |suffix| <= |s| && s[|s| - |suffix|..] == suffix
  }

  /** `strings.Contains`. */
  predicate Contains(s: string, part: string) {
    exists i | 0 <= i <= |s| :: HasPrefix(s[i..], part)
  }

  predicate NoDuplicates(names: seq<string>) {
    forall i, j | 0 <= i < j < |names| :: names[i] != names[j]
  }

  function TrimAll(names: seq<string>): (trimmed: seq<string>)
    ensures |trimmed| == |names|
  {
    seq(|names|, i requires 0 <= i < |names| => Trim(names[i]))
  }

  lemma TrimAllTwice(names: seq<string>)
    ensures TrimAll(TrimAll(names)) == TrimAll(names)
  {
    forall i | 0 <= i < |names| ensures Trim(Trim(names[i])) == Trim(names[i]) {
      TrimIsTrimmed(names[i]);
    }
  }

  /** Two dots in a row, spelled out. */
  lemma ContainsDotsExactly(s: string)
    ensures Contains(s, "..") <==> exists i :: 0 <= i && i + 1 < |s| && s[i] == '.' && s[i + 1] == '.'
  {
    if i :| 0 <= i && i + 1 < |s| && s[i] == '.' && s[i + 1] == '.' {
      assert s[i..][..2] == "..";
      assert HasPrefix(s[i..], "..");
    }
    if i :| 0 <= i <= |s| && HasPrefix(s[i..], "..") {
      assert s[i] == s[i..][0] == ".."[0] && s[i + 1] == s[i..][1] == ".."[1];
    }
  }

  /** White space by code point. */
  lemma SpacesExactly(c: char)
    ensures IsSpace(c) <==>
              var code := c as int;
              || code in [9, 10, 11, 12, 13, 32, 133, 160, 5760, 8232, 8233, 8239, 8287, 12288]
              || 8192 <= code <= 8202
  {
  }
}
