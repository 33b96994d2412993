/** Named refs: `validateRefName`, `WriteNamedRefAt` and `writeNamedRef`. */
module Refs {
  import opened Outcomes
  import opened Text
  import opened Records
  import opened Chains

  predicate ValidRefName(name: string) {
    Trim(name) != "" && !Contains(Trim(name), "..") && '/' !in Trim(name) && '\\' !in Trim(name)
  }

  function CurrentRef(named: map<string, string>, name: string): string {
    if name in named then named[name] else ""
  }

  /** `writeNamedRef`. */
  function WriteRef(env: Env, dir: Directory, named: map<string, string>, name: string, root: string)
    : Result<map<string, string>>
  {
    if !ValidRefName(name) || Trim(root) == "" then Err(Validation)
    else
      match ReadNode(env, dir, Trim(root))
      case Err(error) => Err(if error == Missing then NotFound else error)
      case Ok(_) => Ok(named[Trim(name) := Trim(root)])
  }

  /** `WriteNamedRefAt`. */
  function WriteRefAt(env: Env, dir: Directory, named: map<string, string>, name: string, root: string,
                      expected: string): Result<map<string, string>>
  {
    if !ValidRefName(name) then Err(Validation)
    else if CurrentRef(named, Trim(name)) != Trim(expected) then Err(Conflict)
    else WriteRef(env, dir, named, Trim(name), root)
  }

  /** A ref update is a compare-and-swap onto an existing, verified node: it happens exactly when the ref holds the
      expected value and the node reads back, and then it changes that ref alone. */
  lemma RefUpdateIsCompareAndSwap(env: Env, dir: Directory, named: map<string, string>, name: string, root: string,
                                  expected: string)
    ensures var update := WriteRefAt(env, dir, named, name, root, expected);
            && (update.Ok? <==> ValidRefName(name) && CurrentRef(named, Trim(name)) == Trim(expected) &&
                                ReadNode(env, dir, Trim(root)).Ok?)
            && (update.Ok? ==>
                  && CurrentRef(update.value, Trim(name)) == Trim(root)
                  && forall other | other != Trim(name) ::
                       (other in update.value <==> other in named) &&
                       CurrentRef(update.value, other) == CurrentRef(named, other))
  {
    TrimIsTrimmed(name);
  }

  /** A ref name is one path element: after trimming it is not empty, and has no slash and no two dots in a row. */
  lemma RefNamesExactly(name: string)
    ensures ValidRefName(name) <==>
              var trimmed := Trim(name);
              && trimmed != "" && '/' !in trimmed && '\\' !in trimmed
              && !(exists i :: 0 <= i && i + 1 < |trimmed| && trimmed[i] == '.' && trimmed[i + 1] == '.')
  {
    ContainsDotsExactly(Trim(name));
    hide Trim, Contains;
  }
}
