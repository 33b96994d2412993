/** Reading nodes and walking parent links: `readNode`, `verifyNode` and `nodesFromRoot`. */
module Chains {
  import opened Outcomes
  import opened Records

  /** A file below objects/nodes: a decoded node, or bytes that are not a node. */
  datatype NodeFile = Garbled | Stored(node: Node)

  type Directory = map<string, NodeFile>

  function ReadNode(env: Env, dir: Directory, hash: string): Result<Node> {
    if !ValidHash(hash) then Err(Validation)
    else if hash !in dir then Err(Missing)
    else
      match dir[hash]
      case Garbled => Err(Integrity)
      case Stored(node) =>
        if node.hash != hash then Err(Integrity)
        else if env.hash(node.content) != node.hash then Err(Integrity)
        else Ok(node)
  }

  /** Where the walk stops. A single empty parent also ends it, because the loop runs while the next
      root is not empty. */
  predicate IsEnd(node: Node) {
    node.content.parents == [] || node.content.parents == [""]
  }

  predicate Follows(chain: seq<Node>, i: nat)
    requires i < |chain|
  {
    if i == 0 then IsEnd(chain[0]) else chain[i].content.parents == [chain[i - 1].hash]
  }

  predicate Distinct(chain: seq<Node>) {
    forall i, j | 0 <= i < j < |chain| :: chain[i].hash != chain[j].hash
  }

  /** `chain`, oldest first, is on disk, verifies, and is linked by single parents without repetition. */
  ghost predicate Linked(env: Env, dir: Directory, chain: seq<Node>) {
    && (forall i | 0 <= i < |chain| :: ReadNode(env, dir, chain[i].hash) == Ok(chain[i]))
    && (forall i | 0 <= i < |chain| :: Follows(chain, i))
    && Distinct(chain)
  }

  /** The root that names a history. */
  function Tip(chain: seq<Node>): string {
    if chain == [] then "" else chain[|chain| - 1].hash
  }

  /** The walk from `root` given the roots already seen; the result is oldest first. */
  function Walk(env: Env, dir: Directory, root: string, seen: set<string>): Result<seq<Node>>
    decreases dir.Keys - seen
  {
    if root in seen then Err(Integrity)
    else
      match ReadNode(env, dir, root)
      case Err(error) => Err(error)
      case Ok(node) =>
        var parents := node.content.parents;
        if |parents| == 0 then Ok([node])
        else if |parents| > 1 then Err(Integrity)
        else if parents[0] == "" then Ok([node])
        else
          assert root in dir.Keys - seen && root !in dir.Keys - (seen + {root});
          Then(Walk(env, dir, parents[0], seen + {root}), [node])
  }

  function Then(older: Result<seq<Node>>, newer: seq<Node>): Result<seq<Node>> {
    match older
    case Ok(nodes) => Ok(nodes + newer)
    case Err(error) => Err(error)
  }

  function WalkFrom(env: Env, dir: Directory, root: string): Result<seq<Node>> {
    if root == "" then Ok([]) else Walk(env, dir, root, {})
  }

  lemma {:induction false} WalkIsSound(env: Env, dir: Directory, root: string, seen: set<string>)
    requires Walk(env, dir, root, seen).Ok?
    ensures var chain := Walk(env, dir, root, seen).value;
            chain != [] && Tip(chain) == root && Linked(env, dir, chain) &&
            forall i | 0 <= i < |chain| :: chain[i].hash !in seen
    decreases dir.Keys - seen
  {
    var node := ReadNode(env, dir, root).value;
    if !IsEnd(node) {
      assert root in dir.Keys - seen && root !in dir.Keys - (seen + {root});
      WalkIsSound(env, dir, node.content.parents[0], seen + {root});
      var older := Walk(env, dir, node.content.parents[0], seen + {root}).value;
      var chain := older + [node];
      assert node.content.parents == [Tip(older)];
      forall i | 0 <= i < |chain| ensures Follows(chain, i) {
        if i < |older| {
          assert Follows(older, i);
        }
      }
    }
  }

  lemma {:induction false} WalkIsComplete(env: Env, dir: Directory, chain: seq<Node>, seen: set<string>)
    requires chain != [] && Linked(env, dir, chain)
    requires forall i | 0 <= i < |chain| :: chain[i].hash !in seen
    ensures Walk(env, dir, Tip(chain), seen) == Ok(chain)
    decreases |chain|
  {
    var last := |chain| - 1;
    assert ReadNode(env, dir, chain[last].hash) == Ok(chain[last]);
    assert Follows(chain, last);
    if last > 0 {
      var older := chain[..last];
      assert ReadNode(env, dir, chain[last - 1].hash) == Ok(chain[last - 1]);
      PrefixIsLinked(env, dir, chain, last);
      WalkIsComplete(env, dir, older, seen + {Tip(chain)});
      assert chain == older + [chain[last]];
    } else {
      assert chain == [chain[0]];
    }
  }

  lemma PrefixIsLinked(env: Env, dir: Directory, chain: seq<Node>, k: nat)
    requires Linked(env, dir, chain) && k <= |chain|
    ensures Linked(env, dir, chain[..k])
  {
    forall i | 0 <= i < k ensures Follows(chain[..k], i) {
      assert Follows(chain, i);
    }
  }

  /** Total correctness of the walk, for every finite directory, cyclic or corrupt: it succeeds exactly
      when a linked chain leads to `root`, and then returns that chain, which is the only one. */
  lemma WalkSucceedsExactlyOnChains(env: Env, dir: Directory, root: string)
    ensures WalkFrom(env, dir, root).Ok? <==> exists chain :: Linked(env, dir, chain) && Tip(chain) == root
    ensures forall chain | Linked(env, dir, chain) && Tip(chain) == root :: WalkFrom(env, dir, root) == Ok(chain)
  {
    if root == "" {
      assert Linked(env, dir, []) && Tip([]) == root;
    } else if WalkFrom(env, dir, root).Ok? {
      WalkIsSound(env, dir, root, {});
      var chain := WalkFrom(env, dir, root).value;
      assert Linked(env, dir, chain) && Tip(chain) == root;
    }
    forall chain | Linked(env, dir, chain) && Tip(chain) == root
      ensures WalkFrom(env, dir, root) == Ok(chain)
    {
      ChainOfTip(env, dir, chain);
    }
  }

  /** A linked chain is what the walk from its tip returns. */
  lemma ChainOfTip(env: Env, dir: Directory, chain: seq<Node>)
    requires Linked(env, dir, chain)
    ensures Tip(chain) == "" <==> chain == []
    ensures WalkFrom(env, dir, Tip(chain)) == Ok(chain)
  {
    if chain != [] {
      assert ReadNode(env, dir, chain[|chain| - 1].hash).Ok?;
      WalkIsComplete(env, dir, chain, {});
    }
  }

  /** The last node of a chain names the tip of the chain before it. */
  lemma LastNode(env: Env, dir: Directory, chain: seq<Node>)
    requires Linked(env, dir, chain) && chain != []
    ensures var last, before := chain[|chain| - 1], chain[..|chain| - 1];
            && last.hash == env.hash(last.content)
            && (before == [] <==> IsEnd(last))
            && (before != [] ==> last.content.parents == [Tip(before)])
  {
    assert ReadNode(env, dir, chain[|chain| - 1].hash) == Ok(chain[|chain| - 1]);
    assert Follows(chain, |chain| - 1);
    if |chain| > 1 {
      assert ReadNode(env, dir, chain[|chain| - 2].hash).Ok?;
    }
  }

  lemma {:induction false} SameTipSameChain(env: Env, dir: Directory, dir': Directory, chain: seq<Node>,
                                            chain': seq<Node>)
    requires Linked(env, dir, chain) && Linked(env, dir', chain') && Tip(chain) == Tip(chain')
    ensures || chain == chain'
            || exists i, j ::
                 0 <= i < |chain| && 0 <= j < |chain'| && Collision(env, chain[i].content, chain'[j].content)
    decreases |chain|
  {
    ChainOfTip(env, dir, chain);
    ChainOfTip(env, dir', chain');
    if chain != [] {
      var i, j := |chain| - 1, |chain'| - 1;
      LastNode(env, dir, chain);
      LastNode(env, dir', chain');
      if chain[i].content == chain'[j].content {
        hide Linked, Follows, ReadNode;
        PrefixIsLinked(env, dir, chain, i);
        PrefixIsLinked(env, dir', chain', j);
        SameTipSameChain(env, dir, dir', chain[..i], chain'[..j]);
        assert chain == chain[..i] + [chain[i]] && chain' == chain'[..j] + [chain'[j]];
      } else {
        assert Collision(env, chain[i].content, chain'[j].content);
      }
    }
  }

  /** A root determines its history: two disks, however tampered with, on which the same root walks give
      the same nodes, unless the two walks show two different contents with the same hash. */
  lemma RootDeterminesHistory(env: Env, dir: Directory, dir': Directory, root: string)
    requires WalkFrom(env, dir, root).Ok? && WalkFrom(env, dir', root).Ok?
    ensures var chain, chain' := WalkFrom(env, dir, root).value, WalkFrom(env, dir', root).value;
            || chain == chain'
            || exists i, j ::
                 0 <= i < |chain| && 0 <= j < |chain'| && Collision(env, chain[i].content, chain'[j].content)
  {
    if root != "" {
      WalkIsSound(env, dir, root, {});
      WalkIsSound(env, dir', root, {});
      SameTipSameChain(env, dir, dir', WalkFrom(env, dir, root).value, WalkFrom(env, dir', root).value);
    }
  }

  /** Adding files to a directory without replacing any keeps every chain linked. */
  lemma GrowthKeepsLinks(env: Env, dir: Directory, dir': Directory, chain: seq<Node>)
    requires Linked(env, dir, chain)
    requires forall hash | hash in dir :: hash in dir' && dir'[hash] == dir[hash]
    ensures Linked(env, dir', chain)
  {
    forall i | 0 <= i < |chain| ensures ReadNode(env, dir', chain[i].hash) == Ok(chain[i]) {
      assert ReadNode(env, dir, chain[i].hash) == Ok(chain[i]);
    }
  }

  /** `nodesFromRoot` as the source runs it: collect newest first with a seen set, then reverse in place. */
  method NodesFromRoot(env: Env, dir: Directory, from: string) returns (r: Result<seq<Node>>)
    ensures r == WalkFrom(env, dir, from)
  {
    hide ReadNode;
    if from == "" {
      return Ok([]);
    }
    var reversed: seq<Node> := [];
    var seen: set<string> := {};
    var root := from;
    assert forall older: seq<Node> :: older + Reverse([]) == older;
    while root != ""
      invariant root != "" ==> WalkFrom(env, dir, from) == Then(Walk(env, dir, root, seen), Reverse(reversed))
      invariant root == "" ==> WalkFrom(env, dir, from) == Ok(Reverse(reversed))
      decreases root != "", dir.Keys - seen
    {
      if root in seen {
        return Err(Integrity);
      }
      var read := ReadNode(env, dir, root);
      if read.Err? {
        return Err(read.error);
      }
      var node := read.value;
      ReadNodeIsAFile(env, dir, root);
      assert Reverse(reversed + [node]) == [node] + Reverse(reversed);
      assert forall older: seq<Node> :: older + Reverse(reversed + [node]) == older + [node] + Reverse(reversed);
      assert root in dir.Keys - seen && root !in dir.Keys - (seen + {root});
      seen := seen + {root};
      reversed := reversed + [node];
      if |node.content.parents| == 0 {
        break;
      }
      if |node.content.parents| > 1 {
        return Err(Integrity);
      }
      root := node.content.parents[0];
    }
    var nodes := ReversedInPlace(reversed);
    return Ok(nodes);
  }

  lemma ReadNodeIsAFile(env: Env, dir: Directory, root: string)
    requires ReadNode(env, dir, root).Ok?
    ensures root in dir
  {
  }

  /** The loop that closes `nodesFromRoot`. */
  method ReversedInPlace(collected: seq<Node>) returns (reversed: seq<Node>)
    ensures reversed == Reverse(collected)
  {
    reversed := collected;
    var i, j := 0, |reversed| - 1;
    while i < j
      invariant |reversed| == |collected| && 0 <= i <= |reversed| && j == |reversed| - 1 - i
      invariant forall k | i <= k <= j :: reversed[k] == collected[k]
      invariant forall k | 0 <= k < |reversed| && !(i <= k <= j) :: reversed[k] == collected[|collected| - 1 - k]
    {
      reversed := reversed[i := reversed[j]][j := reversed[i]];
      i, j := i + 1, j - 1;
    }
  }

  ghost function Reverse(nodes: seq<Node>): seq<Node> {
    seq(|nodes|, k requires 0 <= k < |nodes| => nodes[|nodes| - 1 - k])
  }
}
