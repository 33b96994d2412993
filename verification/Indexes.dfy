/** The in-memory indexes of a store as functions of the history they shadow. */
module Indexes {
  import opened Records
  import opened Chains
  import opened Appends

  function Hashes(chain: seq<Node>): (hashes: seq<string>)
    ensures |hashes| == |chain|
  {
    seq(|chain|, i requires 0 <= i < |chain| => chain[i].hash)
  }

  function Metadata(chain: seq<Node>): (nodes: seq<Node>)
    ensures |nodes| == |chain|
  {
    seq(|chain|, i requires 0 <= i < |chain| => ReplayMetadata(chain[i]))
  }

  /** `historyIndex`: the last position of each hash. */
  function Positions(chain: seq<Node>): map<string, int> {
    if chain == [] then map[]
    else Positions(chain[..|chain| - 1])[chain[|chain| - 1].hash := |chain| - 1]
  }

  lemma IndexesOfNothing()
    ensures Hashes([]) == [] && Metadata([]) == [] && Positions([]) == map[] && Requests([]) == map[]
  {
  }

  /** How the two lists take up one more node. */
  lemma ListsOfAppended(chain: seq<Node>, node: Node)
    ensures Hashes(chain + [node]) == Hashes(chain) + [node.hash]
    ensures Metadata(chain + [node]) == Metadata(chain) + [ReplayMetadata(node)]
  {
    hide ReplayMetadata;
  }

  /** How the two maps take up one more node. */
  lemma MapsOfAppended(chain: seq<Node>, node: Node)
    ensures Positions(chain + [node]) == Positions(chain)[node.hash := |chain|]
    ensures Requests(chain + [node]) ==
              if node.content.requestID == "" then Requests(chain)
              else Requests(chain)[node.content.requestID := RequestRecord(node.hash, node.content.requestHash)]
  {
    var longer := chain + [node];
    assert longer[..|longer| - 1] == chain && longer[|longer| - 1] == node;
  }

  lemma {:induction false} PositionsAreOccurrences(chain: seq<Node>, hash: string)
    ensures hash in Positions(chain) <==> exists i :: 0 <= i < |chain| && chain[i].hash == hash
    ensures hash in Positions(chain) ==>
              0 <= Positions(chain)[hash] < |chain| && chain[Positions(chain)[hash]].hash == hash
  {
    if chain != [] {
      PositionsAreOccurrences(chain[..|chain| - 1], hash);
      assert chain[|chain| - 1].hash == hash ==> exists i :: 0 <= i < |chain| && chain[i].hash == hash;
    }
  }

  lemma PositionIsInRange(chain: seq<Node>, hash: string)
    ensures hash in Positions(chain) ==> 0 <= Positions(chain)[hash] < |chain|
  {
    PositionsAreOccurrences(chain, hash);
  }

  /** In a history without repetition the index gives each hash its own position. */
  lemma PositionOf(chain: seq<Node>, i: nat)
    requires Distinct(chain) && i < |chain|
    ensures chain[i].hash in Positions(chain) && Positions(chain)[chain[i].hash] == i
  {
    PositionsAreOccurrences(chain, chain[i].hash);
  }

  /** Every hash of a shorter history keeps its position in a longer one. */
  lemma PositionsPersist(chain: seq<Node>, longer: seq<Node>, hash: string)
    requires Distinct(longer) && chain <= longer && hash in Positions(chain)
    ensures hash in Positions(longer) && Positions(longer)[hash] == Positions(chain)[hash]
  {
    PositionsAreOccurrences(chain, hash);
    var i := Positions(chain)[hash];
    assert longer[i] == chain[i];
    PositionOf(longer, i);
  }

  /** What membership in the index means on disk: the parent links from the current root lead to `hash`. */
  ghost predicate Reaches(env: Env, dir: Directory, root: string, hash: string) {
    exists chain: seq<Node>, i: int ::
      Linked(env, dir, chain) && Tip(chain) == root && 0 <= i < |chain| && chain[i].hash == hash
  }

  /** When the index agrees with the disk, membership in it is reachability by parent links. */
  lemma IndexIsReachability(env: Env, dir: Directory, chain: seq<Node>, hash: string)
    requires Linked(env, dir, chain)
    ensures hash in Positions(chain) <==> Reaches(env, dir, Tip(chain), hash)
  {
    PositionsAreOccurrences(chain, hash);
    if Reaches(env, dir, Tip(chain), hash) {
      var other: seq<Node>, i: int :|
        Linked(env, dir, other) && Tip(other) == Tip(chain) && 0 <= i < |other| && other[i].hash == hash;
      ChainOfTip(env, dir, chain);
      ChainOfTip(env, dir, other);
    }
  }
}
