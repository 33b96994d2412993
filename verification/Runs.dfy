/** Runs of one store directory: opens, appends with every fault, closes and crashes in any order. */
module Runs {
  import opened Outcomes
  import opened Text
  import opened Records
  import opened Chains
  import opened Disks
  import opened Appends

  /** No open store, or one that indexes a history. Every public call holds the store's mutex, so calls of
      concurrent writers are steps in some order. */
  datatype Session = Closed | Opened(key: Key, indexed: seq<Node>)

  datatype System = System(disk: Disk, session: Session)

  datatype Step =
    | OpenStore(key: Key)
    | CloseStore
    | AppendAt(call: Call)
    | AppendIdempotent(call: Call, requestID: string, requestHash: string)
    | Crash(kept: set<string>, root: string, named: map<string, string>)

  predicate IsAppend(step: Step) {
    step.AppendAt? || step.AppendIdempotent?
  }

  /** The call of `append` that a step makes, if it makes one. */
  function CallIn(step: Step): Call
    requires IsAppend(step)
  {
    match step
    case AppendAt(call) => call
    case AppendIdempotent(call, id, hash) => WithRequest(call, Trim(id), Trim(hash))
  }

  function AttemptOf(env: Env, s: System, step: Step): Attempt
    requires s.session.Opened? && IsAppend(step)
  {
    match step
    case AppendAt(call) => Append(env, s.session.key, s.disk, s.session.indexed, call)
    case AppendIdempotent(call, id, hash) =>
      AppendOnce(env, s.session.key, s.disk, s.session.indexed, call, id, hash)
  }

  function Next(env: Env, s: System, step: Step): System {
    match step
    case OpenStore(key) =>
      if s.session.Opened? then s
      else
        (match Open(env, key, s.disk)
         case Ok(chain) => s.(session := Opened(key, chain))
         case Err(_) => s)
    case CloseStore => s.(session := Closed)
    case Crash(kept, root, named) => System(Crashed(s.disk, kept, root, named), Closed)
    case _ =>
      if s.session.Closed? then s
      else
        var attempt := AttemptOf(env, s, step);
        System(attempt.disk, Opened(s.session.key, attempt.indexed))
  }

  /** What the environment may do: a crash leaves a settled root, and a node file that an append finds
      already there is synced and holds the same node. */
  predicate Legal(env: Env, s: System, step: Step) {
    match step
    case Crash(_, root, _) => root in s.disk.settled
    case AppendAt(call) => s.session.Opened? ==> Admissible(env, s.session.key, s.disk, call)
    case AppendIdempotent(call, id, hash) =>
      s.session.Opened? ==> Admissible(env, s.session.key, s.disk, WithRequest(call, Trim(id), Trim(hash)))
    case _ => true
  }

  /** A request ID that the caller of `AppendAt` sets is empty or unused. */
  predicate CleanIDs(s: System, step: Step) {
    step.AppendAt? && s.session.Opened? ==> IsNewID(s.session.indexed, step.call.opts.requestID)
  }

  predicate IsNewID(indexed: seq<Node>, id: string) {
    id == "" || id !in Requests(indexed)
  }

  function Run(env: Env, s: System, steps: seq<Step>): System
    decreases |steps|
  {
    if steps == [] then s else Run(env, Next(env, s, steps[0]), steps[1..])
  }

  predicate LegalRun(env: Env, s: System, steps: seq<Step>)
    decreases |steps|
  {
    steps == [] || (Legal(env, s, steps[0]) && LegalRun(env, Next(env, s, steps[0]), steps[1..]))
  }

  predicate CleanRun(env: Env, s: System, steps: seq<Step>)
    decreases |steps|
  {
    steps == [] || (CleanIDs(s, steps[0]) && CleanRun(env, Next(env, s, steps[0]), steps[1..]))
  }

  const EMPTY_SYSTEM := System(EMPTY_DISK, Closed)

  /** `root` names one of the prefixes of `chain` that are at least `floor` long. */
  ghost predicate NamesPrefix(chain: seq<Node>, floor: nat, root: string) {
    exists k :: floor <= k <= |chain| && root == Tip(chain[..k])
  }

  /** The invariant: refs/root names `chain`, the whole chain is synced and verifies, a crash can leave only
      roots of its prefixes of at least `floor` nodes, and an open store indexes all of it but at most one
      last node. */
  ghost predicate Inv(env: Env, s: System, chain: seq<Node>, floor: nat) {
    var disk := s.disk;
    && floor <= |chain|
    && Linked(env, disk.nodes, chain)
    && disk.root == Tip(chain)
    && disk.root in disk.settled
    && disk.synced <= disk.nodes.Keys
    && (forall i | 0 <= i < |chain| :: chain[i].hash in disk.synced)
    && (forall root | root in disk.settled :: NamesPrefix(chain, floor, root))
    && (s.session.Opened? ==>
          var indexed := s.session.indexed;
          floor <= |indexed| && (indexed == chain || (|indexed| + 1 == |chain| && indexed == chain[..|indexed|])))
  }

  /** An append goes past its checks only when the index has the whole chain. */
  lemma IndexHasTheChain(env: Env, s: System, chain: seq<Node>, floor: nat)
    requires Inv(env, s, chain, floor) && s.session.Opened?
    requires s.disk.root == Tip(s.session.indexed)
    ensures s.session.indexed == chain
  {
    ChainOfTip(env, s.disk.nodes, chain);
    if s.session.indexed != chain {
      PrefixIsLinked(env, s.disk.nodes, chain, |chain| - 1);
      ChainOfTip(env, s.disk.nodes, chain[..|chain| - 1]);
    }
  }

  /** `node` is built on the tip of `chain`, and its file is absent, or synced and the same. */
  predicate Fits(env: Env, disk: Disk, chain: seq<Node>, node: Node) {
    && node.hash == env.hash(node.content)
    && node.content.parents == (if chain == [] then [] else [Tip(chain)])
    && (node.hash in disk.nodes ==> node.hash in disk.synced && disk.nodes[node.hash] == Stored(node))
  }

  /** A fitting node's hash is new to the history. */
  lemma FittingNodeIsNew(env: Env, disk: Disk, chain: seq<Node>, node: Node)
    requires Linked(env, disk.nodes, chain) && Fits(env, disk, chain, node)
    ensures forall i | 0 <= i < |chain| :: chain[i].hash != node.hash
  {
    NewHashOrCollision(env, disk.nodes, chain, node.content);
    forall i | 0 <= i < |chain| ensures chain[i].hash != node.hash {
      assert ReadNode(env, disk.nodes, chain[i].hash) == Ok(chain[i]);
    }
  }

  /** Writing the node file does not disturb the invariant, whatever fault stops it. */
  lemma CreatingKeepsInv(env: Env, s: System, chain: seq<Node>, floor: nat, node: Node, fault: Fault)
    requires Inv(env, s, chain, floor)
    ensures Inv(env, s.(disk := Created(s.disk, node, fault)), chain, floor)
  {
    GrowthKeepsLinks(env, s.disk.nodes, Created(s.disk, node, fault).nodes, chain);
  }

  /** Longer chains name the same prefixes. */
  lemma PrefixesPersist(chain: seq<Node>, longer: seq<Node>, floor: nat, root: string)
    requires NamesPrefix(chain, floor, root) && chain <= longer
    ensures NamesPrefix(longer, floor, root)
  {
    var k :| floor <= k <= |chain| && root == Tip(chain[..k]);
    assert longer[..k] == chain[..k];
  }

  /** A fitting node whose file is in place extends the chain. */
  lemma ExtendsChain(env: Env, disk: Disk, chain: seq<Node>, node: Node)
    requires Linked(env, disk.nodes, chain) && Fits(env, disk, chain, node) && node.hash in disk.nodes
    ensures Linked(env, disk.nodes, chain + [node])
  {
    var longer := chain + [node];
    FittingNodeIsNew(env, disk, chain, node);
    forall i | 0 <= i < |longer| ensures Follows(longer, i) {
      if i < |chain| {
        assert Follows(chain, i);
      }
    }
    forall i | 0 <= i < |longer| ensures ReadNode(env, disk.nodes, longer[i].hash) == Ok(longer[i]) {
      if i < |chain| {
        assert ReadNode(env, disk.nodes, chain[i].hash) == Ok(chain[i]);
      }
    }
  }

  /** Moving refs/root to a fitting node keeps the invariant, with and without the directory sync. */
  lemma RenamingKeepsInv(env: Env, s: System, chain: seq<Node>, floor: nat, node: Node, fault: Fault)
    requires Inv(env, s, chain, floor) && s.session.Opened? && s.session.indexed == chain
    requires Fits(env, s.disk, chain, node) && node.hash in s.disk.nodes && !fault.RootNotRenamed?
    ensures var disk' := Renamed(s.disk, node.hash, fault);
            && Inv(env, s.(disk := disk'), chain + [node], floor)
            && (!fault.RootNotSynced? ==>
                  Inv(env, System(disk', Opened(s.session.key, chain + [node])), chain + [node], |chain| + 1))
  {
    var disk', longer := Renamed(s.disk, node.hash, fault), chain + [node];
    ExtendsChain(env, s.disk, chain, node);
    assert longer[..|chain|] == chain && longer[..|longer|] == longer;
    forall root | root in disk'.settled ensures NamesPrefix(longer, floor, root) {
      if root == node.hash {
        assert root == Tip(longer[..|longer|]);
      } else {
        PrefixesPersist(chain, longer, floor, root);
      }
    }
    if !fault.RootNotSynced? {
      assert NamesPrefix(longer, |longer|, node.hash);
    }
  }

  /** One append attempt keeps the invariant; the chain stays, or grows by exactly the attempt's node. */
  lemma AppendKeepsInv(env: Env, s: System, chain: seq<Node>, floor: nat, call: Call) returns (chain': seq<Node>)
    requires Inv(env, s, chain, floor) && s.session.Opened?
    requires Admissible(env, s.session.key, s.disk, call)
    ensures var attempt := Append(env, s.session.key, s.disk, s.session.indexed, call);
            var s' := System(attempt.disk, Opened(s.session.key, attempt.indexed));
            && Inv(env, s', chain', floor)
            && (chain' == chain || (call.opts.payload.Some? && Trim(call.opts.kind) != "" &&
                                    s.session.indexed == chain &&
                                    chain' == chain + [NewNode(env, s.session.key, s.disk.root, call)]))
            && (attempt.result.Ok? ==> Inv(env, s', chain', |chain'|) && |chain'| == |chain| + 1 &&
                                       attempt.indexed == chain' && attempt.result.value == Receipt(Tip(chain'), false))
  {
    chain' := chain;
    var attempt := Append(env, s.session.key, s.disk, s.session.indexed, call);
    if Refusal(s.disk, s.session.indexed, call).None? {
      IndexHasTheChain(env, s, chain, floor);
      ChainOfTip(env, s.disk.nodes, chain);
      var node := NewNode(env, s.session.key, s.disk.root, call);
      assert Fits(env, s.disk, chain, node);
      hide Linked, Inv, Fits, NewNode, ReadNode;
      var linked := Created(s.disk, node, call.fault);
      CreatingKeepsInv(env, s, chain, floor, node, call.fault);
      if (node.hash in s.disk.nodes || IsCreated(s.disk, node, call.fault)) && !call.fault.RootNotRenamed? {
        RenamingKeepsInv(env, s.(disk := linked), chain, floor, node, call.fault);
        chain' := chain + [node];
      }
    }
  }

  /** `step` extends `chain` by the one node that it writes; under `AppendIdempotent` its request ID is new. */
  predicate Extends(env: Env, s: System, chain: seq<Node>, step: Step, chain': seq<Node>) {
    && s.session.Opened? && IsAppend(step) && CallIn(step).opts.payload.Some? && Trim(step.call.opts.kind) != ""
    && chain' == chain + [NewNode(env, s.session.key, s.disk.root, CallIn(step))]
    && (step.AppendIdempotent? ==> IsNewID(chain, Trim(step.requestID)))
  }

  /** One step of any kind keeps the invariant: the new chain agrees with the old one up to `floor`, and
      request IDs stay unique when those that callers set are empty or unused. */
  lemma StepKeepsInv(env: Env, s: System, chain: seq<Node>, floor: nat, step: Step) returns (chain': seq<Node>)
    requires Inv(env, s, chain, floor) && Legal(env, s, step)
    ensures Inv(env, Next(env, s, step), chain', floor)
    ensures chain'[..floor] == chain[..floor]
    ensures if step.Crash? then chain' <= chain else chain <= chain'
    ensures chain' <= chain || Extends(env, s, chain, step, chain')
    ensures UniqueRequests(chain) && CleanIDs(s, step) ==> UniqueRequests(chain')
  {
    hide Append, AppendOnce, Admissible, Linked, NewNode, UniqueRequests;
    chain' := chain;
    match step
    case OpenStore(key) =>
      ChainOfTip(env, s.disk.nodes, chain);
    case CloseStore =>
    case Crash(kept, root, named) =>
      var k :| floor <= k <= |chain| && root == Tip(chain[..k]);
      chain' := chain[..k];
      PrefixIsUnique(chain, k);
      CrashKeepsInv(env, s, chain, floor, step, k);
    case AppendAt(call) =>
      if s.session.Opened? {
        chain' := AppendAtKeepsInv(env, s, chain, floor, call);
      }
    case AppendIdempotent(call, id, hash) =>
      if s.session.Opened? {
        chain' := OnceKeepsInv(env, s, chain, floor, call, id, hash);
      }
  }

  lemma PrefixIsUnique(chain: seq<Node>, k: nat)
    requires k <= |chain|
    ensures UniqueRequests(chain) ==> UniqueRequests(chain[..k])
  {
  }

  lemma AppendAtKeepsInv(env: Env, s: System, chain: seq<Node>, floor: nat, call: Call) returns (chain': seq<Node>)
    requires Inv(env, s, chain, floor) && s.session.Opened?
    requires Admissible(env, s.session.key, s.disk, call)
    ensures var attempt := Append(env, s.session.key, s.disk, s.session.indexed, call);
            Inv(env, System(attempt.disk, Opened(s.session.key, attempt.indexed)), chain', floor)
    ensures chain' == chain || Extends(env, s, chain, AppendAt(call), chain')
    ensures UniqueRequests(chain) && IsNewID(s.session.indexed, call.opts.requestID) ==> UniqueRequests(chain')
  {
    hide Append, Admissible, Linked, NewNode;
    chain' := AppendKeepsInv(env, s, chain, floor, call);
    if chain' != chain {
      NewNodeCarriesRequest(env, s.session.key, s.disk.root, call);
      RequestsKnowsEveryID(chain, call.opts.requestID);
    }
  }

  lemma NewNodeCarriesRequest(env: Env, key: Key, root: string, call: Call)
    requires call.opts.payload.Some?
    ensures var content := NewNode(env, key, root, call).content;
            content.requestID == call.opts.requestID && content.requestHash == call.opts.requestHash
  {
  }

  lemma OnceKeepsInv(env: Env, s: System, chain: seq<Node>, floor: nat, call: Call, id: string, hash: string)
    returns (chain': seq<Node>)
    requires Inv(env, s, chain, floor) && s.session.Opened?
    requires Admissible(env, s.session.key, s.disk, WithRequest(call, Trim(id), Trim(hash)))
    ensures var attempt := AppendOnce(env, s.session.key, s.disk, s.session.indexed, call, id, hash);
            var s' := System(attempt.disk, Opened(s.session.key, attempt.indexed));
            && Inv(env, s', chain', floor)
            && (chain' == chain || Extends(env, s, chain, AppendIdempotent(call, id, hash), chain'))
            && (UniqueRequests(chain) ==> UniqueRequests(chain'))
            && (attempt.result.Ok? && !attempt.result.value.replayed ==>
                  && Inv(env, s', chain', |chain'|) && attempt.indexed == chain' && |chain'| == |chain| + 1
                  && Tip(chain') == attempt.result.value.hash
                  && chain'[|chain|].content.requestID == Trim(id) != ""
                  && chain'[|chain|].content.requestHash == Trim(hash))
  {
    hide Append, Admissible, Linked, NewNode;
    chain' := chain;
    var trimmed := Trim(id);
    if trimmed != "" && Trim(hash) != "" && trimmed !in Requests(s.session.indexed) {
      var request := WithRequest(call, trimmed, Trim(hash));
      chain' := AppendKeepsInv(env, s, chain, floor, request);
      if chain' != chain {
        NewNodeCarriesRequest(env, s.session.key, s.disk.root, request);
        RequestsKnowsEveryID(chain, trimmed);
      }
    }
  }

  lemma CrashKeepsInv(env: Env, s: System, chain: seq<Node>, floor: nat, step: Step, k: nat)
    requires Inv(env, s, chain, floor) && step.Crash?
    requires floor <= k <= |chain| && step.root == Tip(chain[..k])
    ensures Inv(env, Next(env, s, step), chain[..k], floor)
  {
    hide Append;
    var disk' := Next(env, s, step).disk;
    forall i | 0 <= i < k ensures ReadNode(env, disk'.nodes, chain[i].hash) == Ok(chain[i]) {
      assert ReadNode(env, s.disk.nodes, chain[i].hash) == Ok(chain[i]);
    }
    PrefixIsLinked(env, s.disk.nodes, chain, k);
    forall i | 0 <= i < k ensures Follows(chain[..k], i) {
    }
    assert chain[..k][..k] == chain[..k];
  }

  /** The invariant over a whole run. */
  lemma {:induction false} RunKeepsInv(env: Env, s: System, chain: seq<Node>, floor: nat, steps: seq<Step>)
    returns (chain': seq<Node>)
    requires Inv(env, s, chain, floor) && LegalRun(env, s, steps)
    ensures Inv(env, Run(env, s, steps), chain', floor)
    ensures chain'[..floor] == chain[..floor]
    ensures (forall i | 0 <= i < |steps| :: !steps[i].Crash?) ==> chain <= chain'
    ensures UniqueRequests(chain) && CleanRun(env, s, steps) ==> UniqueRequests(chain')
    decreases |steps|
  {
    chain' := chain;
    if steps != [] {
      var middle := StepKeepsInv(env, s, chain, floor, steps[0]);
      chain' := RunKeepsInv(env, Next(env, s, steps[0]), middle, floor, steps[1..]);
    }
  }

  /** `step` opens the store only with one of `keys`, and can only write nodes that fit. */
  ghost predicate WritesFitting(env: Env, keys: Key -> bool, fits: Node -> bool, step: Step) {
    && (step.OpenStore? ==> keys(step.key))
    && (IsAppend(step) && CallIn(step).opts.payload.Some? && Trim(step.call.opts.kind) != "" ==>
          forall key: Key, root: string | keys(key) :: fits(NewNode(env, key, root, CallIn(step))))
  }

  ghost predicate AllFit(fits: Node -> bool, chain: seq<Node>) {
    forall i | 0 <= i < |chain| :: fits(chain[i])
  }

  predicate OpenedWith(keys: Key -> bool, s: System) {
    s.session.Opened? ==> keys(s.session.key)
  }

  lemma StepKeepsFit(env: Env, keys: Key -> bool, fits: Node -> bool, s: System, chain: seq<Node>, step: Step)
    returns (chain': seq<Node>)
    requires Inv(env, s, chain, 0) && Legal(env, s, step) && WritesFitting(env, keys, fits, step)
    requires AllFit(fits, chain) && OpenedWith(keys, s)
    ensures Inv(env, Next(env, s, step), chain', 0)
    ensures AllFit(fits, chain') && OpenedWith(keys, Next(env, s, step))
    ensures UniqueRequests(chain) && CleanIDs(s, step) ==> UniqueRequests(chain')
  {
    hide Append, AppendOnce, Admissible, Linked, NewNode, UniqueRequests, Open, WalkFrom, Legal, CallIn;
    chain' := StepKeepsInv(env, s, chain, 0, step);
  }

  /** What every node that a run writes fits, every node of its history fits. */
  lemma {:induction false} EveryNodeFits(env: Env, keys: Key -> bool, fits: Node -> bool, s: System, chain: seq<Node>,
                                         steps: seq<Step>) returns (chain': seq<Node>)
    requires Inv(env, s, chain, 0) && LegalRun(env, s, steps)
    requires forall i | 0 <= i < |steps| :: WritesFitting(env, keys, fits, steps[i])
    requires AllFit(fits, chain) && OpenedWith(keys, s)
    ensures Inv(env, Run(env, s, steps), chain', 0)
    ensures AllFit(fits, chain') && OpenedWith(keys, Run(env, s, steps))
    ensures UniqueRequests(chain) && CleanRun(env, s, steps) ==> UniqueRequests(chain')
    decreases |steps|
  {
    chain' := chain;
    if steps != [] {
      var middle := StepKeepsFit(env, keys, fits, s, chain, steps[0]);
      hide Inv, Legal, AllFit, OpenedWith, WritesFitting, CleanIDs, Next;
      chain' := EveryNodeFits(env, keys, fits, Next(env, s, steps[0]), middle, steps[1..]);
    }
  }
}
