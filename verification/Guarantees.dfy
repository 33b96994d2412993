/** What every run of the store guarantees: crash safety, durable idempotency, a root that never comes back,
    and an index that reopening does not change. */
module Guarantees {
  import opened Outcomes
  import opened Text
  import opened Records
  import opened Chains
  import opened Disks
  import opened Appends
  import opened Runs

  lemma EmptyStoreIsSafe(env: Env)
    ensures Inv(env, EMPTY_SYSTEM, [], 0) && UniqueRequests([])
  {
    assert NamesPrefix([], 0, "") by {
      assert "" == Tip([][..0]);
    }
  }

  /** Crash safety: after any run from the empty store, refs/root is empty or names a node whose whole
      parent chain is on disk and verifies; and whatever a crash then takes away, the walk still succeeds
      and gives a prefix of that chain. */
  lemma CrashSafety(env: Env, steps: seq<Step>)
    requires LegalRun(env, EMPTY_SYSTEM, steps)
    ensures var disk := Run(env, EMPTY_SYSTEM, steps).disk;
            && WalkFrom(env, disk.nodes, disk.root).Ok?
            && disk.root in disk.settled
            && forall kept, root, named | root in disk.settled ::
                 var after := Crashed(disk, kept, root, named);
                 && WalkFrom(env, after.nodes, after.root).Ok?
                 && WalkFrom(env, after.nodes, after.root).value <= WalkFrom(env, disk.nodes, disk.root).value
  {
    EmptyStoreIsSafe(env);
    var chain := RunKeepsInv(env, EMPTY_SYSTEM, [], 0, steps);
    var s := Run(env, EMPTY_SYSTEM, steps);
    ChainOfTip(env, s.disk.nodes, chain);
    forall kept, root, named | root in s.disk.settled
      ensures var after := Crashed(s.disk, kept, root, named);
              WalkFrom(env, after.nodes, after.root).Ok? && WalkFrom(env, after.nodes, after.root).value <= chain
    {
      var k := CrashLeavesPrefix(env, s, chain, 0, kept, root, named);
    }
  }

  /** After a crash the walk gives a prefix of the chain, at least `floor` long. */
  lemma CrashLeavesPrefix(env: Env, s: System, chain: seq<Node>, floor: nat, kept: set<string>, root: string,
                          named: map<string, string>) returns (k: nat)
    requires Inv(env, s, chain, floor) && root in s.disk.settled
    ensures floor <= k <= |chain| && root == Tip(chain[..k])
    ensures WalkFrom(env, Crashed(s.disk, kept, root, named).nodes, root) == Ok(chain[..k])
  {
    k :| floor <= k <= |chain| && root == Tip(chain[..k]);
    CrashKeepsInv(env, s, chain, floor, Crash(kept, root, named), k);
    ChainOfTip(env, Crashed(s.disk, kept, root, named).nodes, chain[..k]);
  }

  /** Whatever fault stops one append and whatever a crash then takes, the walk gives the history before
      the append or that history and the append's node. */
  ghost predicate LosesAtMostTheAppend(env: Env, s: System, chain: seq<Node>)
    requires s.session.Opened?
  {
    forall call, kept, root, named |
      && Admissible(env, s.session.key, s.disk, call)
      && root in Append(env, s.session.key, s.disk, s.session.indexed, call).disk.settled ::
      var after := Crashed(Append(env, s.session.key, s.disk, s.session.indexed, call).disk, kept, root, named);
      var walk := WalkFrom(env, after.nodes, after.root);
      || walk == Ok(chain)
      || (call.opts.payload.Some? && walk == Ok(chain + [NewNode(env, s.session.key, s.disk.root, call)]))
  }

  /** That needs refs/root to be settled: after a failed sync and a reopen, a crash can also take the node that the
      reopened store already showed. */
  lemma InterruptedAppendAt(env: Env, s: System, chain: seq<Node>)
    requires Inv(env, s, chain, 0) && s.session.Opened?
    ensures LosesAtMostTheAppend(env, s, chain) <==> s.disk.settled == {s.disk.root}
  {
    if s.disk.settled == {s.disk.root} {
      assert NamesPrefix(chain, |chain|, s.disk.root) by {
        assert chain[..|chain|] == chain;
      }
      forall call, kept, root, named |
        && Admissible(env, s.session.key, s.disk, call)
        && root in Append(env, s.session.key, s.disk, s.session.indexed, call).disk.settled
        ensures
          var after := Crashed(Append(env, s.session.key, s.disk, s.session.indexed, call).disk, kept, root, named);
          var walk := WalkFrom(env, after.nodes, after.root);
          || walk == Ok(chain)
          || (call.opts.payload.Some? && walk == Ok(chain + [NewNode(env, s.session.key, s.disk.root, call)]))
      {
        SyncedRootLosesNothing(env, s, chain, call, kept, root, named);
      }
    } else {
      UnsyncedRootRollsBack(env, s, chain);
    }
  }

  lemma SyncedRootLosesNothing(env: Env, s: System, chain: seq<Node>, call: Call, kept: set<string>, root: string,
                               named: map<string, string>)
    requires Inv(env, s, chain, 0) && s.session.Opened? && s.disk.settled == {s.disk.root}
    requires Admissible(env, s.session.key, s.disk, call)
    requires root in Append(env, s.session.key, s.disk, s.session.indexed, call).disk.settled
    ensures var after := Crashed(Append(env, s.session.key, s.disk, s.session.indexed, call).disk, kept, root, named);
            var walk := WalkFrom(env, after.nodes, after.root);
            || walk == Ok(chain)
            || (call.opts.payload.Some? && walk == Ok(chain + [NewNode(env, s.session.key, s.disk.root, call)]))
  {
    hide Append, NewNode, Linked, Admissible, WalkFrom, Crashed;
    var attempt := Append(env, s.session.key, s.disk, s.session.indexed, call);
    SettledAfterAppend(env, s, call);
    var chain' := AppendKeepsInv(env, s, chain, 0, call);
    var s' := System(attempt.disk, Opened(s.session.key, attempt.indexed));
    assert Linked(env, attempt.disk.nodes, chain') && attempt.disk.root == Tip(chain') && s.disk.root == Tip(chain);
    assert Crashed(attempt.disk, kept, root, named).root == root by {
      CrashSetsRoot(attempt.disk, kept, root, named);
    }
    hide Inv;
    var k := CrashLeavesPrefix(env, s', chain', 0, kept, root, named);
    assert chain <= chain' && chain'[..|chain|] == chain && chain'[..|chain'|] == chain';
    TipsAreUnique(env, attempt.disk.nodes, chain', k, if root == Tip(chain) then |chain| else |chain'|);
  }

  lemma CrashSetsRoot(disk: Disk, kept: set<string>, root: string, named: map<string, string>)
    ensures Crashed(disk, kept, root, named).root == root
  {
  }

  /** An append leaves refs/root at its value, or at one other value. */
  lemma SettledAfterAppend(env: Env, s: System, call: Call)
    requires s.session.Opened? && s.disk.settled == {s.disk.root}
    ensures var disk' := Append(env, s.session.key, s.disk, s.session.indexed, call).disk;
            forall root | root in disk'.settled :: root == s.disk.root || root == disk'.root
  {
  }

  /** Different prefixes of a chain have different tips. */
  lemma TipsAreUnique(env: Env, dir: Directory, chain: seq<Node>, k: nat, l: nat)
    requires Linked(env, dir, chain) && k <= |chain| && l <= |chain| && Tip(chain[..k]) == Tip(chain[..l])
    ensures k == l
  {
    PrefixIsLinked(env, dir, chain, k);
    PrefixIsLinked(env, dir, chain, l);
    ChainOfTip(env, dir, chain[..k]);
    ChainOfTip(env, dir, chain[..l]);
  }

  lemma UnsyncedRootRollsBack(env: Env, s: System, chain: seq<Node>)
    requires Inv(env, s, chain, 0) && s.session.Opened? && s.disk.settled != {s.disk.root}
    ensures !LosesAtMostTheAppend(env, s, chain)
  {
    var root :| root in s.disk.settled && root != s.disk.root;
    var k := CrashLeavesPrefix(env, s, chain, 0, {}, root, map[]);
    assert chain[..|chain|] == chain;
    var call := Call(Context("", ""), AppendOptions("", "", "", None, ZERO_TIME, "", ""), None, [], ZERO_TIME, NoFault);
    var attempt := Append(env, s.session.key, s.disk, s.session.indexed, call);
    assert attempt.disk == s.disk;
    assert Crashed(attempt.disk, {}, root, map[]).root == root;
  }

  /** `step` appended a new node. */
  predicate Committed(env: Env, s: System, step: Step) {
    && s.session.Opened? && (step.AppendAt? || step.AppendIdempotent?)
    && AttemptOf(env, s, step).result.Ok? && !AttemptOf(env, s, step).result.value.replayed
  }

  /** A committed append fixes its chain: no later crash goes below it. */
  lemma CommitFixesTheChain(env: Env, s: System, chain: seq<Node>, step: Step) returns (chain': seq<Node>)
    requires Inv(env, s, chain, 0) && Legal(env, s, step) && Committed(env, s, step)
    ensures Inv(env, Next(env, s, step), chain', |chain'|) && chain <= chain' && |chain'| == |chain| + 1
    ensures Tip(chain') == AttemptOf(env, s, step).result.value.hash
    ensures Next(env, s, step).session.Opened? && Next(env, s, step).session.indexed == chain'
  {
    hide Append, AppendOnce, Admissible, Linked;
    if step.AppendAt? {
      chain' := AppendKeepsInv(env, s, chain, 0, step.call);
    } else {
      chain' := OnceKeepsInv(env, s, chain, 0, step.call, step.requestID, step.requestHash);
    }
  }

  /** A committed append expected the root that it found. */
  lemma CommitExpectsTheRoot(env: Env, s: System, step: Step)
    requires Committed(env, s, step) && step.call.expected.Some?
    ensures step.call.expected.value == s.disk.root
  {
    hide NewNode, Created, Renamed, Requests;
  }

  /** The root never comes back: once an append committed, refs/root never again has the value from before it,
      whatever appends, faults, crashes and reopens follow. */
  lemma RootNeverReturns(env: Env, s: System, chain: seq<Node>, step: Step, later: seq<Step>)
    requires Inv(env, s, chain, 0) && Legal(env, s, step) && Committed(env, s, step)
    requires LegalRun(env, Next(env, s, step), later)
    ensures Run(env, Next(env, s, step), later).disk.root != s.disk.root
  {
    var chain' := CommitFixesTheChain(env, s, chain, step);
    var s' := Next(env, s, step);
    var final := RunKeepsInv(env, s', chain', |chain'|, later);
    var t := Run(env, s', later);
    ChainOfTip(env, t.disk.nodes, final);
    if chain != [] {
      assert final[|chain| - 1] == chain'[..|chain'|][|chain| - 1] == chain[|chain| - 1];
      assert Distinct(final);
    }
  }

  /** Each expected root is consumed by at most one new append in a whole run. */
  lemma ExpectedRootIsConsumedOnce(env: Env, s: System, chain: seq<Node>, first: Step, between: seq<Step>, second: Step)
    requires Inv(env, s, chain, 0) && Legal(env, s, first) && Committed(env, s, first)
    requires LegalRun(env, Next(env, s, first), between)
    requires var t := Run(env, Next(env, s, first), between); Legal(env, t, second) && Committed(env, t, second)
    requires first.call.expected.Some? && second.call.expected.Some?
    ensures first.call.expected != second.call.expected
  {
    hide Inv, Legal, LegalRun, Committed, Next;
    RootNeverReturns(env, s, chain, first, between);
    CommitExpectsTheRoot(env, s, first);
    CommitExpectsTheRoot(env, Run(env, Next(env, s, first), between), second);
  }

  /** Exactly-once appends. After a request committed, in every later state of every run with an open store:
      the live history has no request ID twice; the same retry returns the original hash as replayed; a
      different request hash conflicts; and neither changes anything. */
  lemma ExactlyOnce(env: Env, s: System, chain: seq<Node>, step: Step, later: seq<Step>, call: Call, hash: string)
    requires Inv(env, s, chain, 0) && UniqueRequests(chain) && Legal(env, s, step)
    requires step.AppendIdempotent? && Committed(env, s, step)
    requires LegalRun(env, Next(env, s, step), later) && CleanRun(env, Next(env, s, step), later)
    requires var t := Run(env, Next(env, s, step), later); t.session.Opened?
    requires Trim(hash) != ""
    ensures var t := Run(env, Next(env, s, step), later);
            var retry := AppendOnce(env, t.session.key, t.disk, t.session.indexed, call, step.requestID, hash);
            && WalkFrom(env, t.disk.nodes, t.disk.root).Ok?
            && UniqueRequests(WalkFrom(env, t.disk.nodes, t.disk.root).value)
            && retry.disk == t.disk && retry.indexed == t.session.indexed
            && retry.result == if Trim(hash) == Trim(step.requestHash)
                               then Ok(Receipt(AttemptOf(env, s, step).result.value.hash, true))
                               else Err(Conflict)
  {
    hide Append, Admissible, Run, LegalRun, Linked;
    var chain' := OnceKeepsInv(env, s, chain, 0, step.call, step.requestID, step.requestHash);
    var s' := Next(env, s, step);
    var final := RunKeepsInv(env, s', chain', |chain'|, later);
    var t := Run(env, s', later);
    ChainOfTip(env, t.disk.nodes, final);
    assert final[|chain|] == chain'[..|chain'|][|chain|] == chain'[|chain|];
    RequestsFindsItsNode(t.session.indexed, |chain|);
  }

  /** Reopening is unobservable: after a committed append the index is what a rebuild from the disk gives, and
      opening the store again with its key succeeds, with that same index, exactly when no request ID occurs
      twice. */
  lemma IndexEqualsRebuild(env: Env, s: System, chain: seq<Node>, step: Step)
    requires env.OpenUndoesSeal()
    requires Inv(env, s, chain, 0) && Legal(env, s, step) && Committed(env, s, step)
    ensures var t := Next(env, s, step);
            && WalkFrom(env, t.disk.nodes, t.disk.root) == Ok(t.session.indexed)
            && (Open(env, t.session.key, t.disk).Ok? <==> UniqueRequests(t.session.indexed))
            && (Open(env, t.session.key, t.disk).Ok? ==> Open(env, t.session.key, t.disk).value == t.session.indexed)
  {
    var chain' := CommitFixesTheChain(env, s, chain, step);
    var t := Next(env, s, step);
    ChainOfTip(env, t.disk.nodes, chain');
    HeadIsSealed(env, s, step);
  }

  lemma HeadIsSealed(env: Env, s: System, step: Step)
    requires env.OpenUndoesSeal() && Committed(env, s, step)
    ensures var indexed := Next(env, s, step).session.indexed;
            indexed != [] && NodePayload(env, s.session.key, indexed[|indexed| - 1]).Ok?
  {
    hide Created, Renamed, Requests, Trim, Truncate;
  }

  /** When a failed sync left refs/root ahead of the index, the open store refuses every new append and changes
      nothing until it is opened again. */
  lemma {:induction false} FailsClosed(env: Env, s: System, steps: seq<Step>)
    requires s.session.Opened? && s.disk.root != Tip(s.session.indexed)
    requires forall i | 0 <= i < |steps| :: steps[i].AppendAt? || steps[i].AppendIdempotent?
    ensures Run(env, s, steps) == s
    ensures forall i | 0 <= i < |steps| :: !Committed(env, s, steps[i])
    decreases |steps|
  {
    if steps != [] {
      RefusedAppendChangesNothing(env, s, steps[0]);
      hide Next, Committed;
      FailsClosed(env, s, steps[1..]);
      assert forall i | 1 <= i < |steps| :: steps[i] == steps[1..][i - 1];
    }
  }

  lemma RefusedAppendChangesNothing(env: Env, s: System, step: Step)
    requires s.session.Opened? && s.disk.root != Tip(s.session.indexed) && IsAppend(step)
    ensures Next(env, s, step) == s && !Committed(env, s, step)
  {
    hide NewNode, Created, Renamed, Requests;
  }

  /** Every crash keeps the whole history exactly when refs/root is settled. */
  lemma HistorySurvivesAt(env: Env, s: System, chain: seq<Node>)
    requires Inv(env, s, chain, 0)
    ensures (forall kept, root, named | root in s.disk.settled ::
               WalkFrom(env, Crashed(s.disk, kept, root, named).nodes, root) == Ok(chain))
            <==> s.disk.settled == {s.disk.root}
  {
    assert chain[..|chain|] == chain;
    if s.disk.settled == {s.disk.root} {
      ChainOfTip(env, s.disk.nodes, chain);
      forall kept, root, named | root in s.disk.settled
        ensures WalkFrom(env, Crashed(s.disk, kept, root, named).nodes, root) == Ok(chain)
      {
        CrashKeepsInv(env, s, chain, 0, Crash(kept, root, named), |chain|);
        ChainOfTip(env, Crashed(s.disk, kept, root, named).nodes, chain);
      }
    } else {
      var root :| root in s.disk.settled && root != s.disk.root;
      var k := CrashLeavesPrefix(env, s, chain, 0, {}, root, map[]);
    }
  }

  /** A replayed answer alone is not durable: the append of a first request fails at the sync of refs/root, the
      store is reopened, the retry is answered as replayed, and a crash then leaves an empty history. */
  lemma ReplayMayBeLost(env: Env, key: Key, call: Call)
    requires env.OpenUndoesSeal()
    requires Trim(call.opts.kind) != "" && call.opts.payload.Some? && call.expected == Some("")
    requires call.fault == RootNotSynced
    ensures var request := AppendIdempotent(call, "id", "hash");
            var s := Run(env, EMPTY_SYSTEM, [OpenStore(key), request, CloseStore, OpenStore(key)]);
            && LegalRun(env, EMPTY_SYSTEM, [OpenStore(key), request, CloseStore, OpenStore(key)])
            && s.session.Opened?
            && AttemptOf(env, s, request).result.Ok? && AttemptOf(env, s, request).result.value.replayed
            && Legal(env, s, Crash({}, "", map[]))
            && WalkFrom(env, Next(env, s, Crash({}, "", map[])).disk.nodes, "") == Ok([])
  {
    var request := AppendIdempotent(call, "id", "hash");
    var node := UnsyncedFirstRequest(env, key, call);
    var first := Next(env, EMPTY_SYSTEM, OpenStore(key));
    assert first == System(EMPTY_DISK, Opened(key, []));
    var failed := Next(env, first, request);
    hide Append, NewNode, NodePayload;
    var closed := Next(env, failed, CloseStore);
    ChainOfTip(env, closed.disk.nodes, [node]);
    var s := Next(env, closed, OpenStore(key));
    assert s.session == Opened(key, [node]);
    RequestsFindsItsNode([node], 0);
    TrimKeepsTrimmed("id");
    TrimKeepsTrimmed("hash");
    RunOfFour(env, EMPTY_SYSTEM, OpenStore(key), request, CloseStore, OpenStore(key));
  }

  /** The first request of a store, whose node is durable while the move of refs/root is not. */
  lemma UnsyncedFirstRequest(env: Env, key: Key, call: Call) returns (node: Node)
    requires env.OpenUndoesSeal()
    requires Trim(call.opts.kind) != "" && call.opts.payload.Some? && call.expected == Some("")
    requires call.fault == RootNotSynced
    ensures var s := System(EMPTY_DISK, Opened(key, []));
            var disk := Disk(map[node.hash := Stored(node)], {node.hash}, node.hash, {"", node.hash}, map[]);
            && Legal(env, s, AppendIdempotent(call, "id", "hash"))
            && Next(env, s, AppendIdempotent(call, "id", "hash")) == System(disk, Opened(key, []))
            && Linked(env, disk.nodes, [node]) && NodePayload(env, key, node).Ok?
            && node.content.requestID == "id" && node.content.requestHash == "hash"
  {
    TrimKeepsTrimmed("id");
    TrimKeepsTrimmed("hash");
    node := NewNode(env, key, "", WithRequest(call, "id", "hash"));
    var disk := Next(env, System(EMPTY_DISK, Opened(key, [])), AppendIdempotent(call, "id", "hash")).disk;
    assert disk == Disk(map[node.hash := Stored(node)], {node.hash}, node.hash, {"", node.hash}, map[]);
    assert ReadNode(env, disk.nodes, node.hash) == Ok(node);
  }

  lemma RunOfFour(env: Env, s: System, a: Step, b: Step, c: Step, d: Step)
    ensures var s1 := Next(env, s, a); var s2 := Next(env, s1, b); var s3 := Next(env, s2, c);
            && Run(env, s, [a, b, c, d]) == Next(env, s3, d)
            && (LegalRun(env, s, [a, b, c, d]) <==>
                  Legal(env, s, a) && Legal(env, s1, b) && Legal(env, s2, c) && Legal(env, s3, d))
  {
    var s1 := Next(env, s, a);
    var s2 := Next(env, s1, b);
    var s3 := Next(env, s2, c);
    assert [a, b, c, d][1..] == [b, c, d] && [b, c, d][1..] == [c, d] && [c, d][1..] == [d] && [d][1..] == [];
    assert Run(env, s3, [d]) == Next(env, s3, d);
    assert Run(env, s2, [c, d]) == Run(env, s3, [d]);
    assert Run(env, s1, [b, c, d]) == Run(env, s2, [c, d]);
    assert LegalRun(env, s3, [d]) <==> Legal(env, s3, d);
    assert LegalRun(env, s2, [c, d]) <==> Legal(env, s2, c) && LegalRun(env, s3, [d]);
    assert LegalRun(env, s1, [b, c, d]) <==> Legal(env, s1, b) && LegalRun(env, s2, [c, d]);
  }

  /** Without the premise that an existing node file is synced, crash safety fails: the node file was linked
      but its directory was not synced; the same append again finds it there, commits without syncing it, and a
      crash takes the node but not the root. */
  lemma UnsyncedNodeFileBreaksSafety(env: Env, key: Key, call: Call)
    requires Trim(call.opts.kind) != "" && call.opts.payload.Some? && call.expected == None
    requires call.fault == NodeNotSynced
    ensures var again := call.(fault := NoFault);
            var s := Next(env, System(EMPTY_DISK, Opened(key, [])), AppendAt(call));
            var t := Next(env, s, AppendAt(again));
            var after := Crashed(t.disk, {}, t.disk.root, map[]);
            && !Admissible(env, key, s.disk, again)
            && Committed(env, s, AppendAt(again))
            && t.disk.root in t.disk.settled
            && WalkFrom(env, after.nodes, after.root) == Err(Missing)
  {
    var node := NewNode(env, key, "", call);
    assert NewNode(env, key, "", call.(fault := NoFault)) == node;
    var s := Next(env, System(EMPTY_DISK, Opened(key, [])), AppendAt(call));
    assert s.disk == EMPTY_DISK.(nodes := map[node.hash := Stored(node)]);
  }

  lemma AppendOnlyGrows(env: Env, s: System, step: Step)
    requires s.session.Opened? && IsAppend(step)
    ensures var t := Next(env, s, step);
            && t.session.Opened? && t.session.key == s.session.key && s.session.indexed <= t.session.indexed
            && forall hash | hash in s.disk.nodes :: hash in t.disk.nodes && t.disk.nodes[hash] == s.disk.nodes[hash]
  {
    hide NewNode, Refusal, Requests;
  }

  /** While a store stays open its index only grows, whatever appends and faults interleave. */
  lemma {:induction false} SessionOnlyGrows(env: Env, s: System, steps: seq<Step>)
    requires s.session.Opened? && forall i | 0 <= i < |steps| :: IsAppend(steps[i])
    ensures var t := Run(env, s, steps);
            t.session.Opened? && t.session.key == s.session.key && s.session.indexed <= t.session.indexed
    ensures forall hash | hash in s.disk.nodes ::
              hash in Run(env, s, steps).disk.nodes && Run(env, s, steps).disk.nodes[hash] == s.disk.nodes[hash]
    decreases |steps|
  {
    if steps != [] {
      AppendOnlyGrows(env, s, steps[0]);
      hide Next;
      SessionOnlyGrows(env, Next(env, s, steps[0]), steps[1..]);
    }
  }
}
