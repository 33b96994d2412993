/** What a client of the store can know from the answers it got: which appends are durable, whether an interrupted
    append can lose more than itself, whether the store opens again, and when a node file that is already there is
    safe. */
module Durability {
  import opened Outcomes
  import opened Text
  import opened Records
  import opened Chains
  import opened Disks
  import opened Appends
  import opened Runs
  import opened Guarantees

  /** What the answers of a run tell: whether the last append that moved refs/root answered with an error, and how
      long the history was at the last new append that succeeded, or that a crash left. */
  datatype Ledger = Ledger(unsynced: bool, durable: nat)

  const EMPTY_LEDGER := Ledger(false, 0)

  function Noted(env: Env, s: System, step: Step, ledger: Ledger): Ledger {
    var t := Next(env, s, step);
    if step.Crash? then
      match WalkFrom(env, t.disk.nodes, t.disk.root)
      case Ok(left) => Ledger(false, |left|)
      case Err(_) => EMPTY_LEDGER
    else if s.session.Closed? || !IsAppend(step) || t.disk.root == s.disk.root then ledger
    else if AttemptOf(env, s, step).result.Ok? && t.session.Opened? then Ledger(false, |t.session.indexed|)
    else ledger.(unsynced := true)
  }

  function LedgerOf(env: Env, s: System, steps: seq<Step>, ledger: Ledger): Ledger
    decreases |steps|
  {
    if steps == [] then ledger
    else LedgerOf(env, Next(env, s, steps[0]), steps[1..], Noted(env, s, steps[0], ledger))
  }

  /** The ledger is right: no crash goes below `durable`, some crash goes that far, and that is the whole history
      exactly when the last move of refs/root was answered with success. */
  ghost predicate Accurate(env: Env, s: System, chain: seq<Node>, ledger: Ledger) {
    && Inv(env, s, chain, ledger.durable)
    && Tip(chain[..ledger.durable]) in s.disk.settled
    && (ledger.unsynced <==> ledger.durable < |chain|)
  }

  lemma FloorMayDrop(env: Env, s: System, chain: seq<Node>, floor: nat, lower: nat)
    requires Inv(env, s, chain, floor) && lower <= floor
    ensures Inv(env, s, chain, lower)
  {
    forall root | root in s.disk.settled ensures NamesPrefix(chain, lower, root) {
      var k :| floor <= k <= |chain| && root == Tip(chain[..k]);
    }
  }

  /** A settled root fixes the whole chain while no store is open. */
  lemma SettledRootIsFloor(env: Env, s: System, chain: seq<Node>, floor: nat)
    requires Inv(env, s, chain, floor) && s.session.Closed? && s.disk.settled == {s.disk.root}
    ensures Inv(env, s, chain, |chain|)
  {
    assert chain[..|chain|] == chain;
    assert NamesPrefix(chain, |chain|, s.disk.root);
  }

  /** An append that does not commit takes no value from what refs/root may have, and a replayed answer changes
      nothing at all. */
  lemma UncommittedKeepsSettled(env: Env, s: System, step: Step)
    requires s.session.Opened? && IsAppend(step) && !Committed(env, s, step)
    ensures s.disk.settled <= Next(env, s, step).disk.settled
    ensures AttemptOf(env, s, step).result.Ok? ==> Next(env, s, step).disk == s.disk
  {
    hide NewNode, Requests, Refusal, Trim;
  }

  /** Longer chains have other tips. */
  lemma LongerMovesRoot(env: Env, dir: Directory, chain: seq<Node>, longer: seq<Node>)
    requires Linked(env, dir, longer) && chain <= longer && chain != longer
    ensures Tip(chain) != Tip(longer)
  {
    ChainOfTip(env, dir, longer);
    assert chain != [] ==> Tip(chain) == longer[|chain| - 1].hash;
  }

  lemma AppendKeepsAccurate(env: Env, s: System, chain: seq<Node>, step: Step, ledger: Ledger)
    returns (chain': seq<Node>)
    requires Accurate(env, s, chain, ledger) && Legal(env, s, step) && s.session.Opened? && IsAppend(step)
    ensures Accurate(env, Next(env, s, step), chain', Noted(env, s, step, ledger))
  {
    hide AttemptOf, Legal, Linked, Next;
    var t := Next(env, s, step);
    if Committed(env, s, step) {
      FloorMayDrop(env, s, chain, ledger.durable, 0);
      chain' := CommitFixesTheChain(env, s, chain, step);
      LongerMovesRoot(env, t.disk.nodes, chain, chain');
      assert chain'[..|chain'|] == chain';
    } else {
      chain' := StepKeepsInv(env, s, chain, ledger.durable, step);
      UncommittedKeepsSettled(env, s, step);
      assert chain'[..ledger.durable] == chain[..ledger.durable];
      if chain' != chain {
        LongerMovesRoot(env, t.disk.nodes, chain, chain');
      }
    }
  }

  lemma CrashKeepsAccurate(env: Env, s: System, chain: seq<Node>, step: Step, ledger: Ledger)
    returns (chain': seq<Node>)
    requires Accurate(env, s, chain, ledger) && Legal(env, s, step) && step.Crash?
    ensures Accurate(env, Next(env, s, step), chain', Noted(env, s, step, ledger))
  {
    hide Linked, WalkFrom;
    chain' := StepKeepsInv(env, s, chain, ledger.durable, step);
    var t := Next(env, s, step);
    SettledRootIsFloor(env, t, chain', ledger.durable);
    ChainOfTip(env, t.disk.nodes, chain');
    assert chain'[..|chain'|] == chain';
  }

  lemma {:induction false} LedgerIsAccurate(env: Env, s: System, chain: seq<Node>, steps: seq<Step>, ledger: Ledger)
    returns (chain': seq<Node>)
    requires Accurate(env, s, chain, ledger) && LegalRun(env, s, steps)
    ensures Accurate(env, Run(env, s, steps), chain', LedgerOf(env, s, steps, ledger))
    decreases |steps|
  {
    chain' := chain;
    if steps != [] {
      var step := steps[0];
      var middle := StepKeepsAccurate(env, s, chain, step, ledger);
      hide Accurate, Legal, Next, Noted;
      chain' := LedgerIsAccurate(env, Next(env, s, step), middle, steps[1..], Noted(env, s, step, ledger));
    }
  }

  lemma StepKeepsAccurate(env: Env, s: System, chain: seq<Node>, step: Step, ledger: Ledger) returns (chain': seq<Node>)
    requires Accurate(env, s, chain, ledger) && Legal(env, s, step)
    ensures Accurate(env, Next(env, s, step), chain', Noted(env, s, step, ledger))
  {
    if step.Crash? {
      chain' := CrashKeepsAccurate(env, s, chain, step, ledger);
    } else if s.session.Opened? && IsAppend(step) {
      chain' := AppendKeepsAccurate(env, s, chain, step, ledger);
    } else {
      hide Legal, Linked, Open;
      chain' := StepKeepsInv(env, s, chain, ledger.durable, step);
    }
  }

  /** The history that refs/root names, its ledger, and the state, after a run from the empty store. */
  lemma AfterRun(env: Env, steps: seq<Step>) returns (s: System, chain: seq<Node>, ledger: Ledger)
    requires LegalRun(env, EMPTY_SYSTEM, steps)
    ensures s == Run(env, EMPTY_SYSTEM, steps) && ledger == LedgerOf(env, EMPTY_SYSTEM, steps, EMPTY_LEDGER)
    ensures Accurate(env, s, chain, ledger) && Inv(env, s, chain, 0)
    ensures WalkFrom(env, s.disk.nodes, s.disk.root) == Ok(chain)
    ensures s.disk.settled == {s.disk.root} <==> !ledger.unsynced
  {
    hide Linked, LegalRun, Run, LedgerOf;
    EmptyStoreIsSafe(env);
    s, ledger := Run(env, EMPTY_SYSTEM, steps), LedgerOf(env, EMPTY_SYSTEM, steps, EMPTY_LEDGER);
    chain := LedgerIsAccurate(env, EMPTY_SYSTEM, [], steps, EMPTY_LEDGER);
    FloorMayDrop(env, s, chain, ledger.durable, 0);
    ChainOfTip(env, s.disk.nodes, chain);
    assert chain[..|chain|] == chain;
    if ledger.unsynced {
      assert chain[..ledger.durable] != chain;
      LongerMovesRoot(env, s.disk.nodes, chain[..ledger.durable], chain);
    } else {
      forall root | root in s.disk.settled ensures root == s.disk.root {
        assert NamesPrefix(chain, |chain|, root);
      }
    }
  }

  /** An interrupted append loses at most itself, whatever fault stops it and whatever a crash then takes, exactly when
      the last append that moved refs/root was answered with success, or a crash has come since. */
  lemma InterruptedAppendExactly(env: Env, steps: seq<Step>)
    requires LegalRun(env, EMPTY_SYSTEM, steps) && Run(env, EMPTY_SYSTEM, steps).session.Opened?
    ensures var s := Run(env, EMPTY_SYSTEM, steps);
            && WalkFrom(env, s.disk.nodes, s.disk.root).Ok?
            && (LosesAtMostTheAppend(env, s, WalkFrom(env, s.disk.nodes, s.disk.root).value) <==>
                  !LedgerOf(env, EMPTY_SYSTEM, steps, EMPTY_LEDGER).unsynced)
  {
    hide Accurate, Inv, LegalRun, Run, LedgerOf, LosesAtMostTheAppend;
    var s, chain, ledger := AfterRun(env, steps);
    InterruptedAppendAt(env, s, chain);
  }

  ghost predicate EveryCrashKeepsAll(env: Env, disk: Disk) {
    forall kept, root, named | root in disk.settled ::
      WalkFrom(env, Crashed(disk, kept, root, named).nodes, root) == WalkFrom(env, disk.nodes, disk.root)
  }

  /** Every crash keeps the whole history under the same condition. */
  lemma HistorySurvivesCrashExactly(env: Env, steps: seq<Step>)
    requires LegalRun(env, EMPTY_SYSTEM, steps)
    ensures EveryCrashKeepsAll(env, Run(env, EMPTY_SYSTEM, steps).disk) <==>
              !LedgerOf(env, EMPTY_SYSTEM, steps, EMPTY_LEDGER).unsynced
  {
    hide Accurate, Inv, LegalRun, Run, LedgerOf, WalkFrom, Crashed;
    var s, chain, ledger := AfterRun(env, steps);
    HistorySurvivesAt(env, s, chain);
  }

  predicate Shows(walk: Result<seq<Node>>, hash: string) {
    walk.Ok? && exists i :: 0 <= i < |walk.value| && walk.value[i].hash == hash
  }

  ghost predicate EveryCrashKeeps(env: Env, disk: Disk, hash: string) {
    forall kept, root, named | root in disk.settled ::
      Shows(WalkFrom(env, Crashed(disk, kept, root, named).nodes, root), hash)
  }

  /** Every crash keeps the event at a position exactly when it lies in the durable part of the history. */
  lemma EventSurvivesExactly(env: Env, s: System, chain: seq<Node>, ledger: Ledger, i: nat)
    requires Accurate(env, s, chain, ledger) && i < |chain|
    ensures EveryCrashKeeps(env, s.disk, chain[i].hash) <==> i < ledger.durable
  {
    hide WalkFrom, Crashed, NamesPrefix;
    var durable := ledger.durable;
    if i < durable {
      forall kept, root, named | root in s.disk.settled
        ensures Shows(WalkFrom(env, Crashed(s.disk, kept, root, named).nodes, root), chain[i].hash)
      {
        var k := CrashLeavesPrefix(env, s, chain, durable, kept, root, named);
        assert chain[..k][i] == chain[i];
      }
    } else {
      var root := Tip(chain[..durable]);
      var k := CrashLeavesPrefix(env, s, chain, durable, {}, root, map[]);
      TipsAreUnique(env, s.disk.nodes, chain, k, durable);
      assert !Shows(Ok(chain[..k]), chain[i].hash);
    }
  }

  /** An answer given as replayed is durable, so that every crash keeps its event, exactly when the event lies in the
      durable part of the history: some new append at or after it was answered with success, or a crash left it. */
  lemma ReplaySurvivesExactly(env: Env, steps: seq<Step>, request: Step) returns (i: nat)
    requires LegalRun(env, EMPTY_SYSTEM, steps) && Run(env, EMPTY_SYSTEM, steps).session.Opened?
    requires request.AppendIdempotent?
    requires var result := AttemptOf(env, Run(env, EMPTY_SYSTEM, steps), request).result;
             result.Ok? && result.value.replayed
    ensures var s := Run(env, EMPTY_SYSTEM, steps);
            var hash := AttemptOf(env, s, request).result.value.hash;
            && WalkFrom(env, s.disk.nodes, s.disk.root).Ok?
            && i < |WalkFrom(env, s.disk.nodes, s.disk.root).value|
            && WalkFrom(env, s.disk.nodes, s.disk.root).value[i].hash == hash
            && (EveryCrashKeeps(env, s.disk, hash) <==>
                  i < LedgerOf(env, EMPTY_SYSTEM, steps, EMPTY_LEDGER).durable)
  {
    hide LegalRun, Run, LedgerOf, WalkFrom, Linked, EveryCrashKeeps, AttemptOf;
    var s, chain, ledger := AfterRun(env, steps);
    ReplayedIsIndexed(env, s, request);
    RequestsPointIntoHistory(s.session.indexed, Trim(request.requestID));
    i :| 0 <= i < |s.session.indexed| &&
         IsRecordOf(Requests(s.session.indexed)[Trim(request.requestID)], Trim(request.requestID),
                    s.session.indexed[i]);
    assert chain[i] == s.session.indexed[i];
    EventSurvivesExactly(env, s, chain, ledger, i);
  }

  lemma ReplayedIsIndexed(env: Env, s: System, step: Step)
    requires s.session.Opened? && step.AppendIdempotent?
    requires AttemptOf(env, s, step).result.Ok? && AttemptOf(env, s, step).result.value.replayed
    ensures Trim(step.requestID) in Requests(s.session.indexed)
    ensures Requests(s.session.indexed)[Trim(step.requestID)] ==
            RequestRecord(AttemptOf(env, s, step).result.value.hash, Trim(step.requestHash))
  {
    hide Trim, Requests, NewNode, Created, Renamed, Refusal;
  }

  /** `call` moves refs/root: it passes its checks, and no fault stops it before the rename. */
  predicate MovesRoot(env: Env, s: System, call: Call)
    requires s.session.Opened?
  {
    && Refusal(s.disk, s.session.indexed, call).None? && !call.fault.RootNotRenamed?
    && var node := NewNode(env, s.session.key, s.disk.root, call);
       node.hash in s.disk.nodes || IsCreated(s.disk, node, call.fault)
  }

  /** Every crash that keeps the new root keeps the history it names. */
  ghost predicate NewRootSurvives(env: Env, s: System, chain: seq<Node>, call: Call)
    requires s.session.Opened? && call.opts.payload.Some?
  {
    var disk := Append(env, s.session.key, s.disk, s.session.indexed, call).disk;
    forall kept, named ::
      WalkFrom(env, Crashed(disk, kept, disk.root, named).nodes, disk.root) ==
      Ok(chain + [NewNode(env, s.session.key, s.disk.root, call)])
  }

  /** When a node file that is already there is safe: an append that moves refs/root leaves a root whose history
      every crash keeps exactly when that file is absent, or synced and holds this very node. */
  lemma NewRootIsSafeExactly(env: Env, s: System, chain: seq<Node>, call: Call)
    requires Inv(env, s, chain, 0) && s.session.Opened? && MovesRoot(env, s, call)
    ensures call.opts.payload.Some?
    ensures NewRootSurvives(env, s, chain, call) <==> Admissible(env, s.session.key, s.disk, call)
  {
    hide WalkFrom, Linked, Crashed;
    var node := NewNode(env, s.session.key, s.disk.root, call);
    var disk := Append(env, s.session.key, s.disk, s.session.indexed, call).disk;
    assert disk.root == node.hash && disk.root in disk.settled;
    IndexHasTheChain(env, s, chain, 0);
    if Admissible(env, s.session.key, s.disk, call) {
      AdmissibleRootSurvives(env, s, chain, call, node);
    }
    if NewRootSurvives(env, s, chain, call) && node.hash in s.disk.nodes {
      assert disk.nodes == s.disk.nodes && disk.synced == s.disk.synced;
      hide NewNode, Append, Inv;
      SurvivorsAreSynced(env, disk, chain, node);
    }
  }

  lemma AdmissibleRootSurvives(env: Env, s: System, chain: seq<Node>, call: Call, node: Node)
    requires Inv(env, s, chain, 0) && s.session.Opened? && MovesRoot(env, s, call)
    requires call.opts.payload.Some? && node == NewNode(env, s.session.key, s.disk.root, call)
    requires Admissible(env, s.session.key, s.disk, call)
    requires Append(env, s.session.key, s.disk, s.session.indexed, call).disk.root == node.hash
    requires node.hash in Append(env, s.session.key, s.disk, s.session.indexed, call).disk.settled
    ensures NewRootSurvives(env, s, chain, call)
  {
    IndexHasTheChain(env, s, chain, 0);
    ChainOfTip(env, s.disk.nodes, chain);
    assert Fits(env, s.disk, chain, node);
    hide NewNode, Append, WalkFrom, Linked, Crashed, MovesRoot, Admissible, Fits;
    var attempt := Append(env, s.session.key, s.disk, s.session.indexed, call);
    var chain' := AppendKeepsInv(env, s, chain, 0, call);
    var t := System(attempt.disk, Opened(s.session.key, attempt.indexed));
    FitsIsNotTip(env, s.disk, chain, node);
    assert chain' == chain + [node];
    forall kept, named
      ensures WalkFrom(env, Crashed(t.disk, kept, t.disk.root, named).nodes, t.disk.root) == Ok(chain')
    {
      var k := CrashLeavesPrefix(env, t, chain', 0, kept, t.disk.root, named);
      assert chain'[..|chain'|] == chain';
      TipsAreUnique(env, t.disk.nodes, chain', k, |chain'|);
    }
  }

  lemma FitsIsNotTip(env: Env, disk: Disk, chain: seq<Node>, node: Node)
    requires Linked(env, disk.nodes, chain) && Fits(env, disk, chain, node)
    ensures node.hash != Tip(chain)
  {
    FittingNodeIsNew(env, disk, chain, node);
    assert ValidHash(env.hash(node.content));
  }

  /** What survives the harshest crash is synced, and reads back as itself. */
  lemma SurvivorsAreSynced(env: Env, disk: Disk, chain: seq<Node>, node: Node)
    requires disk.root == node.hash && node.hash != ""
    requires WalkFrom(env, Crashed(disk, {}, disk.root, map[]).nodes, disk.root) == Ok(chain + [node])
    ensures node.hash in disk.synced && node.hash in disk.nodes && disk.nodes[node.hash] == Stored(node)
  {
    var dir := Crashed(disk, {}, disk.root, map[]).nodes;
    WalkIsSound(env, dir, disk.root, {});
    assert (chain + [node])[|chain|] == node;
    assert ReadNode(env, dir, node.hash) == Ok(node);
  }

  /** `step` opens the store with `key`, if it opens it. */
  predicate OneKey(key: Key, step: Step) {
    step.OpenStore? ==> step.key == key
  }

  predicate HeadOpens(env: Env, key: Key, chain: seq<Node>) {
    chain != [] ==> NodePayload(env, key, chain[|chain| - 1]).Ok?
  }

  /** The store opens exactly when no request ID occurs twice and the key opens the head. */
  lemma OpenOfChain(env: Env, key: Key, disk: Disk, chain: seq<Node>)
    requires Linked(env, disk.nodes, chain) && disk.root == Tip(chain)
    ensures Open(env, key, disk).Ok? <==> UniqueRequests(chain) && HeadOpens(env, key, chain)
    ensures Open(env, key, disk).Ok? ==> Open(env, key, disk) == Ok(chain)
    ensures WalkFrom(env, disk.nodes, disk.root) == Ok(chain)
  {
    hide Linked, NodePayload, UniqueRequests;
    ChainOfTip(env, disk.nodes, chain);
  }

  lemma NewNodeOpens(env: Env, key: Key, root: string, call: Call)
    requires env.OpenUndoesSeal() && call.opts.payload.Some?
    ensures NodePayload(env, key, NewNode(env, key, root, call)).Ok?
  {
    hide Trim, Truncate;
  }

  /** Reopening: after any run with one key, crashes and failed appends included, the store opens exactly when no
      request ID occurs twice in the history that refs/root names, and then shows that history. When the IDs that
      callers set are empty or unused, it always opens. */
  lemma RunReopensExactly(env: Env, key: Key, steps: seq<Step>)
    requires env.OpenUndoesSeal()
    requires LegalRun(env, EMPTY_SYSTEM, steps) && forall i | 0 <= i < |steps| :: OneKey(key, steps[i])
    ensures var disk := Run(env, EMPTY_SYSTEM, steps).disk;
            var walk := WalkFrom(env, disk.nodes, disk.root);
            && walk.Ok?
            && (Open(env, key, disk).Ok? <==> UniqueRequests(walk.value))
            && (Open(env, key, disk).Ok? ==> Open(env, key, disk) == walk)
            && (CleanRun(env, EMPTY_SYSTEM, steps) ==> Open(env, key, disk) == walk)
  {
    EmptyStoreIsSafe(env);
    var keys, opens := (k: Key) => k == key, (node: Node) => NodePayload(env, key, node).Ok?;
    forall i | 0 <= i < |steps| ensures WritesFitting(env, keys, opens, steps[i]) {
      var step := steps[i];
      assert OneKey(key, step);
      if IsAppend(step) && CallIn(step).opts.payload.Some? {
        forall k: Key, root: string | keys(k) ensures opens(NewNode(env, k, root, CallIn(step))) {
          NewNodeOpens(env, key, root, CallIn(step));
        }
      }
    }
    var chain := EveryNodeFits(env, keys, opens, EMPTY_SYSTEM, [], steps);
    hide LegalRun, Run, CleanRun, NodePayload, UniqueRequests, Linked, Open;
    assert chain != [] ==> opens(chain[|chain| - 1]);
    OpenOfChain(env, key, Run(env, EMPTY_SYSTEM, steps).disk, chain);
  }

  /** After any append, whatever its fault and its answer, the store opens again exactly when the request IDs before it
      were unique and: it left refs/root alone and the key opens the old head; or it moved refs/root and its request ID
      is empty or unused, as it always is under `AppendIdempotent`. */
  lemma ReopensExactly(env: Env, s: System, chain: seq<Node>, step: Step)
    requires env.OpenUndoesSeal()
    requires Inv(env, s, chain, 0) && Legal(env, s, step) && s.session.Opened? && IsAppend(step)
    ensures var t, key := Next(env, s, step), s.session.key;
            Open(env, key, t.disk).Ok? <==>
              UniqueRequests(chain) &&
              if t.disk.root == s.disk.root then HeadOpens(env, key, chain)
              else step.AppendAt? ==> IsNewID(chain, step.call.opts.requestID)
  {
    hide Open, Legal, Next, WalkFrom, Linked, NodePayload, CallIn, NewNode;
    var t, key := Next(env, s, step), s.session.key;
    var chain' := StepKeepsInv(env, s, chain, 0, step);
    OpenOfChain(env, key, t.disk, chain');
    if chain' == chain {
      assert t.disk.root == s.disk.root;
    } else {
      LongerMovesRoot(env, t.disk.nodes, chain, chain');
      var node := chain'[|chain|];
      NewNodeOpens(env, key, s.disk.root, CallIn(step));
      NewNodeCarriesRequest(env, key, s.disk.root, CallIn(step));
      CallInCarriesRequest(step);
      hide Inv, Requests;
      LongerIsUniqueExactly(chain, node);
    }
  }

  lemma CallInCarriesRequest(step: Step)
    requires IsAppend(step)
    ensures CallIn(step).opts.requestID == if step.AppendAt? then step.call.opts.requestID else Trim(step.requestID)
  {
  }

  lemma LongerIsUniqueExactly(chain: seq<Node>, node: Node)
    ensures UniqueRequests(chain + [node]) <==> UniqueRequests(chain) && IsNewID(chain, node.content.requestID)
  {
    var longer, id := chain + [node], node.content.requestID;
    RequestsKnowsEveryID(chain, id);
    hide Requests;
    if UniqueRequests(longer) {
      assert longer[|chain|] == node;
      forall i | 0 <= i < |chain| ensures chain[i].content.requestID != "" ==> chain[i].content.requestID != id {
        assert longer[i] == chain[i];
      }
      forall i, j | 0 <= i < j < |chain| && chain[i].content.requestID != ""
        ensures chain[i].content.requestID != chain[j].content.requestID
      {
        assert longer[i] == chain[i] && longer[j] == chain[j];
      }
    }
  }

  /** For instance, an append with a taken request ID moves refs/root, and then the store does not open again, whether
      the append was answered with success or failed at the directory sync. */
  lemma TakenIDBlocksReopening(env: Env, key: Key, first: Call, second: Call)
    requires env.OpenUndoesSeal()
    requires Plain(first) && first.fault.NoFault? && Plain(second)
    requires first.opts.requestID == second.opts.requestID == "id"
    requires var node := NewNode(env, key, "", first); NewNode(env, key, node.hash, second).hash != node.hash
    ensures var s := System(EMPTY_DISK, Opened(key, []));
            var t := Next(env, s, AppendAt(first));
            var u := Next(env, t, AppendAt(second));
            && Committed(env, s, AppendAt(first))
            && (Committed(env, t, AppendAt(second)) <==> second.fault.NoFault?)
            && Open(env, key, t.disk).Ok? && Open(env, key, u.disk).Err?
  {
    var s := System(EMPTY_DISK, Opened(key, []));
    EmptyStoreIsSafe(env);
    assert Inv(env, s, [], 0);
    var t := Next(env, s, AppendAt(first));
    PlainAppendMoves(env, s, first);
    var node := NewNode(env, key, "", first);
    PlainAppendMoves(env, t, second);
    var chain := CommitFixesTheChain(env, s, [], AppendAt(first));
    FloorMayDrop(env, t, chain, |chain|, 0);
    assert chain == [node];
    NewNodeCarriesRequest(env, key, "", first);
    RequestsFindsItsNode(chain, 0);
    hide Inv, Next, Legal, Committed, Open, Requests, NewNode, Plain;
    ReopensExactly(env, s, [], AppendAt(first));
    ReopensExactly(env, t, chain, AppendAt(second));
    NothingIsTaken();
  }

  lemma NothingIsTaken()
    ensures UniqueRequests([]) && forall id :: IsNewID([], id)
  {
  }

  /** An append without expectations whose only fault, if any, is at the directory sync of refs/root. */
  predicate Plain(call: Call) {
    && Trim(call.opts.kind) != "" && call.opts.payload.Some? && call.expected.None?
    && (call.fault.NoFault? || call.fault.RootNotSynced?)
  }

  lemma PlainAppendMoves(env: Env, s: System, call: Call)
    requires s.session.Opened? && s.disk.root == Tip(s.session.indexed) && Plain(call)
    requires NewNode(env, s.session.key, s.disk.root, call).hash !in s.disk.nodes
    ensures var node, t := NewNode(env, s.session.key, s.disk.root, call), Next(env, s, AppendAt(call));
            && Legal(env, s, AppendAt(call))
            && (Committed(env, s, AppendAt(call)) <==> call.fault.NoFault?)
            && t.session.Opened? && t.session.key == s.session.key
            && t.disk.root == node.hash
            && t.disk.nodes == s.disk.nodes[node.hash := Stored(node)]
            && (call.fault.NoFault? ==> t.session.indexed == s.session.indexed + [node])
  {
    hide NewNode, Trim;
  }
}
