/** Which appends succeed, what the others are answered, and what a committed node records, in terms of the caller's
    arguments. */
module Answers {
  import opened Outcomes
  import opened Text
  import opened Records
  import opened Chains
  import opened Disks
  import opened Appends
  import opened Runs
  import opened Guarantees

  /** Some event of the history carries `id`. */
  predicate Used(indexed: seq<Node>, id: string) {
    exists i :: 0 <= i < |indexed| && indexed[i].content.requestID == id
  }

  lemma UsedIsIndexed(indexed: seq<Node>, id: string)
    requires id != ""
    ensures Used(indexed, id) <==> id in Requests(indexed)
  {
    RequestsKnowsEveryID(indexed, id);
    hide Requests;
  }

  /** Without a fault, an append succeeds exactly when it has a type and a payload, disk and index agree, and the caller
      expects nothing or the current root. */
  lemma AppendSucceedsExactly(env: Env, s: System, call: Call)
    requires s.session.Opened? && call.fault.NoFault?
    ensures Committed(env, s, AppendAt(call)) <==>
              && Trim(call.opts.kind) != "" && call.opts.payload.Some?
              && s.disk.root == Tip(s.session.indexed)
              && (call.expected == None || call.expected == Some(s.disk.root))
  {
    hide NewNode, Trim;
  }

  /** A new request succeeds under the same conditions, when it has an ID and a hash and no event carries that ID. */
  lemma OnceSucceedsExactly(env: Env, s: System, call: Call, id: string, hash: string)
    requires s.session.Opened? && call.fault.NoFault?
    ensures Committed(env, s, AppendIdempotent(call, id, hash)) <==>
              && Trim(id) != "" && Trim(hash) != "" && !Used(s.session.indexed, Trim(id))
              && Trim(call.opts.kind) != "" && call.opts.payload.Some?
              && s.disk.root == Tip(s.session.indexed)
              && (call.expected == None || call.expected == Some(s.disk.root))
  {
    if Trim(id) != "" {
      UsedIsIndexed(s.session.indexed, Trim(id));
    }
    hide NewNode, Trim, Requests, Used;
  }

  /** `step` gets as far as comparing roots: it has a type, and a request that is new. */
  predicate ComparesRoots(s: System, step: Step)
    requires s.session.Opened? && IsAppend(step)
  {
    && Trim(step.call.opts.kind) != "" && !step.call.fault.RootUnreadable?
    && (step.AppendIdempotent? ==>
          && Trim(step.requestID) != "" && Trim(step.requestHash) != ""
          && !Used(s.session.indexed, Trim(step.requestID)))
  }

  /** An append that expects another root is answered with a conflict, and one that finds disk and index apart with an
      integrity error; neither changes anything. */
  lemma WrongRootIsRefused(env: Env, s: System, step: Step)
    requires s.session.Opened? && IsAppend(step) && ComparesRoots(s, step)
    ensures s.disk.root != Tip(s.session.indexed) ==>
              AttemptOf(env, s, step).result == Err(Integrity) && Next(env, s, step) == s
    ensures s.disk.root == Tip(s.session.indexed) &&
            step.call.expected.Some? && step.call.expected.value != s.disk.root ==>
              AttemptOf(env, s, step).result == Err(Conflict) && Next(env, s, step) == s
  {
    if step.AppendIdempotent? {
      UsedIsIndexed(s.session.indexed, Trim(step.requestID));
    }
    hide NewNode, Trim, Requests, Used;
  }

  /** The latest multiple of a microsecond that is not after `t`. */
  predicate IsMicrosecondOf(t: Time, stored: Time) {
    stored % 1000 == 0 && stored <= t < stored + 1000
  }

  /** `node` records an append of `ctx` with `opts`, made at `now` on top of `chain`. */
  ghost predicate RecordsAppend(env: Env, key: Key, chain: seq<Node>, ctx: Context, opts: AppendOptions, now: Time,
                                node: Node)
  {
    var content := node.content;
    && content.schema == 1
    && content.kind == Trim(opts.kind) && content.entityID == Trim(opts.entityID)
    && content.command == Trim(opts.command)
    && content.parents == (if chain == [] then [] else [chain[|chain| - 1].hash])
    && content.actor == ctx.actor && content.role == ctx.role
    && IsMicrosecondOf(if opts.createdAt == ZERO_TIME then now else opts.createdAt, content.createdAt)
    && content.payload == []
    && opts.payload.Some? && (env.OpenUndoesSeal() ==> NodePayload(env, key, node) == Ok(opts.payload.value))
  }

  /** A committed append adds one node to the history: it is the answer's, and it records the caller's arguments, with a
      payload that opens to the caller's and, under `AppendIdempotent`, the trimmed request. */
  lemma CommittedNode(env: Env, s: System, chain: seq<Node>, step: Step) returns (node: Node)
    requires Inv(env, s, chain, 0) && Legal(env, s, step) && Committed(env, s, step)
    ensures var after := Next(env, s, step).disk;
            WalkFrom(env, after.nodes, after.root) == Ok(chain + [node]) && after.root == node.hash
    ensures node.hash == AttemptOf(env, s, step).result.value.hash
    ensures RecordsAppend(env, s.session.key, chain, step.call.ctx, step.call.opts, step.call.now, node)
    ensures if step.AppendAt?
            then && node.content.requestID == step.call.opts.requestID
                 && node.content.requestHash == step.call.opts.requestHash
            else && node.content.requestID == Trim(step.requestID)
                 && node.content.requestHash == Trim(step.requestHash)
  {
    ChainOfTip(env, s.disk.nodes, chain);
    hide Append, AppendOnce, Admissible, Linked, Trim, Requests, CallIn, RecordsAppend, NewNode, WalkFrom, Next, Legal,
      Committed, AttemptOf;
    node := CommittedIsNew(env, s, chain, step);
    NewNodeRecords(env, s.session.key, chain, CallIn(step));
    CallInKeeps(step);
  }

  /** The node that a committed append adds is the one it built. */
  lemma CommittedIsNew(env: Env, s: System, chain: seq<Node>, step: Step) returns (node: Node)
    requires Inv(env, s, chain, 0) && Legal(env, s, step) && Committed(env, s, step)
    ensures CallIn(step).opts.payload.Some? && node == NewNode(env, s.session.key, s.disk.root, CallIn(step))
    ensures var after := Next(env, s, step).disk;
            WalkFrom(env, after.nodes, after.root) == Ok(chain + [node]) && after.root == node.hash
    ensures node.hash == AttemptOf(env, s, step).result.value.hash
  {
    hide Append, AppendOnce, Admissible, Linked, Trim, CallIn, NewNode, WalkFrom, Next, Legal, AttemptOf;
    var next := CommitFixesTheChain(env, s, chain, step);
    var chain' := StepKeepsInv(env, s, chain, 0, step);
    hide Committed;
    var t := Next(env, s, step);
    ChainOfTip(env, t.disk.nodes, next);
    ChainOfTip(env, t.disk.nodes, chain');
    node := next[|chain|];
  }

  lemma CallInKeeps(step: Step)
    requires IsAppend(step)
    ensures var call := CallIn(step);
            && call.ctx == step.call.ctx && call.now == step.call.now
            && call.opts == step.call.opts.(requestID := call.opts.requestID, requestHash := call.opts.requestHash)
            && call.opts.requestID == (if step.AppendAt? then step.call.opts.requestID else Trim(step.requestID))
            && call.opts.requestHash == (if step.AppendAt? then step.call.opts.requestHash else Trim(step.requestHash))
    ensures forall env, key, chain, node ::
              RecordsAppend(env, key, chain, CallIn(step).ctx, CallIn(step).opts, CallIn(step).now, node) ==
              RecordsAppend(env, key, chain, step.call.ctx, step.call.opts, step.call.now, node)
  {
    hide Trim, NodePayload;
  }

  lemma NewNodeRecords(env: Env, key: Key, chain: seq<Node>, call: Call)
    requires call.opts.payload.Some? && (Tip(chain) == "" <==> chain == [])
    ensures var node := NewNode(env, key, Tip(chain), call);
            && RecordsAppend(env, key, chain, call.ctx, call.opts, call.now, node)
            && node.content.requestID == call.opts.requestID && node.content.requestHash == call.opts.requestHash
  {
    hide Trim;
  }
}
