/** What an append does to the disk and to the indexed history: `append`, `AppendAt`, `AppendIdempotent`
    and `openStore`. */
module Appends {
  import opened Outcomes
  import opened Text
  import opened Records
  import opened Chains
  import opened Disks

  /** One call of `append` with what its environment contributes: a nonce, the clock and a fault. */
  datatype Call = Call(
    ctx: Context, opts: AppendOptions, expected: Option<string>, nonce: Nonce, now: Time, fault: Fault)

  datatype Receipt = Receipt(hash: string, replayed: bool)

  /** The answer of an append, the disk it leaves, and the history the open store then indexes. */
  datatype Attempt = Attempt(result: Result<Receipt>, disk: Disk, indexed: seq<Node>)

  /** The node that an append on `root` writes. */
  function NewNode(env: Env, key: Key, root: string, call: Call): Node
    requires call.opts.payload.Some?
  {
    NodeOf(env, NewContent(env, key, call.nonce, call.now, root, call.ctx, call.opts, call.opts.payload.value))
  }

  /** The checks of `append` before it writes anything. */
  function Refusal(disk: Disk, indexed: seq<Node>, call: Call): Option<ErrorCode> {
    if Trim(call.opts.kind) == "" then Some(Validation)
    else if call.fault.RootUnreadable? then Some(SystemError)
    else if disk.root != Tip(indexed) then Some(Integrity)
    else if call.expected.Some? && disk.root != call.expected.value then Some(Conflict)
    else if call.opts.payload.None? || call.fault.NotEncoded? || call.fault.NotExamined? then Some(SystemError)
    else None
  }

  /** `append` on a store that indexes `indexed`. */
  function Append(env: Env, key: Key, disk: Disk, indexed: seq<Node>, call: Call): Attempt {
    var refusal := Refusal(disk, indexed, call);
    if refusal.Some? then Attempt(Err(refusal.value), disk, indexed)
    else
      var node := NewNode(env, key, disk.root, call);
      var linked := Created(disk, node, call.fault);
      if node.hash !in disk.nodes && !IsCreated(disk, node, call.fault) then
        Attempt(Err(SystemError), linked, indexed)
      else
        var disk' := Renamed(linked, node.hash, call.fault);
        if call.fault.RootNotRenamed? || call.fault.RootNotSynced? then Attempt(Err(SystemError), disk', indexed)
        else Attempt(Ok(Receipt(node.hash, false)), disk', indexed + [node])
  }

  /** The record of each request ID; a later node with the same ID replaces an earlier one. */
  function Requests(chain: seq<Node>): map<string, RequestRecord> {
    if chain == [] then map[]
    else
      var node, before := chain[|chain| - 1], Requests(chain[..|chain| - 1]);
      if node.content.requestID == "" then before
      else before[node.content.requestID := RequestRecord(node.hash, node.content.requestHash)]
  }

  /** No two nodes carry the same request ID. */
  predicate UniqueRequests(chain: seq<Node>) {
    forall i, j | 0 <= i < j < |chain| && chain[i].content.requestID != "" ::
      chain[i].content.requestID != chain[j].content.requestID
  }

  function WithRequest(call: Call, id: string, requestHash: string): Call {
    call.(opts := call.opts.(requestID := id, requestHash := requestHash))
  }

  /** `AppendIdempotent`. */
  function AppendOnce(env: Env, key: Key, disk: Disk, indexed: seq<Node>, call: Call,
                      requestID: string, requestHash: string): Attempt
  {
    var id, hash := Trim(requestID), Trim(requestHash);
    if id == "" || hash == "" then Attempt(Err(Validation), disk, indexed)
    else if id in Requests(indexed) then
      var record := Requests(indexed)[id];
      if record.requestHash != hash then Attempt(Err(Conflict), disk, indexed)
      else Attempt(Ok(Receipt(record.hash, true)), disk, indexed)
    else Append(env, key, disk, indexed, WithRequest(call, id, hash))
  }

  /** `openStore` on a disk: the history that the new store indexes. */
  function Open(env: Env, key: Key, disk: Disk): Result<seq<Node>> {
    match WalkFrom(env, disk.nodes, disk.root)
    case Err(error) => Err(error)
    case Ok(chain) =>
      if !UniqueRequests(chain) then Err(Integrity)
      else if chain != [] && NodePayload(env, key, chain[|chain| - 1]).Err? then Err(Integrity)
      else Ok(chain)
  }

  /** The request index holds exactly the request IDs of the history. */
  lemma {:induction false} RequestsKnowsEveryID(chain: seq<Node>, id: string)
    ensures id in Requests(chain) <==> exists i :: 0 <= i < |chain| && chain[i].content.requestID == id != ""
  {
    if chain != [] {
      RequestsKnowsEveryID(chain[..|chain| - 1], id);
      var last := chain[|chain| - 1].content.requestID;
      assert last == id != "" ==> exists i :: 0 <= i < |chain| && chain[i].content.requestID == id != "";
    }
  }

  /** When request IDs are unique, the request index returns each node's own record. */
  lemma {:induction false} RequestsFindsItsNode(chain: seq<Node>, i: nat)
    requires UniqueRequests(chain) && i < |chain| && chain[i].content.requestID != ""
    ensures chain[i].content.requestID in Requests(chain)
    ensures Requests(chain)[chain[i].content.requestID] == RequestRecord(chain[i].hash, chain[i].content.requestHash)
  {
    if i < |chain| - 1 {
      RequestsFindsItsNode(chain[..|chain| - 1], i);
    }
  }

  predicate IsRecordOf(record: RequestRecord, id: string, node: Node) {
    node.content.requestID == id && record == RequestRecord(node.hash, node.content.requestHash)
  }

  /** Every record of the request index names a node of the history with that request. */
  lemma {:induction false} RequestsPointIntoHistory(chain: seq<Node>, id: string)
    requires id in Requests(chain)
    ensures exists i :: 0 <= i < |chain| && IsRecordOf(Requests(chain)[id], id, chain[i])
  {
    var last := |chain| - 1;
    if chain[last].content.requestID != id || id == "" {
      RequestsPointIntoHistory(chain[..last], id);
      var i :| 0 <= i < last && IsRecordOf(Requests(chain[..last])[id], id, chain[..last][i]);
      assert chain[i] == chain[..last][i];
    }
  }

  /** An appended node's hash is new to the history: equal content would force an equal parent, so a hash
      that occurs already shows a collision. */
  lemma NewHashOrCollision(env: Env, dir: Directory, chain: seq<Node>, content: Content)
    requires Linked(env, dir, chain)
    requires content.parents == if chain == [] then [] else [Tip(chain)]
    ensures forall i | 0 <= i < |chain| ::
              chain[i].hash != env.hash(content) || Collision(env, chain[i].content, content)
  {
    forall i | 0 <= i < |chain| ensures chain[i].content != content {
      assert ReadNode(env, dir, chain[|chain| - 1].hash).Ok?;
      assert Follows(chain, i);
    }
    forall i | 0 <= i < |chain| ensures chain[i].hash == env.hash(chain[i].content) {
      assert ReadNode(env, dir, chain[i].hash) == Ok(chain[i]);
    }
  }

  /** The premise on an append whose node file already exists (the code then neither writes nor syncs it):
      the entry is synced and holds this very node. A fresh nonce satisfies it. */
  predicate Admissible(env: Env, key: Key, disk: Disk, call: Call) {
    call.opts.payload.Some? ==>
      var node := NewNode(env, key, disk.root, call);
      node.hash in disk.nodes ==> node.hash in disk.synced && disk.nodes[node.hash] == Stored(node)
  }
}
