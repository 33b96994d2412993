/** The Store of storage.go: its fields, the calls that update them, and the calls that only read. */
module Stores {
  import opened Outcomes
  import opened Text
  import opened Records
  import opened Chains
  import opened Disks
  import opened Appends
  import opened Indexes
  import opened Paging
  import opened Payloads
  import opened Refs

  class Store {
    const env: Env
    const volume: Volume
    var key: Key
    var history: seq<string>
    var metadata: seq<Node>
    var historyIndex: map<string, int>
    var requestIndex: map<string, RequestRecord>
    /** The history that the four indexes shadow. */
    ghost var chain: seq<Node>

    ghost predicate Valid()
      reads this
    {
      && history == Hashes(chain)
      && metadata == Metadata(chain)
      && historyIndex == Positions(chain)
      && requestIndex == Requests(chain)
    }

    constructor (env: Env, volume: Volume)
      ensures this.env == env && this.volume == volume && chain == [] && Valid()
    {
      this.env, this.volume := env, volume;
      key, history, metadata, historyIndex, requestIndex, chain := [], [], [], map[], map[], [];
    }

    function IndexedRoot(): (root: string)
      requires Valid()
      reads this
      ensures root == Tip(chain)
    {
      if |history| == 0 then "" else history[|history| - 1]
    }

    /** Rebuilding fails when the walk fails or a request ID occurs twice; otherwise the four indexes shadow
        exactly the nodes on disk. */
    method RebuildIndexes() returns (r: Result<()>)
      modifies this
      ensures key == old(key)
      ensures match WalkFrom(env, volume.nodes, volume.root)
              case Err(error) => r == Err(error)
              case Ok(nodes) =>
                && (r.Ok? <==> UniqueRequests(nodes))
                && (r.Err? ==> r == Err(Integrity))
                && (r.Ok? ==> Valid() && chain == nodes)
    {
      hide WalkFrom, Hashes, Metadata, Positions, Requests, ReplayMetadata;
      assert Hashes([]) == [] && Metadata([]) == [] && Positions([]) == map[] && Requests([]) == map[] by {
        IndexesOfNothing();
      }
      var walk := NodesFromRoot(env, volume.nodes, volume.root);
      if walk.Err? {
        return Err(walk.error);
      }
      var nodes := walk.value;
      history, metadata, historyIndex, requestIndex := [], [], map[], map[];
      for i := 0 to |nodes|
        invariant key == old(key)
        invariant history == Hashes(nodes[..i]) && metadata == Metadata(nodes[..i])
        invariant historyIndex == Positions(nodes[..i]) && requestIndex == Requests(nodes[..i])
        invariant UniqueRequests(nodes[..i])
      {
        var node := nodes[i];
        assert nodes[..i + 1] == nodes[..i] + [node];
        ListsOfAppended(nodes[..i], node);
        MapsOfAppended(nodes[..i], node);
        RequestsKnowsEveryID(nodes[..i], node.content.requestID);
        history := history + [node.hash];
        metadata := metadata + [ReplayMetadata(node)];
        historyIndex := historyIndex[node.hash := i];
        if node.content.requestID != "" {
          if node.content.requestID in requestIndex {
            return Err(Integrity);
          }
          requestIndex := requestIndex[node.content.requestID := RequestRecord(node.hash, node.content.requestHash)];
        }
      }
      assert nodes[..|nodes|] == nodes;
      chain := nodes;
      return Ok(());
    }

    /** `openStore` once the lock is held: index the disk, then check that the key opens the head. */
    method OpenStore(dataKey: Key) returns (r: Result<()>)
      modifies this
      ensures match Open(env, dataKey, volume.State())
              case Err(error) => r == Err(error)
              case Ok(nodes) => r == Ok(()) && Valid() && chain == nodes && key == dataKey
    {
      key := dataKey;
      var rebuilt := RebuildIndexes();
      if rebuilt.Err? {
        return rebuilt;
      }
      if |history| > 0 {
        var head := ReadNode(env, volume.nodes, history[|history| - 1]);
        if head.Err? {
          // The walk has just read this node.
          HeadIsReadable(env, volume.nodes, volume.root);
          assert false;
        }
        HeadIsReadable(env, volume.nodes, volume.root);
        var payload := NodePayload(env, key, head.value);
        if payload.Err? {
          return Err(Integrity);
        }
      }
      return Ok(());
    }

    /** `append`, under `Append` and `AppendAt`. */
    method Append(call: Call) returns (r: Result<string>)
      requires Valid()
      modifies this`history, this`metadata, this`historyIndex, this`requestIndex, this`chain, volume
      ensures Valid()
      ensures var attempt := Appends.Append(env, key, old(volume.State()), old(chain), call);
              && volume.State() == attempt.disk && chain == attempt.indexed
              && r == match attempt.result { case Ok(receipt) => Ok(receipt.hash) case Err(error) => Err(error) }
    {
      hide Positions, Requests, Trim, Truncate, ReplayMetadata;
      var kind, entityID, command := Trim(call.opts.kind), Trim(call.opts.entityID), Trim(call.opts.command);
      if kind == "" {
        return Err(Validation);
      }
      if call.fault.RootUnreadable? {
        return Err(SystemError);
      }
      var root := volume.root;
      if root != IndexedRoot() {
        return Err(Integrity);
      }
      if call.expected.Some? && root != call.expected.value {
        return Err(Conflict);
      }
      var parents: seq<string> := [];
      if root != "" {
        parents := [root];
      }
      if call.opts.payload.None? || call.fault.NotEncoded? {
        return Err(SystemError);
      }
      var sealed := env.seal(key, call.nonce, call.opts.payload.value);
      var created := call.opts.createdAt;
      if created == ZERO_TIME {
        created := call.now;
      }
      created := Truncate(created);
      var content := Content(SCHEMA_VERSION, kind, entityID, parents, [], Some(sealed), call.ctx.actor, call.ctx.role,
                             command, created, call.opts.requestID, call.opts.requestHash);
      var hash := env.hash(content);
      var node := Node(hash, content);
      assert node == NewNode(env, key, root, call);
      if call.fault.NotExamined? {
        return Err(SystemError);
      }
      if hash !in volume.nodes {
        var created := volume.AtomicCreateNode(node, call.fault);
        if !created {
          return Err(SystemError);
        }
      }
      var written := volume.AtomicWriteRoot(hash, call.fault);
      if !written {
        return Err(SystemError);
      }
      IndexNode(node);
      return Ok(hash);
    }

    /** The last lines of `append`: the four indexes take up the committed node. */
    method IndexNode(node: Node)
      requires Valid()
      modifies this`history, this`metadata, this`historyIndex, this`requestIndex, this`chain
      ensures Valid() && chain == old(chain) + [node]
    {
      hide Hashes, Metadata, Positions, Requests, ReplayMetadata;
      ListsOfAppended(chain, node);
      MapsOfAppended(chain, node);
      historyIndex := historyIndex[node.hash := |history|];
      history := history + [node.hash];
      metadata := metadata + [ReplayMetadata(node)];
      if node.content.requestID != "" {
        requestIndex := requestIndex[node.content.requestID := RequestRecord(node.hash, node.content.requestHash)];
      }
      chain := chain + [node];
    }

    method AppendIdempotent(call: Call, requestID: string, requestHash: string) returns (r: Result<Receipt>)
      requires Valid()
      modifies this`history, this`metadata, this`historyIndex, this`requestIndex, this`chain, volume
      ensures Valid()
      ensures var attempt := AppendOnce(env, key, old(volume.State()), old(chain), call, requestID, requestHash);
              volume.State() == attempt.disk && chain == attempt.indexed && r == attempt.result
    {
      hide Appends.Append;
      var id, contentHash := Trim(requestID), Trim(requestHash);
      if id == "" || contentHash == "" {
        return Err(Validation);
      }
      if id in requestIndex {
        var record := requestIndex[id];
        if record.requestHash != contentHash {
          return Err(Conflict);
        }
        return Ok(Receipt(record.hash, true));
      }
      NewReceiptsAreNotReplayed(env, key, volume.State(), chain, WithRequest(call, id, contentHash));
      var appended := Append(WithRequest(call, id, contentHash));
      match appended {
        case Ok(hash) => return Ok(Receipt(hash, false));
        case Err(error) => return Err(error);
      }
    }

    method ContainsRoot(root: string) returns (r: Result<bool>)
      requires Valid()
      ensures r == if !ValidHash(Trim(root)) then Err(Validation)
                   else if volume.root != Tip(chain) then Err(Integrity)
                   else Ok(Trim(root) in Positions(chain))
      ensures r.Ok? && Linked(env, volume.nodes, chain) ==>
                (r.value <==> Reaches(env, volume.nodes, volume.root, Trim(root)))
    {
      var trimmed := Trim(root);
      if trimmed == "" {
        return Err(Validation);
      }
      if !ValidHash(trimmed) {
        return Err(Validation);
      }
      if volume.root != IndexedRoot() {
        return Err(Integrity);
      }
      if Linked(env, volume.nodes, chain) {
        IndexIsReachability(env, volume.nodes, chain, trimmed);
      }
      return Ok(trimmed in historyIndex);
    }

    /** `AuditLog`; on an intact disk it is the walk from the current root. */
    method AuditLog() returns (r: Result<seq<Node>>)
      requires Valid()
      ensures volume.root != Tip(chain) ==> r == Err(Integrity)
      ensures volume.root == Tip(chain) ==> r == ReadAll(env, volume.nodes, Hashes(chain))
      ensures volume.root == Tip(chain) && Linked(env, volume.nodes, chain) ==>
                r == WalkFrom(env, volume.nodes, volume.root) == Ok(chain)
    {
      if volume.root != IndexedRoot() {
        return Err(Integrity);
      }
      if Linked(env, volume.nodes, chain) {
        AuditIsTheWalk(env, volume.nodes, chain);
      }
      hide ReadNode, WalkFrom, Linked, Metadata, Positions, Requests, Hashes, Tip;
      var nodes := [];
      var hashes, dir := history, volume.nodes;
      assert hashes[..|hashes|] == hashes;
      for i := 0 to |hashes|
        invariant ReadAll(env, dir, hashes[..i]) == Ok(nodes)
      {
        assert hashes[..i + 1][..i] == hashes[..i];
        var node := ReadNode(env, dir, hashes[i]);
        if node.Err? {
          FirstFailureDecides(env, dir, hashes, i + 1);
          return Err(node.error);
        }
        nodes := nodes + [node.value];
      }
      return Ok(nodes);
    }

    method EventPageAt(after: string, observed: string, limit: Int64, metadataOnly: bool) returns (r: Result<EventPage>)
      requires Valid()
      ensures r == PageAt(env, volume.nodes, volume.root, chain, after, observed, limit, metadataOnly)
    {
      hide ValidHash, ReadAll, Metadata, Requests, Positions, Hashes, Wrap64;
      if limit < 1 {
        return Err(Validation);
      }
      var root := volume.root;
      if root != IndexedRoot() {
        return Err(Integrity);
      }
      var targetEnd := |history|;
      if observed != "" {
        if !ValidHash(observed) {
          return Err(Validation);
        }
        if observed !in historyIndex {
          return Err(Conflict);
        }
        PositionIsInRange(chain, observed);
        targetEnd := historyIndex[observed] + 1;
        root := observed;
      }
      var start := 0;
      if after != "" {
        if after !in historyIndex {
          return Err(NotFound);
        }
        PositionIsInRange(chain, after);
        if historyIndex[after] >= targetEnd {
          return Err(Conflict);
        }
        start := historyIndex[after] + 1;
      }
      var end: int := Wrap64(start + limit);
      if end < start {
        return Err(Panic);
      }
      if end > targetEnd {
        end := targetEnd;
      }
      var nodes := ReadWindow(start, end, metadataOnly);
      if nodes.Err? {
        return Err(nodes.error);
      }
      return Ok(EventPage(nodes.value, root, end < targetEnd));
    }

    /** The loop of `eventPageAt`. */
    method ReadWindow(start: nat, end: nat, metadataOnly: bool) returns (r: Result<seq<Node>>)
      requires Valid() && start <= end <= |history|
      ensures r == if metadataOnly then Ok(Metadata(chain)[start..end])
                   else ReadAll(env, volume.nodes, Hashes(chain)[start..end])
    {
      hide ReadNode, Positions, Requests;
      var selected := history[start..end];
      assert selected[..|selected|] == selected;
      var nodes := [];
      for offset := 0 to |selected|
        invariant metadataOnly ==> nodes == Metadata(chain)[start..start + offset]
        invariant !metadataOnly ==> ReadAll(env, volume.nodes, selected[..offset]) == Ok(nodes)
      {
        if metadataOnly {
          nodes := nodes + [ReplayMetadata(metadata[start + offset])];
        } else {
          assert selected[..offset + 1][..offset] == selected[..offset];
          var node := ReadNode(env, volume.nodes, selected[offset]);
          if node.Err? {
            FirstFailureDecides(env, volume.nodes, selected, offset + 1);
            return Err(node.error);
          }
          nodes := nodes + [node.value];
        }
      }
      return Ok(nodes);
    }

    method SelectPayloadEventIDs(ids: seq<string>, observed: string) returns (r: Result<seq<string>>)
      requires Valid()
      ensures r == if volume.root != Tip(chain) then Err(Integrity)
                   else
                     match SelectionError(chain, ids, observed)
                     case Some(error) => Err(error)
                     case None => Ok(ids)
    {
      if volume.root != IndexedRoot() {
        return Err(Integrity);
      }
      if observed !in historyIndex {
        return Err(Conflict);
      }
      var target := historyIndex[observed];
      var seen: set<string> := {};
      var selected: seq<string> := [];
      for i := 0 to |ids|
        invariant seen == set id | id in ids[..i]
        invariant selected == ids[..i]
        invariant FirstObjection(chain, ids, target, i).None?
      {
        var id := ids[i];
        assert FirstObjection(chain, ids, target, i + 1) == Objection(chain, ids, target, i);
        if !ValidHash(id) || id in seen || id !in historyIndex || historyIndex[id] > target {
          FirstObjectionDecides(chain, ids, target, i + 1, |ids|);
        }
        if !ValidHash(id) {
          return Err(Validation);
        }
        if id in seen {
          return Err(Validation);
        }
        seen := seen + {id};
        if id !in historyIndex {
          return Err(NotFound);
        }
        if historyIndex[id] > target {
          return Err(Conflict);
        }
        selected := selected + [id];
      }
      assert selected == ids;
      return Ok(selected);
    }

    /** `eventPayloadsWithReader`: the k-th read happens after the lock is released and sees `dirs[k]`. With a
        positive limit the running total never leaves the range of int64. */
    method EventPayloadsWithReader(ids: seq<string>, observed: string, maxBytes: Int64, dirs: seq<Directory>)
      returns (r: Result<seq<EventPayload>>)
      requires Valid() && |dirs| == |ids| && maxBytes >= 0
      ensures r == EventPayloads(env, key, volume.root, chain, dirs, ids, observed, maxBytes)
    {
      hide ReadNode, NodePayload, ValidHash, SelectionError, Positions, Requests, Metadata, Hashes, Wrap64, Collect,
        Size;
      if |ids| == 0 {
        return Err(Validation);
      }
      if !ValidHash(observed) {
        return Err(Validation);
      }
      var selection := SelectPayloadEventIDs(ids, observed);
      if selection.Err? {
        return Err(selection.error);
      }
      var selected := selection.value;
      var result: seq<EventPayload> := [];
      var payloadBytes: Int64 := 0;
      assert dirs[..|ids|] == dirs && ids[..|ids|] == ids;
      assert Collect(env, key, dirs[..0], ids[..0], maxBytes) == Ok([]) && Size([]) == 0 by {
        NothingCollected(env, key, maxBytes);
      }
      for k := 0 to |selected|
        invariant Collect(env, key, dirs[..k], ids[..k], maxBytes) == Ok(result)
        invariant maxBytes > 0 ==> payloadBytes == Size(result) <= maxBytes
      {
        CollectOneMore(env, key, dirs, ids, maxBytes, k);
        var node := ReadNode(env, dirs[k], selected[k]);
        if node.Err? {
          FirstReadDecides(env, key, dirs, ids, maxBytes, k + 1);
          return Err(node.error);
        }
        var payload := NodePayload(env, key, node.value);
        if payload.Err? {
          FirstReadDecides(env, key, dirs, ids, maxBytes, k + 1);
          return Err(payload.error);
        }
        var size: Int64 := |payload.value|;
        if maxBytes > 0 && size > maxBytes - payloadBytes {
          FirstReadDecides(env, key, dirs, ids, maxBytes, k + 1);
          return Err(Capacity);
        }
        payloadBytes := if maxBytes > 0 then payloadBytes + size else Wrap64(payloadBytes + size);
        var item := EventPayload(selected[k], payload.value);
        SizeOneMore(result, item);
        result := result + [item];
      }
      return Ok(result);
    }

    method WriteNamedRefAt(name: string, root: string, expected: string) returns (r: Result<()>)
      modifies volume`named
      ensures match WriteRefAt(env, volume.nodes, old(volume.named), name, root, expected)
              case Ok(named) => r == Ok(()) && volume.named == named
              case Err(error) => r == Err(error) && volume.named == old(volume.named)
    {
      TrimIsTrimmed(name);
      var trimmed := Trim(name);
      if !ValidRefName(trimmed) {
        return Err(Validation);
      }
      var current := if trimmed in volume.named then volume.named[trimmed] else "";
      if current != Trim(expected) {
        return Err(Conflict);
      }
      var target := Trim(root);
      if target == "" {
        return Err(Validation);
      }
      var node := ReadNode(env, volume.nodes, target);
      if node.Err? {
        return Err(if node.error == Missing then NotFound else node.error);
      }
      volume.AtomicWriteNamed(trimmed, target);
      return Ok(());
    }
  }

  lemma HeadIsReadable(env: Env, dir: Directory, root: string)
    requires WalkFrom(env, dir, root).Ok? && WalkFrom(env, dir, root).value != []
    ensures var chain := WalkFrom(env, dir, root).value;
            ReadNode(env, dir, chain[|chain| - 1].hash) == Ok(chain[|chain| - 1])
  {
    WalkIsSound(env, dir, root, {});
  }

  lemma NewReceiptsAreNotReplayed(env: Env, key: Key, disk: Disk, indexed: seq<Node>, call: Call)
    ensures var result := Appends.Append(env, key, disk, indexed, call).result; result.Ok? ==> !result.value.replayed
  {
    hide NewNode, Created, Renamed, Refusal;
  }

  lemma NothingCollected(env: Env, key: Key, maxBytes: int)
    ensures Collect(env, key, [], [], maxBytes) == Ok([]) && Size([]) == 0
  {
  }

  /** The first file that cannot be read decides the answer. */
  lemma {:induction false} FirstFailureDecides(env: Env, dir: Directory, hashes: seq<string>, n: nat)
    requires n <= |hashes| && ReadAll(env, dir, hashes[..n]).Err?
    ensures ReadAll(env, dir, hashes) == ReadAll(env, dir, hashes[..n])
  {
    if n == |hashes| {
      assert hashes[..n] == hashes;
    } else {
      var before := hashes[..|hashes| - 1];
      assert before[..n] == hashes[..n];
      FirstFailureDecides(env, dir, before, n);
    }
  }

  lemma {:induction false} FirstObjectionDecides(chain: seq<Node>, ids: seq<string>, target: int, k: nat, n: nat)
    requires k <= n <= |ids| && FirstObjection(chain, ids, target, k).Some?
    ensures FirstObjection(chain, ids, target, n) == FirstObjection(chain, ids, target, k)
  {
    if k < n {
      FirstObjectionDecides(chain, ids, target, k, n - 1);
    }
  }

  lemma {:induction false} FirstReadDecides(env: Env, key: Key, dirs: seq<Directory>, ids: seq<string>,
                                            maxBytes: int, n: nat)
    requires |dirs| == |ids| && n <= |ids| && Collect(env, key, dirs[..n], ids[..n], maxBytes).Err?
    ensures Collect(env, key, dirs, ids, maxBytes) == Collect(env, key, dirs[..n], ids[..n], maxBytes)
  {
    if n == |ids| {
      assert dirs[..n] == dirs && ids[..n] == ids;
    } else {
      var last := |ids| - 1;
      assert dirs[..last][..n] == dirs[..n] && ids[..last][..n] == ids[..n];
      FirstReadDecides(env, key, dirs[..last], ids[..last], maxBytes, n);
    }
  }
}
