/** Offline key migration: `migrateDataKey` rewrites the whole history under a new key and translates hashes and
    named refs. */
module Migration {
  import opened Outcomes
  import opened Text
  import opened Records
  import opened Chains
  import opened Disks
  import opened Appends
  import opened Runs
  import opened Guarantees
  import opened Indexes
  import opened Paging
  import opened Refs
  import opened Stores

  datatype MigrationInfo = MigrationInfo(
    sourceRoot: string, destinationRoot: string, nodes: nat, namedRefs: nat, hashMap: map<string, string>)

  /** The result and the first error of a migration; whether the destination directory is in place afterwards, and
      whether its store is still open. */
  datatype Outcome = Outcome(info: Option<MigrationInfo>, error: Option<ErrorCode>, present: bool, isOpen: bool)

  /** How the operating system answers the calls around the copying: creating the destination directory, closing its
      store, and removing the directory. */
  datatype Surroundings = Surroundings(created: bool, closed: bool, removed: bool)

  /** What the environment contributes to one append on the destination. */
  datatype Draw = Draw(nonce: Nonce, now: Time, fault: Fault)

  /** The append that carries `node`, whose payload opened to `payload`, to the destination. */
  function CarryingCall(env: Env, node: Node, payload: Bytes, draw: Draw, newRoot: string): Call {
    var content := node.content;
    Call(Context(content.actor, content.role),
         AppendOptions(content.kind, content.entityID, content.command, env.compact(payload), content.createdAt,
                       content.requestID, content.requestHash),
         Some(newRoot), draw.nonce, draw.now, draw.fault)
  }

  /** `copy` is the node that carrying `node` on top of `newRoot` writes. */
  ghost predicate Carried(env: Env, key: Key, newKey: Key, draw: Draw, newRoot: string, node: Node, copy: Node) {
    var payload := NodePayload(env, key, node);
    && payload.Ok?
    && env.compact(payload.value).Some?
    && copy == NewNode(env, newKey, newRoot, CarryingCall(env, node, payload.value, draw, newRoot))
  }

  /** Every node of `nodes` has been carried to the same position of `copies`. */
  ghost predicate Rewritten(env: Env, key: Key, newKey: Key, draws: seq<Draw>, nodes: seq<Node>, copies: seq<Node>) {
    && |copies| == |nodes| <= |draws|
    && forall i | 0 <= i < |nodes| :: Carried(env, key, newKey, draws[i], Tip(copies[..i]), nodes[i], copies[i])
  }

  /** The map from the hashes of the old history to the hashes of the new one. */
  function HashMap(hashes: seq<string>, copies: seq<Node>): map<string, string>
    requires |hashes| == |copies|
  {
    if hashes == [] then map[]
    else
      var last := |hashes| - 1;
      HashMap(hashes[..last], copies[..last])[hashes[last] := copies[last].hash]
  }

  /** Each named ref points to the translation of its old target, under its trimmed name; no other ref exists. */
  ghost predicate RefsTranslated(named: map<string, string>, hashMap: map<string, string>,
                                 copies: map<string, string>) {
    && (forall name | name in named ::
          named[name] in hashMap && Trim(name) in copies && copies[Trim(name)] == hashMap[named[name]])
    && (forall copy | copy in copies :: exists name :: name in named && copy == Trim(name))
    && (forall name, other | name in named && other in named && Trim(name) == Trim(other) :: name == other)
  }

  /** Two contents of the new history share a hash. */
  ghost predicate Collides(env: Env, chain: seq<Node>) {
    exists i, j :: 0 <= i < j < |chain| && Collision(env, chain[i].content, chain[j].content)
  }

  /** The destination while it is built: its history is linked, durable and the only thing on its disk, unless the
      history itself shows a collision. */
  ghost predicate Built(env: Env, key: Key, disk: Disk, chain: seq<Node>) {
    || Collides(env, chain)
    || (Inv(env, System(disk, Opened(key, chain)), chain, |chain|) &&
        forall hash | hash in disk.nodes :: exists i :: 0 <= i < |chain| && chain[i].hash == hash)
  }

  lemma NothingIsBuilt(env: Env, key: Key)
    ensures Built(env, key, EMPTY_DISK, [])
  {
    assert NamesPrefix([], 0, "") by {
      assert "" == Tip([][..0]);
    }
  }

  /** A committed append builds on. */
  lemma AppendBuilds(env: Env, key: Key, disk: Disk, chain: seq<Node>, call: Call)
    requires Built(env, key, disk, chain)
    requires Appends.Append(env, key, disk, chain, call).result.Ok?
    ensures var attempt := Appends.Append(env, key, disk, chain, call); Built(env, key, attempt.disk, attempt.indexed)
  {
    var attempt := Appends.Append(env, key, disk, chain, call);
    var node := NewNode(env, key, disk.root, call);
    CommitGrowsByOneNode(env, key, disk, chain, call);
    hide Appends.Append, NewNode;
    if Collides(env, chain) {
      CollisionPersists(env, chain, node);
    } else if node.hash in disk.nodes {
      ChainOfTip(env, disk.nodes, chain);
      NewHashOrCollision(env, disk.nodes, chain, node.content);
      var i :| 0 <= i < |chain| && chain[i].hash == node.hash;
      assert Collision(env, attempt.indexed[i].content, attempt.indexed[|chain|].content);
    } else {
      var s := System(disk, Opened(key, chain));
      var chain' := AppendKeepsInv(env, s, chain, |chain|, call);
      forall hash | hash in attempt.disk.nodes ensures exists i :: 0 <= i < |chain'| && chain'[i].hash == hash {
        if hash == node.hash {
          assert chain'[|chain|].hash == hash;
        } else {
          var i :| 0 <= i < |chain| && chain[i].hash == hash;
          assert chain'[i].hash == hash;
        }
      }
    }
  }

  lemma CollisionPersists(env: Env, chain: seq<Node>, node: Node)
    requires Collides(env, chain)
    ensures Collides(env, chain + [node])
  {
    var i, j :| 0 <= i < j < |chain| && Collision(env, chain[i].content, chain[j].content);
    assert Collision(env, (chain + [node])[i].content, (chain + [node])[j].content);
  }

  /** What a committed append adds to the index and to the disk. */
  lemma CommitGrowsByOneNode(env: Env, key: Key, disk: Disk, chain: seq<Node>, call: Call)
    requires Appends.Append(env, key, disk, chain, call).result.Ok?
    ensures disk.root == Tip(chain) && call.opts.payload.Some?
    ensures var attempt, node := Appends.Append(env, key, disk, chain, call), NewNode(env, key, disk.root, call);
            && attempt.indexed == chain + [node]
            && attempt.result.value.hash == node.hash == env.hash(node.content)
            && attempt.disk.root == node.hash && attempt.disk.named == disk.named
            && attempt.disk.nodes.Keys == disk.nodes.Keys + {node.hash}
            && node.content.parents == (if disk.root == "" then [] else [disk.root])
            && (node.hash !in disk.nodes ==> Admissible(env, key, disk, call))
  {
  }

  /** One carried node extends the new history, its hash map and what is built on disk. */
  lemma CarryOne(env: Env, key: Key, newKey: Key, draws: seq<Draw>, nodes: seq<Node>, node: Node, payload: Bytes,
                 disk: Disk, copies: seq<Node>)
    requires Rewritten(env, key, newKey, draws, nodes, copies) && |nodes| < |draws|
    requires NodePayload(env, key, node) == Ok(payload)
    requires Built(env, newKey, disk, copies)
    requires var call := CarryingCall(env, node, payload, draws[|nodes|], Tip(copies));
             Appends.Append(env, newKey, disk, copies, call).result.Ok?
    ensures var call := CarryingCall(env, node, payload, draws[|nodes|], Tip(copies));
            var attempt := Appends.Append(env, newKey, disk, copies, call);
            && Rewritten(env, key, newKey, draws, nodes + [node], attempt.indexed)
            && Built(env, newKey, attempt.disk, attempt.indexed)
            && attempt.disk.named == disk.named
            && |attempt.indexed| == |copies| + 1 && attempt.indexed[..|copies|] == copies
            && attempt.result.value.hash == Tip(attempt.indexed) && ValidHash(Tip(attempt.indexed))
  {
    var call := CarryingCall(env, node, payload, draws[|nodes|], Tip(copies));
    AppendBuilds(env, newKey, disk, copies, call);
    CommitGrowsByOneNode(env, newKey, disk, copies, call);
    var copy := NewNode(env, newKey, disk.root, call);
    assert Carried(env, key, newKey, draws[|nodes|], Tip(copies), node, copy);
    hide Appends.Append, NewNode, Built, NodePayload, Rewritten, Carried, CarryingCall;
    RewrittenMore(env, key, newKey, draws, nodes, copies, node, copy);
  }

  lemma RewrittenMore(env: Env, key: Key, newKey: Key, draws: seq<Draw>, nodes: seq<Node>, copies: seq<Node>,
                      node: Node, copy: Node)
    requires Rewritten(env, key, newKey, draws, nodes, copies) && |nodes| < |draws|
    requires Carried(env, key, newKey, draws[|nodes|], Tip(copies), node, copy)
    ensures Rewritten(env, key, newKey, draws, nodes + [node], copies + [copy])
  {
    hide Carried;
    var longer := copies + [copy];
    forall i | 0 <= i < |longer|
      ensures Carried(env, key, newKey, draws[i], Tip(longer[..i]), (nodes + [node])[i], longer[i])
    {
      if i < |copies| {
        assert longer[..i] == copies[..i];
      } else {
        assert longer[..i] == copies;
      }
    }
  }

  lemma NothingIsRewritten(env: Env, key: Key, newKey: Key, draws: seq<Draw>)
    ensures Rewritten(env, key, newKey, draws, [], [])
  {
  }

  lemma ReadOneMore(env: Env, dir: Directory, hashes: seq<string>, hash: string)
    requires ReadAll(env, dir, hashes).Ok? && ReadNode(env, dir, hash).Ok?
    ensures ReadAll(env, dir, hashes + [hash]) == Ok(ReadAll(env, dir, hashes).value + [ReadNode(env, dir, hash).value])
  {
    hide ReadNode;
    assert (hashes + [hash])[..|hashes|] == hashes;
  }

  lemma HashMapOneMore(hashes: seq<string>, hash: string, copies: seq<Node>, longer: seq<Node>)
    requires |hashes| == |copies| && |longer| == |copies| + 1 && longer[..|copies|] == copies
    ensures HashMap(hashes + [hash], longer) == HashMap(hashes, copies)[hash := Tip(longer)]
  {
    assert (hashes + [hash])[..|hashes|] == hashes;
  }

  lemma OpenEmpty(env: Env, key: Key)
    ensures Open(env, key, EMPTY_DISK) == Ok([])
  {
  }

  lemma BuiltIgnoresRefs(env: Env, key: Key, disk: Disk, chain: seq<Node>, named: map<string, string>)
    requires Built(env, key, disk, chain)
    ensures Built(env, key, disk.(named := named), chain)
  {
  }

  lemma NothingIsTranslated(hashMap: map<string, string>)
    ensures RefsTranslated(map[], hashMap, map[])
  {
  }

  /** One translated ref extends the translation. */
  lemma TranslateOne(env: Env, dir: Directory, named: map<string, string>, done: set<string>, name: string,
                     hashMap: map<string, string>, copies: map<string, string>)
    requires done <= named.Keys && name in named && name !in done && named[name] in hashMap
    requires forall hash | hash in hashMap :: ValidHash(hashMap[hash])
    requires RefsTranslated(map n | n in done :: named[n], hashMap, copies)
    requires WriteRefAt(env, dir, copies, name, hashMap[named[name]], "").Ok?
    ensures RefsTranslated(map n | n in done + {name} :: named[n], hashMap,
                           WriteRefAt(env, dir, copies, name, hashMap[named[name]], "").value)
  {
    TrimIsTrimmed(name);
    TrimKeepsTrimmed("");
    HashIsTrimmed(hashMap[named[name]]);
    assert WriteRefAt(env, dir, copies, name, hashMap[named[name]], "").value ==
           copies[Trim(name) := hashMap[named[name]]];
    hide Trim, WriteRefAt, ValidHash;
    NameIsFree(named, done, name, hashMap, copies);
    TranslationGrows(named, done, name, hashMap, copies);
  }

  /** An expected empty ref means that no translated name trims to the same name. */
  lemma NameIsFree(named: map<string, string>, done: set<string>, name: string, hashMap: map<string, string>,
                   copies: map<string, string>)
    requires done <= named.Keys
    requires forall hash | hash in hashMap :: ValidHash(hashMap[hash])
    requires RefsTranslated(map n | n in done :: named[n], hashMap, copies)
    requires CurrentRef(copies, Trim(name)) == ""
    ensures Trim(name) !in copies
  {
    hide Trim, ValidHash;
    if Trim(name) in copies {
      var before := map n | n in done :: named[n];
      var other :| other in before && Trim(name) == Trim(other);
      HashIsTrimmed(hashMap[before[other]]);
    }
  }

  lemma TranslationGrows(named: map<string, string>, done: set<string>, name: string, hashMap: map<string, string>,
                         copies: map<string, string>)
    requires done <= named.Keys && name in named && name !in done && named[name] in hashMap
    requires RefsTranslated(map n | n in done :: named[n], hashMap, copies)
    requires Trim(name) !in copies
    ensures RefsTranslated(map n | n in done + {name} :: named[n], hashMap, copies[Trim(name) := hashMap[named[name]]])
  {
    hide Trim;
    var before, after := map n | n in done :: named[n], map n | n in done + {name} :: named[n];
    var copies' := copies[Trim(name) := hashMap[named[name]]];
    forall copy | copy in copies' ensures exists n :: n in after && copy == Trim(n) {
      if copy == Trim(name) {
        assert name in after;
      } else {
        var n :| n in before && copy == Trim(n);
        assert n in after;
      }
    }
    assert forall n | n in before :: Trim(n) in copies;
    assert forall n | n in after :: n == name || n in before;
  }

  predicate WithoutFaults(draws: seq<Draw>) {
    forall i | 0 <= i < |draws| :: draws[i].fault.NoFault?
  }

  /** A node that a migration can carry: it reads back, its payload opens and is JSON, and it has a type. */
  predicate Carriable(env: Env, key: Key, dir: Directory, hash: string) {
    var node := ReadNode(env, dir, hash);
    && node.Ok? && Trim(node.value.content.kind) != ""
    && NodePayload(env, key, node.value).Ok? && env.compact(NodePayload(env, key, node.value).value).Some?
  }

  predicate AllCarriable(env: Env, key: Key, dir: Directory, history: seq<string>) {
    forall i | 0 <= i < |history| :: Carriable(env, key, dir, history[i])
  }

  lemma CarriableExactly(env: Env, key: Key, dir: Directory, hash: string)
    ensures Carriable(env, key, dir, hash) <==>
              && ReadNode(env, dir, hash).Ok?
              && NodePayload(env, key, ReadNode(env, dir, hash).value).Ok?
              && env.compact(NodePayload(env, key, ReadNode(env, dir, hash).value).value).Some?
              && Trim(ReadNode(env, dir, hash).value.content.kind) != ""
  {
    hide ReadNode, NodePayload, Trim;
  }

  /** Without a fault, carrying a node succeeds exactly when its payload is JSON and it has a type. */
  lemma CarryingSucceeds(env: Env, newKey: Key, disk: Disk, copies: seq<Node>, node: Node, payload: Bytes, draw: Draw)
    requires disk.root == Tip(copies)
    ensures var call := CarryingCall(env, node, payload, draw, Tip(copies));
            var result := Appends.Append(env, newKey, disk, copies, call).result;
            && (draw.fault.NoFault? ==> (result.Ok? <==> env.compact(payload).Some? && Trim(node.content.kind) != ""))
            && (result.Ok? ==> env.compact(payload).Some? && Trim(node.content.kind) != "")
  {
    hide NewNode, Trim;
  }

  /** Every file of a directory reads back. */
  predicate AllReadable(env: Env, dir: Directory) {
    forall hash | hash in dir :: ReadNode(env, dir, hash).Ok?
  }

  lemma NothingIsUnreadable(env: Env)
    ensures AllReadable(env, map[])
  {
  }

  lemma ReadableExactly(env: Env, dir: Directory)
    requires AllReadable(env, dir)
    ensures forall hash | hash in dir :: ReadNode(env, dir, hash).Ok?
  {
    hide ReadNode;
  }

  /** A committed append leaves every file readable, and its own node in place. */
  lemma CommitKeepsReadable(env: Env, key: Key, disk: Disk, chain: seq<Node>, call: Call)
    requires AllReadable(env, disk.nodes)
    requires Appends.Append(env, key, disk, chain, call).result.Ok?
    ensures var attempt := Appends.Append(env, key, disk, chain, call);
            && AllReadable(env, attempt.disk.nodes)
            && attempt.result.value.hash in attempt.disk.nodes
            && attempt.disk.root == attempt.result.value.hash
            && forall hash | hash in disk.nodes :: hash in attempt.disk.nodes
  {
    var attempt := Appends.Append(env, key, disk, chain, call);
    var node := NewNode(env, key, disk.root, call);
    assert node.hash == env.hash(node.content) && ValidHash(node.hash);
    assert attempt.disk.nodes == if node.hash in disk.nodes then disk.nodes else disk.nodes[node.hash := Stored(node)];
    hide Appends.Append, NewNode, ValidHash;
    forall hash | hash in attempt.disk.nodes ensures ReadNode(env, attempt.disk.nodes, hash).Ok? {
      assert hash in disk.nodes ==> ReadNode(env, disk.nodes, hash).Ok?;
    }
  }

  /** The history loop of `migrateDataKey`. */
  method CarryHistory(source: Store, destination: Store, draws: seq<Draw>) returns (r: Result<map<string, string>>)
    requires source != destination && source.volume != destination.volume && source.env == destination.env
    requires |draws| == |source.history|
    requires destination.Valid() && destination.chain == [] && destination.volume.State() == EMPTY_DISK
    modifies destination`history, destination`metadata, destination`historyIndex, destination`requestIndex,
             destination`chain, destination.volume
    ensures WithoutFaults(draws) ==>
              (r.Ok? <==> AllCarriable(source.env, source.key, source.volume.nodes, source.history))
    ensures r.Ok? ==> forall from | from in r.value :: ReadNode(source.env, destination.volume.nodes, r.value[from]).Ok?
    ensures r.Ok? ==>
              var env, copies := source.env, destination.chain;
              var nodes := ReadAll(source.env, source.volume.nodes, source.history);
              && destination.Valid() && nodes.Ok? && |copies| == |source.history|
              && Rewritten(env, source.key, destination.key, draws, nodes.value, copies)
              && Built(env, destination.key, destination.volume.State(), copies)
              && destination.volume.named == map[]
              && r.value == HashMap(source.history, copies)
              && forall from | from in r.value :: ValidHash(r.value[from])
  {
    hide Appends.Append, ReadNode, NodePayload, Positions, Requests, Hashes, Metadata, Carried, Built, Trim,
      ValidHash, Rewritten, CarryingCall, AllReadable, Carriable;
    var env := source.env;
    NothingIsUnreadable(env);
    NothingIsBuilt(env, destination.key);
    var rootMap: map<string, string> := map[];
    var newRoot := "";
    ghost var nodes: seq<Node> := [];
    NothingIsRewritten(env, source.key, destination.key, draws);
    assert source.history[..|source.history|] == source.history;
    for i := 0 to |source.history|
      invariant destination.Valid() && |destination.chain| == |nodes| == i
      invariant destination.volume.named == map[]
      invariant newRoot == Tip(destination.chain) == destination.volume.root
      invariant forall k | 0 <= k < i :: Carriable(env, source.key, source.volume.nodes, source.history[k])
      invariant AllReadable(env, destination.volume.nodes)
      invariant forall from | from in rootMap :: rootMap[from] in destination.volume.nodes
      invariant ReadAll(env, source.volume.nodes, source.history[..i]) == Ok(nodes)
      invariant Rewritten(env, source.key, destination.key, draws, nodes, destination.chain)
      invariant Built(env, destination.key, destination.volume.State(), destination.chain)
      invariant rootMap == HashMap(source.history[..i], destination.chain)
      invariant forall from | from in rootMap :: ValidHash(rootMap[from])
    {
      var hash := source.history[i];
      CarriableExactly(env, source.key, source.volume.nodes, hash);
      var node := ReadNode(env, source.volume.nodes, hash);
      if node.Err? {
        return Err(node.error);
      }
      var payload := NodePayload(env, source.key, node.value);
      if payload.Err? {
        return Err(payload.error);
      }
      var call := CarryingCall(env, node.value, payload.value, draws[i], newRoot);
      ghost var before, disk := destination.chain, destination.volume.State();
      CarryingSucceeds(env, destination.key, disk, before, node.value, payload.value, draws[i]);
      var appended := destination.Append(call);
      if appended.Err? {
        return Err(appended.error);
      }
      CarryOne(env, source.key, destination.key, draws, nodes, node.value, payload.value, disk, before);
      CommitKeepsReadable(env, destination.key, disk, before, call);
      assert source.history[..i + 1] == source.history[..i] + [hash];
      HashMapOneMore(source.history[..i], hash, before, destination.chain);
      ReadOneMore(env, source.volume.nodes, source.history[..i], hash);
      nodes := nodes + [node.value];
      rootMap := rootMap[hash := appended.value];
      newRoot := appended.value;
    }
    ReadableExactly(env, destination.volume.nodes);
    return Ok(rootMap);
  }

  /** Named refs that a migration can translate: valid names that stay different when trimmed, and known targets. */
  predicate Translatable(named: map<string, string>, targets: set<string>) {
    && (forall name | name in named :: ValidRefName(name) && named[name] in targets)
    && (forall name, other | name in named && other in named && Trim(name) == Trim(other) :: name == other)
  }

  lemma StrayIsUntranslatable(named: map<string, string>, name: string, targets: set<string>)
    requires name in named && named[name] !in targets
    ensures !Translatable(named, targets)
  {
  }

  lemma TranslatedIsValid(env: Env, dir: Directory, refs: map<string, string>, name: string, root: string)
    requires WriteRefAt(env, dir, refs, name, root, "").Ok?
    ensures ValidRefName(name)
  {
  }

  lemma TranslatedIsTranslatable(named: map<string, string>, hashMap: map<string, string>, copies: map<string, string>)
    requires RefsTranslated(named, hashMap, copies) && forall name | name in named :: ValidRefName(name)
    ensures Translatable(named, hashMap.Keys)
  {
    hide Trim, ValidRefName;
  }

  /** A ref whose target reads back is refused for its name, or for another name that trims to the same. */
  lemma RefusedIsUntranslatable(env: Env, dir: Directory, named: map<string, string>, done: set<string>, name: string,
                                hashMap: map<string, string>, copies: map<string, string>)
    requires done <= named.Keys && name in named && name !in done && named[name] in hashMap
    requires ValidHash(hashMap[named[name]]) && ReadNode(env, dir, hashMap[named[name]]).Ok?
    requires RefsTranslated(map n | n in done :: named[n], hashMap, copies)
    requires WriteRefAt(env, dir, copies, name, hashMap[named[name]], "").Err?
    ensures !Translatable(named, hashMap.Keys)
  {
    TrimIsTrimmed(name);
    TrimKeepsTrimmed("");
    HashIsTrimmed(hashMap[named[name]]);
    hide Trim, ReadNode, ValidHash;
    if ValidRefName(name) {
      assert Trim(name) in copies;
      var before := map n | n in done :: named[n];
      var other :| other in before && Trim(name) == Trim(other);
      assert other in named && other != name;
    }
  }

  /** The named-ref loop of `migrateDataKey`; the directory order of the refs does not matter. */
  method TranslateRefs(source: Store, destination: Store, rootMap: map<string, string>) returns (r: Result<nat>)
    requires source.volume != destination.volume && source.env == destination.env
    requires destination.volume.named == map[]
    requires forall from | from in rootMap :: ValidHash(rootMap[from])
    modifies destination.volume`named
    ensures (forall from | from in rootMap :: ReadNode(source.env, destination.volume.nodes, rootMap[from]).Ok?) ==>
              (r.Ok? <==> Translatable(source.volume.named, rootMap.Keys))
    ensures r.Ok? ==> r.value == |source.volume.named| &&
                      RefsTranslated(source.volume.named, rootMap, destination.volume.named)
  {
    hide ReadNode, Trim, ValidHash, WriteRefAt, RefsTranslated, ValidRefName, Translatable;
    NothingIsTranslated(rootMap);
    var namedRefs := 0;
    var names := source.volume.named.Keys;
    ghost var done: set<string> := {};
    while names != {}
      invariant names + done == source.volume.named.Keys && names !! done && namedRefs == |done|
      invariant RefsTranslated(map name | name in done :: source.volume.named[name], rootMap, destination.volume.named)
      invariant forall name | name in done :: ValidRefName(name)
      decreases names
    {
      var name :| name in names;
      var target := source.volume.named[name];
      if target !in rootMap {
        StrayIsUntranslatable(source.volume.named, name, rootMap.Keys);
        return Err(Integrity);
      }
      ghost var refs := destination.volume.named;
      var written := destination.WriteNamedRefAt(name, rootMap[target], "");
      if written.Err? {
        if ReadNode(source.env, destination.volume.nodes, rootMap[target]).Ok? {
          RefusedIsUntranslatable(source.env, destination.volume.nodes, source.volume.named, done, name, rootMap, refs);
        }
        return Err(written.error);
      }
      TranslatedIsValid(source.env, destination.volume.nodes, refs, name, rootMap[target]);
      TranslateOne(source.env, destination.volume.nodes, source.volume.named, done, name, rootMap, refs);
      names, done := names - {name}, done + {name};
      namedRefs := namedRefs + 1;
    }
    assert (map name | name in done :: source.volume.named[name]) == source.volume.named;
    assert |source.volume.named| == |source.volume.named.Keys|;
    TranslatedIsTranslatable(source.volume.named, rootMap, destination.volume.named);
    return Ok(namedRefs);
  }

  /** `migrateDataKey`, once the paths are checked: `newKey` is None when the new key does not decode. The source is
      only read. The deferred cleanup reads the flags that the body left: it closes the destination if it is open, and
      removes its directory unless the migration is complete. */
  method MigrateDataKey(source: Store, destination: Store, newKey: Option<Key>, draws: seq<Draw>, around: Surroundings)
    returns (outcome: Outcome)
    requires source != destination && source.volume != destination.volume && source.env == destination.env
    requires source.Valid() && |draws| == |source.history|
    requires destination.volume.State() == EMPTY_DISK
    modifies destination, destination.volume
    ensures source.volume.State() == old(source.volume.State()) && source.chain == old(source.chain)
    ensures !outcome.isOpen
    ensures outcome.info.None? ==> outcome.error.Some?
    ensures outcome.info.None? && around.removed ==> !outcome.present
    ensures WithoutFaults(draws) ==>
              (outcome.info.Some? <==>
                && around.created && newKey.Some?
                && source.volume.root == Tip(source.chain)
                && AllCarriable(source.env, source.key, source.volume.nodes, source.history)
                && Translatable(source.volume.named, set hash | hash in source.history))
    ensures outcome.info.Some? ==> outcome.present && outcome.error == if around.closed then None else Some(SystemError)
    ensures outcome.info.Some? ==>
              var env, copies := source.env, destination.chain;
              var nodes := ReadAll(env, source.volume.nodes, source.history);
              && source.volume.root == Tip(source.chain)
              && newKey.Some? && nodes.Ok? && |copies| == |source.history|
              && Rewritten(env, source.key, newKey.value, draws, nodes.value, copies)
              && Built(env, newKey.value, destination.volume.State(), copies)
              && outcome.info.value == MigrationInfo(source.volume.root, Tip(copies), |source.history|,
                                                     |source.volume.named|, HashMap(source.history, copies))
              && RefsTranslated(source.volume.named, HashMap(source.history, copies), destination.volume.named)
  {
    hide ReadAll, Positions, Requests, Hashes, Metadata, Rewritten, Built, Open, RefsTranslated, HashMap, ValidHash,
      AllCarriable, Translatable, ReadNode;
    var sourceRoot := source.volume.root;
    if sourceRoot != source.IndexedRoot() {
      return Outcome(None, Some(Integrity), false, false);
    }
    if !around.created {
      return Outcome(None, Some(Conflict), false, false);
    }
    var present, cleanupDestination, destinationOpen := true, true, false;
    var info: Option<MigrationInfo> := None;
    var error: Option<ErrorCode> := None;
    label Body: {
      if newKey.None? {
        error := Some(Validation);
        break Body;
      }
      OpenEmpty(source.env, newKey.value);
      var openResult := destination.OpenStore(newKey.value);
      destinationOpen := true;
      var rootMap := CarryHistory(source, destination, draws);
      if rootMap.Err? {
        error := Some(rootMap.error);
        break Body;
      }
      HashMapKeys(source.history, destination.chain);
      ghost var built := destination.volume.State();
      var namedRefs := TranslateRefs(source, destination, rootMap.value);
      if namedRefs.Err? {
        error := Some(namedRefs.error);
        break Body;
      }
      BuiltIgnoresRefs(source.env, newKey.value, built, destination.chain, destination.volume.named);
      info := Some(MigrationInfo(sourceRoot, destination.IndexedRoot(), |source.history|, namedRefs.value,
                                 rootMap.value));
      cleanupDestination := false;
      if !around.closed {
        destinationOpen := false;
        error := Some(SystemError);
        break Body;
      }
      destinationOpen := false;
    }
    if destinationOpen {
      destinationOpen := false;
      if !around.closed && error.None? {
        error := Some(SystemError);
      }
    }
    if cleanupDestination {
      present := !around.removed;
    }
    return Outcome(info, error, present, destinationOpen);
  }

  /** What a store written by this code holds at each position, and what a migration needs to keep it: trimmed texts,
      a whole non-zero microsecond, and a payload that opens to compact JSON. */
  predicate Faithful(env: Env, key: Key, node: Node) {
    var content, payload := node.content, NodePayload(env, key, node);
    && Trim(content.kind) == content.kind && Trim(content.entityID) == content.entityID
    && Trim(content.command) == content.command
    && content.createdAt != ZERO_TIME && Truncate(content.createdAt) == content.createdAt
    && payload.Ok? && env.compact(payload.value) == Some(payload.value)
  }

  /** Two nodes record the same event: everything but hashes, parents and ciphertext agrees. */
  predicate SameEvent(env: Env, key: Key, node: Node, newKey: Key, copy: Node) {
    var a, b := node.content, copy.content;
    && a.kind == b.kind && a.entityID == b.entityID && a.command == b.command
    && a.actor == b.actor && a.role == b.role && a.createdAt == b.createdAt
    && a.requestID == b.requestID && a.requestHash == b.requestHash
    && NodePayload(env, key, node) == NodePayload(env, newKey, copy)
  }

  /** The carried node records the same event exactly when the original is faithful. */
  lemma CarriedIsSameExactly(env: Env, key: Key, newKey: Key, draw: Draw, newRoot: string, node: Node, copy: Node)
    requires env.OpenUndoesSeal() && Truncate(draw.now) != ZERO_TIME
    requires Carried(env, key, newKey, draw, newRoot, node, copy)
    ensures SameEvent(env, key, node, newKey, copy) <==> Faithful(env, key, node)
  {
    hide Trim;
  }

  /** A node that this code wrote is faithful exactly when its time is not within a microsecond after the zero time
      and its payload was compact, as encoded payloads are. */
  lemma WrittenNodesAreFaithfulExactly(env: Env, key: Key, root: string, call: Call)
    requires env.OpenUndoesSeal() && call.opts.payload.Some?
    ensures Faithful(env, key, NewNode(env, key, root, call)) <==>
              && Truncate(if call.opts.createdAt == ZERO_TIME then call.now else call.opts.createdAt) != ZERO_TIME
              && env.compact(call.opts.payload.value) == call.opts.payload
  {
    TrimIsTrimmed(call.opts.kind);
    TrimIsTrimmed(call.opts.entityID);
    TrimIsTrimmed(call.opts.command);
    hide Trim;
  }

  /** The migrated store opens with its new key, and shows the new history, when the old one has no request ID twice. */
  lemma MigratedStoreOpens(env: Env, key: Key, newKey: Key, draws: seq<Draw>, nodes: seq<Node>, disk: Disk,
                           copies: seq<Node>)
    requires env.OpenUndoesSeal() && UniqueRequests(nodes)
    requires Rewritten(env, key, newKey, draws, nodes, copies) && Built(env, newKey, disk, copies) &&
             !Collides(env, copies)
    ensures Open(env, newKey, disk) == Ok(copies)
  {
    hide Collides, Linked, WalkFrom, Built;
    BuiltIsWalkable(env, newKey, disk, copies);
    forall i | 0 <= i < |nodes|
      ensures copies[i].content.requestID == nodes[i].content.requestID && NodePayload(env, newKey, copies[i]).Ok?
    {
      CarriedKeepsRequest(env, key, newKey, draws[i], Tip(copies[..i]), nodes[i], copies[i]);
    }
    hide Rewritten, NodePayload;
  }

  /** `step` opens the store with `key`, or brings a node that a migration keeps: its time is not the zero time and its
      payload is compact. */
  predicate BringsFaithful(env: Env, key: Key, step: Step) {
    match step
    case OpenStore(other) => other == key
    case AppendAt(call) => FaithfulCall(env, call)
    case AppendIdempotent(call, _, _) => FaithfulCall(env, call)
    case _ => true
  }

  predicate FaithfulCall(env: Env, call: Call) {
    call.opts.payload.Some? ==>
      && Truncate(if call.opts.createdAt == ZERO_TIME then call.now else call.opts.createdAt) != ZERO_TIME
      && env.compact(call.opts.payload.value) == call.opts.payload
  }

  /** A history as this code writes it with one key. */
  predicate OwnHistory(env: Env, key: Key, chain: seq<Node>) {
    && (forall i | 0 <= i < |chain| :: Faithful(env, key, chain[i]) && Trim(chain[i].content.kind) != "")
    && (chain != [] ==> chain[0].content.parents == [])
  }

  lemma NewNodeParents(env: Env, key: Key, root: string, call: Call)
    requires call.opts.payload.Some?
    ensures NewNode(env, key, root, call).content.parents == if root == "" then [] else [root]
  {
  }

  /** A history written by this code: whatever run of one key's opens, appends, faults and crashes led to it, every node
      of it is faithful and it starts without a parent. */
  lemma WrittenHistoryIsOwn(env: Env, key: Key, steps: seq<Step>) returns (chain: seq<Node>)
    requires env.OpenUndoesSeal() && LegalRun(env, EMPTY_SYSTEM, steps)
    requires forall i | 0 <= i < |steps| :: BringsFaithful(env, key, steps[i])
    ensures Inv(env, Run(env, EMPTY_SYSTEM, steps), chain, 0) && OwnHistory(env, key, chain)
    ensures CleanRun(env, EMPTY_SYSTEM, steps) ==> UniqueRequests(chain)
  {
    EmptyStoreIsSafe(env);
    var keys := (k: Key) => k == key;
    var fits := (node: Node) =>
        Faithful(env, key, node) && Trim(node.content.kind) != "" && node.content.parents != [""];
    forall i | 0 <= i < |steps| ensures WritesFitting(env, keys, fits, steps[i]) {
      var step := steps[i];
      assert BringsFaithful(env, key, step);
      if IsAppend(step) && CallIn(step).opts.payload.Some? && Trim(step.call.opts.kind) != "" {
        var call := CallIn(step);
        TrimIsTrimmed(call.opts.kind);
        forall k: Key, root: string | keys(k) ensures fits(NewNode(env, k, root, call)) {
          WrittenNodesAreFaithfulExactly(env, key, root, call);
          NewNodeParents(env, key, root, call);
        }
      }
    }
    hide LegalRun, CleanRun, Run, Faithful, Trim;
    chain := EveryNodeFits(env, keys, fits, EMPTY_SYSTEM, [], steps);
    assert chain != [] ==> fits(chain[0]) && Follows(chain, 0);
  }

  /** The whole migration of a store that this code wrote: `steps` is the run that led to the open source. When a result
      is returned, the new history has the old one's length and the same event at every position; the hash map sends
      position to position and commutes with the parent links; and, unless the new history shows two contents with the
      same hash, the map is one to one and the new store opens with the new key and shows that history. */
  method MigrateWrittenStore(source: Store, destination: Store, newKey: Key, draws: seq<Draw>, around: Surroundings,
                             ghost steps: seq<Step>) returns (outcome: Outcome)
    requires source != destination && source.volume != destination.volume && source.env == destination.env
    requires source.Valid() && |draws| == |source.history|
    requires destination.volume.State() == EMPTY_DISK
    requires source.env.OpenUndoesSeal() && forall i | 0 <= i < |draws| :: Truncate(draws[i].now) != ZERO_TIME
    requires LegalRun(source.env, EMPTY_SYSTEM, steps) && CleanRun(source.env, EMPTY_SYSTEM, steps)
    requires forall i | 0 <= i < |steps| :: BringsFaithful(source.env, source.key, steps[i])
    requires Run(source.env, EMPTY_SYSTEM, steps) == System(source.volume.State(), Opened(source.key, source.chain))
    modifies destination, destination.volume
    ensures WithoutFaults(draws) ==>
              (outcome.info.Some? <==>
                && around.created
                && source.volume.root == Tip(source.chain)
                && Translatable(source.volume.named, set hash | hash in source.history))
    ensures outcome.info.Some? ==>
              var env, nodes, copies := source.env, old(source.chain), destination.chain;
              var hashMap := outcome.info.value.hashMap;
              && |copies| == |nodes|
              && (forall i | 0 <= i < |nodes| :: SameEvent(env, source.key, nodes[i], newKey, copies[i]))
              && (forall i | 0 <= i < |nodes| :: nodes[i].hash in hashMap && hashMap[nodes[i].hash] == copies[i].hash)
              && (forall i | 0 <= i < |nodes| :: copies[i].content.parents == Mapped(hashMap, nodes[i].content.parents))
              && RefsTranslated(source.volume.named, hashMap, destination.volume.named)
              && (|| Collides(env, copies)
                  || (OneToOne(hashMap) && Open(env, newKey, destination.volume.State()) == Ok(copies)))
  {
    hide Rewritten, Built, SameEvent, Mapped, RefsTranslated, Collides, OneToOne, Run, LegalRun, CleanRun, HashMap,
      ReadAll, Faithful, Open, Positions, Requests, Metadata, Linked;
    ghost var env, s := source.env, System(source.volume.State(), Opened(source.key, source.chain));
    ghost var chain := WrittenHistoryIsOwn(env, source.key, steps);
    ghost var nodes := source.chain;
    if source.volume.root == Tip(nodes) {
      IndexHasTheChain(env, s, chain, 0);
      OwnIsCarriable(env, source.key, source.volume.nodes, nodes);
    }
    hide AllCarriable, Translatable;
    outcome := MigrateDataKey(source, destination, Some(newKey), draws, around);
    if outcome.info.Some? {
      IndexHasTheChain(env, s, chain, 0);
      AuditIsTheWalk(env, source.volume.nodes, nodes);
      ghost var copies := destination.chain;
      MigrationIsIsomorphism(env, source.key, newKey, draws, source.volume.nodes, nodes, destination.volume.State(),
                             copies);
      if !Collides(env, copies) {
        MigratedStoreOpens(env, source.key, newKey, draws, nodes, destination.volume.State(), copies);
      }
    }
  }

  /** A migration can carry every node of a history that this code wrote. */
  lemma OwnIsCarriable(env: Env, key: Key, dir: Directory, chain: seq<Node>)
    requires Linked(env, dir, chain) && OwnHistory(env, key, chain)
    ensures AllCarriable(env, key, dir, Hashes(chain))
  {
    hide ReadNode, NodePayload, Trim;
    forall i | 0 <= i < |chain| ensures Carriable(env, key, dir, Hashes(chain)[i]) {
      assert ReadNode(env, dir, chain[i].hash) == Ok(chain[i]);
    }
  }

  predicate OneToOne(hashMap: map<string, string>) {
    forall hash, other | hash in hashMap && other in hashMap && hash != other :: hashMap[hash] != hashMap[other]
  }

  lemma CarriedKeepsRequest(env: Env, key: Key, newKey: Key, draw: Draw, newRoot: string, node: Node, copy: Node)
    requires env.OpenUndoesSeal() && Carried(env, key, newKey, draw, newRoot, node, copy)
    ensures copy.content.requestID == node.content.requestID && NodePayload(env, newKey, copy).Ok?
  {
    hide Trim;
  }

  lemma {:induction false} HashMapSends(hashes: seq<string>, copies: seq<Node>, i: nat)
    requires |hashes| == |copies| && i < |hashes|
    requires forall j, k | 0 <= j < k < |hashes| :: hashes[j] != hashes[k]
    ensures hashes[i] in HashMap(hashes, copies) && HashMap(hashes, copies)[hashes[i]] == copies[i].hash
  {
    var last := |hashes| - 1;
    if i < last {
      HashMapSends(hashes[..last], copies[..last], i);
    }
  }

  lemma {:induction false} HashMapKeys(hashes: seq<string>, copies: seq<Node>)
    requires |hashes| == |copies|
    ensures HashMap(hashes, copies).Keys == set hash | hash in hashes
  {
    if hashes != [] {
      var last := |hashes| - 1;
      HashMapKeys(hashes[..last], copies[..last]);
      assert hashes == hashes[..last] + [hashes[last]];
    }
  }

  /** Migration is an isomorphism. For an intact source history, the rewritten history has its length; each position
      records the same event exactly when the source node is faithful; the hash map sends position to position, one
      to one, and commutes with the parent links; and the new history is on disk, linked and durable — or else it
      shows two different contents with the same hash. */
  lemma MigrationIsIsomorphism(env: Env, key: Key, newKey: Key, draws: seq<Draw>, dir: Directory, nodes: seq<Node>,
                               disk: Disk, copies: seq<Node>)
    requires env.OpenUndoesSeal() && forall i | 0 <= i < |draws| :: Truncate(draws[i].now) != ZERO_TIME
    requires Linked(env, dir, nodes) && (nodes != [] ==> nodes[0].content.parents == [])
    requires Rewritten(env, key, newKey, draws, nodes, copies) && Built(env, newKey, disk, copies)
    ensures |copies| == |nodes|
    ensures forall i | 0 <= i < |nodes| ::
              SameEvent(env, key, nodes[i], newKey, copies[i]) <==> Faithful(env, key, nodes[i])
    ensures var hashMap := HashMap(Hashes(nodes), copies);
            && hashMap.Keys == (set hash | hash in Hashes(nodes))
            && (forall i | 0 <= i < |nodes| :: nodes[i].hash in hashMap && hashMap[nodes[i].hash] == copies[i].hash)
            && (forall i | 0 <= i < |nodes| :: copies[i].content.parents == Mapped(hashMap, nodes[i].content.parents))
            && (|| Collides(env, copies)
                || (&& WalkFrom(env, disk.nodes, disk.root) == Ok(copies)
                    && disk.settled == {disk.root}
                    && OneToOne(hashMap)))
  {
    hide Faithful, SameEvent, Linked, Carried, Collides, WalkFrom;
    var hashMap := HashMap(Hashes(nodes), copies);
    forall i | 0 <= i < |nodes|
      ensures SameEvent(env, key, nodes[i], newKey, copies[i]) <==> Faithful(env, key, nodes[i])
      ensures copies[i].content.parents == Mapped(hashMap, nodes[i].content.parents)
    {
      CarriedIsSameExactly(env, key, newKey, draws[i], Tip(copies[..i]), nodes[i], copies[i]);
      ParentsCommute(env, key, newKey, draws, dir, nodes, copies, i);
    }
    hide Built, HashMap, Hashes, Mapped, Rewritten;
    MapFollowsPositions(env, dir, nodes, copies);
    if !Collides(env, copies) {
      BuiltIsWalkable(env, newKey, disk, copies);
      MapIsOneToOne(env, dir, nodes, copies);
    }
  }

  lemma BuiltIsWalkable(env: Env, key: Key, disk: Disk, copies: seq<Node>)
    requires Built(env, key, disk, copies) && !Collides(env, copies)
    ensures WalkFrom(env, disk.nodes, disk.root) == Ok(copies) && disk.settled == {disk.root} && Distinct(copies)
  {
    hide Collides, WalkFrom;
    ChainOfTip(env, disk.nodes, copies);
    forall root | root in disk.settled ensures root == disk.root {
      assert NamesPrefix(copies, |copies|, root);
      assert copies[..|copies|] == copies;
    }
  }

  /** The hash map sends each hash of the old history to the one at the same position of the new history. */
  lemma MapFollowsPositions(env: Env, dir: Directory, nodes: seq<Node>, copies: seq<Node>)
    requires Linked(env, dir, nodes) && |copies| == |nodes|
    ensures var hashMap := HashMap(Hashes(nodes), copies);
            && hashMap.Keys == (set hash | hash in Hashes(nodes))
            && (forall i | 0 <= i < |nodes| :: nodes[i].hash in hashMap && hashMap[nodes[i].hash] == copies[i].hash)
  {
    var hashes := Hashes(nodes);
    assert forall j, k | 0 <= j < k < |hashes| :: hashes[j] != hashes[k];
    hide Linked, HashMap;
    HashMapKeys(hashes, copies);
    forall i | 0 <= i < |nodes| ensures HashMap(hashes, copies)[hashes[i]] == copies[i].hash {
      HashMapSends(hashes, copies, i);
    }
    assert forall i | 0 <= i < |nodes| :: nodes[i].hash == hashes[i] && hashes[i] in hashes;
  }

  lemma MapIsOneToOne(env: Env, dir: Directory, nodes: seq<Node>, copies: seq<Node>)
    requires Linked(env, dir, nodes) && |copies| == |nodes| && Distinct(copies)
    ensures OneToOne(HashMap(Hashes(nodes), copies))
  {
    hide HashMap, Linked;
    var hashMap, hashes := HashMap(Hashes(nodes), copies), Hashes(nodes);
    MapFollowsPositions(env, dir, nodes, copies);
    forall hash, other | hash in hashMap && other in hashMap && hash != other
      ensures hashMap[hash] != hashMap[other]
    {
      var i :| 0 <= i < |hashes| && hashes[i] == hash;
      var j :| 0 <= j < |hashes| && hashes[j] == other;
      assert hashMap[nodes[i].hash] == copies[i].hash && hashMap[nodes[j].hash] == copies[j].hash;
    }
  }

  /** A parent list with every hash translated. */
  function Mapped(hashMap: map<string, string>, parents: seq<string>): seq<string> {
    seq(|parents|, i requires 0 <= i < |parents| => if parents[i] in hashMap then hashMap[parents[i]] else "")
  }

  lemma ParentsCommute(env: Env, key: Key, newKey: Key, draws: seq<Draw>, dir: Directory, nodes: seq<Node>,
                       copies: seq<Node>, i: nat)
    requires Linked(env, dir, nodes) && nodes != [] && nodes[0].content.parents == []
    requires Rewritten(env, key, newKey, draws, nodes, copies) && i < |nodes|
    ensures copies[i].content.parents == Mapped(HashMap(Hashes(nodes), copies), nodes[i].content.parents)
  {
    assert Follows(nodes, i);
    MapFollowsPositions(env, dir, nodes, copies);
    CarriedParents(env, key, newKey, draws, nodes, copies, i);
    hide HashMap, Hashes, Linked, Rewritten, Mapped;
    MappedNothing(HashMap(Hashes(nodes), copies));
    if i > 0 {
      MappedOne(HashMap(Hashes(nodes), copies), nodes[i - 1].hash);
    }
  }

  lemma MappedNothing(hashMap: map<string, string>)
    ensures Mapped(hashMap, []) == []
  {
  }

  lemma MappedOne(hashMap: map<string, string>, parent: string)
    requires parent in hashMap
    ensures Mapped(hashMap, [parent]) == [hashMap[parent]]
  {
  }

  lemma CarriedParents(env: Env, key: Key, newKey: Key, draws: seq<Draw>, nodes: seq<Node>, copies: seq<Node>, i: nat)
    requires Rewritten(env, key, newKey, draws, nodes, copies) && i < |nodes|
    ensures copies[i].content.parents == if i == 0 then [] else [copies[i - 1].hash]
  {
    hide Carried;
    CarriedBuildsOn(env, key, newKey, draws[i], Tip(copies[..i]), nodes[i], copies[i]);
    if i > 0 {
      CarriedBuildsOn(env, key, newKey, draws[i - 1], Tip(copies[..i - 1]), nodes[i - 1], copies[i - 1]);
      assert Tip(copies[..i]) == copies[i - 1].hash;
    }
  }

  lemma CarriedBuildsOn(env: Env, key: Key, newKey: Key, draw: Draw, newRoot: string, node: Node, copy: Node)
    requires Carried(env, key, newKey, draw, newRoot, node, copy)
    ensures copy.content.parents == (if newRoot == "" then [] else [newRoot]) && copy.hash != ""
  {
    hide NodePayload, Trim;
  }

  /** When every ref name is trimmed, the new refs are exactly the old ones with their targets translated. */
  lemma TrimmedRefsTranslateExactly(named: map<string, string>, hashMap: map<string, string>,
                                    copies: map<string, string>)
    requires RefsTranslated(named, hashMap, copies) && forall name | name in named :: Trimmed(name)
    ensures copies == map name | name in named :: hashMap[named[name]]
  {
    forall name | name in named ensures Trim(name) == name {
      TrimKeepsTrimmed(name);
    }
  }
}
