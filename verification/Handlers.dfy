/** What the handlers of server/server.go guarantee although each of their steps locks the store separately:
    between any two steps of a request, any appends of other requests may happen. */
module Handlers {
  import opened Outcomes
  import opened Text
  import opened Records
  import opened Chains
  import opened Disks
  import opened Appends
  import opened Indexes
  import opened Paging
  import opened Payloads
  import opened Runs
  import opened Guarantees
  import opened Durability
  import opened Answers
  import opened Patterns
  import opened Allows
  import opened Server
  import Catalogs
  import Auth

  predicate OnlyAppends(steps: seq<Step>) {
    forall i | 0 <= i < |steps| :: IsAppend(steps[i])
  }

  /** `hash` names one of the first `n` events of the history at refs/root. */
  predicate Before(env: Env, disk: Disk, hash: string, n: int) {
    && WalkFrom(env, disk.nodes, disk.root).Ok?
    && var chain := WalkFrom(env, disk.nodes, disk.root).value;
       exists i :: 0 <= i < n && i < |chain| && chain[i].hash == hash
  }

  /** An index that knows a hash, and a chain that extends it. */
  lemma IndexedIsBefore(env: Env, disk: Disk, indexed: seq<Node>, chain: seq<Node>, hash: string, n: int)
    requires Linked(env, disk.nodes, chain) && disk.root == Tip(chain)
    requires indexed <= chain && |indexed| <= n && hash in Positions(indexed)
    ensures Before(env, disk, hash, n)
  {
    PositionsAreOccurrences(indexed, hash);
    ChainOfTip(env, disk.nodes, chain);
    var i := Positions(indexed)[hash];
    assert chain[i] == indexed[i];
  }

  /** Checking the minimum root and appending are separate steps. All the same, every new event extends a history
      that contains the minimum root, whatever appends and write faults come between the check and the append. */
  lemma CheckThenActIsSound(env: Env, minimum: string, s: System, chain: seq<Node>, between: seq<Step>, step: Step)
    requires Inv(env, s, chain, 0) && s.session.Opened?
    requires minimum != "" && MinimumPresent(minimum, s.disk.root, s.session.indexed) == Ok(true)
    requires OnlyAppends(between) && LegalRun(env, s, between)
    requires var t := Run(env, s, between); Legal(env, t, step) && Committed(env, t, step)
    ensures var u := Next(env, Run(env, s, between), step);
            u.session.Opened? && Before(env, u.disk, Trim(minimum), |u.session.indexed| - 1)
  {
    hide Append, AppendOnce, Admissible, Linked, Legal, LegalRun, Committed, Run, Before, Positions, Trim, ValidHash;
    var middle := RunKeepsInv(env, s, chain, 0, between);
    var t := Run(env, s, between);
    SessionOnlyGrows(env, s, between);
    var final := CommitFixesTheChain(env, t, middle, step);
    IndexedIsBefore(env, Next(env, t, step).disk, s.session.indexed, final, Trim(minimum), |final| - 1);
  }

  /** The answer to an append, new or replayed, names an event of the index after it. */
  lemma AnswerIsIndexed(env: Env, s: System, step: Step)
    requires s.session.Opened? && IsAppend(step) && AttemptOf(env, s, step).result.Ok?
    ensures var t := Next(env, s, step);
            t.session.Opened? && AttemptOf(env, s, step).result.value.hash in Positions(t.session.indexed)
  {
    var receipt, indexed := AttemptOf(env, s, step).result.value, Next(env, s, step).session.indexed;
    hide Append, Positions, Requests;
    if receipt.replayed && step.AppendIdempotent? && Trim(step.requestID) in Requests(s.session.indexed) {
      RequestsPointIntoHistory(indexed, Trim(step.requestID));
    } else {
      AppendIndexesItsNode(env, s, if step.AppendAt? then step.call
                                   else WithRequest(step.call, Trim(step.requestID), Trim(step.requestHash)));
    }
    PositionsAreOccurrences(indexed, receipt.hash);
  }

  lemma AppendIndexesItsNode(env: Env, s: System, call: Call)
    requires s.session.Opened?
    ensures var attempt := Append(env, s.session.key, s.disk, s.session.indexed, call);
            attempt.result.Ok? ==>
              exists i :: 0 <= i < |attempt.indexed| && attempt.indexed[i].hash == attempt.result.value.hash
  {
    hide NewNode, Created, Renamed, Refusal;
    var attempt := Append(env, s.session.key, s.disk, s.session.indexed, call);
    if attempt.result.Ok? {
      assert attempt.indexed[|s.session.indexed|].hash == attempt.result.value.hash;
    }
  }

  /** The root of an append's answer is read in a step of its own. Whatever appends come between, it is the event of
      the answer or descends from it. */
  lemma AnsweredRootDescends(env: Env, s: System, chain: seq<Node>, step: Step, between: seq<Step>)
    requires Inv(env, s, chain, 0) && s.session.Opened? && Legal(env, s, step) && IsAppend(step)
    requires AttemptOf(env, s, step).result.Ok?
    requires OnlyAppends(between) && LegalRun(env, Next(env, s, step), between)
    ensures var t := Run(env, Next(env, s, step), between);
            Reaches(env, t.disk.nodes, t.disk.root, AttemptOf(env, s, step).result.value.hash)
  {
    hide Append, AppendOnce, Admissible, Linked, Legal, LegalRun, Run, Positions, Requests, AttemptOf, Next;
    var hash := AttemptOf(env, s, step).result.value.hash;
    AnswerIsIndexed(env, s, step);
    var next := StepKeepsInv(env, s, chain, 0, step);
    var u := Next(env, s, step);
    var final := RunKeepsInv(env, u, next, 0, between);
    SessionOnlyGrows(env, u, between);
    var t := Run(env, u, between);
    PositionsAreOccurrences(u.session.indexed, hash);
    var i := Positions(u.session.indexed)[hash];
    assert t.session.indexed[i] == u.session.indexed[i] && final[i] == t.session.indexed[i];
    assert Reaches(env, t.disk.nodes, t.disk.root, hash);
  }

  /** A page of the history and the position its bound stands for. */
  lemma PageOfHistory(env: Env, dir: Directory, root: string, chain: seq<Node>, after: string, observed: string,
                      limit: Int64) returns (start: nat, end: nat, bound: nat)
    requires Distinct(chain) && PageAt(env, dir, root, chain, after, observed, limit, true).Ok?
    requires PageAt(env, dir, root, chain, after, observed, limit, true).value.nodes != []
    ensures var page := PageAt(env, dir, root, chain, after, observed, limit, true).value;
            && start < end <= bound + 1 <= |chain| && root == Tip(chain)
            && page.nodes == Metadata(chain)[start..end] && page.root == chain[bound].hash
  {
    hide ValidHash, Positions, Wrap64;
    var w := PageWindow(chain, after, observed, limit).value;
    WindowIsInRange(chain, after, observed, limit);
    start, end := w.start, w.end;
    bound := |chain| - 1;
    if observed != "" {
      PositionsAreOccurrences(chain, observed);
      bound := Positions(chain)[observed];
    }
  }

  /** Selecting consecutive events of a history up to a later one meets no objection, in that history or in any
      longer one. */
  lemma ConsecutiveEventsAreSelected(chain: seq<Node>, longer: seq<Node>, start: nat, end: nat, bound: nat)
    requires Addressed(longer) && chain <= longer && start < end <= bound + 1 <= |chain|
    ensures SelectionError(longer, Hashes(Metadata(chain)[start..end]), chain[bound].hash) == None
  {
    hide ValidHash, Positions, FirstObjection;
    var ids := Hashes(Metadata(chain)[start..end]);
    assert longer[bound] == chain[bound];
    PositionOf(longer, bound);
    var page := Metadata(chain)[start..end];
    forall k | 0 <= k < |ids| ensures ids[k] == longer[start + k].hash {
      assert page[k] == ReplayMetadata(chain[start + k]) && longer[start + k] == chain[start + k];
    }
    hide Hashes, Metadata;
    forall k | 0 <= k < |ids| ensures Objection(longer, ids, bound, k).None? {
      PositionOf(longer, start + k);
    }
    FirstObjectionExactly(longer, ids, bound, |ids|);
  }

  lemma LinkedIsAddressed(env: Env, dir: Directory, chain: seq<Node>)
    requires Linked(env, dir, chain)
    ensures Addressed(chain)
  {
    forall k | 0 <= k < |chain| ensures ValidHash(chain[k].hash) {
      assert ReadNode(env, dir, chain[k].hash) == Ok(chain[k]);
    }
  }

  /** The store as a handler's next call sees it. */
  function SightOf(s: System): Sight
    requires s.session.Opened?
  {
    Sight(s.disk.root, s.session.indexed)
  }

  /** An `include_payload` page never fails its selection: whatever appends come between reading the page and
      selecting its payloads, no event of the page is missing, beyond the page's root or a duplicate. */
  lemma PagePayloadsAreSelected(env: Env, s: System, chain: seq<Node>, between: seq<Step>, after: string,
                                observed: string, limit: Int64)
    requires Inv(env, s, chain, 0) && s.session.Opened?
    requires OnlyAppends(between) && LegalRun(env, s, between)
    requires PageAt(env, s.disk.nodes, s.disk.root, s.session.indexed, after, observed, limit, true).Ok?
    requires PageAt(env, s.disk.nodes, s.disk.root, s.session.indexed, after, observed, limit, true).value.nodes != []
    ensures var page := PageAt(env, s.disk.nodes, s.disk.root, s.session.indexed, after, observed, limit, true).value;
            var t := Run(env, s, between);
            t.session.Opened? && ValidHash(page.root) &&
            SelectionError(t.session.indexed, Hashes(page.nodes), page.root) == None
  {
    hide Append, AppendOnce, Admissible, Legal, LegalRun, Run, PageAt, Metadata, SelectionError, ReadNode, ValidHash;
    var indexed := s.session.indexed;
    PrefixIsLinked(env, s.disk.nodes, chain, |indexed|);
    LinkedIsAddressed(env, s.disk.nodes, chain);
    assert Distinct(indexed);
    var start, end, bound := PageOfHistory(env, s.disk.nodes, s.disk.root, indexed, after, observed, limit);
    var final := RunKeepsInv(env, s, chain, 0, between);
    var t := Run(env, s, between);
    SessionOnlyGrows(env, s, between);
    LinkedIsAddressed(env, t.disk.nodes, final);
    assert Addressed(t.session.indexed);
    ConsecutiveEventsAreSelected(indexed, t.session.indexed, start, end, bound);
  }

  /** What the reads of a batch see: the k-th one comes after the appends `later(k)`. */
  function Views(env: Env, t: System, later: nat -> seq<Step>): nat -> Directory {
    (k: nat) => Run(env, t, later(k)).disk.nodes
  }

  lemma ViewsAreLater(env: Env, s: System, between: seq<Step>, later: nat -> seq<Step>, n: nat)
    requires s.session.Opened? && OnlyAppends(between) && forall k: nat :: OnlyAppends(later(k))
    ensures Run(env, s, between).session.Opened?
    ensures LaterViews(s.disk.nodes, seq(n, Views(env, Run(env, s, between), later)))
  {
    hide Run;
    var t := Run(env, s, between);
    SessionOnlyGrows(env, s, between);
    forall k: nat, hash | k < n && hash in s.disk.nodes
      ensures hash in Run(env, t, later(k)).disk.nodes
      ensures Run(env, t, later(k)).disk.nodes[hash] == s.disk.nodes[hash]
    {
      SessionOnlyGrows(env, t, later(k));
    }
  }

  /** The whole `include_payload` answer. When every event of the page authenticates, each one comes with the payload
      of its own node as it was when the page was read, exactly when their total size and the encoded answer are within
      the limit. Appends between the steps, and between the reads, change nothing, except that one which leaves
      refs/root ahead of the index before the selection makes the answer an integrity error. */
  lemma PageComesWithItsPayloads(env: Env, s: System, chain: seq<Node>, between: seq<Step>, later: nat -> seq<Step>,
                                 after: string, observed: string, limit: Option<Int64>, encode: Events -> Option<nat>,
                                 maxBody: Int64)
    requires Inv(env, s, chain, 0) && s.session.Opened? && maxBody > 0
    requires OnlyAppends(between) && LegalRun(env, s, between) && forall k: nat :: OnlyAppends(later(k))
    requires PageLimit(limit, true).Ok?
    requires var page := PageAt(env, s.disk.nodes, s.disk.root, s.session.indexed, Trim(after), Trim(observed),
                                PageLimit(limit, true).value, true);
             && page.Ok? && page.value.nodes != []
             && AllAuthenticate(env, s.session.key, OneView(s.disk.nodes, |page.value.nodes|), Hashes(page.value.nodes))
    ensures var page := PageAt(env, s.disk.nodes, s.disk.root, s.session.indexed, Trim(after), Trim(observed),
                               PageLimit(limit, true).value, true).value;
            var items := Payloads.Payloads(env, s.session.key, OneView(s.disk.nodes, |page.nodes|), Hashes(page.nodes));
            var t := Run(env, s, between);
            t.session.Opened? &&
            EventsAnswer(env, s.session.key, SightOf(s), SightOf(t), s.disk.nodes, Views(env, t, later), after,
                         observed, limit, true, encode, maxBody) ==
              if t.disk.root != Tip(t.session.indexed) then Err(Integrity)
              else if Size(items) > maxBody then Err(Capacity)
              else Sized(encode, Events(Filled(page.nodes, items), page.root, page.hasMore), maxBody)
    ensures var page := PageAt(env, s.disk.nodes, s.disk.root, s.session.indexed, Trim(after), Trim(observed),
                               PageLimit(limit, true).value, true).value;
            var t := Run(env, s, between);
            var answer := EventsAnswer(env, s.session.key, SightOf(s), SightOf(t), s.disk.nodes, Views(env, t, later),
                                       after, observed, limit, true, encode, maxBody);
            answer.Ok? ==>
              && encode(answer.value).Some? && encode(answer.value).value <= maxBody
              && |answer.value.events| == |page.nodes|
              && forall i | 0 <= i < |page.nodes| ::
                   && answer.value.events[i].node == page.nodes[i]
                   && answer.value.events[i].payload.Some?
                   && ReadPayload(env, s.session.key, s.disk.nodes, page.nodes[i].hash) ==
                      Ok(answer.value.events[i].payload.value)
  {
    hide Inv, LegalRun, Run, PageAt, Metadata, SelectionError, ValidHash, AllAuthenticate, LaterViews, Trim,
      Payloads.Payloads, Size, Collect, Sized, Views;
    var page := PageAt(env, s.disk.nodes, s.disk.root, s.session.indexed, Trim(after), Trim(observed),
                       PageLimit(limit, true).value, true).value;
    var ids, t := Hashes(page.nodes), Run(env, s, between);
    PagePayloadsAreSelected(env, s, chain, between, Trim(after), Trim(observed), PageLimit(limit, true).value);
    ViewsAreLater(env, s, between, later, |ids|);
    CollectedPayloads(env, s.session.key, s.disk.nodes, seq(|ids|, Views(env, t, later)), ids, maxBody);
    assert ids != [];
    FilledWithOwn(env, s.session.key, s.disk.nodes, page.nodes);
    SizedExactly(encode, Events(Filled(page.nodes, Payloads.Payloads(env, s.session.key,
                                OneView(s.disk.nodes, |ids|), ids)), page.root, page.hasMore), maxBody);
    hide Filled, ReadPayload;
  }

  lemma FilledWithOwn(env: Env, key: Key, dir: Directory, nodes: seq<Node>)
    requires AllAuthenticate(env, key, OneView(dir, |nodes|), Hashes(nodes))
    ensures var events := Filled(nodes, Payloads.Payloads(env, key, OneView(dir, |nodes|), Hashes(nodes)));
            && |events| == |nodes|
            && forall i | 0 <= i < |nodes| ::
                 && events[i].node == nodes[i] && events[i].payload.Some?
                 && ReadPayload(env, key, dir, nodes[i].hash) == Ok(events[i].payload.value)
  {
    hide ReadPayload;
    assert forall i | 0 <= i < |nodes| :: ReadPayload(env, key, OneView(dir, |nodes|)[i], Hashes(nodes)[i]).Ok?;
  }

  lemma SizedExactly(encode: Events -> Option<nat>, answer: Events, maxBody: Int64)
    ensures Sized(encode, answer, maxBody) ==
            if encode(answer).None? then Err(SystemError)
            else if encode(answer).value > maxBody then Err(Capacity) else Ok(answer)
  {
  }

  /** The same directory for `n` reads. */
  function OneView(dir: Directory, n: nat): (dirs: seq<Directory>)
    ensures |dirs| == n
  {
    seq(n, _ => dir)
  }

  lemma CollectedPayloads(env: Env, key: Key, dir: Directory, dirs: seq<Directory>, ids: seq<string>, maxBytes: int)
    requires |dirs| == |ids| && LaterViews(dir, dirs) && maxBytes > 0
    requires AllAuthenticate(env, key, OneView(dir, |ids|), ids)
    ensures var items := Payloads.Payloads(env, key, OneView(dir, |ids|), ids);
            Collect(env, key, dirs, ids, maxBytes) == if Size(items) > maxBytes then Err(Capacity) else Ok(items)
  {
    forall k | 0 <= k < |ids| ensures ids[k] in dir {
      assert ReadPayload(env, key, dir, ids[k]).Ok?;
    }
    hide ReadPayload, Collect, Size, LaterViews;
    CollectSeesOneDirectory(env, key, dir, dirs, ids, maxBytes);
    BatchFitsExactly(env, key, OneView(dir, |ids|), ids, maxBytes);
  }

  /** An installed pair of a catalog. */
  predicate InstalledPair(entries: seq<Catalogs.CatalogEntry>, kind: string, command: string) {
    exists i :: 0 <= i < |entries| && entries[i].kind == kind && command in entries[i].commands
  }

  /** Under a well-formed, enforced catalog the type and the command that pass are exactly an installed pair, and
      trimming leaves them alone. */
  lemma EnforcedPairsAreExact(entries: seq<Catalogs.CatalogEntry>, kind: string, command: string)
    requires Catalogs.WellFormed(entries)
    ensures Catalogs.Authorized(true, Catalogs.Schema(entries), kind, command) <==>
              InstalledPair(entries, kind, command)
    ensures Catalogs.Authorized(false, Catalogs.Schema(entries), kind, command)
    ensures InstalledPair(entries, kind, command) ==> Trim(kind) == kind && Trim(command) == command
  {
    hide Trim, Catalogs.Normal, Catalogs.Schema;
    Catalogs.SchemaKnows(entries, kind);
    if i :| 0 <= i < |entries| && entries[i].kind == kind {
      Catalogs.SchemaAt(entries, i);
      var entry := entries[i];
      assert Catalogs.Stored(entry) && Catalogs.TrimEntry(entry) == entry;
      assert forall k | 0 <= k < |entry.commands| :: TrimAll(entry.commands)[k] == Trim(entry.commands[k]);
    }
  }

  /** The event that a permitted request appends, at whatever later moment the append happens: it carries the
      credential's ID; its stored type lies in the namespace that all patterns of the credential share; and under an
      enforced catalog its stored type and command are exactly a pair installed at the authorization step. */
  lemma AppendedEventIsPermitted(env: Env, digests: Digests, credential: Auth.Credential,
                                 catalog: Option<Catalogs.CatalogState>, key: string, request: AppendRequest,
                                 moment: Moment, s: System, chain: seq<Node>) returns (node: Node)
    requires credential.allow.Some? ==> ValidTrimmed(credential.allow.value)
    requires catalog.Some? ==> Catalogs.WellFormed(catalog.value.entries)
    requires var schema := if catalog.None? then None else Some(Catalogs.AbstractOf(catalog.value));
             RequestRefusal(env, credential.allow, schema, key, request).None?
    requires Inv(env, s, chain, 0)
    requires var step := RequestStep(env, digests, credential, key, request, moment);
             Legal(env, s, step) && Committed(env, s, step)
    ensures var after := Next(env, s, RequestStep(env, digests, credential, key, request, moment)).disk;
            WalkFrom(env, after.nodes, after.root) == Ok(chain + [node])
    ensures node.content.actor == credential.id
    ensures credential.allow.Some? ==>
              && NamespaceOf(node.content.kind).Ok?
              && forall i | 0 <= i < |credential.allow.value.types| ::
                   NamespaceOf(credential.allow.value.types[i]) == NamespaceOf(node.content.kind)
    ensures catalog.Some? && catalog.value.enforced ==>
              InstalledPair(catalog.value.entries, node.content.kind, node.content.command)
  {
    var step := RequestStep(env, digests, credential, key, request, moment);
    node := CommittedNode(env, s, chain, step);
    hide Trim, NamespaceOf, AllowsAppend, ValidTrimmed, Catalogs.WellFormed, Catalogs.Schema, Inv, Legal, Committed,
      Next, InstalledPair;
    if credential.allow.Some? {
      ScopedTypeStaysInNamespace(credential.allow.value, request.kind, request.command);
    }
    if catalog.Some? && catalog.value.enforced {
      EnforcedPairsAreExact(catalog.value.entries, request.kind, request.command);
    }
  }

  /** Two different texts with the same digest. */
  predicate TextCollision(digests: Digests, a: string, b: string) {
    a != b && digests.text(a) == digests.text(b)
  }

  /** The first NUL of a request text ends the credential ID. */
  lemma IDEndsAtNul(id: string, key: string)
    requires Auth.ValidCredentialID(id)
    ensures var text := RequestText(id, key);
            |id| < |text| && text[|id|] == '\0' && text[..|id|] == id && text[|id| + 1..] == Trim(key)
    ensures forall i | 0 <= i < |id| :: RequestText(id, key)[i] != '\0'
  {
    hide Trim;
    assert forall i | 0 <= i < |id| :: Auth.CredentialChar(id[i]);
  }

  /** The texts behind request IDs coincide only for the same credential and the same trimmed key, because credential
      IDs contain no NUL. */
  lemma RequestTextsAreDistinct(a: string, keyA: string, b: string, keyB: string)
    requires Auth.ValidCredentialID(a) && Auth.ValidCredentialID(b)
    ensures RequestText(a, keyA) == RequestText(b, keyB) <==> a == b && Trim(keyA) == Trim(keyB)
  {
    IDEndsAtNul(a, keyA);
    IDEndsAtNul(b, keyB);
    hide Trim, Auth.ValidCredentialID, RequestText;
    assert a == b && Trim(keyA) == Trim(keyB) ==> RequestText(a, keyA) == RequestText(b, keyB) by {
      SameText(a, keyA, keyB);
    }
    assert RequestText(a, keyA) == RequestText(b, keyB) ==> |a| == |b|;
  }

  lemma SameText(id: string, keyA: string, keyB: string)
    ensures Trim(keyA) == Trim(keyB) ==> RequestText(id, keyA) == RequestText(id, keyB)
  {
  }

  /** Through the API a request is carried out once: after it committed, in every later state of every run, the same
      credential with the same key gets the original event when the encoded request has the same digest, and a conflict
      otherwise; nothing changes. */
  lemma RetriedRequestIsAnsweredOnce(env: Env, digests: Digests, credential: Auth.Credential, key: string,
                                     request: AppendRequest, moment: Moment, s: System, chain: seq<Node>,
                                     later: seq<Step>, retryKey: string, retry: AppendRequest, retryMoment: Moment)
    requires env.compact(request.payload).Some? && env.compact(retry.payload).Some?
    requires Trim(retryKey) == Trim(key)
    requires Inv(env, s, chain, 0) && UniqueRequests(chain)
    requires var step := RequestStep(env, digests, credential, key, request, moment);
             && Legal(env, s, step) && Committed(env, s, step)
             && LegalRun(env, Next(env, s, step), later) && CleanRun(env, Next(env, s, step), later)
             && Run(env, Next(env, s, step), later).session.Opened?
    ensures var step := RequestStep(env, digests, credential, key, request, moment);
            var t := Run(env, Next(env, s, step), later);
            var again := RequestStep(env, digests, credential, retryKey, retry, retryMoment);
            && Next(env, t, again) == t
            && AttemptOf(env, t, again).result ==
                 if digests.request(Canonical(env, retry)) == digests.request(Canonical(env, request))
                 then Ok(Receipt(AttemptOf(env, s, step).result.value.hash, true))
                 else Err(Conflict)
  {
    var step := RequestStep(env, digests, credential, key, request, moment);
    var again := RequestStep(env, digests, credential, retryKey, retry, retryMoment);
    HashIsTrimmed(step.requestHash);
    HashIsTrimmed(again.requestHash);
    assert step.requestID == again.requestID;
    hide Trim, Inv, Legal, Committed, LegalRun, Run, Next, AttemptOf, CallOf, RequestText;
    RetriedStep(env, s, chain, step, later, again);
  }

  lemma RetriedStep(env: Env, s: System, chain: seq<Node>, step: Step, later: seq<Step>, again: Step)
    requires step.AppendIdempotent? && again.AppendIdempotent?
    requires again.requestID == step.requestID && Trim(again.requestHash) != ""
    requires Inv(env, s, chain, 0) && UniqueRequests(chain) && Legal(env, s, step) && Committed(env, s, step)
    requires LegalRun(env, Next(env, s, step), later) && CleanRun(env, Next(env, s, step), later)
    requires Run(env, Next(env, s, step), later).session.Opened?
    ensures var t := Run(env, Next(env, s, step), later);
            && Next(env, t, again) == t
            && AttemptOf(env, t, again).result ==
                 if Trim(again.requestHash) == Trim(step.requestHash)
                 then Ok(Receipt(AttemptOf(env, s, step).result.value.hash, true))
                 else Err(Conflict)
  {
    hide Trim, Inv, Legal, LegalRun, Run, AppendOnce, CleanRun;
    ExactlyOnce(env, s, chain, step, later, again.call, again.requestHash);
  }

  /** `step` appends nothing, or comes from a request of the API. */
  ghost predicate FromAPI(digests: Digests, step: Step) {
    && !step.AppendAt?
    && (step.AppendIdempotent? ==> Signed(digests, step.call.ctx.actor, step.requestID))
  }

  lemma RequestsAreFromAPI(env: Env, digests: Digests, credential: Auth.Credential, key: string, request: AppendRequest,
                           moment: Moment)
    requires Auth.ValidCredentialID(credential.id) && env.compact(request.payload).Some?
    ensures FromAPI(digests, RequestStep(env, digests, credential, key, request, moment))
  {
    hide Auth.ValidCredentialID;
    assert RequestStep(env, digests, credential, key, request, moment).requestID ==
           digests.text(RequestText(credential.id, key));
  }

  /** `requestID` belongs to a request of `actor`. */
  ghost predicate Signed(digests: Digests, actor: string, requestID: string) {
    Auth.ValidCredentialID(actor) && exists key: string :: requestID == digests.text(RequestText(actor, key))
  }

  ghost predicate SignedNode(digests: Digests, node: Node) {
    Signed(digests, node.content.actor, node.content.requestID)
  }

  /** In a run of API requests, every event of the history carries a request ID of its own actor. */
  lemma EventsAreSigned(env: Env, digests: Digests, steps: seq<Step>) returns (chain: seq<Node>)
    requires LegalRun(env, EMPTY_SYSTEM, steps) && forall i | 0 <= i < |steps| :: FromAPI(digests, steps[i])
    ensures Inv(env, Run(env, EMPTY_SYSTEM, steps), chain, 0)
    ensures var disk := Run(env, EMPTY_SYSTEM, steps).disk; WalkFrom(env, disk.nodes, disk.root) == Ok(chain)
    ensures forall i | 0 <= i < |chain| :: SignedNode(digests, chain[i])
  {
    EmptyStoreIsSafe(env);
    var keys, signed := (k: Key) => true, (node: Node) => SignedNode(digests, node);
    forall i | 0 <= i < |steps| ensures WritesFitting(env, keys, signed, steps[i]) {
      var step := steps[i];
      assert FromAPI(digests, step);
      if IsAppend(step) {
        SignedIsTrimmed(digests, step.call.ctx.actor, step.requestID);
      }
      hide Trim, Signed;
    }
    hide LegalRun, Run, Linked, SignedNode;
    chain := EveryNodeFits(env, keys, signed, EMPTY_SYSTEM, [], steps);
    ChainOfTip(env, Run(env, EMPTY_SYSTEM, steps).disk.nodes, chain);
    assert forall i | 0 <= i < |chain| :: signed(chain[i]);
  }

  /** What the credential of each ID may append. */
  type Scopes = string -> Option<Allow>

  /** `step` appends nothing, or comes from a request that the credential of its actor admits. */
  predicate WithinScope(scopes: Scopes, step: Step) {
    IsAppend(step) ==>
      var allow := scopes(step.call.ctx.actor);
      && (allow.Some? ==> ValidTrimmed(allow.value))
      && AllowsAppend(allow, step.call.opts.kind, step.call.opts.command)
  }

  /** The type of an event lies in the namespace that all patterns of its actor's credential share. */
  predicate InScope(scopes: Scopes, node: Node) {
    var allow := scopes(node.content.actor);
    allow.Some? ==>
      && NamespaceOf(node.content.kind).Ok?
      && forall i | 0 <= i < |allow.value.types| :: NamespaceOf(allow.value.types[i]) == NamespaceOf(node.content.kind)
  }

  lemma NewNodeInScope(env: Env, scopes: Scopes, key: Key, root: string, step: Step)
    requires IsAppend(step) && WithinScope(scopes, step) && CallIn(step).opts.payload.Some?
    ensures InScope(scopes, NewNode(env, key, root, CallIn(step)))
  {
    var node, allow := NewNode(env, key, root, CallIn(step)), scopes(step.call.ctx.actor);
    assert node.content.actor == step.call.ctx.actor && node.content.kind == Trim(step.call.opts.kind);
    hide NewNode, Trim, NamespaceOf, ValidTrimmed, AllowsAppend;
    if allow.Some? {
      ScopedTypeStaysInNamespace(allow.value, step.call.opts.kind, step.call.opts.command);
    }
  }

  /** Scoped writes stay in one namespace over whole runs: when every append was admitted by the credential of its
      actor, every event of the history lies in that credential's namespace, whatever faults and crashes there were. */
  lemma EventsStayInScope(env: Env, scopes: Scopes, steps: seq<Step>)
    requires LegalRun(env, EMPTY_SYSTEM, steps) && forall i | 0 <= i < |steps| :: WithinScope(scopes, steps[i])
    ensures var disk := Run(env, EMPTY_SYSTEM, steps).disk;
            var walk := WalkFrom(env, disk.nodes, disk.root);
            walk.Ok? && forall i | 0 <= i < |walk.value| :: InScope(scopes, walk.value[i])
  {
    EmptyStoreIsSafe(env);
    var keys, inScope := (k: Key) => true, (node: Node) => InScope(scopes, node);
    hide NewNode, CallIn, InScope;
    forall i | 0 <= i < |steps| ensures WritesFitting(env, keys, inScope, steps[i]) {
      var step := steps[i];
      assert WithinScope(scopes, step);
      if IsAppend(step) && CallIn(step).opts.payload.Some? {
        forall k: Key, root: string | keys(k) ensures inScope(NewNode(env, k, root, CallIn(step))) {
          NewNodeInScope(env, scopes, k, root, step);
        }
      }
    }
    hide LegalRun, Run, Linked, WithinScope, WalkFrom;
    var chain := EveryNodeFits(env, keys, inScope, EMPTY_SYSTEM, [], steps);
    ChainOfTip(env, Run(env, EMPTY_SYSTEM, steps).disk.nodes, chain);
    assert forall i | 0 <= i < |chain| :: inScope(chain[i]);
  }

  /** A request that the append handler does not refuse is within the scope of its credential. */
  lemma RequestsAreWithinScope(env: Env, digests: Digests, scopes: Scopes, credential: Auth.Credential,
                               schema: Option<Catalogs.Abstract>, key: string, request: AppendRequest, moment: Moment)
    requires scopes(credential.id) == credential.allow
    requires credential.allow.Some? ==> ValidTrimmed(credential.allow.value)
    requires RequestRefusal(env, credential.allow, schema, key, request).None?
    ensures WithinScope(scopes, RequestStep(env, digests, credential, key, request, moment))
  {
    hide ValidTrimmed, AllowsAppend, Trim;
  }

  lemma SignedIsTrimmed(digests: Digests, actor: string, requestID: string)
    requires Signed(digests, actor, requestID)
    ensures Trim(requestID) == requestID
  {
    var key: string :| requestID == digests.text(RequestText(actor, key));
    HashIsTrimmed(requestID);
  }

  /** `node` was appended by `id` with an equal request, or its request ID shows a collision of texts. */
  ghost predicate OwnEvent(env: Env, digests: Digests, id: string, key: string, request: AppendRequest, node: Node)
    requires env.compact(request.payload).Some?
  {
    && node.content.requestHash == digests.request(Canonical(env, request))
    && (|| node.content.actor == id
        || exists other: string :: TextCollision(digests, RequestText(id, key), RequestText(node.content.actor, other)))
  }

  /** A replayed answer is the caller's own: over any run of API requests from the empty store, a request answered as
      replayed gets an event of its own credential that it or an equal request appended, or the digest of texts has a
      collision. */
  lemma ReplayIsOwnEvent(env: Env, digests: Digests, steps: seq<Step>, credential: Auth.Credential, key: string,
                         request: AppendRequest, moment: Moment)
    requires Auth.ValidCredentialID(credential.id) && env.compact(request.payload).Some?
    requires LegalRun(env, EMPTY_SYSTEM, steps) && forall i | 0 <= i < |steps| :: FromAPI(digests, steps[i])
    requires var s := Run(env, EMPTY_SYSTEM, steps);
             var step := RequestStep(env, digests, credential, key, request, moment);
             s.session.Opened? && AttemptOf(env, s, step).result.Ok? && AttemptOf(env, s, step).result.value.replayed
    ensures var s := Run(env, EMPTY_SYSTEM, steps);
            var step := RequestStep(env, digests, credential, key, request, moment);
            var hash := AttemptOf(env, s, step).result.value.hash;
            && WalkFrom(env, s.disk.nodes, s.disk.root).Ok?
            && exists node :: node in WalkFrom(env, s.disk.nodes, s.disk.root).value && node.hash == hash &&
                              OwnEvent(env, digests, credential.id, key, request, node)
  {
    var s := Run(env, EMPTY_SYSTEM, steps);
    var step := RequestStep(env, digests, credential, key, request, moment);
    var chain := EventsAreSigned(env, digests, steps);
    HashIsTrimmed(step.requestID);
    HashIsTrimmed(step.requestHash);
    hide Trim, LegalRun, Run, Append, Auth.ValidCredentialID, Linked;
    ReplayedIsIndexed(env, s, step);
    RequestsPointIntoHistory(s.session.indexed, step.requestID);
    var i :| 0 <= i < |s.session.indexed| &&
             IsRecordOf(Requests(s.session.indexed)[step.requestID], step.requestID, s.session.indexed[i]);
    var node := chain[i];
    assert SignedNode(digests, node);
    var other: string :| node.content.requestID == digests.text(RequestText(node.content.actor, other));
    RequestTextsAreDistinct(credential.id, key, node.content.actor, other);
    assert node in chain;
  }

  /** `GET /v1/events`: the answer shows exactly the next events after the cursor, up to the bound and the limit, which
      is 100 when none is asked for and at most 100 with payloads. It says that there is more exactly when it stops
      before the bound. Without payloads it never fails. */
  lemma EventsShowHistory(env: Env, key: Key, chain: seq<Node>, second: Sight, dir: Directory, views: nat -> Directory,
                          start: nat, end: nat, after: string, observed: string, limit: Option<Int64>,
                          includePayload: bool, encode: Events -> Option<nat>, maxBody: Int64)
    requires Addressed(chain) && |chain| + 1000 <= MAX_INT64
    requires start <= |chain| && (end > 0 ==> start <= end <= |chain|)
    requires Trim(after) == Cursor(chain, start) && Trim(observed) == Cursor(chain, end)
    ensures var answer := EventsAnswer(env, key, Sight(Tip(chain), chain), second, dir, views, after, observed, limit,
                                       includePayload, encode, maxBody);
            var asked := if limit.None? then 100 else limit.value;
            var n := if includePayload && asked > 100 then 100 else asked;
            var target := if end == 0 then |chain| else end;
            if !(1 <= asked <= 1000) then answer == Err(Validation)
            else
              && (!includePayload ==> answer.Ok?)
              && (answer.Ok? ==>
                    && ShowsRange(answer.value.events, chain, start, Min(target, start + n), includePayload)
                    && answer.value.root == (if target == 0 then "" else chain[target - 1].hash)
                    && (answer.value.hasMore <==> start + n < target))
  {
    hide PageAt, EventPayloads, Addressed, Tip, Trim, ShowsEvents, Bare, Filled, Sized, ShowsRange, EventsAnswer;
    if PageLimit(limit, includePayload).Ok? {
      var n := PageLimit(limit, includePayload).value;
      PageShowsHistory(env, dir, chain, start, end, n);
      var stop := Min(if end == 0 then |chain| else end, start + n);
      var page := PageAt(env, dir, Tip(chain), chain, Cursor(chain, start), Cursor(chain, end), n, true).value;
      BareShows(page.nodes, chain, start, stop);
      var items := AnswerOfPage(env, key, Sight(Tip(chain), chain), second, dir, views, after, observed, limit,
                                includePayload, encode, maxBody, page);
      FilledShows(page.nodes, items, chain, start, stop);
    } else {
      BadLimit(env, key, Sight(Tip(chain), chain), second, dir, views, after, observed, limit, includePayload, encode,
               maxBody);
    }
  }

  lemma BadLimit(env: Env, key: Key, first: Sight, second: Sight, dir: Directory, views: nat -> Directory,
                 after: string, observed: string, limit: Option<Int64>, includePayload: bool,
                 encode: Events -> Option<nat>, maxBody: Int64)
    requires PageLimit(limit, includePayload).Err?
    ensures EventsAnswer(env, key, first, second, dir, views, after, observed, limit, includePayload, encode,
                         maxBody) == Err(Validation)
  {
  }

  /** How an answer is made of its page, with the payloads in `items` if there are any. */
  lemma AnswerOfPage(env: Env, key: Key, first: Sight, second: Sight, dir: Directory, views: nat -> Directory,
                     after: string, observed: string, limit: Option<Int64>, includePayload: bool,
                     encode: Events -> Option<nat>, maxBody: Int64, page: EventPage) returns (items: seq<EventPayload>)
    requires PageLimit(limit, includePayload).Ok?
    requires PageAt(env, dir, first.root, first.indexed, Trim(after), Trim(observed),
                    PageLimit(limit, includePayload).value, true) == Ok(page)
    ensures |items| == |page.nodes|
    ensures var answer := EventsAnswer(env, key, first, second, dir, views, after, observed, limit, includePayload,
                                       encode, maxBody);
            && (!includePayload ==> answer == Ok(Events(Bare(page.nodes), page.root, page.hasMore)))
            && (includePayload && answer.Ok? ==>
                  answer.value == Events(Filled(page.nodes, items), page.root, page.hasMore))
  {
    hide PageAt, EventPayloads, Trim, Bare;
    items := seq(|page.nodes|, _ => EventPayload("", []));
    var batch := EventPayloads(env, key, second.root, second.indexed, seq(|page.nodes|, views), Hashes(page.nodes),
                               page.root, maxBody);
    if page.nodes == [] {
      assert Filled(page.nodes, items) == [];
    } else if includePayload && batch.Ok? {
      BatchHasOrder(env, key, second, seq(|page.nodes|, views), Hashes(page.nodes), page.root, maxBody);
      items := batch.value;
    }
  }

  /** `events` are the events of the history from `start` up to `stop`, with or without payloads. */
  predicate ShowsRange(events: seq<Event>, chain: seq<Node>, start: nat, stop: nat, withPayloads: bool)
    requires start <= stop <= |chain|
  {
    && |events| == stop - start
    && forall i | 0 <= i < |events| ::
         ShowsEvent(events[i].node, chain[start + i]) && (events[i].payload.Some? <==> withPayloads)
  }

  lemma BareShows(nodes: seq<Node>, chain: seq<Node>, start: nat, stop: nat)
    requires start <= stop <= |chain| && ShowsEvents(nodes, chain[start..stop])
    ensures ShowsRange(Bare(nodes), chain, start, stop, false)
  {
    hide ShowsEvent;
    assert forall i | 0 <= i < |nodes| :: chain[start..stop][i] == chain[start + i];
  }

  lemma FilledShows(nodes: seq<Node>, items: seq<EventPayload>, chain: seq<Node>, start: nat, stop: nat)
    requires start <= stop <= |chain| && ShowsEvents(nodes, chain[start..stop]) && |items| == |nodes|
    ensures ShowsRange(Filled(nodes, items), chain, start, stop, true)
  {
    hide ShowsEvent;
    assert forall i | 0 <= i < |nodes| :: chain[start..stop][i] == chain[start + i];
  }
}
