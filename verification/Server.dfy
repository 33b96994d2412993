/** The append and event handlers of server/server.go, as sequences of separately locked calls of the store. */
module Server {
  import opened Outcomes
  import opened Text
  import opened Records
  import opened Chains
  import opened Disks
  import opened Appends
  import opened Indexes
  import opened Paging
  import opened Payloads
  import opened Runs
  import opened Stores
  import opened Allows
  import Catalogs
  import Auth

  const MAX_PAYLOAD_BATCH_EVENTS := 100

  /** The decoded body of an append; `payload` is empty when there is none. */
  datatype AppendRequest = AppendRequest(
    kind: string, entityID: string, command: string, payload: Bytes, expectedRoot: Option<string>)

  /** SHA-256 in hexadecimal, of a text and of the encoding of a request. */
  datatype Digests = Digests(text: string -> Address, request: AppendRequest -> Address)

  /** What the environment contributes to an append. */
  datatype Moment = Moment(nonce: Nonce, now: Time, fault: Fault)

  datatype Published = Published(hash: string, root: string, replayed: bool)

  /** `minimumRootPresent` on a store that indexes `indexed` while refs/root holds `root`. */
  function MinimumPresent(minimum: string, root: string, indexed: seq<Node>): Result<bool> {
    if minimum == "" then Ok(true)
    else if !ValidHash(Trim(minimum)) then Err(Validation)
    else if root != Tip(indexed) then Err(Integrity)
    else Ok(Trim(minimum) in Positions(indexed))
  }

  /** `authorizeAppend` of server/catalog_http.go: first the credential, then the catalog if there is one. */
  predicate Permitted(allow: Option<Allow>, schema: Option<Catalogs.Abstract>, kind: string, command: string) {
    && AllowsAppend(allow, kind, command)
    && (schema.Some? ==> Catalogs.Authorized(schema.value.enforced, schema.value.schema, kind, command))
  }

  /** Why `appendEvent` answers without calling the store. */
  function RequestRefusal(env: Env, allow: Option<Allow>, schema: Option<Catalogs.Abstract>, key: string,
                          request: AppendRequest): Option<ErrorCode>
  {
    if !(8 <= |Trim(key)| <= 200) || request.expectedRoot.None? || request.payload == [] then Some(Validation)
    else if !Permitted(allow, schema, request.kind, request.command) then Some(Permission)
    else if env.compact(request.payload).None? then Some(SystemError)
    else None
  }

  /** The text that a request ID is the digest of. */
  function RequestText(id: string, key: string): string {
    id + "\0" + Trim(key)
  }

  /** A request as it is encoded again. */
  function Canonical(env: Env, request: AppendRequest): AppendRequest
    requires env.compact(request.payload).Some?
  {
    request.(payload := env.compact(request.payload).value)
  }

  function CallOf(env: Env, credential: Auth.Credential, request: AppendRequest, moment: Moment): Call {
    Call(Context(credential.id, Auth.RoleString(credential.role)),
         AppendOptions(request.kind, request.entityID, request.command, env.compact(request.payload), ZERO_TIME,
                       "", ""),
         request.expectedRoot, moment.nonce, moment.now, moment.fault)
  }

  /** The append that a request makes of the store. */
  function RequestStep(env: Env, digests: Digests, credential: Auth.Credential, key: string, request: AppendRequest,
                       moment: Moment): (step: Step)
    requires env.compact(request.payload).Some?
    ensures step.AppendIdempotent?
  {
    AppendIdempotent(CallOf(env, credential, request, moment), digests.text(RequestText(credential.id, key)),
                     digests.request(Canonical(env, request)))
  }

  /** The answer of `appendEvent` on an open store, and the store after it: a request that is not refused makes exactly
      one append, and the answer's root is refs/root after that append. */
  function AppendAnswer(env: Env, digests: Digests, schema: Option<Catalogs.Abstract>, s: System,
                        credential: Auth.Credential, key: string, request: AppendRequest, moment: Moment)
    : (Result<Published>, System)
    requires s.session.Opened?
  {
    var refusal := RequestRefusal(env, credential.allow, schema, key, request);
    if refusal.Some? then (Err(refusal.value), s)
    else
      var step := RequestStep(env, digests, credential, key, request, moment);
      var next := Next(env, s, step);
      match AttemptOf(env, s, step).result
      case Err(error) => (Err(error), next)
      case Ok(receipt) => (Ok(Published(receipt.hash, next.disk.root, receipt.replayed)), next)
  }

  datatype Event = Event(node: Node, payload: Option<Bytes>)

  datatype Events = Events(events: seq<Event>, root: string, hasMore: bool)

  /** The events of a page without payloads. */
  function Bare(nodes: seq<Node>): seq<Event> {
    seq(|nodes|, i requires 0 <= i < |nodes| => Event(nodes[i], None))
  }

  /** The events of a page, each with the payload of its own node. */
  function Filled(nodes: seq<Node>, items: seq<EventPayload>): seq<Event>
    requires |items| == |nodes|
  {
    seq(|nodes|, i requires 0 <= i < |nodes| => Event(nodes[i], Some(items[i].payload)))
  }

  /** The limit that a page is read with. */
  function PageLimit(limit: Option<Int64>, includePayload: bool): Result<Int64> {
    if limit.Some? && !(1 <= limit.value <= 1000) then Err(Validation)
    else
      var n: Int64 := if limit.None? then 100 else limit.value;
      Ok(if includePayload && n > MAX_PAYLOAD_BATCH_EVENTS then MAX_PAYLOAD_BATCH_EVENTS else n)
  }

  /** The last check of an answer with payloads: `encode` gives the length of its encoding, if it can be encoded. */
  function Sized(encode: Events -> Option<nat>, answer: Events, maxBody: Int64): Result<Events> {
    match encode(answer)
    case None => Err(SystemError)
    case Some(length) => if length > maxBody then Err(Capacity) else Ok(answer)
  }

  /** Where one of the handler's store calls finds the store: refs/root and the indexed history. */
  datatype Sight = Sight(root: string, indexed: seq<Node>)

  /** The answer of `events` whose page is read at `first` and whose payloads are selected at `second`; the k-th
      node is then read from `views(k)`. */
  function EventsAnswer(env: Env, key: Key, first: Sight, second: Sight, dir: Directory, views: nat -> Directory,
                        after: string, observed: string, limit: Option<Int64>, includePayload: bool,
                        encode: Events -> Option<nat>, maxBody: Int64): Result<Events>
  {
    if PageLimit(limit, includePayload).Err? then Err(Validation)
    else
      match PageAt(env, dir, first.root, first.indexed, Trim(after), Trim(observed),
                   PageLimit(limit, includePayload).value, true)
      case Err(error) => Err(error)
      case Ok(page) =>
        if !includePayload then Ok(Events(Bare(page.nodes), page.root, page.hasMore))
        else if page.nodes == [] then Sized(encode, Events([], page.root, page.hasMore), maxBody)
        else
          var ids := Hashes(page.nodes);
          var batch := EventPayloads(env, key, second.root, second.indexed, seq(|ids|, views), ids, page.root, maxBody);
          match batch
          case Err(error) => Err(error)
          case Ok(items) =>
            BatchHasOrder(env, key, second, seq(|ids|, views), ids, page.root, maxBody);
            Sized(encode, Events(Filled(page.nodes, items), page.root, page.hasMore), maxBody)
  }

  /** A batch that is answered holds each requested event once, in request order. */
  lemma BatchHasOrder(env: Env, key: Key, sight: Sight, dirs: seq<Directory>, ids: seq<string>, observed: string,
                      maxBytes: int)
    requires |dirs| == |ids|
    requires EventPayloads(env, key, sight.root, sight.indexed, dirs, ids, observed, maxBytes).Ok?
    ensures var items := EventPayloads(env, key, sight.root, sight.indexed, dirs, ids, observed, maxBytes).value;
            |items| == |ids| && forall k | 0 <= k < |ids| :: items[k].eventID == ids[k]
    ensures forall j, k | 0 <= j < k < |ids| :: ids[j] != ids[k]
  {
    hide Positions, Collect, FirstObjection;
    CollectedInOrder(env, key, dirs, ids, maxBytes);
    forall j, k | 0 <= j < k < |ids| ensures ids[j] != ids[k] {
      SelectedIDsAreIndexed(sight.indexed, ids, Positions(sight.indexed)[observed], |ids|, k);
      assert ids[j] == ids[..k][j];
    }
  }

  class API {
    const store: Store
    const catalog: Catalogs.Catalog?
    const minimumRoot: string
    const digests: Digests
    const encode: Events -> Option<nat>
    const maxBody: Int64

    constructor (store: Store, catalog: Catalogs.Catalog?, minimumRoot: string, digests: Digests,
                 encode: Events -> Option<nat>, maxBody: Int64)
      requires maxBody > 0
      ensures this.store == store && this.catalog == catalog && this.minimumRoot == Trim(minimumRoot)
      ensures this.digests == digests && this.encode == encode && this.maxBody == maxBody
    {
      this.store, this.catalog, this.minimumRoot := store, catalog, Trim(minimumRoot);
      this.digests, this.encode, this.maxBody := digests, encode, maxBody;
    }

    ghost predicate Valid()
      reads store, catalog
    {
      store.Valid() && (catalog != null ==> catalog.Valid()) && maxBody > 0
    }

    function Schema(): Option<Catalogs.Abstract>
      reads catalog
    {
      if catalog == null then None else Some(Catalogs.AbstractOf(catalog.State()))
    }

    ghost function State(): System
      reads store, store.volume
    {
      System(store.volume.State(), Opened(store.key, store.chain))
    }

    method MinimumRootPresent() returns (r: Result<bool>)
      requires Valid()
      ensures r == MinimumPresent(minimumRoot, store.volume.root, store.chain)
    {
      hide Trim, ValidHash, Positions, Linked;
      if minimumRoot == "" {
        return Ok(true);
      }
      r := store.ContainsRoot(minimumRoot);
    }

    /** `authorizeAppend`. */
    method Authorize(allow: Option<Allow>, kind: string, command: string) returns (ok: bool)
      requires Valid()
      ensures ok == Permitted(allow, Schema(), kind, command)
    {
      hide AllowsAppend, Catalogs.Authorized, Catalogs.Schema;
      ok := AuthorizeAppend(allow, kind, command);
      if !ok || catalog == null {
        return;
      }
      ok := catalog.Authorize(kind, command);
    }

    /** `appendEvent`. */
    method AppendEvent(credential: Auth.Credential, key: string, request: AppendRequest, moment: Moment)
      returns (r: Result<Published>)
      requires Valid()
      modifies store, store.volume
      ensures Valid()
      ensures (r, State()) ==
              AppendAnswer(store.env, digests, Schema(), old(State()), credential, key, request, moment)
    {
      hide Trim, AppendOnce, Permitted, Catalogs.Schema, Catalogs.WellFormed;
      var requestKey := Trim(key);
      if |requestKey| < 8 || |requestKey| > 200 {
        return Err(Validation);
      }
      if request.expectedRoot.None? {
        return Err(Validation);
      }
      if |request.payload| == 0 {
        return Err(Validation);
      }
      var permitted := Authorize(credential.allow, request.kind, request.command);
      if !permitted {
        return Err(Permission);
      }
      var encoded := store.env.compact(request.payload);
      if encoded.None? {
        return Err(SystemError);
      }
      var canonical := request.(payload := encoded.value);
      var appended := store.AppendIdempotent(
        CallOf(store.env, credential, request, moment), digests.text(credential.id + "\0" + requestKey),
        digests.request(canonical));
      if appended.Err? {
        return Err(appended.error);
      }
      var currentRoot := store.volume.root;
      return Ok(Published(appended.value.hash, currentRoot, appended.value.replayed));
    }

    /** `POST /v1/events`: `appendEvent` behind `requireMutation`. */
    method PostEvent(credential: Auth.Credential, key: string, request: AppendRequest, moment: Moment)
      returns (r: Result<Published>)
      requires Valid()
      modifies store, store.volume
      ensures Valid()
      ensures (r, State()) ==
              if old(MinimumPresent(minimumRoot, store.volume.root, store.chain)) != Ok(true)
              then (Err(Integrity), old(State()))
              else AppendAnswer(store.env, digests, Schema(), old(State()), credential, key, request, moment)
    {
      hide AppendAnswer, Catalogs.Schema, MinimumPresent;
      var contains := MinimumRootPresent();
      if contains.Err? || !contains.value {
        return Err(Integrity);
      }
      r := AppendEvent(credential, key, request, moment);
    }

    /** `GET /v1/events`. The payloads are looked up by hash; every event gets the payload of its own node. */
    method GetEvents(after: string, observed: string, limit: Option<Int64>, includePayload: bool,
                     views: nat -> Directory)
      returns (r: Result<Events>)
      requires Valid()
      ensures var sight := Sight(store.volume.root, store.chain);
              r == EventsAnswer(store.env, store.key, sight, sight, store.volume.nodes, views, after, observed, limit,
                                includePayload, encode, maxBody)
    {
      hide Trim, PageAt, EventPayloads, Metadata, Positions, Requests;
      if limit.Some? && (limit.value < 1 || limit.value > 1000) {
        return Err(Validation);
      }
      var n: Int64 := if limit.None? then 100 else limit.value;
      if includePayload && n > MAX_PAYLOAD_BATCH_EVENTS {
        n := MAX_PAYLOAD_BATCH_EVENTS;
      }
      var answer := store.EventPageAt(Trim(after), Trim(observed), n, true);
      if answer.Err? {
        return Err(answer.error);
      }
      var page := answer.value;
      var payloads: map<string, Bytes> := map[];
      ghost var items: seq<EventPayload> := [];
      if includePayload && |page.nodes| > 0 {
        var ids: seq<string> := [];
        for i := 0 to |page.nodes|
          invariant |ids| == i && forall k | 0 <= k < i :: ids[k] == page.nodes[k].hash
        {
          ids := ids + [page.nodes[i].hash];
        }
        assert ids == Hashes(page.nodes);
        var batch := store.EventPayloadsWithReader(ids, page.root, maxBody, seq(|ids|, views));
        if batch.Err? {
          return Err(batch.error);
        }
        items := batch.value;
        BatchHasOrder(store.env, store.key, Sight(store.volume.root, store.chain), seq(|ids|, views), ids, page.root,
                      maxBody);
        for k := 0 to |batch.value|
          invariant forall j | 0 <= j < k :: ids[j] in payloads && payloads[ids[j]] == items[j].payload
        {
          payloads := payloads[batch.value[k].eventID := batch.value[k].payload];
        }
      }
      var events: seq<Event> := [];
      for i := 0 to |page.nodes|
        invariant |events| == i
        invariant forall k | 0 <= k < i ::
                    events[k] == Event(page.nodes[k], if includePayload then Some(items[k].payload) else None)
      {
        var node := page.nodes[i];
        events := events + [Event(node, if includePayload then Some(payloads[node.hash]) else None)];
      }
      var response := Events(events, page.root, page.hasMore);
      if !includePayload {
        assert events == Bare(page.nodes);
        return Ok(response);
      }
      assert events == if page.nodes == [] then [] else Filled(page.nodes, items);
      var encoded := encode(response);
      if encoded.None? {
        return Err(SystemError);
      }
      if encoded.value > maxBody {
        return Err(Capacity);
      }
      return Ok(response);
    }
  }
}
