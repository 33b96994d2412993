/** `POST /v1/events` in terms of the request: which requests append an event, what the event says, and how the others
    are answered. */
module Publishing {
  import opened Outcomes
  import opened Text
  import opened Records
  import opened Chains
  import opened Disks
  import opened Appends
  import opened Indexes
  import opened Runs
  import opened Guarantees
  import opened Durability
  import opened Answers
  import opened Allows
  import opened Server
  import Catalogs
  import Auth

  /** The request has a key of the right length, an expected root, a payload that is JSON, and a permission. */
  predicate WellFormedRequest(env: Env, credential: Auth.Credential, schema: Option<Catalogs.Abstract>, key: string,
                              request: AppendRequest)
  {
    && 8 <= |Trim(key)| <= 200 && request.expectedRoot.Some?
    && request.payload != [] && env.compact(request.payload).Some?
    && AllowsAppend(credential.allow, request.kind, request.command)
    && (schema.Some? ==>
          Catalogs.Authorized(schema.value.enforced, schema.value.schema, request.kind, request.command))
  }

  /** The ID under which the request of a credential is recorded. */
  function RequestID(digests: Digests, credential: Auth.Credential, key: string): string {
    digests.text(credential.id + "\0" + Trim(key))
  }

  lemma StepOfRequest(env: Env, digests: Digests, credential: Auth.Credential, key: string, request: AppendRequest,
                      moment: Moment)
    requires env.compact(request.payload).Some?
    ensures var step := RequestStep(env, digests, credential, key, request, moment);
            && step.AppendIdempotent?
            && step.requestID == Trim(step.requestID) == RequestID(digests, credential, key) != ""
            && step.requestHash == Trim(step.requestHash) != ""
            && step.requestHash == digests.request(request.(payload := env.compact(request.payload).value))
            && step.call.expected == request.expectedRoot && step.call.fault == moment.fault
            && step.call.now == moment.now
            && step.call.ctx == Context(credential.id, Auth.RoleString(credential.role))
            && step.call.opts.kind == request.kind && step.call.opts.entityID == request.entityID
            && step.call.opts.command == request.command && step.call.opts.createdAt == ZERO_TIME
            && step.call.opts.payload == env.compact(request.payload)
  {
    var step := RequestStep(env, digests, credential, key, request, moment);
    HashIsTrimmed(step.requestID);
    HashIsTrimmed(step.requestHash);
    hide Trim;
  }

  /** Without a write fault, a request appends a new event exactly when it is well formed, has a type, expects the
      current root, finds disk and index in agreement, and no event carries its ID. */
  lemma PublishesExactly(env: Env, digests: Digests, schema: Option<Catalogs.Abstract>, s: System,
                         credential: Auth.Credential, key: string, request: AppendRequest, moment: Moment)
    requires s.session.Opened? && moment.fault.NoFault?
    ensures var (r, t) := AppendAnswer(env, digests, schema, s, credential, key, request, moment);
            r.Ok? && !r.value.replayed <==>
              && WellFormedRequest(env, credential, schema, key, request)
              && Trim(request.kind) != ""
              && request.expectedRoot == Some(s.disk.root)
              && s.disk.root == Tip(s.session.indexed)
              && !Used(s.session.indexed, RequestID(digests, credential, key))
  {
    hide Trim, AllowsAppend, Catalogs.Authorized, Used, AttemptOf, Next;
    if WellFormedRequest(env, credential, schema, key, request) {
      var step := RequestStep(env, digests, credential, key, request, moment);
      StepOfRequest(env, digests, credential, key, request, moment);
      OnceSucceedsExactly(env, s, step.call, step.requestID, step.requestHash);
      hide RequestStep, RequestID;
    }
  }

  /** Whatever the write faults, a new event extends the root that the request expected. The answer names it as the hash
      and, read at once, as the root; and it records the request: type, entity, command, credential, role, time, the
      request's ID and digest, and a payload that opens to the request's. */
  lemma PublishedEvent(env: Env, digests: Digests, schema: Option<Catalogs.Abstract>, s: System, chain: seq<Node>,
                       credential: Auth.Credential, key: string, request: AppendRequest, moment: Moment)
    returns (node: Node)
    requires Inv(env, s, chain, 0) && s.session.Opened?
    requires var (r, t) := AppendAnswer(env, digests, schema, s, credential, key, request, moment);
             r.Ok? && !r.value.replayed
    requires env.compact(request.payload).Some? ==>
               Legal(env, s, RequestStep(env, digests, credential, key, request, moment))
    ensures WellFormedRequest(env, credential, schema, key, request)
    ensures request.expectedRoot == Some(s.disk.root)
    ensures var (r, t) := AppendAnswer(env, digests, schema, s, credential, key, request, moment);
            && r == Ok(Published(node.hash, node.hash, false))
            && WalkFrom(env, t.disk.nodes, t.disk.root) == Ok(chain + [node])
    ensures RecordsAppend(env, s.session.key, chain, Context(credential.id, Auth.RoleString(credential.role)),
                          AppendOptions(request.kind, request.entityID, request.command, env.compact(request.payload),
                                        ZERO_TIME, "", ""), moment.now, node)
    ensures node.content.requestID == RequestID(digests, credential, key)
    ensures node.content.requestHash == digests.request(request.(payload := env.compact(request.payload).value))
  {
    var step := RequestStep(env, digests, credential, key, request, moment);
    StepOfRequest(env, digests, credential, key, request, moment);
    assert Committed(env, s, step);
    RecordsByFields(env, s.session.key, chain, step.call.ctx, step.call.opts,
                    AppendOptions(request.kind, request.entityID, request.command, env.compact(request.payload),
                                  ZERO_TIME, "", ""), step.call.now);
    hide Trim, AllowsAppend, Catalogs.Authorized, Inv, Legal, AttemptOf, Next, WalkFrom, RecordsAppend, RequestStep,
      RequestID;
    CommitExpectsTheRoot(env, s, step);
    node := CommittedNode(env, s, chain, step);
  }

  /** Records agree when the options differ in the request fields alone. */
  lemma RecordsByFields(env: Env, key: Key, chain: seq<Node>, ctx: Context, a: AppendOptions, b: AppendOptions,
                        now: Time)
    requires a.(requestID := b.requestID, requestHash := b.requestHash) == b
    ensures forall node :: RecordsAppend(env, key, chain, ctx, a, now, node) ==
                           RecordsAppend(env, key, chain, ctx, b, now, node)
  {
    hide Trim, NodePayload;
  }

  /** A new request that is well formed and has a type, but expects another root than the current one, is answered with
      a conflict, and changes nothing. */
  lemma StaleRootConflicts(env: Env, digests: Digests, schema: Option<Catalogs.Abstract>, s: System,
                           credential: Auth.Credential, key: string, request: AppendRequest, moment: Moment)
    requires s.session.Opened? && s.disk.root == Tip(s.session.indexed) && !moment.fault.RootUnreadable?
    requires WellFormedRequest(env, credential, schema, key, request) && Trim(request.kind) != ""
    requires !Used(s.session.indexed, RequestID(digests, credential, key))
    requires request.expectedRoot != Some(s.disk.root)
    ensures AppendAnswer(env, digests, schema, s, credential, key, request, moment) == (Err(Conflict), s)
  {
    var step := RequestStep(env, digests, credential, key, request, moment);
    StepOfRequest(env, digests, credential, key, request, moment);
    hide Trim, AllowsAppend, Catalogs.Authorized, Used, AttemptOf, Next, RequestStep, RequestID;
    WrongRootIsRefused(env, s, step);
  }

  /** A request that is not well formed changes nothing and is answered with a validation or a permission error, or an
      error of its encoding. */
  lemma MalformedRequestChangesNothing(env: Env, digests: Digests, schema: Option<Catalogs.Abstract>, s: System,
                                       credential: Auth.Credential, key: string, request: AppendRequest, moment: Moment)
    requires s.session.Opened? && !WellFormedRequest(env, credential, schema, key, request)
    ensures var complete := 8 <= |Trim(key)| <= 200 && request.expectedRoot.Some? && request.payload != [];
            var permitted := AllowsAppend(credential.allow, request.kind, request.command) &&
                             (schema.Some? ==> Catalogs.Authorized(schema.value.enforced, schema.value.schema,
                                                                   request.kind, request.command));
            AppendAnswer(env, digests, schema, s, credential, key, request, moment) ==
              (Err(if !complete then Validation else if !permitted then Permission else SystemError), s)
  {
    hide Trim, AllowsAppend, Catalogs.Authorized;
  }

  /** A replayed answer names the event that carries the request's ID and digest, with the current root, and changes
      nothing. */
  lemma ReplayedAnswer(env: Env, digests: Digests, schema: Option<Catalogs.Abstract>, s: System,
                       credential: Auth.Credential, key: string, request: AppendRequest, moment: Moment)
    requires s.session.Opened?
    requires var (r, t) := AppendAnswer(env, digests, schema, s, credential, key, request, moment);
             r.Ok? && r.value.replayed
    ensures var (r, t) := AppendAnswer(env, digests, schema, s, credential, key, request, moment);
            && WellFormedRequest(env, credential, schema, key, request)
            && t == s && r.value.root == s.disk.root
            && exists i :: 0 <= i < |s.session.indexed| && s.session.indexed[i].hash == r.value.hash &&
                           s.session.indexed[i].content.requestID == RequestID(digests, credential, key) &&
                           s.session.indexed[i].content.requestHash ==
                           digests.request(request.(payload := env.compact(request.payload).value))
  {
    var step := RequestStep(env, digests, credential, key, request, moment);
    StepOfRequest(env, digests, credential, key, request, moment);
    hide Trim, AllowsAppend, Catalogs.Authorized, RequestStep, RequestID;
    ReplayedIsIndexed(env, s, step);
    ReplayChangesNothing(env, s, step);
    RequestsPointIntoHistory(s.session.indexed, step.requestID);
  }

  lemma ReplayChangesNothing(env: Env, s: System, step: Step)
    requires s.session.Opened? && step.AppendIdempotent?
    requires AttemptOf(env, s, step).result.Ok? && AttemptOf(env, s, step).result.value.replayed
    ensures Next(env, s, step) == s
  {
    hide Trim, Requests, NewNode, Created, Renamed, Refusal;
  }

  /** A well-formed request whose ID an event carries with another digest is answered with a conflict, and changes
      nothing. */
  lemma ReusedKeyConflicts(env: Env, digests: Digests, schema: Option<Catalogs.Abstract>, s: System, i: nat,
                           credential: Auth.Credential, key: string, request: AppendRequest, moment: Moment)
    requires s.session.Opened? && UniqueRequests(s.session.indexed) && i < |s.session.indexed|
    requires WellFormedRequest(env, credential, schema, key, request)
    requires s.session.indexed[i].content.requestID == RequestID(digests, credential, key)
    ensures AppendAnswer(env, digests, schema, s, credential, key, request, moment) ==
              (if s.session.indexed[i].content.requestHash ==
                  digests.request(request.(payload := env.compact(request.payload).value))
               then Ok(Published(s.session.indexed[i].hash, s.disk.root, true)) else Err(Conflict), s)
  {
    StepOfRequest(env, digests, credential, key, request, moment);
    RequestsFindsItsNode(s.session.indexed, i);
    hide Trim, AllowsAppend, Catalogs.Authorized, Requests, Appends.Append;
  }

  /** The minimum root is present exactly when there is none, or disk and index agree and parent links from the current
      root lead to it. */
  lemma MinimumPresentExactly(env: Env, dir: Directory, minimum: string, root: string, indexed: seq<Node>)
    requires Linked(env, dir, indexed)
    ensures MinimumPresent(minimum, root, indexed) == Ok(true) <==>
              minimum == "" ||
              (ValidHash(Trim(minimum)) && root == Tip(indexed) && Reaches(env, dir, root, Trim(minimum)))
  {
    hide Trim, ValidHash, Positions, Linked, Reaches;
    IndexIsReachability(env, dir, indexed, Trim(minimum));
  }
}
