/** Batches of payloads: `selectPayloadEventIDs` under the lock, then node reads after it is released. */
module Payloads {
  import opened Outcomes
  import opened Records
  import opened Chains
  import opened Indexes

  datatype EventPayload = EventPayload(eventID: string, payload: Bytes)

  /** What `selectPayloadEventIDs` finds wrong with `ids[k]`. */
  function Objection(chain: seq<Node>, ids: seq<string>, target: int, k: nat): Option<ErrorCode>
    requires k < |ids|
  {
    if !ValidHash(ids[k]) || ids[k] in ids[..k] then Some(Validation)
    else if ids[k] !in Positions(chain) then Some(NotFound)
    else if Positions(chain)[ids[k]] > target then Some(Conflict)
    else None
  }

  /** The first objection among the first `n` IDs. */
  function FirstObjection(chain: seq<Node>, ids: seq<string>, target: int, n: nat): Option<ErrorCode>
    requires n <= |ids|
  {
    if n == 0 then None
    else
      var earlier := FirstObjection(chain, ids, target, n - 1);
      if earlier.Some? then earlier else Objection(chain, ids, target, n - 1)
  }

  /** The error of selecting `ids` up to `observed`, from a history whose tip is the current root. */
  function SelectionError(chain: seq<Node>, ids: seq<string>, observed: string): Option<ErrorCode> {
    if observed !in Positions(chain) then Some(Conflict)
    else FirstObjection(chain, ids, Positions(chain)[observed], |ids|)
  }

  function ReadPayload(env: Env, key: Key, dir: Directory, id: string): Result<Bytes> {
    match ReadNode(env, dir, id)
    case Err(error) => Err(error)
    case Ok(node) => NodePayload(env, key, node)
  }

  function Size(payloads: seq<EventPayload>): nat {
    if payloads == [] then 0 else Size(payloads[..|payloads| - 1]) + |payloads[|payloads| - 1].payload|
  }

  /** Reading the payloads of `ids` in order, the k-th read seeing `dirs[k]`; a positive `maxBytes` bounds
      their total size. */
  function Collect(env: Env, key: Key, dirs: seq<Directory>, ids: seq<string>, maxBytes: int): Result<seq<EventPayload>>
    requires |dirs| == |ids|
  {
    if ids == [] then Ok([])
    else
      var last := |ids| - 1;
      match Collect(env, key, dirs[..last], ids[..last], maxBytes)
      case Err(error) => Err(error)
      case Ok(before) =>
        match ReadPayload(env, key, dirs[last], ids[last])
        case Err(error) => Err(error)
        case Ok(payload) =>
          if maxBytes > 0 && |payload| > maxBytes - Size(before) then Err(Capacity)
          else Ok(before + [EventPayload(ids[last], payload)])
  }

  /** How one more read changes the collection. */
  lemma CollectOneMore(env: Env, key: Key, dirs: seq<Directory>, ids: seq<string>, maxBytes: int, k: nat)
    requires |dirs| == |ids| && k < |ids|
    requires Collect(env, key, dirs[..k], ids[..k], maxBytes).Ok?
    ensures var before := Collect(env, key, dirs[..k], ids[..k], maxBytes).value;
            var read := ReadPayload(env, key, dirs[k], ids[k]);
            Collect(env, key, dirs[..k + 1], ids[..k + 1], maxBytes) ==
              match read
              case Err(error) => Err(error)
              case Ok(payload) =>
                if maxBytes > 0 && |payload| > maxBytes - Size(before) then Err(Capacity)
                else Ok(before + [EventPayload(ids[k], payload)])
  {
    hide ReadPayload;
    assert dirs[..k + 1][..k] == dirs[..k] && ids[..k + 1][..k] == ids[..k];
  }

  lemma SizeOneMore(payloads: seq<EventPayload>, item: EventPayload)
    ensures Size(payloads + [item]) == Size(payloads) + |item.payload|
  {
    assert (payloads + [item])[..|payloads|] == payloads;
  }

  /** `eventPayloadsWithReader` on a store that indexes `chain` while refs/root holds `root`. */
  function EventPayloads(env: Env, key: Key, root: string, chain: seq<Node>, dirs: seq<Directory>, ids: seq<string>,
                         observed: string, maxBytes: int): Result<seq<EventPayload>>
    requires |dirs| == |ids|
  {
    if ids == [] || !ValidHash(observed) then Err(Validation)
    else if root != Tip(chain) then Err(Integrity)
    else
      match SelectionError(chain, ids, observed)
      case Some(error) => Err(error)
      case None => Collect(env, key, dirs, ids, maxBytes)
  }

  /** The k-th read sees the directory of the selection or a later one: appends add files and replace none. */
  predicate LaterViews(dir: Directory, dirs: seq<Directory>) {
    forall k | 0 <= k < |dirs| :: forall hash | hash in dir :: hash in dirs[k] && dirs[k][hash] == dir[hash]
  }

  lemma {:induction false} SelectedIDsAreIndexed(chain: seq<Node>, ids: seq<string>, target: int, n: nat, k: nat)
    requires k < n <= |ids| && FirstObjection(chain, ids, target, n).None?
    ensures Objection(chain, ids, target, k).None?
  {
    if k < n - 1 {
      SelectedIDsAreIndexed(chain, ids, target, n - 1, k);
    }
  }

  lemma {:induction false} CollectSeesOneDirectory(env: Env, key: Key, dir: Directory, dirs: seq<Directory>,
                                                    ids: seq<string>, maxBytes: int)
    requires |dirs| == |ids| && LaterViews(dir, dirs)
    requires forall k | 0 <= k < |ids| :: ids[k] in dir
    ensures Collect(env, key, dirs, ids, maxBytes) == Collect(env, key, seq(|ids|, _ => dir), ids, maxBytes)
  {
    if ids != [] {
      var last := |ids| - 1;
      CollectSeesOneDirectory(env, key, dir, dirs[..last], ids[..last], maxBytes);
      assert seq(|ids|, _ => dir)[..last] == seq(last, _ => dir);
      assert ids[last] in dir && dirs[last][ids[last]] == dir[ids[last]];
    }
  }

  /** A batch linearizes at its selection: although the nodes are read after the lock is released, appends in
      between leave the answer what an atomic read at selection time gives. */
  lemma BatchLinearizesAtSelection(env: Env, key: Key, chain: seq<Node>, dir: Directory, dirs: seq<Directory>,
                                   ids: seq<string>, observed: string, maxBytes: int)
    requires Linked(env, dir, chain) && |dirs| == |ids| && LaterViews(dir, dirs)
    ensures EventPayloads(env, key, Tip(chain), chain, dirs, ids, observed, maxBytes) ==
            EventPayloads(env, key, Tip(chain), chain, seq(|ids|, _ => dir), ids, observed, maxBytes)
  {
    if SelectionError(chain, ids, observed).None? {
      forall k | 0 <= k < |ids| ensures ids[k] in dir {
        SelectedIDsAreIndexed(chain, ids, Positions(chain)[observed], |ids|, k);
        PositionsAreOccurrences(chain, ids[k]);
        assert ReadNode(env, dir, chain[Positions(chain)[ids[k]]].hash).Ok?;
      }
      CollectSeesOneDirectory(env, key, dir, dirs, ids, maxBytes);
    }
  }

  predicate AllAuthenticate(env: Env, key: Key, dirs: seq<Directory>, ids: seq<string>)
    requires |dirs| == |ids|
  {
    forall k | 0 <= k < |ids| :: ReadPayload(env, key, dirs[k], ids[k]).Ok?
  }

  /** The payloads of `ids` in request order, when every one authenticates. */
  function Payloads(env: Env, key: Key, dirs: seq<Directory>, ids: seq<string>): (items: seq<EventPayload>)
    requires |dirs| == |ids| && AllAuthenticate(env, key, dirs, ids)
    ensures |items| == |ids|
  {
    seq(|ids|, k requires 0 <= k < |ids| => EventPayload(ids[k], ReadPayload(env, key, dirs[k], ids[k]).value))
  }

  lemma {:induction false} SizeOfPrefix(payloads: seq<EventPayload>, k: nat)
    requires k <= |payloads|
    ensures Size(payloads[..k]) <= Size(payloads)
  {
    if k < |payloads| {
      SizeOfPrefix(payloads[..|payloads| - 1], k);
      assert payloads[..|payloads| - 1][..k] == payloads[..k];
    } else {
      assert payloads[..k] == payloads;
    }
  }

  /** A batch whose nodes all authenticate is answered, in request order, exactly when its total plaintext size
      is within a positive limit; otherwise the answer is a capacity error. */
  lemma {:induction false} BatchFitsExactly(env: Env, key: Key, dirs: seq<Directory>, ids: seq<string>, maxBytes: int)
    requires |dirs| == |ids| && AllAuthenticate(env, key, dirs, ids)
    requires maxBytes >= 0
    ensures Collect(env, key, dirs, ids, maxBytes) ==
            if maxBytes > 0 && Size(Payloads(env, key, dirs, ids)) > maxBytes then Err(Capacity)
            else Ok(Payloads(env, key, dirs, ids))
  {
    var all := Payloads(env, key, dirs, ids);
    if ids != [] {
      var last := |ids| - 1;
      assert all[..last] == Payloads(env, key, dirs[..last], ids[..last]);
      BatchFitsExactly(env, key, dirs[..last], ids[..last], maxBytes);
      SizeOfPrefix(all, last);
      assert all == all[..last] + [all[last]];
    }
  }

  lemma {:induction false} CollectedInOrder(env: Env, key: Key, dirs: seq<Directory>, ids: seq<string>, maxBytes: int)
    requires |dirs| == |ids| && Collect(env, key, dirs, ids, maxBytes).Ok?
    ensures var items := Collect(env, key, dirs, ids, maxBytes).value;
            |items| == |ids| && forall k | 0 <= k < |ids| ::
              items[k].eventID == ids[k] && ReadPayload(env, key, dirs[k], ids[k]) == Ok(items[k].payload)
  {
    hide ReadPayload, Size;
    if ids != [] {
      CollectedInOrder(env, key, dirs[..|ids| - 1], ids[..|ids| - 1], maxBytes);
    }
  }

  /** `hash` is an event at or before position `bound`. */
  predicate UpTo(chain: seq<Node>, bound: int, hash: string) {
    exists i :: 0 <= i <= bound && i < |chain| && chain[i].hash == hash
  }

  /** A selection meets no objection exactly when the observed root is in the history and the IDs are different hashes
      of events up to it. */
  lemma SelectsExactly(chain: seq<Node>, ids: seq<string>, bound: nat)
    requires Distinct(chain) && bound < |chain|
    ensures SelectionError(chain, ids, chain[bound].hash) == None <==>
              && (forall k | 0 <= k < |ids| :: ValidHash(ids[k]) && UpTo(chain, bound, ids[k]))
              && (forall j, k | 0 <= j < k < |ids| :: ids[j] != ids[k])
  {
    PositionOf(chain, bound);
    FirstObjectionExactly(chain, ids, bound, |ids|);
    hide FirstObjection, Positions, ValidHash;
    forall k | 0 <= k < |ids|
      ensures Objection(chain, ids, bound, k).None? <==>
                ValidHash(ids[k]) && UpTo(chain, bound, ids[k]) && forall j | 0 <= j < k :: ids[j] != ids[k]
    {
      PositionsAreOccurrences(chain, ids[k]);
      assert forall j | 0 <= j < k :: ids[..k][j] == ids[j];
      if i :| 0 <= i <= bound && i < |chain| && chain[i].hash == ids[k] {
        PositionOf(chain, i);
      }
    }
    hide Objection;
  }

  lemma {:induction false} FirstObjectionExactly(chain: seq<Node>, ids: seq<string>, target: int, n: nat)
    requires n <= |ids|
    ensures FirstObjection(chain, ids, target, n).None? <==>
              forall k | 0 <= k < n :: Objection(chain, ids, target, k).None?
  {
    hide Objection;
    if n > 0 {
      FirstObjectionExactly(chain, ids, target, n - 1);
    }
  }

  /** A root that is not in the history is a conflict. */
  lemma UnknownRootConflicts(env: Env, key: Key, chain: seq<Node>, dirs: seq<Directory>, ids: seq<string>,
                             observed: string, maxBytes: int)
    requires |dirs| == |ids| && ids != [] && ValidHash(observed)
    requires forall i | 0 <= i < |chain| :: chain[i].hash != observed
    ensures EventPayloads(env, key, Tip(chain), chain, dirs, ids, observed, maxBytes) == Err(Conflict)
  {
    PositionsAreOccurrences(chain, observed);
    hide ValidHash, Positions;
  }

  /** An answered batch holds, in request order, the payload of each requested event, and no event beyond the observed
      root. */
  lemma AnsweredBatchShowsHistory(env: Env, key: Key, chain: seq<Node>, dir: Directory, dirs: seq<Directory>,
                                  ids: seq<string>, bound: nat, maxBytes: int)
    requires Linked(env, dir, chain) && |dirs| == |ids| && LaterViews(dir, dirs) && bound < |chain|
    requires EventPayloads(env, key, Tip(chain), chain, dirs, ids, chain[bound].hash, maxBytes).Ok?
    ensures var items := EventPayloads(env, key, Tip(chain), chain, dirs, ids, chain[bound].hash, maxBytes).value;
            |items| == |ids| && forall k | 0 <= k < |ids| ::
              items[k].eventID == ids[k] &&
              exists i :: 0 <= i <= bound && chain[i].hash == ids[k] &&
                          NodePayload(env, key, chain[i]) == Ok(items[k].payload)
  {
    var items := EventPayloads(env, key, Tip(chain), chain, dirs, ids, chain[bound].hash, maxBytes).value;
    SelectsExactly(chain, ids, bound);
    CollectedInOrder(env, key, dirs, ids, maxBytes);
    hide Collect, SelectionError, NodePayload;
    forall k | 0 <= k < |ids|
      ensures exists i :: 0 <= i <= bound && chain[i].hash == ids[k] &&
                          NodePayload(env, key, chain[i]) == Ok(items[k].payload)
    {
      assert UpTo(chain, bound, ids[k]);
      var i :| 0 <= i <= bound && i < |chain| && chain[i].hash == ids[k];
      assert ReadNode(env, dir, chain[i].hash) == Ok(chain[i]);
      assert ids[k] in dir && dirs[k][ids[k]] == dir[ids[k]];
      assert ReadPayload(env, key, dirs[k], ids[k]) == NodePayload(env, key, chain[i]);
    }
  }

  /** A batch without IDs, or with a root that is no hash, is a validation error; one on a store whose disk and index
      differ is an integrity error. */
  lemma BatchRefusals(env: Env, key: Key, root: string, chain: seq<Node>, dirs: seq<Directory>, ids: seq<string>,
                      observed: string, maxBytes: int)
    requires |dirs| == |ids|
    ensures var batch := EventPayloads(env, key, root, chain, dirs, ids, observed, maxBytes);
            && (ids == [] || !ValidHash(observed) ==> batch == Err(Validation))
            && (ids != [] && ValidHash(observed) && root != Tip(chain) ==> batch == Err(Integrity))
  {
    hide ValidHash;
  }
}
