/** Pages of the event history and scans stitched from pages: `eventPageAt` and the replay of docs/api.md. */
module Paging {
  import opened Outcomes
  import opened Records
  import opened Chains
  import opened Indexes

  datatype EventPage = EventPage(nodes: seq<Node>, root: string, hasMore: bool)

  /** The half-open range of positions that a page covers. */
  datatype Window = Window(start: int, end: int, root: string, hasMore: bool)

  /** The range that `eventPageAt` selects from a history whose tip is the current root. */
  function PageWindow(chain: seq<Node>, after: string, observed: string, limit: Int64): Result<Window> {
    if observed != "" && !ValidHash(observed) then Err(Validation)
    else if observed != "" && observed !in Positions(chain) then Err(Conflict)
    else
      var targetEnd := if observed == "" then |chain| else Positions(chain)[observed] + 1;
      var root := if observed == "" then Tip(chain) else observed;
      if after != "" && after !in Positions(chain) then Err(NotFound)
      else if after != "" && Positions(chain)[after] >= targetEnd then Err(Conflict)
      else
        var start := if after == "" then 0 else Positions(chain)[after] + 1;
        var end := Wrap64(start + limit);
        if end < start then Err(Panic)
        else if end > targetEnd then Ok(Window(start, targetEnd, root, false))
        else Ok(Window(start, end, root, end < targetEnd))
  }

  /** Reading the files of `hashes` in order; the first failure is the answer. */
  function ReadAll(env: Env, dir: Directory, hashes: seq<string>): Result<seq<Node>> {
    if hashes == [] then Ok([])
    else
      match ReadAll(env, dir, hashes[..|hashes| - 1])
      case Err(error) => Err(error)
      case Ok(nodes) =>
        match ReadNode(env, dir, hashes[|hashes| - 1])
        case Err(error) => Err(error)
        case Ok(node) => Ok(nodes + [node])
  }

  /** `eventPageAt` on a store that indexes `chain` while refs/root holds `root`. */
  function PageAt(env: Env, dir: Directory, root: string, chain: seq<Node>, after: string, observed: string,
                  limit: Int64, metadataOnly: bool): Result<EventPage>
  {
    if limit < 1 then Err(Validation)
    else if root != Tip(chain) then Err(Integrity)
    else
      match PageWindow(chain, after, observed, limit)
      case Err(error) => Err(error)
      case Ok(w) =>
        WindowIsInRange(chain, after, observed, limit);
        if metadataOnly then Ok(EventPage(Metadata(chain)[w.start..w.end], w.root, w.hasMore))
        else
          match ReadAll(env, dir, Hashes(chain)[w.start..w.end])
          case Err(error) => Err(error)
          case Ok(nodes) => Ok(EventPage(nodes, w.root, w.hasMore))
  }

  lemma WindowIsInRange(chain: seq<Node>, after: string, observed: string, limit: Int64)
    requires limit >= 1 && PageWindow(chain, after, observed, limit).Ok?
    ensures var w := PageWindow(chain, after, observed, limit).value; 0 <= w.start <= w.end <= |chain|
  {
    hide ValidHash, Positions;
    PositionIsInRange(chain, after);
    PositionIsInRange(chain, observed);
  }

  lemma {:induction false} ReadAllOfLinked(env: Env, dir: Directory, chain: seq<Node>, from: nat, to: nat)
    requires Linked(env, dir, chain) && from <= to <= |chain|
    ensures ReadAll(env, dir, Hashes(chain)[from..to]) == Ok(chain[from..to])
  {
    var hashes := Hashes(chain)[from..to];
    if from < to {
      ReadAllOfLinked(env, dir, chain, from, to - 1);
      assert hashes[..|hashes| - 1] == Hashes(chain)[from..to - 1];
      assert ReadNode(env, dir, chain[to - 1].hash) == Ok(chain[to - 1]);
      assert hashes[|hashes| - 1] == chain[to - 1].hash;
      assert chain[from..to] == chain[from..to - 1] + [chain[to - 1]];
    } else {
      assert hashes == [] && chain[from..to] == [];
    }
  }

  /** Reading an intact history by its index gives what walking from its tip gives. */
  lemma AuditIsTheWalk(env: Env, dir: Directory, chain: seq<Node>)
    requires Linked(env, dir, chain)
    ensures ReadAll(env, dir, Hashes(chain)) == WalkFrom(env, dir, Tip(chain)) == Ok(chain)
  {
    ChainOfTip(env, dir, chain);
    ReadAllOfLinked(env, dir, chain, 0, |chain|);
    assert Hashes(chain)[0..|chain|] == Hashes(chain) && chain[0..|chain|] == chain;
  }

  /** One call of a scan: the directory and the history at that moment, and the limit the client asks for. */
  datatype Visit = Visit(dir: Directory, chain: seq<Node>, limit: PositiveInt)

  type PositiveInt = x: Int64 | x >= 1 witness 1

  predicate Addressed(chain: seq<Node>) {
    Distinct(chain) && forall k | 0 <= k < |chain| :: ValidHash(chain[k].hash)
  }

  /** Histories that only grow from one call to the next. */
  predicate Growing(visits: seq<Visit>) {
    && (forall i | 0 <= i < |visits| :: Addressed(visits[i].chain))
    && (forall i, j | 0 <= i < j < |visits| :: visits[i].chain <= visits[j].chain)
  }

  /** The events a client has collected, and whether it has stopped; None when a call failed. */
  datatype Scan = Scan(nodes: seq<Node>, finished: bool)

  /** The page of metadata that the first call of a scan gets. */
  function FirstPage(env: Env, visits: seq<Visit>, after: string, bound: string): Result<EventPage>
    requires visits != []
  {
    PageAt(env, visits[0].dir, Tip(visits[0].chain), visits[0].chain, after, bound, visits[0].limit, true)
  }

  /** The bounded replay: later calls pass the last hash as `after` and the first page's root as the bound,
      and the client stops at an empty page or when there are no more events. */
  function BoundedScan(env: Env, visits: seq<Visit>, after: string, bound: string): Option<Scan>
    decreases |visits|
  {
    if visits == [] then Some(Scan([], false))
    else
      match FirstPage(env, visits, after, bound)
      case Err(_) => None
      case Ok(page) => AfterPage(env, visits, page)
  }

  /** The rest of a bounded replay once the first call has answered with `page`. */
  function AfterPage(env: Env, visits: seq<Visit>, page: EventPage): Option<Scan>
    requires visits != []
    decreases |visits|, 0
  {
    if page.nodes == [] || !page.hasMore then Some(Scan(page.nodes, true))
    else
      match BoundedScan(env, visits[1..], page.nodes[|page.nodes| - 1].hash, page.root)
      case None => None
      case Some(rest) => Some(Scan(page.nodes + rest.nodes, rest.finished))
  }

  /** The unbounded replay: the client passes no bound and stops itself at `target`. */
  function UnboundedScan(env: Env, visits: seq<Visit>, after: string, target: string): Option<Scan> {
    if visits == [] then Some(Scan([], false))
    else
      match FirstPage(env, visits, after, "")
      case Err(_) => None
      case Ok(page) =>
        var k := IndexOf(page.nodes, target);
        if page.nodes == [] then Some(Scan([], true))
        else if k < |page.nodes| then Some(Scan(page.nodes[..k + 1], true))
        else
          match UnboundedScan(env, visits[1..], page.nodes[|page.nodes| - 1].hash, target)
          case None => None
          case Some(rest) => Some(Scan(page.nodes + rest.nodes, rest.finished))
  }

  /** The first position of `hash` in `nodes`, or their length. */
  function IndexOf(nodes: seq<Node>, hash: string): nat {
    if nodes == [] || nodes[0].hash == hash then 0 else 1 + IndexOf(nodes[1..], hash)
  }

  lemma {:induction false} IndexOfIsFirst(nodes: seq<Node>, hash: string)
    ensures var k := IndexOf(nodes, hash);
            k <= |nodes| && (k < |nodes| ==> nodes[k].hash == hash) && forall i | 0 <= i < k :: nodes[i].hash != hash
  {
    if nodes != [] && nodes[0].hash != hash {
      IndexOfIsFirst(nodes[1..], hash);
    }
  }

  /** The cursor that names position `start` of a history: no hash, or the hash just before it. */
  function Cursor(chain: seq<Node>, start: nat): string
    requires start <= |chain|
  {
    if start == 0 then "" else chain[start - 1].hash
  }

  function Total(visits: seq<Visit>): (total: nat)
    ensures total >= |visits|
  {
    if visits == [] then 0 else visits[0].limit + Total(visits[1..])
  }

  /** No `start + limit` of the scan leaves Go's int. */
  predicate NoOverflow(visits: seq<Visit>) {
    forall i | 0 <= i < |visits| :: |visits[i].chain| + visits[i].limit <= MAX_INT64
  }

  /** The position that a cursor stands for. */
  lemma CursorPosition(chain: seq<Node>, start: nat)
    requires Addressed(chain) && start <= |chain|
    ensures Cursor(chain, start) == "" <==> start == 0
    ensures start > 0 ==> Cursor(chain, start) in Positions(chain) && ValidHash(Cursor(chain, start)) &&
                          Positions(chain)[Cursor(chain, start)] == start - 1
  {
    hide ValidHash, Positions;
    if start > 0 {
      HashIsTrimmed(chain[start - 1].hash);
      PositionOf(chain, start - 1);
    }
  }

  /** The page that starts at `start` and is bounded by position `end`, or by nothing when `end` is 0, in terms of
      positions alone: it fails exactly when `start + limit` leaves Go's int. */
  lemma PageOfPositions(chain: seq<Node>, start: nat, end: nat, limit: Int64)
    requires Addressed(chain) && start <= |chain| <= MAX_INT64 && (end > 0 ==> start <= end <= |chain|) && limit >= 1
    ensures var target := if end == 0 then |chain| else end;
            PageWindow(chain, Cursor(chain, start), Cursor(chain, end), limit) ==
              if start + limit > MAX_INT64 then Err(Panic)
              else Ok(Window(start, Min(target, start + limit), if end == 0 then Tip(chain) else Cursor(chain, end),
                             start + limit < target))
  {
    CursorPosition(chain, start);
    CursorPosition(chain, end);
    hide ValidHash, Positions, Addressed;
  }

  /** The first page of a scan that continues at `start`. */
  lemma PageOfScan(env: Env, visits: seq<Visit>, start: nat, end: nat)
    requires visits != []
    requires var now := visits[0].chain;
             Addressed(now) && start <= |now| && (end > 0 ==> start <= end <= |now|) &&
             |now| + visits[0].limit <= MAX_INT64
    ensures var now := visits[0].chain;
            var target := if end == 0 then |now| else end;
            FirstPage(env, visits, Cursor(now, start), Cursor(now, end)) ==
              Ok(EventPage(Metadata(now)[start..Min(target, start + visits[0].limit)],
                           if end == 0 then Tip(now) else Cursor(now, end), start + visits[0].limit < target))
  {
    PageOfPositions(visits[0].chain, start, end, visits[0].limit);
    hide PageWindow, Metadata, Addressed;
  }

  /** A scan of `chain`: every call sees it or a longer history. */
  predicate Visits(visits: seq<Visit>, chain: seq<Node>) {
    && Growing(visits) && NoOverflow(visits)
    && forall i | 0 <= i < |visits| :: chain <= visits[i].chain
  }

  lemma FirstVisit(visits: seq<Visit>, chain: seq<Node>)
    requires Visits(visits, chain) && visits != []
    ensures chain <= visits[0].chain && Addressed(visits[0].chain) && Distinct(visits[0].chain)
    ensures |visits[0].chain| + visits[0].limit <= MAX_INT64
    ensures Visits(visits[1..], chain)
  {
    hide ValidHash;
  }

  /** A page of a longer history shows the same events, each under its own hash. */
  lemma PagesAgree(chain: seq<Node>, now: seq<Node>, from: nat, to: nat)
    requires from <= to <= |now| && chain <= now
    ensures |Metadata(now)| == |now|
    ensures forall i | 0 <= i < to - from :: Metadata(now)[from..to][i].hash == now[from + i].hash
    ensures forall k | from <= k <= |chain| && k <= to ::
              Metadata(now)[from..to][..k - from] == Metadata(chain)[from..k]
  {
    hide ReplayMetadata;
    forall k | from <= k <= |chain| && k <= to
      ensures Metadata(now)[from..to][..k - from] == Metadata(chain)[from..k]
    {
      assert forall i | 0 <= i < k - from :: Metadata(now)[from..to][i] == Metadata(chain)[from..k][i];
    }
    assert forall node: Node :: ReplayMetadata(node).hash == node.hash by {
      ReplayMetadataKeepsHash();
    }
  }

  lemma ReplayMetadataKeepsHash()
    ensures forall node: Node :: ReplayMetadata(node).hash == node.hash
  {
  }

  lemma PagesJoin(nodes: seq<Node>, from: nat, middle: nat, to: nat)
    requires from <= middle <= to <= |nodes|
    ensures nodes[from..to] == nodes[from..middle] + nodes[middle..to]
  {
  }

  /** Stitched paging with a bound: fetched page by page, with appends between the calls, the events after the
      cursor through the bound come once each and in order; after enough calls the scan has finished. */
  lemma {:induction false} BoundedScanIsExact(env: Env, visits: seq<Visit>, chain: seq<Node>, start: nat, end: nat)
    requires Visits(visits, chain)
    requires start <= end == |chain| && end > 0
    ensures var scan := BoundedScan(env, visits, Cursor(chain, start), chain[end - 1].hash);
            scan == Some(Scan(Metadata(chain)[start..Min(end, start + Total(visits))],
                              visits != [] && start + Total(visits) >= end))
    decreases |visits|
  {
    hide FirstPage, Metadata, Visits, Addressed;
    assert Metadata(chain)[start..start] == [];
    if visits != [] {
      FirstVisit(visits, chain);
      var now, limit := visits[0].chain, visits[0].limit;
      assert Cursor(now, end) == chain[end - 1].hash && Cursor(now, start) == Cursor(chain, start);
      PageOfScan(env, visits, start, end);
      var stop := Min(end, start + limit);
      PagesAgree(chain, now, start, stop);
      var page := Metadata(now)[start..stop];
      assert page[..stop - start] == page;
      if start + limit < end {
        assert page[|page| - 1].hash == Cursor(chain, stop);
        BoundedScanIsExact(env, visits[1..], chain, stop, end);
        var rest := Min(end, stop + Total(visits[1..]));
        PagesJoin(Metadata(chain), start, stop, rest);
      }
    }
  }

  lemma UnboundedNothing(env: Env, after: string, target: string)
    ensures UnboundedScan(env, [], after, target) == Some(Scan([], false))
  {
  }

  /** One call of a scan without a bound: it reaches the target, or the scan goes on where the page ends. */
  lemma UnboundedStep(env: Env, visits: seq<Visit>, chain: seq<Node>, start: nat, end: nat)
    requires visits != [] && Visits(visits, chain) && start < end == |chain|
    ensures var target, stop := chain[end - 1].hash, start + visits[0].limit;
            UnboundedScan(env, visits, Cursor(chain, start), target) ==
              if stop >= end then Some(Scan(Metadata(chain)[start..end], true))
              else
                match UnboundedScan(env, visits[1..], Cursor(chain, stop), target)
                case None => None
                case Some(rest) => Some(Scan(Metadata(chain)[start..stop] + rest.nodes, rest.finished))
  {
    hide FirstPage, Metadata, Visits, Addressed, IndexOf;
    FirstVisit(visits, chain);
    var now, limit, target := visits[0].chain, visits[0].limit, chain[end - 1].hash;
    assert now[end - 1] == chain[end - 1] && Cursor(now, start) == Cursor(chain, start);
    PageOfScan(env, visits, start, 0);
    var stop := Min(|now|, start + limit);
    PagesAgree(chain, now, start, stop);
    var page := Metadata(now)[start..stop];
    TargetInPage(page, now, start, end, target);
    if start + limit < end {
      assert page[..stop - start] == page;
      assert page[|page| - 1].hash == Cursor(chain, stop);
    }
  }

  /** The same without a bound, stopped by the client at `end`. */
  lemma {:induction false} UnboundedScanIsExact(env: Env, visits: seq<Visit>, chain: seq<Node>, start: nat, end: nat)
    requires Visits(visits, chain)
    requires start < end == |chain|
    ensures UnboundedScan(env, visits, Cursor(chain, start), chain[end - 1].hash) ==
              Some(Scan(Metadata(chain)[start..Min(end, start + Total(visits))], start + Total(visits) >= end))
    decreases |visits|
  {
    hide UnboundedScan, Metadata, Visits, Addressed, Cursor;
    if visits == [] {
      UnboundedNothing(env, Cursor(chain, start), chain[end - 1].hash);
      assert Metadata(chain)[start..start] == [];
    } else {
      FirstVisit(visits, chain);
      UnboundedStep(env, visits, chain, start, end);
      var stop := start + visits[0].limit;
      if stop < end {
        UnboundedScanIsExact(env, visits[1..], chain, stop, end);
        PagesJoin(Metadata(chain), start, stop, Min(end, stop + Total(visits[1..])));
      }
    }
  }

  /** A page finds the target exactly where the history has it. */
  lemma TargetInPage(page: seq<Node>, now: seq<Node>, start: nat, end: nat, target: string)
    requires Distinct(now) && start < end <= |now| && now[end - 1].hash == target
    requires start + |page| <= |now| && forall i | 0 <= i < |page| :: page[i].hash == now[start + i].hash
    ensures IndexOf(page, target) == if end - start <= |page| then end - 1 - start else |page|
  {
    IndexOfIsFirst(page, target);
    var k := IndexOf(page, target);
    if end - start <= |page| {
      assert page[end - 1 - start].hash == target;
    }
  }

  /** The first call of the replay in docs/api.md has no bound and captures the root. */
  lemma CapturingTheRoot(env: Env, visits: seq<Visit>, start: nat)
    requires visits != [] && Visits(visits, visits[0].chain) && start <= |visits[0].chain| && visits[0].chain != []
    ensures var chain := visits[0].chain;
            BoundedScan(env, visits, Cursor(chain, start), "") ==
            BoundedScan(env, visits, Cursor(chain, start), Tip(chain))
  {
    hide Visits, FirstPage, AfterPage, Metadata;
    FirstVisit(visits, visits[0].chain);
    PageOfScan(env, visits, start, 0);
    PageOfScan(env, visits, start, |visits[0].chain|);
  }

  lemma EmptyReplay(env: Env, visits: seq<Visit>)
    requires visits != [] && visits[0].chain == []
    ensures BoundedScan(env, visits, "", "") == UnboundedScan(env, visits, "", "") == Some(Scan([], true))
  {
    assert PageWindow([], "", "", visits[0].limit) == Ok(Window(0, 0, "", false));
  }

  /** The replay of docs/api.md: the first call has no bound and captures the root; each later call passes it.
      From any checkpoint, with any positive limits and any growth of the history between calls, the client has
      exactly the events after the checkpoint through the captured root, in order and with everything but their
      payloads, as far as its limits reach, and it has finished exactly when they reach the captured root. */
  lemma StitchedReplay(env: Env, visits: seq<Visit>, start: nat)
    requires visits != [] && Visits(visits, visits[0].chain) && start <= |visits[0].chain|
    ensures var chain := visits[0].chain;
            var reached := Min(|chain|, start + Total(visits));
            && BoundedScan(env, visits, Cursor(chain, start), "") ==
                 Some(Scan(Metadata(chain)[start..reached], reached == |chain|))
            && ShowsEvents(BoundedScan(env, visits, Cursor(chain, start), "").value.nodes, chain[start..reached])
            && (|visits| >= |chain| - start ==> reached == |chain|)
  {
    hide Visits, BoundedScan, UnboundedScan, Total, ShowsEvents;
    var chain := visits[0].chain;
    MetadataShowsEvents(chain, start, Min(|chain|, start + Total(visits)));
    if chain == [] {
      EmptyReplay(env, visits);
    } else {
      CapturingTheRoot(env, visits, start);
      BoundedScanIsExact(env, visits, chain, start, |chain|);
    }
  }

  /** A client without a bound that is caught up gets an empty page, and stops. */
  lemma CaughtUpReplay(env: Env, visits: seq<Visit>)
    requires visits != [] && Visits(visits, visits[0].chain)
    ensures var chain := visits[0].chain;
            UnboundedScan(env, visits, Cursor(chain, |chain|), Tip(chain)) == Some(Scan([], true))
  {
    FirstVisit(visits, visits[0].chain);
    hide Visits, FirstPage, Metadata, Addressed;
    PageOfScan(env, visits, |visits[0].chain|, 0);
  }

  /** A client without a bound that is behind gets what its limits reach. */
  lemma OngoingReplay(env: Env, visits: seq<Visit>, start: nat)
    requires visits != [] && Visits(visits, visits[0].chain) && start < |visits[0].chain|
    ensures var chain := visits[0].chain;
            var reached := Min(|chain|, start + Total(visits));
            UnboundedScan(env, visits, Cursor(chain, start), Tip(chain)) ==
              Some(Scan(Metadata(chain)[start..reached], reached == |chain|))
  {
    hide Visits, Metadata, UnboundedScan, Total, Cursor;
    UnboundedScanIsExact(env, visits, visits[0].chain, start, |visits[0].chain|);
  }

  /** The same for a client that passes no bound and stops at the captured root itself. */
  lemma UnboundedReplay(env: Env, visits: seq<Visit>, start: nat)
    requires visits != [] && Visits(visits, visits[0].chain) && start <= |visits[0].chain|
    ensures var chain := visits[0].chain;
            UnboundedScan(env, visits, Cursor(chain, start), Tip(chain)) ==
            BoundedScan(env, visits, Cursor(chain, start), "")
  {
    var chain := visits[0].chain;
    hide Visits, Metadata, BoundedScan, UnboundedScan, Total, Cursor, Tip;
    StitchedReplay(env, visits, start);
    if start < |chain| {
      OngoingReplay(env, visits, start);
    } else {
      CaughtUpReplay(env, visits);
      assert Metadata(chain)[start..start] == [];
    }
  }

  /** `start + limit` is not checked: a page whose cursor and bound are valid, or that has no bound, fails exactly when
      the sum leaves Go's int, and then by a run-time panic. */
  lemma PagePanicsExactlyOnOverflow(env: Env, dir: Directory, chain: seq<Node>, start: nat, end: nat, limit: Int64)
    requires Addressed(chain) && start <= |chain| <= MAX_INT64 && (end > 0 ==> start <= end <= |chain|) && limit >= 1
    ensures var page := PageAt(env, dir, Tip(chain), chain, Cursor(chain, start), Cursor(chain, end), limit, true);
            (page == Err(Panic) <==> start + limit > MAX_INT64) && (page.Err? ==> page == Err(Panic))
  {
    PageOfPositions(chain, start, end, limit);
    hide PageWindow, Metadata, Addressed;
  }

  /** `shown` is `node` as a page of metadata shows it: everything but the payload and the request hash. */
  predicate ShowsEvent(shown: Node, node: Node) {
    var a, b := shown.content, node.content;
    && shown.hash == node.hash
    && a.schema == b.schema && a.kind == b.kind && a.entityID == b.entityID && a.parents == b.parents
    && a.actor == b.actor && a.role == b.role && a.command == b.command && a.createdAt == b.createdAt
    && a.requestID == b.requestID
    && a.payload == [] && a.sealedPayload.None? && a.requestHash == ""
  }

  predicate ShowsEvents(shown: seq<Node>, nodes: seq<Node>) {
    |shown| == |nodes| && forall i | 0 <= i < |nodes| :: ShowsEvent(shown[i], nodes[i])
  }

  lemma MetadataShowsEvents(chain: seq<Node>, from: nat, to: nat)
    requires from <= to <= |chain|
    ensures ShowsEvents(Metadata(chain)[from..to], chain[from..to])
  {
  }

  /** A page shows exactly the next events after its cursor, up to its limit and its bound: each with everything but the
      payload in a page of metadata, and each as a whole otherwise. It says that there is more exactly when it stops
      before the bound. */
  lemma PageShowsHistory(env: Env, dir: Directory, chain: seq<Node>, start: nat, end: nat, limit: Int64)
    requires Addressed(chain) && start <= |chain| && (end > 0 ==> start <= end <= |chain|)
    requires limit >= 1 && |chain| + limit <= MAX_INT64
    ensures var target := if end == 0 then |chain| else end;
            var stop := Min(target, start + limit);
            var root := if target == 0 then "" else chain[target - 1].hash;
            var page := PageAt(env, dir, Tip(chain), chain, Cursor(chain, start), Cursor(chain, end), limit, true);
            && page.Ok? && ShowsEvents(page.value.nodes, chain[start..stop])
            && page.value.root == root && page.value.hasMore == (stop < target)
            && (Linked(env, dir, chain) ==>
                  PageAt(env, dir, Tip(chain), chain, Cursor(chain, start), Cursor(chain, end), limit, false) ==
                  Ok(EventPage(chain[start..stop], root, stop < target)))
  {
    var target := if end == 0 then |chain| else end;
    var stop := Min(target, start + limit);
    PageOfPositions(chain, start, end, limit);
    MetadataShowsEvents(chain, start, stop);
    hide PageWindow, Metadata, Addressed, ReadAll, ShowsEvents, Hashes, Linked;
    if Linked(env, dir, chain) {
      ReadAllOfLinked(env, dir, chain, start, stop);
    }
  }

  predicate Occurs(chain: seq<Node>, hash: string) {
    exists i :: 0 <= i < |chain| && chain[i].hash == hash
  }

  /** Which pages are refused, and how: a limit below one, a store whose disk and index differ, a bound that is no hash
      or not in the history, a cursor that is not in the history, and a cursor beyond the bound. */
  lemma PageRefusals(env: Env, dir: Directory, root: string, chain: seq<Node>, after: string, observed: string,
                     limit: Int64, metadataOnly: bool)
    ensures var page := PageAt(env, dir, root, chain, after, observed, limit, metadataOnly);
            var goodBound := observed == "" || (ValidHash(observed) && Occurs(chain, observed));
            && (limit < 1 ==> page == Err(Validation))
            && (limit >= 1 && root != Tip(chain) ==> page == Err(Integrity))
            && (limit >= 1 && root == Tip(chain) ==>
                  && (observed != "" && !ValidHash(observed) ==> page == Err(Validation))
                  && (observed != "" && ValidHash(observed) && !Occurs(chain, observed) ==> page == Err(Conflict))
                  && (goodBound && after != "" && !Occurs(chain, after) ==> page == Err(NotFound)))
  {
    PositionsAreOccurrences(chain, after);
    PositionsAreOccurrences(chain, observed);
    hide ValidHash, Positions, ReadAll, Metadata, Hashes, Wrap64;
  }

  /** A cursor beyond the bound is a conflict. */
  lemma CursorBeyondBound(env: Env, dir: Directory, chain: seq<Node>, after: nat, bound: nat, limit: Int64,
                          metadataOnly: bool)
    requires Addressed(chain) && bound < after < |chain| && limit >= 1
    ensures PageAt(env, dir, Tip(chain), chain, chain[after].hash, chain[bound].hash, limit, metadataOnly) ==
            Err(Conflict)
  {
    CursorPosition(chain, after + 1);
    CursorPosition(chain, bound + 1);
    hide ValidHash, Positions, ReadAll, Metadata, Hashes, Wrap64, Addressed;
  }
}
