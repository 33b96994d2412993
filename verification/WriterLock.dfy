/** The fcntl writer lock: `acquireStoreLock` and `storeLock.Close` as steps of any number of attempts, in any
    number of threads and processes, under POSIX record locks. A record lock belongs to a process and is dropped
    when the process closes any descriptor of the file (IEEE Std 1003.1-2017, System Interfaces, `fcntl()`). */
module WriterLock {

  type Process = nat
  type Path = string

  /** Where an attempt to hold a store directory stands; each phase is left by one step of the source.
      `Stale` occurs only in the variant that gives the reservation back before it closes the file. */
  datatype Phase =
    | Reserved     // the path is in the process's `held` map
    | FileOpen     // the lock file is open
    | KernelLocked // F_SETLK succeeded
    | Holding      // the Store is open
    | Failed       // a step after the open failed; the file is still open
    | Unlocked     // Close has asked the kernel to unlock
    | FileClosed   // the file is closed; the reservation is still there
    | Stale

  datatype Attempt = Attempt(process: Process, path: Path, phase: Phase)

  /** `held` joins the `held` maps of all processes; `owner` is the kernel's record lock on each lock file. */
  datatype State = State(held: set<(Process, Path)>, owner: map<Path, Process>, attempts: map<nat, Attempt>)

  const INITIAL := State({}, map[], map[])

  /** The order in which a finished attempt closes its file and deletes its map entry. */
  datatype Order = CloseThenDelete | DeleteThenClose

  /** `ok` says whether the operating system lets the operation succeed. */
  datatype Step =
    | Reserve(id: nat, process: Process, path: Path)
    | OpenFile(id: nat, ok: bool)
    | SetLock(id: nat, ok: bool)
    | WritePid(id: nat, ok: bool)
    | Unlock(id: nat, ok: bool)
    | CloseFile(id: nat)
    | DeleteEntry(id: nat)
    | Exit(process: Process)

  /** Closing any descriptor of the file drops the process's lock on it. */
  function Dropped(owner: map<Path, Process>, attempt: Attempt): map<Path, Process> {
    if attempt.path in owner && owner[attempt.path] == attempt.process then owner - {attempt.path} else owner
  }

  function Enter(s: State, id: nat, phase: Phase): State
    requires id in s.attempts
  {
    s.(attempts := s.attempts[id := s.attempts[id].(phase := phase)])
  }

  /** A step that is not enabled leaves the state as it is; so does the answer "already open". */
  function Next(order: Order, s: State, step: Step): State {
    match step
    case Reserve(id, process, path) =>
      if id in s.attempts || (process, path) in s.held then s
      else s.(held := s.held + {(process, path)}, attempts := s.attempts[id := Attempt(process, path, Reserved)])
    case Exit(process) =>
      State(set entry | entry in s.held && entry.0 != process,
            map path | path in s.owner && s.owner[path] != process :: s.owner[path],
            map id | id in s.attempts && s.attempts[id].process != process :: s.attempts[id])
    case _ =>
      if step.id !in s.attempts then s else Advance(order, s, step, s.attempts[step.id])
  }

  function Advance(order: Order, s: State, step: Step, attempt: Attempt): State
    requires !step.Reserve? && !step.Exit? && step.id in s.attempts && s.attempts[step.id] == attempt
  {
    match step
    case OpenFile(id, ok) =>
      if !attempt.phase.Reserved? then s else Enter(s, id, if ok then FileOpen else FileClosed)
    case SetLock(id, ok) =>
      if !attempt.phase.FileOpen? then s
      else if ok && (attempt.path !in s.owner || s.owner[attempt.path] == attempt.process) then
        Enter(s.(owner := s.owner[attempt.path := attempt.process]), id, KernelLocked)
      else Enter(s, id, Failed)
    case WritePid(id, ok) =>
      if !attempt.phase.KernelLocked? then s else Enter(s, id, if ok then Holding else Failed)
    case Unlock(id, ok) =>
      if !attempt.phase.Holding? then s
      else Enter(if ok then s.(owner := Dropped(s.owner, attempt)) else s, id, Unlocked)
    case CloseFile(id) =>
      if attempt.phase.Failed? || (attempt.phase.Unlocked? && order.CloseThenDelete?) then
        Enter(s.(owner := Dropped(s.owner, attempt)), id, FileClosed)
      else if attempt.phase.Stale? then
        s.(owner := Dropped(s.owner, attempt), attempts := s.attempts - {id})
      else s
    case DeleteEntry(id) =>
      var held := s.held - {(attempt.process, attempt.path)};
      if attempt.phase.FileClosed? then s.(held := held, attempts := s.attempts - {id})
      else if attempt.phase.Unlocked? && order.DeleteThenClose? then Enter(s.(held := held), id, Stale)
      else s
  }

  function Run(order: Order, s: State, steps: seq<Step>): State
    decreases |steps|
  {
    if steps == [] then s else Run(order, Next(order, s, steps[0]), steps[1..])
  }

  predicate Holds(s: State, id: nat) {
    id in s.attempts && s.attempts[id].phase.Holding?
  }

  function Slot(s: State, id: nat): (Process, Path)
    requires id in s.attempts
  {
    (s.attempts[id].process, s.attempts[id].path)
  }

  /** Each attempt owns the reservation of its process and path, alone, and nothing else is reserved. */
  ghost predicate ReservationsAreOwned(s: State) {
    && (forall id | id in s.attempts :: Slot(s, id) in s.held)
    && (forall entry | entry in s.held :: exists id :: id in s.attempts && Slot(s, id) == entry)
    && (forall id, other | id in s.attempts && other in s.attempts && id != other :: Slot(s, id) != Slot(s, other))
  }

  predicate NeedsLock(phase: Phase) {
    phase.KernelLocked? || phase.Holding?
  }

  /** An attempt that got past the kernel lock still has it. */
  predicate HasItsLock(owner: map<Path, Process>, attempt: Attempt) {
    !attempt.phase.Stale? &&
    (NeedsLock(attempt.phase) ==> attempt.path in owner && owner[attempt.path] == attempt.process)
  }

  ghost predicate Inv(s: State) {
    ReservationsAreOwned(s) && forall id | id in s.attempts :: HasItsLock(s.owner, s.attempts[id])
  }

  /** A step that changes one attempt's phase, and the kernel lock only on its own process and path. */
  lemma PhaseChangeKeepsInv(s: State, id: nat, phase: Phase, owner: map<Path, Process>)
    requires Inv(s) && id in s.attempts && HasItsLock(owner, s.attempts[id].(phase := phase))
    requires || owner == s.owner || owner == Dropped(s.owner, s.attempts[id])
             || (s.attempts[id].path !in s.owner && owner == s.owner[s.attempts[id].path := s.attempts[id].process])
    ensures Inv(Enter(s.(owner := owner), id, phase))
  {
    var t := Enter(s.(owner := owner), id, phase);
    assert forall other | other in s.attempts :: Slot(t, other) == Slot(s, other);
    forall other | other in t.attempts ensures HasItsLock(owner, t.attempts[other]) {
      assert other == id || Slot(s, other) != Slot(s, id);
      assert HasItsLock(s.owner, s.attempts[other]);
    }
  }

  lemma ReserveKeepsInv(s: State, step: Step)
    requires Inv(s) && step.Reserve?
    ensures Inv(Next(CloseThenDelete, s, step))
  {
    var t := Next(CloseThenDelete, s, step);
    if t != s {
      assert forall other | other in s.attempts :: Slot(t, other) == Slot(s, other);
      assert Slot(t, step.id) == (step.process, step.path) && t.held == s.held + {Slot(t, step.id)};
      forall entry | entry in t.held ensures exists id :: id in t.attempts && Slot(t, id) == entry {
        if entry == Slot(t, step.id) {
          assert step.id in t.attempts;
        } else {
          var id :| id in s.attempts && Slot(s, id) == entry;
          assert id in t.attempts;
        }
      }
      forall id | id in t.attempts ensures HasItsLock(t.owner, t.attempts[id]) {
        assert id != step.id ==> HasItsLock(s.owner, s.attempts[id]);
      }
    }
  }

  lemma DeleteKeepsInv(s: State, id: nat)
    requires Inv(s) && id in s.attempts
    ensures Inv(State(s.held - {Slot(s, id)}, s.owner, s.attempts - {id}))
  {
    var t := State(s.held - {Slot(s, id)}, s.owner, s.attempts - {id});
    assert forall other | other in t.attempts :: Slot(t, other) == Slot(s, other);
  }

  lemma ExitKeepsInv(s: State, process: Process)
    requires Inv(s)
    ensures Inv(Next(CloseThenDelete, s, Exit(process)))
  {
    var t := Next(CloseThenDelete, s, Exit(process));
    assert forall other | other in t.attempts :: Slot(t, other) == Slot(s, other);
    forall entry | entry in t.held ensures exists id :: id in t.attempts && Slot(t, id) == entry {
      var id :| id in s.attempts && Slot(s, id) == entry;
      assert id in t.attempts;
    }
  }

  lemma StepKeepsInv(s: State, step: Step)
    requires Inv(s)
    ensures Inv(Next(CloseThenDelete, s, step))
  {
    var t := Next(CloseThenDelete, s, step);
    if step.Reserve? {
      ReserveKeepsInv(s, step);
    } else if step.Exit? {
      ExitKeepsInv(s, step.process);
    } else if t != s {
      assert HasItsLock(s.owner, s.attempts[step.id]);
      hide ReservationsAreOwned, Inv;
      if step.DeleteEntry? {
        DeleteKeepsInv(s, step.id);
      } else {
        assert t == Enter(s.(owner := t.owner), step.id, t.attempts[step.id].phase);
        PhaseChangeKeepsInv(s, step.id, t.attempts[step.id].phase, t.owner);
      }
    }
  }

  lemma {:induction false} RunKeepsInv(s: State, steps: seq<Step>)
    requires Inv(s)
    ensures Inv(Run(CloseThenDelete, s, steps))
    decreases |steps|
  {
    if steps != [] {
      StepKeepsInv(s, steps[0]);
      RunKeepsInv(Next(CloseThenDelete, s, steps[0]), steps[1..]);
    }
  }

  /** Mutual exclusion: over any interleaving from the start, at most one Store holds a directory, and its process
      still owns the kernel lock. */
  lemma AtMostOneHolder(steps: seq<Step>, id: nat, other: nat)
    requires var s := Run(CloseThenDelete, INITIAL, steps);
             Holds(s, id) && Holds(s, other) && s.attempts[id].path == s.attempts[other].path
    ensures id == other
    ensures var s := Run(CloseThenDelete, INITIAL, steps);
            s.attempts[id].path in s.owner && s.owner[s.attempts[id].path] == s.attempts[id].process
  {
    RunKeepsInv(INITIAL, steps);
  }

  /** What the operating system answers to the calls of one attempt; `write` stands for truncating, writing and
      syncing the file. */
  datatype Answers = Answers(open: bool, lock: bool, write: bool)

  /** The steps of `acquireStoreLock`, with its way out: a step that the attempt does not reach is not enabled. */
  function AcquireSteps(id: nat, process: Process, path: Path, answers: Answers): seq<Step> {
    [Reserve(id, process, path), OpenFile(id, answers.open), SetLock(id, answers.lock), WritePid(id, answers.write),
     CloseFile(id), DeleteEntry(id)]
  }

  function CloseSteps(id: nat, unlocked: bool): seq<Step> {
    [Unlock(id, unlocked), CloseFile(id), DeleteEntry(id)]
  }

  lemma RunOfThree(order: Order, s: State, steps: seq<Step>)
    requires |steps| == 3
    ensures Run(order, s, steps) == Next(order, Next(order, Next(order, s, steps[0]), steps[1]), steps[2])
  {
    hide Next;
    var s1 := Next(order, s, steps[0]);
    var s2 := Next(order, s1, steps[1]);
    assert steps[1..][0] == steps[1] && steps[1..][1..] == steps[2..] && steps[2..][0] == steps[2] &&
           steps[2..][1..] == [];
    assert Run(order, s2, steps[2..]) == Run(order, Next(order, s2, steps[2]), []);
    assert Run(order, s1, steps[1..]) == Run(order, s2, steps[2..]);
  }

  lemma RunOfSix(order: Order, s: State, steps: seq<Step>)
    requires |steps| == 6
    ensures Run(order, s, steps) == Run(order, Run(order, s, steps[..3]), steps[3..])
  {
    hide Next;
    var s1 := Next(order, s, steps[0]);
    var s2 := Next(order, s1, steps[1]);
    var s3 := Next(order, s2, steps[2]);
    RunOfThree(order, s, steps[..3]);
    assert steps[1..][0] == steps[1] && steps[1..][1..] == steps[2..] && steps[2..][0] == steps[2] &&
           steps[2..][1..] == steps[3..];
    assert Run(order, s2, steps[2..]) == Run(order, s3, steps[3..]);
    assert Run(order, s1, steps[1..]) == Run(order, s2, steps[2..]);
  }

  /** The state in which one more attempt is under way. */
  function With(s: State, id: nat, process: Process, path: Path, owner: map<Path, Process>, phase: Phase): State {
    State(s.held + {(process, path)}, owner, s.attempts[id := Attempt(process, path, phase)])
  }

  lemma EnterWith(s: State, id: nat, process: Process, path: Path, owner: map<Path, Process>, phase: Phase)
    ensures forall owner', phase' ::
              Enter(With(s, id, process, path, owner, phase).(owner := owner'), id, phase') ==
              With(s, id, process, path, owner', phase')
  {
    forall owner': map<Path, Process>, phase'
      ensures Enter(With(s, id, process, path, owner, phase).(owner := owner'), id, phase') ==
              With(s, id, process, path, owner', phase')
    {
      var attempts := s.attempts[id := Attempt(process, path, phase)];
      assert attempts[id := Attempt(process, path, phase')] == s.attempts[id := Attempt(process, path, phase')];
    }
  }

  /** One step of an attempt under way. */
  lemma AdvanceWith(s: State, id: nat, process: Process, path: Path, owner: map<Path, Process>, phase: Phase,
                    step: Step)
    requires !step.Reserve? && !step.Exit? && !step.DeleteEntry? && step.id == id && !phase.Stale?
    ensures var attempt := Attempt(process, path, phase);
            Next(CloseThenDelete, With(s, id, process, path, owner, phase), step) ==
              match step
              case OpenFile(_, ok) =>
                With(s, id, process, path, owner,
                     if phase.Reserved? then if ok then FileOpen else FileClosed else phase)
              case SetLock(_, ok) =>
                if !phase.FileOpen? then With(s, id, process, path, owner, phase)
                else if ok && (path !in owner || owner[path] == process) then
                  With(s, id, process, path, owner[path := process], KernelLocked)
                else With(s, id, process, path, owner, Failed)
              case WritePid(_, ok) =>
                With(s, id, process, path, owner, if phase.KernelLocked? then if ok then Holding else Failed else phase)
              case Unlock(_, ok) =>
                if !phase.Holding? then With(s, id, process, path, owner, phase)
                else With(s, id, process, path, if ok then Dropped(owner, attempt) else owner, Unlocked)
              case CloseFile(_) =>
                if phase.Failed? || phase.Unlocked? then With(s, id, process, path, Dropped(owner, attempt), FileClosed)
                else With(s, id, process, path, owner, phase)
              case _ => s
  {
    EnterWith(s, id, process, path, owner, phase);
    hide Dropped;
  }

  /** Where the steps of `acquireStoreLock` lead. */
  function Acquired(s: State, id: nat, process: Process, path: Path, answers: Answers): State {
    if (process, path) in s.held || !answers.open then s
    else if !answers.lock || (path in s.owner && s.owner[path] != process) then
      s.(owner := Dropped(s.owner, Attempt(process, path, Failed)))
    else if !answers.write then s.(owner := Dropped(s.owner[path := process], Attempt(process, path, Failed)))
    else With(s, id, process, path, s.owner[path := process], Holding)
  }

  lemma AcquireLeadsThere(s: State, id: nat, process: Process, path: Path, answers: Answers)
    requires id !in s.attempts
    ensures Run(CloseThenDelete, s, AcquireSteps(id, process, path, answers)) == Acquired(s, id, process, path, answers)
  {
    var steps := AcquireSteps(id, process, path, answers);
    RunOfSix(CloseThenDelete, s, steps);
    RunOfThree(CloseThenDelete, s, steps[..3]);
    RunOfThree(CloseThenDelete, Run(CloseThenDelete, s, steps[..3]), steps[3..]);
    hide Run, Dropped;
    if (process, path) !in s.held {
      var free := answers.lock && (path !in s.owner || s.owner[path] == process);
      var phase2 := if answers.open then FileOpen else FileClosed;
      var phase3 := if !answers.open then FileClosed else if free then KernelLocked else Failed;
      var owner3 := if answers.open && free then s.owner[path := process] else s.owner;
      var phase4 := if !phase3.KernelLocked? then phase3 else if answers.write then Holding else Failed;
      AdvanceWith(s, id, process, path, s.owner, Reserved, steps[1]);
      AdvanceWith(s, id, process, path, s.owner, phase2, steps[2]);
      AdvanceWith(s, id, process, path, owner3, phase3, steps[3]);
      AdvanceWith(s, id, process, path, owner3, phase4, steps[4]);
      assert Next(CloseThenDelete, s, steps[0]) == With(s, id, process, path, s.owner, Reserved);
      var owner5 := if phase4.Failed? then Dropped(owner3, Attempt(process, path, Failed)) else owner3;
      DeletingForgets(s, id, process, path, owner5, if phase4.Failed? then FileClosed else phase4);
      hide Next;
    }
  }

  /** Deleting the reservation of a closed file leaves no trace of the attempt; a Store that is open keeps it. */
  lemma DeletingForgets(s: State, id: nat, process: Process, path: Path, owner: map<Path, Process>, phase: Phase)
    requires id !in s.attempts && (process, path) !in s.held && (phase.FileClosed? || phase.Holding?)
    ensures Next(CloseThenDelete, With(s, id, process, path, owner, phase), DeleteEntry(id)) ==
            if phase.FileClosed? then s.(owner := owner) else With(s, id, process, path, owner, phase)
  {
    assert s.held + {(process, path)} - {(process, path)} == s.held;
    assert s.attempts[id := Attempt(process, path, phase)] - {id} == s.attempts;
  }

  /** The lock tables as objects: `held` and `owner` are updated in place, one call at a time. */
  class LockTable {
    var held: set<(Process, Path)>
    var owner: map<Path, Process>
    ghost var attempts: map<nat, Attempt>

    ghost function Tables(): State
      reads this
    {
      State(held, owner, attempts)
    }

    constructor ()
      ensures Tables() == INITIAL
    {
      held, owner, attempts := {}, map[], map[];
    }

    /** `acquireStoreLock` takes its steps in the order that mutual exclusion needs. Whatever the operating system
        answers, it ends with a Store that holds the directory, or without a trace in the reservations. */
    method AcquireStoreLock(id: nat, process: Process, path: Path, answers: Answers) returns (ok: bool)
      requires Inv(Tables()) && id !in attempts
      modifies this
      ensures Tables() == Run(CloseThenDelete, old(Tables()), AcquireSteps(id, process, path, answers)) && Inv(Tables())
      ensures ok <==> Holds(Tables(), id)
      ensures !ok ==> held == old(held) && attempts == old(attempts)
      ensures ok <==> && (process, path) !in old(held) && (path in old(owner) ==> old(owner)[path] == process)
                      && answers.open && answers.lock && answers.write
    {
      ghost var s := Tables();
      RunKeepsInv(s, AcquireSteps(id, process, path, answers));
      AcquireLeadsThere(s, id, process, path, answers);
      hide Run, Inv, AcquireSteps, Dropped;
      if (process, path) in held {
        return false;
      }
      held := held + {(process, path)};
      var reserved := true;
      if answers.open {
        if !answers.lock || (path in owner && owner[path] != process) {
          owner := Dropped(owner, Attempt(process, path, Failed));
        } else {
          owner := owner[path := process];
          if !answers.write {
            owner := Dropped(owner, Attempt(process, path, Failed));
          } else {
            attempts := attempts[id := Attempt(process, path, Holding)];
            reserved := false;
          }
        }
      }
      if reserved {
        held := held - {(process, path)};
        assert held == s.held;
      }
      return !reserved;
    }

    /** `Close` gives up the kernel lock, closes the file and only then deletes the reservation. */
    method Close(id: nat, process: Process, path: Path, unlocked: bool)
      requires Inv(Tables()) && id in attempts && attempts[id] == Attempt(process, path, Holding)
      modifies this
      ensures Tables() == Run(CloseThenDelete, old(Tables()), CloseSteps(id, unlocked)) && Inv(Tables())
      ensures held == old(held) - {(process, path)} && attempts == old(attempts) - {id}
      ensures path !in owner
    {
      ghost var s := Tables();
      RunKeepsInv(s, CloseSteps(id, unlocked));
      CloseLeadsThere(s, id, process, path, unlocked);
      assert HasItsLock(s.owner, s.attempts[id]);
      hide Run, Inv, CloseSteps;
      if unlocked {
        owner := Dropped(owner, Attempt(process, path, Holding));
      }
      owner := Dropped(owner, Attempt(process, path, Unlocked));
      held := held - {(process, path)};
      attempts := attempts - {id};
    }
  }

  lemma CloseLeadsThere(s: State, id: nat, process: Process, path: Path, unlocked: bool)
    requires Inv(s) && id in s.attempts && s.attempts[id] == Attempt(process, path, Holding)
    ensures Run(CloseThenDelete, s, CloseSteps(id, unlocked)) ==
            State(s.held - {(process, path)}, s.owner - {path}, s.attempts - {id})
  {
    RunOfThree(CloseThenDelete, s, CloseSteps(id, unlocked));
    assert HasItsLock(s.owner, s.attempts[id]) && Slot(s, id) in s.held;
    hide Run, Inv;
    var owner1 := if unlocked then s.owner - {path} else s.owner;
    AdvanceWith(s, id, process, path, s.owner, Holding, Unlock(id, unlocked));
    AdvanceWith(s, id, process, path, owner1, Unlocked, CloseFile(id));
    assert With(s, id, process, path, s.owner, Holding) == s;
    assert s.owner - {path} - {path} == s.owner - {path};
    DeletingEnds(s, id, process, path, s.owner - {path});
    hide Next, With;
  }

  lemma DeletingEnds(s: State, id: nat, process: Process, path: Path, owner: map<Path, Process>)
    requires id in s.attempts
    ensures Next(CloseThenDelete, With(s, id, process, path, owner, FileClosed), DeleteEntry(id)) ==
            State(s.held - {(process, path)}, owner, s.attempts - {id})
  {
    assert s.held + {(process, path)} - {(process, path)} == s.held - {(process, path)};
    assert s.attempts[id := Attempt(process, path, FileClosed)] - {id} == s.attempts - {id};
  }

  /** No reservation leaks: once every attempt on a path has finished, on whatever error path, any process can
      reserve it again. */
  lemma NoReservationLeaks(steps: seq<Step>, id: nat, process: Process, path: Path)
    requires var s := Run(CloseThenDelete, INITIAL, steps);
             id !in s.attempts && forall other | other in s.attempts :: s.attempts[other].path != path
    ensures var s := Run(CloseThenDelete, INITIAL, steps);
            var t := Next(CloseThenDelete, s, Reserve(id, process, path));
            id in t.attempts && t.attempts[id] == Attempt(process, path, Reserved)
  {
    RunKeepsInv(INITIAL, steps);
  }

  /** The order matters: with the map entry deleted before the file is closed, a second Store of the same process can
      open in between, the late close drops its kernel lock, and a Store of another process gets in beside it. */
  lemma DeletingFirstBreaksExclusion(path: Path)
    ensures exists steps :: var s := Run(DeleteThenClose, INITIAL, steps);
              Holds(s, 1) && Holds(s, 2) && s.attempts[1].path == s.attempts[2].path == path
  {
    LateCloseRun(path);
    var s := Run(DeleteThenClose, INITIAL, LateClose(path));
    assert s.attempts[1] == Attempt(0, path, Holding) && s.attempts[2] == Attempt(1, path, Holding);
  }

  /** A Store opens and starts to close, a second one of its process opens, the first closes its file, and a Store of
      another process opens. */
  function LateClose(path: Path): seq<Step> {
    Opening(0, 0, path) + [Unlock(0, true), DeleteEntry(0)] + Opening(1, 0, path) + [CloseFile(0)] + Opening(2, 1, path)
  }

  lemma LateCloseRun(path: Path)
    ensures Run(DeleteThenClose, INITIAL, LateClose(path)) ==
            Opened(State({(0, path)}, map[], map[1 := Attempt(0, path, Holding)]), 2, 1, path)
  {
    var closing, late := [Unlock(0, true), DeleteEntry(0)], [CloseFile(0)];
    OpeningOpens(INITIAL, 0, 0, path);
    ClosingInTheWrongOrder(path);
    OpeningOpens(State({}, map[], map[0 := Attempt(0, path, Stale)]), 1, 0, path);
    LateCloseDropsTheLock(path);
    OpeningOpens(State({(0, path)}, map[], map[1 := Attempt(0, path, Holding)]), 2, 1, path);
    hide Next, Run, Opened, Opening;
    RunsJoin(INITIAL, Opening(0, 0, path), closing);
    RunsJoin(INITIAL, Opening(0, 0, path) + closing, Opening(1, 0, path));
    RunsJoin(INITIAL, Opening(0, 0, path) + closing + Opening(1, 0, path), late);
    RunsJoin(INITIAL, Opening(0, 0, path) + closing + Opening(1, 0, path) + late, Opening(2, 1, path));
  }

  lemma ClosingInTheWrongOrder(path: Path)
    ensures Run(DeleteThenClose, Opened(INITIAL, 0, 0, path), [Unlock(0, true), DeleteEntry(0)]) ==
            State({}, map[], map[0 := Attempt(0, path, Stale)])
  {
    RunOfTwo(Opened(INITIAL, 0, 0, path), [Unlock(0, true), DeleteEntry(0)]);
  }

  lemma LateCloseDropsTheLock(path: Path)
    ensures var s := Opened(State({}, map[], map[0 := Attempt(0, path, Stale)]), 1, 0, path);
            Run(DeleteThenClose, s, [CloseFile(0)]) == State({(0, path)}, map[], map[1 := Attempt(0, path, Holding)])
  {
    assert [CloseFile(0)][1..] == [];
  }

  /** The steps of `acquireStoreLock` when everything succeeds, and the state they lead to. */
  function Opening(id: nat, process: Process, path: Path): seq<Step> {
    [Reserve(id, process, path), OpenFile(id, true), SetLock(id, true), WritePid(id, true)]
  }

  function Opened(s: State, id: nat, process: Process, path: Path): State {
    State(s.held + {(process, path)}, s.owner[path := process], s.attempts[id := Attempt(process, path, Holding)])
  }

  lemma OpeningOpens(s: State, id: nat, process: Process, path: Path)
    requires id !in s.attempts && (process, path) !in s.held && path !in s.owner
    ensures Run(DeleteThenClose, s, Opening(id, process, path)) == Opened(s, id, process, path)
  {
    RunOfFour(s, Opening(id, process, path));
  }

  lemma {:induction false} RunsJoin(s: State, first: seq<Step>, second: seq<Step>)
    ensures Run(DeleteThenClose, s, first + second) == Run(DeleteThenClose, Run(DeleteThenClose, s, first), second)
    decreases |first|
  {
    if first == [] {
      assert first + second == second;
    } else {
      assert (first + second)[1..] == first[1..] + second;
      RunsJoin(Next(DeleteThenClose, s, first[0]), first[1..], second);
    }
  }

  lemma RunOfTwo(s: State, steps: seq<Step>)
    requires |steps| == 2
    ensures Run(DeleteThenClose, s, steps) == Next(DeleteThenClose, Next(DeleteThenClose, s, steps[0]), steps[1])
  {
    var t := Next(DeleteThenClose, s, steps[0]);
    assert steps[1..][1..] == [] && steps[1..][0] == steps[1];
    assert Run(DeleteThenClose, t, steps[1..]) == Run(DeleteThenClose, Next(DeleteThenClose, t, steps[1]), []);
  }

  lemma RunOfFour(s: State, steps: seq<Step>)
    requires |steps| == 4
    ensures Run(DeleteThenClose, s, steps) ==
            Next(DeleteThenClose, Next(DeleteThenClose,
              Next(DeleteThenClose, Next(DeleteThenClose, s, steps[0]), steps[1]), steps[2]), steps[3])
  {
    var t := Next(DeleteThenClose, Next(DeleteThenClose, s, steps[0]), steps[1]);
    assert steps[1..][1..] == steps[2..] && steps[1..][0] == steps[1];
    assert Run(DeleteThenClose, Next(DeleteThenClose, s, steps[0]), steps[1..]) == Run(DeleteThenClose, t, steps[2..]);
    RunOfTwo(t, steps[2..]);
  }
}
