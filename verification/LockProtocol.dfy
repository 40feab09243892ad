/** Any number of processes editing one `routes.json` under the lock directory, as a step machine. */
module LockProtocol {
  import opened Text
  import opened Routes
  import Lock = LockDirectory

  // ---------------------------------------------------------------------------
  // States and steps
  // ---------------------------------------------------------------------------

  const STALE_LOCK_THRESHOLD_MS := 10_000

  const LIMITS := Lock.Limits(LOCK_MAX_RETRIES, STALE_LOCK_THRESHOLD_MS)

  type ProcId = Lock.ProcId

  /** Where one process stands in one operation. `ticket` counts lock acquisitions; `entered` is the one that a finished
      operation had, if it got the lock at all. */
  datatype Pc =
    | Idle
    | Trying(op: Op, left: nat)
    | Examining(op: Op, left: nat)
    | Breaking(op: Op, left: nat)
    | Entered(op: Op, ticket: nat)
    | Loaded(op: Op, ticket: nat, routes: seq<Route>, atLoad: set<nat>)
    | Ready(op: Op, ticket: nat, edited: seq<Route>, atLoad: set<nat>, atCheck: set<nat>, killed: bool)
    | Leaving(ticket: nat, result: Result<(), RouteError>)
    | Finished(entered: Option<nat>, result: Result<(), RouteError>)
    | Crashed

  /** One save, with what the operation saw. */
  datatype Commit = Commit(ticket: nat, op: Op, atLoad: set<nat>, atCheck: set<nat>, killed: bool)

  /** `lock` holds the creation time of the lock directory. `entries` (who acquired the lock, in order) and
      `committed` are bookkeeping that no step reads. */
  datatype State = State(
    now: nat, lock: Option<nat>, file: RoutesFile, live: set<nat>, procs: map<ProcId, Pc>,
    entries: seq<(ProcId, Op)>, committed: seq<Commit>)

  datatype Action =
    | Start(p: ProcId, op: Op)
    | CreateLock(p: ProcId)
    | CreateFails(p: ProcId)
    | CreateErrs(p: ProcId)
    | Examine(p: ProcId)
    | BreakLock(p: ProcId)
    | GiveUp(p: ProcId)
    | LoadFile(p: ProcId)
    | EditList(p: ProcId, killed: bool)
    | Save(p: ProcId)
    | DropLock(p: ProcId)
    | Crash(p: ProcId)
    | Tick(elapsed: nat)
    | Liveness(live: set<nat>)

  /** Between creating the lock directory and dropping the guard. */
  predicate Inside(pc: Pc) {
    pc.Entered? || pc.Loaded? || pc.Ready? || pc.Leaving?
  }

  predicate Holder(s: State, p: ProcId) {
    p in s.procs && Inside(s.procs[p])
  }

  predicate At(s: State, p: ProcId) {
    p in s.procs
  }

  predicate Enabled(s: State, a: Action) {
    match a
    case Start(p, _) => At(s, p) && (s.procs[p].Idle? || s.procs[p].Finished?)
    case CreateLock(p) => At(s, p) && s.procs[p].Trying? && s.procs[p].left > 0 && s.lock.None?
    case CreateFails(p) => At(s, p) && s.procs[p].Trying? && s.procs[p].left > 0 && s.lock.Some?
    case CreateErrs(p) => At(s, p) && s.procs[p].Trying? && s.procs[p].left > 0
    case Examine(p) => At(s, p) && s.procs[p].Examining? && s.procs[p].left > 0
    case BreakLock(p) => At(s, p) && s.procs[p].Breaking? && s.procs[p].left > 0
    case GiveUp(p) => At(s, p) && s.procs[p].Trying? && s.procs[p].left == 0
    case LoadFile(p) => At(s, p) && s.procs[p].Entered?
    case EditList(p, _) => At(s, p) && s.procs[p].Loaded?
    case Save(p) => At(s, p) && s.procs[p].Ready?
    case DropLock(p) => At(s, p) && s.procs[p].Leaving?
    case Crash(p) => At(s, p)
    case Tick(_) => true
    case Liveness(_) => true
  }

  function Goto(s: State, p: ProcId, pc: Pc): State {
    s.(procs := s.procs[p := pc])
  }

  predicate Stale(s: State) {
    s.lock.Some? && s.now - s.lock.value > STALE_LOCK_THRESHOLD_MS
  }

  /** The effect of one step. Breaking a stale lock is a look followed, some steps later, by a removal of whatever
      directory is there by then; dropping the guard also removes whatever is there. */
  function Apply(s: State, a: Action): State
    requires Enabled(s, a)
  {
    match a
    case Start(p, op) => Goto(s, p, Trying(op, LOCK_MAX_RETRIES))
    case CreateLock(p) =>
      Goto(s, p, Entered(s.procs[p].op, |s.entries|))
        .(lock := Some(s.now), entries := s.entries + [(p, s.procs[p].op)])
    case CreateFails(p) => Goto(s, p, Examining(s.procs[p].op, s.procs[p].left))
    case CreateErrs(p) => Goto(s, p, Finished(None, Err(Io)))
    case Examine(p) =>
      Goto(s, p, if Stale(s) then Breaking(s.procs[p].op, s.procs[p].left)
                 else Trying(s.procs[p].op, s.procs[p].left - 1))
    case BreakLock(p) => Goto(s, p, Trying(s.procs[p].op, s.procs[p].left - 1)).(lock := None)
    case GiveUp(p) => Goto(s, p, Finished(None, Err(LockFailed)))
    case LoadFile(p) =>
      Goto(s, p, match Load(s.file, s.live)
                 case Err(e) => Leaving(s.procs[p].ticket, Err(e))
                 case Ok(routes) => Loaded(s.procs[p].op, s.procs[p].ticket, routes, s.live))
    case EditList(p, killed) =>
      var pc := s.procs[p];
      Goto(s, p, match Edit(pc.op, pc.routes, s.live, killed)
                 case Err(e) => Leaving(pc.ticket, Err(e))
                 case Ok(edited) => Ready(pc.op, pc.ticket, edited, pc.atLoad, s.live, killed))
    case Save(p) =>
      var pc := s.procs[p];
      Goto(s, p, Leaving(pc.ticket, Ok(())))
        .(file := Records(pc.edited),
          committed := s.committed + [Commit(pc.ticket, pc.op, pc.atLoad, pc.atCheck, pc.killed)])
    case DropLock(p) => Goto(s, p, Finished(Some(s.procs[p].ticket), s.procs[p].result)).(lock := None)
    case Crash(p) => Goto(s, p, Crashed)
    case Tick(elapsed) => s.(now := s.now + elapsed)
    case Liveness(live) => s.(live := live)
  }

  predicate Initial(s: State) {
    && s.lock.None? && s.entries == [] && s.committed == []
    && forall p <- s.procs :: s.procs[p].Idle?
  }

  // ---------------------------------------------------------------------------
  // Runs
  // ---------------------------------------------------------------------------

  ghost predicate IsRun(s: State, run: seq<Action>)
    decreases |run|
  {
    run != [] ==> Enabled(s, run[0]) && IsRun(Apply(s, run[0]), run[1..])
  }

  ghost function After(s: State, run: seq<Action>): State
    requires IsRun(s, run)
    decreases |run|
  {
    if run == [] then s else After(Apply(s, run[0]), run[1..])
  }

  // ---------------------------------------------------------------------------
  // The lock
  // ---------------------------------------------------------------------------

  function StageOf(pc: Pc): Lock.Stage {
    match pc
    case Trying(_, left) => Lock.Trying(left)
    case Examining(_, left) => Lock.Examining(left)
    case Breaking(_, left) => Lock.Breaking(left)
    case _ => if Inside(pc) then Lock.Inside else Lock.Outside
  }

  /** What the lock directory's own machine sees of a state. */
  function View(s: State): Lock.State {
    Lock.State(s.now, s.lock, map p | p in s.procs :: StageOf(s.procs[p]))
  }

  function Visible(a: Action): Lock.Action {
    match a
    case Start(p, _) => Lock.Start(p)
    case CreateLock(p) => Lock.Create(p)
    case CreateFails(p) => Lock.CreateFails(p)
    case CreateErrs(p) => Lock.CreateErrs(p)
    case Examine(p) => Lock.Examine(p)
    case BreakLock(p) => Lock.Break(p)
    case GiveUp(p) => Lock.GiveUp(p)
    case DropLock(p) => Lock.Drop(p)
    case Crash(p) => Lock.Crash(p)
    case Tick(elapsed) => Lock.Tick(elapsed)
    case _ => Lock.Work
  }

  function VisibleRun(run: seq<Action>): seq<Lock.Action> {
    if run == [] then [] else [Visible(run[0])] + VisibleRun(run[1..])
  }

  lemma ViewGoto(s: State, p: ProcId, pc: Pc)
    requires p in s.procs
    ensures View(Goto(s, p, pc)) == Lock.Goto(View(s), p, StageOf(pc))
  {
    assert View(Goto(s, p, pc)).stages == View(s).stages[p := StageOf(pc)];
  }

  lemma WorkRefines(s: State, a: Action)
    requires Enabled(s, a) && Visible(a).Work?
    ensures View(Apply(s, a)) == View(s)
  {
    if !(a.Liveness?) {
      ViewGoto(s, a.p, Apply(s, a).procs[a.p]);
      assert View(s).stages[a.p := StageOf(s.procs[a.p])] == View(s).stages;
    }
  }

  /** Every step is one of the lock directory's machine. */
  lemma StepRefines(s: State, a: Action)
    requires Enabled(s, a)
    ensures Lock.Enabled(View(s), Visible(a))
    ensures View(Apply(s, a)) == Lock.Apply(View(s), Visible(a), LIMITS)
  {
    if Visible(a).Work? {
      WorkRefines(s, a);
    } else if !a.Tick? {
      ViewGoto(s, a.p, Apply(s, a).procs[a.p]);
    }
  }

  lemma {:induction false} RunRefines(s: State, run: seq<Action>)
    requires IsRun(s, run)
    ensures Lock.IsRun(View(s), VisibleRun(run), LIMITS)
    ensures Lock.After(View(s), VisibleRun(run), LIMITS) == View(After(s, run))
    decreases |run|
  {
    if run != [] {
      StepRefines(s, run[0]);
      RunRefines(Apply(s, run[0]), run[1..]);
      assert VisibleRun(run)[1..] == VisibleRun(run[1..]);
    }
  }

  ghost predicate LockInv(s: State) {
    Lock.LockInv(View(s))
  }

  ghost predicate AtMostOneInside(s: State) {
    forall p, q | Holder(s, p) && Holder(s, q) :: p == q
  }

  lemma LockInvMeans(s: State)
    ensures LockInv(s) <==> AtMostOneInside(s) && forall p | Holder(s, p) :: s.lock.Some?
  {
    assert forall p :: Lock.Holder(View(s), p) <==> Holder(s, p);
  }

  /** No held lock is broken in the run. */
  ghost predicate SafeRun(s: State, run: seq<Action>)
    requires IsRun(s, run)
  {
    RunRefines(s, run);
    Lock.SafeRun(View(s), VisibleRun(run), LIMITS)
  }

  /** The lock directory is never older than ten seconds, in any state of the run. */
  ghost predicate NeverStale(s: State, run: seq<Action>)
    requires IsRun(s, run)
  {
    RunRefines(s, run);
    Lock.NeverStale(View(s), VisibleRun(run), LIMITS)
  }

  /** From the start, mutual exclusion under cover of the lock holds throughout a run exactly when no held lock is
      broken in it. */
  lemma MutualExclusionExactly(s: State, run: seq<Action>)
    requires Initial(s) && IsRun(s, run)
    ensures Lock.IsRun(View(s), VisibleRun(run), LIMITS)
    ensures Lock.AlwaysLockInv(View(s), VisibleRun(run), LIMITS) <==> SafeRun(s, run)
    ensures SafeRun(s, run) ==> AtMostOneInside(After(s, run))
  {
    RunRefines(s, run);
    LockInvMeans(s);
    Lock.DisciplineKeptExactly(View(s), VisibleRun(run), LIMITS);
    LockInvMeans(After(s, run));
  }

  lemma SafeRunSteps(s: State, run: seq<Action>)
    requires LockInv(s) && IsRun(s, run) && SafeRun(s, run) && run != []
    ensures LockInv(Apply(s, run[0])) && SafeRun(Apply(s, run[0]), run[1..])
  {
    RunRefines(s, run);
    StepRefines(s, run[0]);
    assert VisibleRun(run)[1..] == VisibleRun(run[1..]);
    Lock.StepKeepsLockInvExactly(View(s), Visible(run[0]), LIMITS);
  }

  // ---------------------------------------------------------------------------
  // Serializability
  // ---------------------------------------------------------------------------

  /** The commits applied one after another, each whole. */
  function Replay(file: RoutesFile, commits: seq<Commit>): Option<RoutesFile> {
    if commits == [] then Some(file)
    else
      match Replay(file, commits[..|commits| - 1])
      case None => None
      case Some(before) =>
        var c := commits[|commits| - 1];
        match Transact(c.op, before, c.atLoad, c.atCheck, c.killed)
        case Err(_) => None
        case Ok(routes) => Some(Records(routes))
  }

  ghost predicate Committed(s: State, ticket: nat) {
    exists i | 0 <= i < |s.committed| :: s.committed[i].ticket == ticket
  }

  /** Saves happen in the order in which the lock was acquired, at most one per acquisition, each by its operation. */
  ghost predicate CommitsInLockOrder(s: State) {
    && (forall i | 0 <= i < |s.committed| ::
          s.committed[i].ticket < |s.entries| && s.entries[s.committed[i].ticket].1 == s.committed[i].op)
    && (forall i, j | 0 <= i < j < |s.committed| :: s.committed[i].ticket < s.committed[j].ticket)
  }

  /** What a process inside relies on: its snapshot still describes the file, and its own save is recorded exactly
      when it is going to report success. */
  ghost predicate SnapshotInv(s: State, p: ProcId)
    requires p in s.procs
  {
    var pc := s.procs[p];
    && (Inside(pc) ==> pc.ticket == |s.entries| - 1)
    && (Inside(pc) && !pc.Leaving? ==> s.entries[pc.ticket] == (p, pc.op) && !Committed(s, pc.ticket))
    && (pc.Loaded? ==> Load(s.file, pc.atLoad) == Ok(pc.routes))
    && (pc.Ready? ==> Transact(pc.op, s.file, pc.atLoad, pc.atCheck, pc.killed) == Ok(pc.edited))
    && (pc.Leaving? ==> (pc.result.Ok? <==> Committed(s, pc.ticket)) && s.entries[pc.ticket].0 == p)
    && (pc.Finished? ==>
          match pc.entered
          case None => pc.result.Err?
          case Some(t) => t < |s.entries| && s.entries[t].0 == p && (pc.result.Ok? <==> Committed(s, t)))
  }

  ghost predicate FileInv(s: State, start: RoutesFile) {
    && Replay(start, s.committed) == Some(s.file)
    && CommitsInLockOrder(s)
    && (forall p <- s.procs :: SnapshotInv(s, p))
  }

  lemma InitialHolds(s: State)
    requires Initial(s)
    ensures LockInv(s) && FileInv(s, s.file)
  {
    assert s.committed == [];
    LockInvMeans(s);
  }

  lemma SaveKeepsFileInv(s: State, p: ProcId, start: RoutesFile)
    requires AtMostOneInside(s) && FileInv(s, start) && Enabled(s, Save(p))
    ensures FileInv(Apply(s, Save(p)), start)
  {
    var t := Apply(s, Save(p));
    var pc := s.procs[p];
    assert SnapshotInv(s, p);
    assert t.committed[..|t.committed| - 1] == s.committed;
    assert t.committed[|s.committed|].ticket == pc.ticket;
    forall q | q in t.procs ensures SnapshotInv(t, q) {
      assert SnapshotInv(s, q);
      if q != p && Inside(s.procs[q]) {
        assert Holder(s, p) && Holder(s, q);
        assert false;
      }
    }
    forall i | 0 <= i < |s.committed| ensures s.committed[i].ticket < pc.ticket {
      assert s.committed[i].ticket != pc.ticket;
    }
  }

  lemma CreateKeepsFileInv(s: State, p: ProcId, start: RoutesFile)
    requires (forall q :: !Holder(s, q)) && FileInv(s, start) && Enabled(s, CreateLock(p))
    ensures FileInv(Apply(s, CreateLock(p)), start)
  {
    var t := Apply(s, CreateLock(p));
    forall q | q in t.procs ensures SnapshotInv(t, q) {
      assert SnapshotInv(s, q);
      assert !Holder(s, q);
    }
  }

  lemma BystanderKeepsSnapshot(s: State, t: State, q: ProcId)
    requires q in s.procs && q in t.procs && t.procs[q] == s.procs[q] && SnapshotInv(s, q)
    requires t.file == s.file && t.committed == s.committed && t.entries == s.entries
    ensures SnapshotInv(t, q)
  {}

  lemma MoverKeepsSnapshot(s: State, a: Action, p: ProcId, start: RoutesFile)
    requires FileInv(s, start) && Enabled(s, a) && !a.Save? && !a.CreateLock?
    requires p in s.procs && Apply(s, a).procs[p] != s.procs[p]
    ensures SnapshotInv(Apply(s, a), p)
  {
    assert SnapshotInv(s, p);
  }

  lemma StepKeepsFileInv(s: State, a: Action, start: RoutesFile)
    requires LockInv(s) && FileInv(s, start) && Enabled(s, a)
    ensures FileInv(Apply(s, a), start)
  {
    var t := Apply(s, a);
    LockInvMeans(s);
    if a.Save? {
      SaveKeepsFileInv(s, a.p, start);
    } else if a.CreateLock? {
      CreateKeepsFileInv(s, a.p, start);
    } else {
      assert t.file == s.file && t.committed == s.committed && t.entries == s.entries;
      forall q | q in t.procs ensures SnapshotInv(t, q) {
        if t.procs[q] == s.procs[q] {
          BystanderKeepsSnapshot(s, t, q);
        } else {
          MoverKeepsSnapshot(s, a, q, start);
        }
      }
    }
  }

  /** Serializability of every run in which no held lock is broken: one process inside at a time, and the file is the
      initial one with the committed operations applied whole, in lock order. */
  lemma {:induction false} Serializable(s: State, run: seq<Action>, start: RoutesFile)
    requires LockInv(s) && FileInv(s, start) && IsRun(s, run) && SafeRun(s, run)
    ensures LockInv(After(s, run)) && FileInv(After(s, run), start)
    decreases |run|
  {
    if run != [] {
      SafeRunSteps(s, run);
      StepKeepsFileInv(s, run[0], start);
      Serializable(Apply(s, run[0]), run[1..], start);
    }
  }

  /** As long as no process crashes while it is inside, the lock stays fresh exactly when everybody leaves within ten
      seconds. */
  lemma FreshExactly(s: State, run: seq<Action>)
    requires Initial(s) && IsRun(s, run)
    ensures Lock.IsRun(View(s), VisibleRun(run), LIMITS)
    ensures Lock.NoCrashInside(View(s), VisibleRun(run), LIMITS) ==>
              (NeverStale(s, run) <==> Lock.ShortHolds(View(s), VisibleRun(run), LIMITS))
  {
    RunRefines(s, run);
    assert forall p :: !Lock.Holder(View(s), p);
    if Lock.NoCrashInside(View(s), VisibleRun(run), LIMITS) {
      Lock.NeverStaleExactly(View(s), VisibleRun(run), LIMITS);
    }
  }

  /** The promise as users meet it: from the start, while no lock goes stale, operations serialize. */
  lemma SerializableWhileFresh(s: State, run: seq<Action>)
    requires Initial(s) && IsRun(s, run) && NeverStale(s, run)
    ensures AtMostOneInside(After(s, run))
    ensures Replay(s.file, After(s, run).committed) == Some(After(s, run).file)
    ensures CommitsInLockOrder(After(s, run))
  {
    InitialHolds(s);
    RunRefines(s, run);
    Lock.NeverStaleIsSafe(View(s), VisibleRun(run), LIMITS);
    Serializable(s, run, s.file);
    LockInvMeans(After(s, run));
  }

  /** A failed lock, a conflict, an unsafe replacement or an unreadable file: the operation reports the failure and has
      written nothing; one that reports success has saved once, under the lock it held. */
  lemma FailuresWriteNothing(s: State, run: seq<Action>, p: ProcId)
    requires Initial(s) && IsRun(s, run) && SafeRun(s, run)
    requires p in After(s, run).procs
    ensures var t := After(s, run);
            match t.procs[p]
            case Leaving(ticket, result) => result.Err? <==> !Committed(t, ticket)
            case Finished(None, result) => result.Err?
            case Finished(Some(ticket), result) =>
              && ticket < |t.entries| && t.entries[ticket].0 == p
              && (result.Err? <==> !Committed(t, ticket))
            case _ => true
  {
    InitialHolds(s);
    Serializable(s, run, s.file);
    assert SnapshotInv(After(s, run), p);
  }

  // ---------------------------------------------------------------------------
  // Without the assumption
  // ---------------------------------------------------------------------------

  lemma {:induction false} RunConcat(s: State, first: seq<Action>, second: seq<Action>)
    requires IsRun(s, first) && IsRun(After(s, first), second)
    ensures IsRun(s, first + second) && After(s, first + second) == After(After(s, first), second)
    decreases |first|
  {
    if first == [] {
      assert first + second == second;
    } else {
      assert (first + second)[1..] == first[1..] + second;
      RunConcat(Apply(s, first[0]), first[1..], second);
    }
  }

  function LossOp(hostname: string): Op {
    Add(hostname, 4000, 0, None, false, false, "/", false)
  }

  function LossStart(): State {
    State(0, None, Missing, {}, map[1 := Idle, 2 := Idle], [], [])
  }

  /** Process 1 has edited its list and is then suspended for ten seconds. */
  function Suspended(): State {
    var a := LossOp("a.localhost");
    State(10_001, Some(0), Missing, {}, map[1 := Ready(a, 0, [NewRoute(a)], {}, {}, false), 2 := Idle], [(1, a)], [])
  }

  /** Process 2 has taken the lock for stale and entered as well. */
  function BothInside(): State {
    var a, b := LossOp("a.localhost"), LossOp("b.localhost");
    State(10_001, Some(10_001), Missing, {},
          map[1 := Ready(a, 0, [NewRoute(a)], {}, {}, false), 2 := Entered(b, 1)], [(1, a), (2, b)], [])
  }

  lemma Prepend(s: State, a: Action, rest: seq<Action>, end: State)
    requires Enabled(s, a) && IsRun(Apply(s, a), rest) && After(Apply(s, a), rest) == end
    ensures IsRun(s, [a] + rest) && After(s, [a] + rest) == end
  {
    assert ([a] + rest)[1..] == rest;
  }

  lemma ReachSuspended() returns (run: seq<Action>)
    ensures IsRun(LossStart(), run) && After(LossStart(), run) == Suspended()
  {
    var a := LossOp("a.localhost");
    var s0 := LossStart();
    var s1 := s0.(procs := map[1 := Trying(a, LOCK_MAX_RETRIES), 2 := Idle]);
    var s2 := s0.(lock := Some(0), entries := [(1, a)], procs := map[1 := Entered(a, 0), 2 := Idle]);
    var s3 := s2.(procs := map[1 := Loaded(a, 0, [], {}), 2 := Idle]);
    assert Edit(a, [], {}, false) == Ok([NewRoute(a)]) by { assert [] + [NewRoute(a)] == [NewRoute(a)]; }
    var s4 := Suspended().(now := 0);
    assert Apply(s0, Start(1, a)) == s1;
    assert Apply(s1, CreateLock(1)) == s2;
    assert Apply(s2, LoadFile(1)) == s3;
    assert Apply(s3, EditList(1, false)) == s4;
    assert Apply(s4, Tick(10_001)) == Suspended();
    run := [];
    Prepend(s4, Tick(10_001), run, Suspended());
    run := [Tick(10_001)] + run;
    Prepend(s3, EditList(1, false), run, Suspended());
    run := [EditList(1, false)] + run;
    Prepend(s2, LoadFile(1), run, Suspended());
    run := [LoadFile(1)] + run;
    Prepend(s1, CreateLock(1), run, Suspended());
    run := [CreateLock(1)] + run;
    Prepend(s0, Start(1, a), run, Suspended());
    run := [Start(1, a)] + run;
  }

  lemma ReachBothInside() returns (run: seq<Action>)
    ensures IsRun(Suspended(), run) && After(Suspended(), run) == BothInside()
    ensures !AtMostOneInside(BothInside())
  {
    var b := LossOp("b.localhost");
    var s0 := Suspended();
    assert Holder(BothInside(), 1) && Holder(BothInside(), 2);
    var p1 := s0.procs[1];
    var s1 := s0.(procs := map[1 := p1, 2 := Trying(b, LOCK_MAX_RETRIES)]);
    var s2 := s0.(procs := map[1 := p1, 2 := Examining(b, LOCK_MAX_RETRIES)]);
    var s3 := s0.(procs := map[1 := p1, 2 := Breaking(b, LOCK_MAX_RETRIES)]);
    var s4 := s0.(procs := map[1 := p1, 2 := Trying(b, LOCK_MAX_RETRIES - 1)], lock := None);
    assert Apply(s0, Start(2, b)) == s1;
    assert Apply(s1, CreateFails(2)) == s2;
    assert Apply(s2, Examine(2)) == s3;
    assert Apply(s3, BreakLock(2)) == s4;
    assert Apply(s4, CreateLock(2)) == BothInside();
    run := [];
    Prepend(s4, CreateLock(2), run, BothInside());
    run := [CreateLock(2)] + run;
    Prepend(s3, BreakLock(2), run, BothInside());
    run := [BreakLock(2)] + run;
    Prepend(s2, Examine(2), run, BothInside());
    run := [Examine(2)] + run;
    Prepend(s1, CreateFails(2), run, BothInside());
    run := [CreateFails(2)] + run;
    Prepend(s0, Start(2, b), run, BothInside());
    run := [Start(2, b)] + run;
  }

  lemma ReachLoss() returns (run: seq<Action>, t: State)
    ensures IsRun(BothInside(), run) && After(BothInside(), run) == t
    ensures t.file == Records([NewRoute(LossOp("a.localhost"))])
    ensures t.committed == [Commit(1, LossOp("b.localhost"), {}, {}, false), Commit(0, LossOp("a.localhost"), {}, {}, false)]
  {
    var b := LossOp("b.localhost");
    var s0 := BothInside();
    var p1 := s0.procs[1];
    var s1 := s0.(procs := map[1 := p1, 2 := Loaded(b, 1, [], {})]);
    var s2 := s0.(procs := map[1 := p1, 2 := Ready(b, 1, [NewRoute(b)], {}, {}, false)]);
    assert Edit(b, [], {}, false) == Ok([NewRoute(b)]) by { assert [] + [NewRoute(b)] == [NewRoute(b)]; }
    var s3 := s0.(procs := map[1 := p1, 2 := Leaving(1, Ok(()))], file := Records([NewRoute(b)]),
                  committed := [Commit(1, b, {}, {}, false)]);
    assert Apply(s0, LoadFile(2)) == s1;
    assert Apply(s1, EditList(2, false)) == s2;
    assert Apply(s2, Save(2)) == s3;
    t := Apply(s3, Save(1));
    run := [];
    Prepend(s3, Save(1), run, t);
    run := [Save(1)] + run;
    Prepend(s2, Save(2), run, t);
    run := [Save(2)] + run;
    Prepend(s1, EditList(2, false), run, t);
    run := [EditList(2, false)] + run;
    Prepend(s0, LoadFile(2), run, t);
    run := [LoadFile(2)] + run;
  }

  /** A holder that is suspended for more than ten seconds: both processes get inside, and the save of the first wipes
      out the record the second has committed. */
  lemma StaleBreakLosesUpdate()
    ensures exists run ::
              && IsRun(LossStart(), run)
              && var t := After(LossStart(), run);
                 && t.committed == [Commit(1, LossOp("b.localhost"), {}, {}, false),
                                        Commit(0, LossOp("a.localhost"), {}, {}, false)]
                 && Replay(Missing, t.committed) != Some(t.file)
                 && t.file == Records([NewRoute(LossOp("a.localhost"))])
  {
    var run1 := ReachSuspended();
    var run2 := ReachBothInside();
    var run3, t := ReachLoss();
    RunConcat(LossStart(), run1, run2);
    RunConcat(LossStart(), run1 + run2, run3);
    ReplayKeepsBoth(t.committed, LossOp("a.localhost"), LossOp("b.localhost"));
    assert IsRun(LossStart(), run1 + run2 + run3) && After(LossStart(), run1 + run2 + run3) == t;
  }

  lemma ReplayKeepsBoth(commits: seq<Commit>, a: Op, b: Op)
    requires a == LossOp("a.localhost") && b == LossOp("b.localhost")
    requires |commits| == 2 && commits[0].op == b && commits[1].op == a
    requires commits[0].atLoad == {} && commits[1].atLoad == {}
    ensures Replay(Missing, commits) != Some(Records([NewRoute(a)]))
  {
    assert commits[..1][..0] == [];
    assert Replay(Missing, commits[..0]) == Some(Missing);
    var routes := [NewRoute(b)];
    assert Transact(b, Missing, {}, commits[0].atCheck, commits[0].killed) == Ok([] + [NewRoute(b)]);
    assert [] + [NewRoute(b)] == routes;
    assert Replay(Missing, commits[..1]) == Some(Records(routes));
    var outcome := Transact(a, Records(routes), {}, commits[1].atCheck, commits[1].killed);
    if outcome.Ok? {
      TransactKeepsTheRest(a, Records(routes), {}, commits[1].atCheck, commits[1].killed);
      assert routes[0] in routes;
      assert NewRoute(b) in outcome.value;
    }
  }

  // ---------------------------------------------------------------------------
  // Ownership over whole runs
  // ---------------------------------------------------------------------------

  /** `r` holds its key in the file, and whoever is inside saw its process alive. */
  ghost predicate Protected(s: State, r: Route) {
    && HoldsKey(RoutesOf(s.file), r)
    && forall p <- s.procs ::
         && (s.procs[p].Loaded? || s.procs[p].Ready? ==> Alive(r.pid, s.procs[p].atLoad))
         && (s.procs[p].Ready? ==> Alive(r.pid, s.procs[p].atCheck))
  }

  /** The records that the add which `p` is about to save has kept. */
  function KeptBy(s: State, p: ProcId): seq<Route>
    requires p in s.procs && s.procs[p].Ready? && s.procs[p].edited != []
  {
    s.procs[p].edited[..|s.procs[p].edited| - 1]
  }

  lemma {:induction false} LastHoldsKeyExactly(kept: seq<Route>, r: Route)
    ensures HoldsKey(kept + [r], r) <==>
            FirstWithKey(kept, r.hostname, Normalize(r.pathPrefix)) in {None, Some(r)}
  {
    var all := kept + [r];
    if kept == [] {
      assert all[0] == r;
    } else {
      assert all[0] == kept[0] && all[1..] == kept[1..] + [r];
      if !SameKey(kept[0], r.hostname, Normalize(r.pathPrefix)) { LastHoldsKeyExactly(kept[1..], r); }
    }
  }

  /** Saving an add is what makes a route protected: exactly unless a kept record that is not the same already has its
      key. */
  lemma SaveProtectsExactly(s: State, p: ProcId, start: RoutesFile)
    requires LockInv(s) && FileInv(s, start) && Enabled(s, Save(p)) && s.procs[p].op.Add?
    ensures s.procs[p].edited != []
    ensures var r := NewRoute(s.procs[p].op);
            Protected(Apply(s, Save(p)), r)
            <==> FirstWithKey(KeptBy(s, p), r.hostname, Normalize(r.pathPrefix)) in {None, Some(r)}
  {
    var pc := s.procs[p];
    var r, t := NewRoute(pc.op), Apply(s, Save(p));
    LockInvMeans(s);
    assert SnapshotInv(s, p);
    TransactKeepsTheRest(pc.op, s.file, pc.atLoad, pc.atCheck, pc.killed);
    var kept := KeptBy(s, p);
    assert pc.edited == kept + [r];
    LastHoldsKeyExactly(kept, r);
    forall q | q in t.procs ensures !t.procs[q].Loaded? && !t.procs[q].Ready? {
      assert Holder(s, p) && (Inside(s.procs[q]) ==> Holder(s, q));
    }
  }

  /** A prefix that does not end in two slashes is always protected. */
  lemma CleanAddIsProtected(s: State, p: ProcId, start: RoutesFile)
    requires LockInv(s) && FileInv(s, start) && Enabled(s, Save(p)) && s.procs[p].op.Add?
    requires !(EndsWith(s.procs[p].op.pathPrefix, "//") && s.procs[p].op.pathPrefix != "//")
    ensures Protected(Apply(s, Save(p)), NewRoute(s.procs[p].op))
  {
    var pc := s.procs[p];
    SaveProtectsExactly(s, p, start);
    NormalizeIdempotentExactly(pc.op.pathPrefix);
    assert SnapshotInv(s, p);
    TransactKeepsTheRest(pc.op, s.file, pc.atLoad, pc.atCheck, pc.killed);
    NoneWithKey(KeptBy(s, p), pc.op.hostname, Normalize(pc.op.pathPrefix));
  }

  lemma {:induction false} NoneWithKey(routes: seq<Route>, hostname: string, norm: string)
    requires forall r <- routes :: !SameKey(r, hostname, norm)
    ensures FirstWithKey(routes, hostname, norm) == None
  {
    if routes != [] { NoneWithKey(routes[1..], hostname, norm); }
  }

  /** Ownership from the save on: in a run from the start, a route that was added under a clean prefix stays as long as
      its process lives and nobody entitled to it saves. */
  lemma AddedRouteStays(s: State, before: seq<Action>, p: ProcId, rest: seq<Action>)
    requires Initial(s) && IsRun(s, before) && SafeRun(s, before)
    requires Enabled(After(s, before), Save(p)) && After(s, before).procs[p].op.Add?
    requires var op := After(s, before).procs[p].op; !(EndsWith(op.pathPrefix, "//") && op.pathPrefix != "//")
    requires var saved := Apply(After(s, before), Save(p));
             && IsRun(saved, rest) && SafeRun(saved, rest)
             && Undisturbed(saved, rest, NewRoute(After(s, before).procs[p].op))
    ensures Protected(After(Apply(After(s, before), Save(p)), rest), NewRoute(After(s, before).procs[p].op))
  {
    var t := After(s, before);
    InitialHolds(s);
    Serializable(s, before, s.file);
    CleanAddIsProtected(t, p, s.file);
    StepKeepsFileInv(t, Save(p), s.file);
    StepRefines(t, Save(p));
    OwnerKeepsRoute(Apply(t, Save(p)), rest, s.file, NewRoute(t.procs[p].op));
  }

  /** Throughout the run the process of `r` is alive and no operation entitled to `r` saves. */
  ghost predicate Undisturbed(s: State, run: seq<Action>, r: Route)
    requires IsRun(s, run)
    decreases |run|
  {
    && Alive(r.pid, s.live)
    && (run != [] ==>
          && (run[0].Save? ==> !Displaces(s.procs[run[0].p].op, r))
          && Undisturbed(Apply(s, run[0]), run[1..], r))
  }

  lemma StepKeepsProtected(s: State, a: Action, start: RoutesFile, r: Route)
    requires LockInv(s) && FileInv(s, start) && Enabled(s, a)
    requires Protected(s, r) && Alive(r.pid, s.live)
    requires a.Save? ==> !Displaces(s.procs[a.p].op, r)
    ensures Protected(Apply(s, a), r)
  {
    if a.Save? {
      var pc := s.procs[a.p];
      assert SnapshotInv(s, a.p);
      LiveRouteKeptUnlessDisplaced(pc.op, s.file, pc.atLoad, pc.atCheck, pc.killed, r);
    }
  }

  /** Ownership: a route that holds its key keeps port, flags and key through every run in which its process stays
      alive and nobody entitled to it saves. */
  lemma {:induction false} OwnerKeepsRoute(s: State, run: seq<Action>, start: RoutesFile, r: Route)
    requires LockInv(s) && FileInv(s, start) && IsRun(s, run) && SafeRun(s, run)
    requires Protected(s, r) && Undisturbed(s, run, r)
    ensures Protected(After(s, run), r)
    decreases |run|
  {
    if run != [] {
      StepKeepsProtected(s, run[0], start, r);
      StepKeepsFileInv(s, run[0], start);
      SafeRunSteps(s, run);
      OwnerKeepsRoute(Apply(s, run[0]), run[1..], start, r);
    }
  }

  // ---------------------------------------------------------------------------
  // Ownership behind a record of the same process
  // ---------------------------------------------------------------------------

  /** The weaker protection: `r` is in the file, and for everybody who has looked or looks now the first live record with
      its key is of its own process. */
  ghost predicate Guarded(s: State, r: Route) {
    && r in RoutesOf(s.file) && OwnFront(RoutesOf(s.file), s.live, r)
    && forall p <- s.procs ::
         && (s.procs[p].Loaded? || s.procs[p].Ready? ==>
               Alive(r.pid, s.procs[p].atLoad) && OwnFront(RoutesOf(s.file), s.procs[p].atLoad, r))
         && (s.procs[p].Ready? ==> Alive(r.pid, s.procs[p].atCheck))
  }

  /** No process that has a record under the key of `r` comes back from the dead. */
  predicate NobodyRevived(s: State, live: set<nat>, r: Route) {
    forall k <- RoutesOf(s.file) |
      SameKey(k, r.hostname, Normalize(r.pathPrefix)) && Alive(k.pid, live) :: Alive(k.pid, s.live)
  }

  ghost predicate UndisturbedUnrevived(s: State, run: seq<Action>, r: Route)
    requires IsRun(s, run)
    decreases |run|
  {
    && Alive(r.pid, s.live)
    && (run != [] ==>
          && (run[0].Save? ==> !Displaces(s.procs[run[0].p].op, r))
          && (run[0].Liveness? ==> NobodyRevived(s, run[0].live, r))
          && UndisturbedUnrevived(Apply(s, run[0]), run[1..], r))
  }

  lemma SaveKeepsGuarded(s: State, p: ProcId, start: RoutesFile, r: Route)
    requires AtMostOneInside(s) && FileInv(s, start) && Enabled(s, Save(p))
    requires Guarded(s, r) && Alive(r.pid, s.live) && !Displaces(s.procs[p].op, r)
    ensures Guarded(Apply(s, Save(p)), r)
  {
    var pc, t := s.procs[p], Apply(s, Save(p));
    assert SnapshotInv(s, p);
    OwnFrontKept(pc.op, s.file, pc.atLoad, pc.atCheck, pc.killed, r);
    FirstSurvivesLoad(pc.edited, s.live, r.hostname, Normalize(r.pathPrefix));
    forall q | q in t.procs ensures !t.procs[q].Loaded? && !t.procs[q].Ready? {
      assert Holder(s, p) && (Inside(s.procs[q]) ==> Holder(s, q));
    }
  }

  lemma StepKeepsGuarded(s: State, a: Action, start: RoutesFile, r: Route)
    requires LockInv(s) && FileInv(s, start) && Enabled(s, a)
    requires Guarded(s, r) && Alive(r.pid, s.live) && Alive(r.pid, Apply(s, a).live)
    requires a.Save? ==> !Displaces(s.procs[a.p].op, r)
    requires a.Liveness? ==> NobodyRevived(s, a.live, r)
    ensures Guarded(Apply(s, a), r)
  {
    if a.Save? {
      LockInvMeans(s);
      SaveKeepsGuarded(s, a.p, start, r);
    } else if a.Liveness? {
      FrontOfFewer(RoutesOf(s.file), s.live, a.live, r);
    }
  }

  lemma {:induction false} GuardedThroughout(s: State, run: seq<Action>, start: RoutesFile, r: Route)
    requires LockInv(s) && FileInv(s, start) && IsRun(s, run) && SafeRun(s, run)
    requires Guarded(s, r) && UndisturbedUnrevived(s, run, r)
    ensures Guarded(After(s, run), r) && Alive(r.pid, After(s, run).live)
    decreases |run|
  {
    if run != [] {
      var next := Apply(s, run[0]);
      assert UndisturbedUnrevived(next, run[1..], r);
      StepKeepsGuarded(s, run[0], start, r);
      StepKeepsFileInv(s, run[0], start);
      SafeRunSteps(s, run);
      GuardedThroughout(next, run[1..], start, r);
    }
  }

  /** Ownership for all records that are safe: when nobody is inside, any record that no single operation could take away
      unentitled stays in the file and stays so, through every run in which its process lives, nobody entitled to it saves
      and no dead process with its key comes back. */
  lemma SecureRouteStays(s: State, run: seq<Action>, start: RoutesFile, r: Route)
    requires LockInv(s) && FileInv(s, start) && IsRun(s, run) && SafeRun(s, run)
    requires (forall p :: !Holder(s, p)) && r in RoutesOf(s.file) && Secure(RoutesOf(s.file), s.live, r)
    requires UndisturbedUnrevived(s, run, r)
    ensures var t := After(s, run); r in RoutesOf(t.file) && Secure(RoutesOf(t.file), t.live, r)
  {
    SecureExactly(RoutesOf(s.file), s.live, r);
    assert forall p <- s.procs :: !Holder(s, p);
    GuardedThroughout(s, run, start, r);
    SecureExactly(RoutesOf(After(s, run).file), After(s, run).live, r);
  }
}
