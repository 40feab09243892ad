/** Any number of commands that each make sure a proxy is running, serialized by the startup lock, as a step machine. */
module StartupLock {
  import opened Text
  import Lock = LockDirectory

  const STARTUP_LOCK_MAX_RETRIES := 50
  const STARTUP_LOCK_STALE_THRESHOLD_MS := 15_000
  const WAIT_ATTEMPTS := 20

  const LIMITS := Lock.Limits(STARTUP_LOCK_MAX_RETRIES, STARTUP_LOCK_STALE_THRESHOLD_MS)

  type ProcId = Lock.ProcId

  datatype Answer = Started | WasRunning | NotStarted | LockTimeout | LockError

  /** Where one command stands. `FoundNone` has looked, under the lock, and no proxy answered. */
  datatype Pc =
    | Idle
    | Trying(left: nat)
    | Examining(left: nat)
    | Breaking(left: nat)
    | Entered
    | FoundNone
    | Waiting(left: nat)
    | Leaving(answer: Answer)
    | Finished(answer: Answer)
    | Crashed

  /** `answering` says whether a proxy answers on the port, `booting` counts spawned daemons that do not answer yet.
      `spawned`, `started` (reports of having started the proxy), `stops` (of an answering proxy) and `lostWaits`
      (spawners that time out or crash while they wait) are bookkeeping that no step reads. */
  datatype State = State(
    now: nat, lock: Option<nat>, procs: map<ProcId, Pc>, answering: bool, booting: nat,
    spawned: nat, started: nat, stops: nat, lostWaits: nat)

  datatype Action =
    | Start(p: ProcId)
    | CreateLock(p: ProcId)
    | CreateFails(p: ProcId)
    | CreateErrs(p: ProcId)
    | Examine(p: ProcId)
    | BreakLock(p: ProcId)
    | GiveUp(p: ProcId)
    | Probe(p: ProcId)
    | Spawn(p: ProcId)
    | SpawnErrs(p: ProcId)
    | Look(p: ProcId)
    | TimeOut(p: ProcId)
    | DropLock(p: ProcId)
    | Crash(p: ProcId)
    | Tick(elapsed: nat)
    | DaemonUp
    | DaemonFails
    | ProxyStops

  // ---------------------------------------------------------------------------
  // Steps
  // ---------------------------------------------------------------------------

  predicate Inside(pc: Pc) {
    pc.Entered? || pc.FoundNone? || pc.Waiting? || pc.Leaving?
  }

  predicate Holder(s: State, p: ProcId) {
    p in s.procs && Inside(s.procs[p])
  }

  predicate Enabled(s: State, a: Action) {
    match a
    case Start(p) => p in s.procs && (s.procs[p].Idle? || s.procs[p].Finished?)
    case CreateLock(p) => p in s.procs && s.procs[p].Trying? && s.procs[p].left > 0 && s.lock.None?
    case CreateFails(p) => p in s.procs && s.procs[p].Trying? && s.procs[p].left > 0 && s.lock.Some?
    case CreateErrs(p) => p in s.procs && s.procs[p].Trying? && s.procs[p].left > 0
    case Examine(p) => p in s.procs && s.procs[p].Examining? && s.procs[p].left > 0
    case BreakLock(p) => p in s.procs && s.procs[p].Breaking? && s.procs[p].left > 0
    case GiveUp(p) => p in s.procs && s.procs[p].Trying? && s.procs[p].left == 0
    case Probe(p) => p in s.procs && s.procs[p].Entered?
    case Spawn(p) => p in s.procs && s.procs[p].FoundNone?
    case SpawnErrs(p) => p in s.procs && s.procs[p].FoundNone?
    case Look(p) => p in s.procs && s.procs[p].Waiting? && s.procs[p].left > 0
    case TimeOut(p) => p in s.procs && s.procs[p].Waiting? && s.procs[p].left == 0
    case DropLock(p) => p in s.procs && s.procs[p].Leaving?
    case Crash(p) => p in s.procs
    case Tick(_) => true
    case DaemonUp => s.booting > 0
    case DaemonFails => s.booting > 0
    case ProxyStops => s.answering
  }

  function Goto(s: State, p: ProcId, pc: Pc): State {
    s.(procs := s.procs[p := pc])
  }

  predicate Stale(s: State) {
    s.lock.Some? && s.now - s.lock.value > STARTUP_LOCK_STALE_THRESHOLD_MS
  }

  /** The effect of one step. A daemon that comes up while another proxy holds the port cannot bind it and ends. */
  function Apply(s: State, a: Action): State
    requires Enabled(s, a)
  {
    match a
    case Start(p) => Goto(s, p, Trying(STARTUP_LOCK_MAX_RETRIES))
    case CreateLock(p) => Goto(s, p, Entered).(lock := Some(s.now))
    case CreateFails(p) => Goto(s, p, Examining(s.procs[p].left))
    case CreateErrs(p) => Goto(s, p, Finished(LockError))
    case Examine(p) =>
      Goto(s, p, if Stale(s) then Breaking(s.procs[p].left) else Trying(s.procs[p].left - 1))
    case BreakLock(p) => Goto(s, p, Trying(s.procs[p].left - 1)).(lock := None)
    case GiveUp(p) => Goto(s, p, Finished(LockTimeout))
    case Probe(p) => Goto(s, p, if s.answering then Leaving(WasRunning) else FoundNone)
    case Spawn(p) => Goto(s, p, Waiting(WAIT_ATTEMPTS)).(booting := s.booting + 1, spawned := s.spawned + 1)
    case SpawnErrs(p) => Goto(s, p, Leaving(NotStarted))
    case Look(p) =>
      if s.answering then Goto(s, p, Leaving(Started)).(started := s.started + 1)
      else Goto(s, p, Waiting(s.procs[p].left - 1))
    case TimeOut(p) => Goto(s, p, Leaving(NotStarted)).(lostWaits := s.lostWaits + 1)
    case DropLock(p) => Goto(s, p, Finished(s.procs[p].answer)).(lock := None)
    case Crash(p) => Goto(s, p, Crashed).(lostWaits := s.lostWaits + if s.procs[p].Waiting? then 1 else 0)
    case Tick(elapsed) => s.(now := s.now + elapsed)
    case DaemonUp => s.(booting := s.booting - 1, answering := true)
    case DaemonFails => s.(booting := s.booting - 1)
    case ProxyStops => s.(answering := false, stops := s.stops + 1)
  }

  predicate Initial(s: State) {
    && s.lock.None? && s.booting == 0 && s.spawned == 0 && s.started == 0 && s.stops == 0 && s.lostWaits == 0
    && forall p <- s.procs :: s.procs[p].Idle?
  }

  ghost predicate IsRun(s: State, run: seq<Action>)
    decreases |run|
  {
    run != [] ==> Enabled(s, run[0]) && IsRun(Apply(s, run[0]), run[1..])
  }

  ghost function After(s: State, run: seq<Action>): State
    requires IsRun(s, run)
    decreases |run|
  {
    if run == [] then s else After(Apply(s, run[0]), run[1..])
  }

  // ---------------------------------------------------------------------------
  // The lock
  // ---------------------------------------------------------------------------

  function StageOf(pc: Pc): Lock.Stage {
    match pc
    case Trying(left) => Lock.Trying(left)
    case Examining(left) => Lock.Examining(left)
    case Breaking(left) => Lock.Breaking(left)
    case _ => if Inside(pc) then Lock.Inside else Lock.Outside
  }

  /** What the lock directory's own machine sees of a state. */
  function View(s: State): Lock.State {
    Lock.State(s.now, s.lock, map p | p in s.procs :: StageOf(s.procs[p]))
  }

  function Visible(a: Action): Lock.Action {
    match a
    case Start(p) => Lock.Start(p)
    case CreateLock(p) => Lock.Create(p)
    case CreateFails(p) => Lock.CreateFails(p)
    case CreateErrs(p) => Lock.CreateErrs(p)
    case Examine(p) => Lock.Examine(p)
    case BreakLock(p) => Lock.Break(p)
    case GiveUp(p) => Lock.GiveUp(p)
    case DropLock(p) => Lock.Drop(p)
    case Crash(p) => Lock.Crash(p)
    case Tick(elapsed) => Lock.Tick(elapsed)
    case _ => Lock.Work
  }

  function VisibleRun(run: seq<Action>): seq<Lock.Action> {
    if run == [] then [] else [Visible(run[0])] + VisibleRun(run[1..])
  }

  lemma ViewGoto(s: State, p: ProcId, pc: Pc)
    requires p in s.procs
    ensures View(Goto(s, p, pc)) == Lock.Goto(View(s), p, StageOf(pc))
  {
    assert View(Goto(s, p, pc)).stages == View(s).stages[p := StageOf(pc)];
  }

  lemma WorkRefines(s: State, a: Action)
    requires Enabled(s, a) && Visible(a).Work?
    ensures View(Apply(s, a)) == View(s)
  {
    if !(a.DaemonUp? || a.DaemonFails? || a.ProxyStops?) {
      ViewGoto(s, a.p, Apply(s, a).procs[a.p]);
      assert View(s).stages[a.p := StageOf(s.procs[a.p])] == View(s).stages;
    }
  }

  /** Every step is one of the lock directory's machine. */
  lemma StepRefines(s: State, a: Action)
    requires Enabled(s, a)
    ensures Lock.Enabled(View(s), Visible(a))
    ensures View(Apply(s, a)) == Lock.Apply(View(s), Visible(a), LIMITS)
  {
    if Visible(a).Work? {
      WorkRefines(s, a);
    } else if !a.Tick? {
      ViewGoto(s, a.p, Apply(s, a).procs[a.p]);
    }
  }

  lemma {:induction false} RunRefines(s: State, run: seq<Action>)
    requires IsRun(s, run)
    ensures Lock.IsRun(View(s), VisibleRun(run), LIMITS)
    ensures Lock.After(View(s), VisibleRun(run), LIMITS) == View(After(s, run))
    decreases |run|
  {
    if run != [] {
      StepRefines(s, run[0]);
      RunRefines(Apply(s, run[0]), run[1..]);
      assert VisibleRun(run)[1..] == VisibleRun(run[1..]);
    }
  }

  ghost predicate LockInv(s: State) {
    Lock.LockInv(View(s))
  }

  ghost predicate AtMostOneInside(s: State) {
    forall p, q | Holder(s, p) && Holder(s, q) :: p == q
  }

  lemma LockInvMeans(s: State)
    ensures LockInv(s) <==> AtMostOneInside(s) && forall p | Holder(s, p) :: s.lock.Some?
  {
    assert forall p :: Lock.Holder(View(s), p) <==> Holder(s, p);
  }

  /** No held lock is broken in the run. */
  ghost predicate SafeRun(s: State, run: seq<Action>)
    requires IsRun(s, run)
  {
    RunRefines(s, run);
    Lock.SafeRun(View(s), VisibleRun(run), LIMITS)
  }

  lemma SafeRunSteps(s: State, run: seq<Action>)
    requires LockInv(s) && IsRun(s, run) && SafeRun(s, run) && run != []
    ensures LockInv(Apply(s, run[0])) && SafeRun(Apply(s, run[0]), run[1..])
  {
    RunRefines(s, run);
    StepRefines(s, run[0]);
    assert VisibleRun(run)[1..] == VisibleRun(run[1..]);
    Lock.StepKeepsLockInvExactly(View(s), Visible(run[0]), LIMITS);
  }

  /** From the start, mutual exclusion under cover of the lock holds throughout a run exactly when no held lock is
      broken in it; and none is if the lock never gets older than fifteen seconds. */
  lemma MutualExclusionExactly(s: State, run: seq<Action>)
    requires Initial(s) && IsRun(s, run)
    ensures Lock.IsRun(View(s), VisibleRun(run), LIMITS)
    ensures Lock.AlwaysLockInv(View(s), VisibleRun(run), LIMITS) <==> SafeRun(s, run)
    ensures Lock.NeverStale(View(s), VisibleRun(run), LIMITS) ==> SafeRun(s, run)
  {
    RunRefines(s, run);
    LockInvMeans(s);
    Lock.DisciplineKeptExactly(View(s), VisibleRun(run), LIMITS);
    if Lock.NeverStale(View(s), VisibleRun(run), LIMITS) {
      Lock.NeverStaleIsSafe(View(s), VisibleRun(run), LIMITS);
    }
  }

  // ---------------------------------------------------------------------------
  // Spawning
  // ---------------------------------------------------------------------------

  function Setbacks(s: State): nat {
    s.stops + s.lostWaits
  }

  ghost predicate SomeoneWaits(s: State) {
    exists p :: p in s.procs && s.procs[p].Waiting?
  }

  /** Every setback excuses one spawn, and one more is excused by a proxy that answers or is waited for. Whoever found
      none is entitled to the next. */
  ghost predicate SpawnInv(s: State) {
    && s.spawned <= Setbacks(s) + (if s.answering || SomeoneWaits(s) then 1 else 0)
    && (forall p <- s.procs | s.procs[p].FoundNone? :: s.spawned <= Setbacks(s))
  }

  lemma AloneInside(s: State, p: ProcId)
    requires AtMostOneInside(s) && Holder(s, p) && !s.procs[p].Waiting?
    ensures !SomeoneWaits(s) && forall q <- s.procs | s.procs[q].FoundNone? :: q == p
  {
    forall q | q in s.procs && (s.procs[q].Waiting? || s.procs[q].FoundNone?) ensures q == p {
      assert Holder(s, q);
    }
  }

  lemma StepKeepsSpawnInv(s: State, a: Action)
    requires AtMostOneInside(s) && SpawnInv(s) && Enabled(s, a)
    ensures SpawnInv(Apply(s, a))
  {
    var t := Apply(s, a);
    if a.Probe? || a.Spawn? {
      AloneInside(s, a.p);
      assert a.Spawn? ==> t.procs[a.p].Waiting?;
    } else if SomeoneWaits(s) {
      var p :| p in s.procs && s.procs[p].Waiting?;
      assert t.lostWaits > s.lostWaits || t.answering || t.stops > s.stops || (p in t.procs && t.procs[p].Waiting?);
    }
  }

  /** Every spawn ends in one report of having started the proxy, in a lost wait, or is still waited for. */
  ghost predicate SpawnsConserved(s: State) {
    s.spawned == s.started + s.lostWaits + if SomeoneWaits(s) then 1 else 0
  }

  lemma StepConservesSpawns(s: State, a: Action)
    requires AtMostOneInside(s) && SpawnsConserved(s) && Enabled(s, a)
    ensures SpawnsConserved(Apply(s, a))
  {
    var t := Apply(s, a);
    if a.Spawn? {
      AloneInside(s, a.p);
      assert t.procs[a.p].Waiting?;
    } else if SomeoneWaits(s) {
      var p :| p in s.procs && s.procs[p].Waiting?;
      forall q | q in s.procs && s.procs[q].Waiting? ensures q == p {
        assert Holder(s, p) && Holder(s, q);
      }
      assert SomeoneWaits(t) <==> t.procs[p].Waiting?;
    }
  }

  /** Over every run in which no held lock is broken, however many commands take part: proxies are spawned at most once
      more than there were setbacks, that is proxies stopped and waits given up. */
  lemma {:induction false} SpawnsAccounted(s: State, run: seq<Action>)
    requires LockInv(s) && SpawnInv(s) && SpawnsConserved(s) && IsRun(s, run) && SafeRun(s, run)
    ensures LockInv(After(s, run)) && SpawnInv(After(s, run)) && SpawnsConserved(After(s, run))
    decreases |run|
  {
    if run != [] {
      LockInvMeans(s);
      StepKeepsSpawnInv(s, run[0]);
      StepConservesSpawns(s, run[0]);
      SafeRunSteps(s, run);
      SpawnsAccounted(Apply(s, run[0]), run[1..]);
    }
  }

  /** So as long as nothing goes wrong only one proxy is ever spawned, and none if one was running. */
  lemma AtMostOneSpawner(s: State, run: seq<Action>)
    requires Initial(s) && IsRun(s, run) && SafeRun(s, run)
    ensures After(s, run).spawned <= Setbacks(After(s, run)) + 1
    ensures s.answering && After(s, run).stops == 0 ==> After(s, run).spawned == 0
  {
    LockInvMeans(s);
    SpawnsAccounted(s, run);
    if s.answering { RunningStays(s, run); }
  }

  predicate Unneeded(s: State) {
    s.stops == 0 ==> s.answering && s.spawned == 0 && forall p <- s.procs :: !s.procs[p].FoundNone?
  }

  lemma {:induction false} RunningStays(s: State, run: seq<Action>)
    requires Unneeded(s) && IsRun(s, run)
    ensures Unneeded(After(s, run))
    decreases |run|
  {
    if run != [] { RunningStays(Apply(s, run[0]), run[1..]); }
  }

  /** What commands are told adds up: whoever is told that it started the proxy has spawned one that was not lost, so at
      most one more are told so than proxies were stopped, and however it succeeded, a proxy answers until one is. */
  lemma ReportsAddUp(s: State, run: seq<Action>)
    requires Initial(s) && IsRun(s, run) && SafeRun(s, run)
    ensures var t := After(s, run);
            && t.spawned == t.started + t.lostWaits + (if SomeoneWaits(t) then 1 else 0)
            && t.started <= t.stops + 1
            && (t.stops == 0 ==> forall p <- t.procs | Succeeded(t.procs[p]) :: t.answering)
  {
    LockInvMeans(s);
    SpawnsAccounted(s, run);
    SuccessMeansRunning(s, run);
    var t := After(s, run);
    if SomeoneWaits(t) { assert t.started + t.lostWaits + 1 <= t.stops + t.lostWaits + 1; }
  }

  predicate Succeeded(pc: Pc) {
    (pc.Leaving? || pc.Finished?) && (pc.answer == Started || pc.answer == WasRunning)
  }

  ghost predicate SuccessTold(s: State) {
    s.stops == 0 ==> forall p <- s.procs | Succeeded(s.procs[p]) :: s.answering
  }

  lemma {:induction false} SuccessMeansRunning(s: State, run: seq<Action>)
    requires SuccessTold(s) && IsRun(s, run)
    ensures SuccessTold(After(s, run))
    decreases |run|
  {
    if run != [] {
      var t := Apply(s, run[0]);
      forall p | p in t.procs && Succeeded(t.procs[p]) && t.stops == 0 ensures t.answering {
        assert p in s.procs && (Succeeded(s.procs[p]) || s.answering);
      }
      SuccessMeansRunning(t, run[1..]);
    }
  }

  // ---------------------------------------------------------------------------
  // With a broken lock
  // ---------------------------------------------------------------------------

  lemma Prepend(s: State, a: Action, rest: seq<Action>, end: State)
    requires Enabled(s, a) && IsRun(Apply(s, a), rest) && After(Apply(s, a), rest) == end
    ensures IsRun(s, [a] + rest) && After(s, [a] + rest) == end
  {
    assert ([a] + rest)[1..] == rest;
  }

  function Two(first: Pc, second: Pc): map<ProcId, Pc> {
    map[1 := first, 2 := second]
  }

  /** Command 1 has looked and is then suspended for fifteen seconds. */
  function SuspendedLooker(): State {
    State(15_001, Some(0), Two(FoundNone, Idle), false, 0, 0, 0, 0, 0)
  }

  /** Command 2 has taken the lock for stale. */
  function BothEntitled(): State {
    State(15_001, Some(15_001), Two(FoundNone, Entered), false, 0, 0, 0, 0, 0)
  }

  lemma TakesOver(rest: seq<Action>, end: State) returns (run: seq<Action>)
    requires IsRun(BothEntitled(), rest) && After(BothEntitled(), rest) == end
    ensures IsRun(SuspendedLooker(), run) && After(SuspendedLooker(), run) == end
  {
    var s0 := SuspendedLooker();
    var s1 := s0.(procs := Two(FoundNone, Trying(50)));
    var s2 := s0.(procs := Two(FoundNone, Examining(50)));
    var s3 := s0.(procs := Two(FoundNone, Breaking(50)));
    var s4 := s0.(procs := Two(FoundNone, Trying(49)), lock := None);
    assert Apply(s0, Start(2)) == s1 && Apply(s1, CreateFails(2)) == s2 && Apply(s2, Examine(2)) == s3;
    assert Apply(s3, BreakLock(2)) == s4 && Apply(s4, CreateLock(2)) == BothEntitled();
    Prepend(s4, CreateLock(2), rest, end);
    run := [CreateLock(2)] + rest;
    Prepend(s3, BreakLock(2), run, end);
    run := [BreakLock(2)] + run;
    Prepend(s2, Examine(2), run, end);
    run := [Examine(2)] + run;
    Prepend(s1, CreateFails(2), run, end);
    run := [CreateFails(2)] + run;
    Prepend(s0, Start(2), run, end);
    run := [Start(2)] + run;
  }

  lemma BothSpawn() returns (run: seq<Action>)
    ensures IsRun(BothEntitled(), run)
    ensures After(BothEntitled(), run).spawned == 2 && Setbacks(After(BothEntitled(), run)) == 0
  {
    var s0 := BothEntitled();
    var s1 := s0.(procs := Two(FoundNone, FoundNone));
    var s2 := s0.(procs := Two(FoundNone, Waiting(20)), booting := 1, spawned := 1);
    var s3 := s0.(procs := Two(Waiting(20), Waiting(20)), booting := 2, spawned := 2);
    assert Apply(s0, Probe(2)) == s1 && Apply(s1, Spawn(2)) == s2 && Apply(s2, Spawn(1)) == s3;
    run := [];
    Prepend(s2, Spawn(1), run, s3);
    run := [Spawn(1)] + run;
    Prepend(s1, Spawn(2), run, s3);
    run := [Spawn(2)] + run;
    Prepend(s0, Probe(2), run, s3);
    run := [Probe(2)] + run;
  }

  /** A command that is suspended for more than fifteen seconds between looking and spawning: two proxies are spawned
      although nothing was stopped and no wait was given up. */
  lemma StaleBreakSpawnsTwice() returns (s: State, run: seq<Action>)
    ensures Initial(s) && IsRun(s, run)
    ensures After(s, run).spawned == 2 && Setbacks(After(s, run)) == 0
  {
    s := State(0, None, Two(Idle, Idle), false, 0, 0, 0, 0, 0);
    var s1 := s.(procs := Two(Trying(50), Idle));
    var s2 := s.(procs := Two(Entered, Idle), lock := Some(0));
    var s3 := s2.(procs := Two(FoundNone, Idle));
    assert Apply(s, Start(1)) == s1 && Apply(s1, CreateLock(1)) == s2 && Apply(s2, Probe(1)) == s3;
    assert Apply(s3, Tick(15_001)) == SuspendedLooker();
    run := BothSpawn();
    var end := After(BothEntitled(), run);
    run := TakesOver(run, end);
    Prepend(s3, Tick(15_001), run, end);
    run := [Tick(15_001)] + run;
    Prepend(s2, Probe(1), run, end);
    run := [Probe(1)] + run;
    Prepend(s1, CreateLock(1), run, end);
    run := [CreateLock(1)] + run;
    Prepend(s, Start(1), run, end);
    run := [Start(1)] + run;
  }
}
