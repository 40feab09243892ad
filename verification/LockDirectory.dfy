/** A lock that is a directory, broken when it looks stale, as a step machine: what the route lock and the startup lock
    have in common. What a process does while it is inside is left to the machines built on this one. */
module LockDirectory {
  import opened Text

  type ProcId = nat

  datatype Stage = Outside | Trying(left: nat) | Examining(left: nat) | Breaking(left: nat) | Inside

  /** `lock` holds the creation time of the directory. */
  datatype State = State(now: nat, lock: Option<nat>, stages: map<ProcId, Stage>)

  datatype Limits = Limits(retries: nat, staleAfter: nat)

  datatype Action =
    | Start(p: ProcId)
    | Create(p: ProcId)
    | CreateFails(p: ProcId)
    | CreateErrs(p: ProcId)
    | Examine(p: ProcId)
    | Break(p: ProcId)
    | GiveUp(p: ProcId)
    | Drop(p: ProcId)
    | Crash(p: ProcId)
    | Tick(elapsed: nat)
    | Work

  predicate At(s: State, p: ProcId) {
    p in s.stages
  }

  predicate Enabled(s: State, a: Action) {
    match a
    case Start(p) => At(s, p) && s.stages[p].Outside?
    case Create(p) => At(s, p) && s.stages[p].Trying? && s.stages[p].left > 0 && s.lock.None?
    case CreateFails(p) => At(s, p) && s.stages[p].Trying? && s.stages[p].left > 0 && s.lock.Some?
    case CreateErrs(p) => At(s, p) && s.stages[p].Trying? && s.stages[p].left > 0
    case Examine(p) => At(s, p) && s.stages[p].Examining? && s.stages[p].left > 0
    case Break(p) => At(s, p) && s.stages[p].Breaking? && s.stages[p].left > 0
    case GiveUp(p) => At(s, p) && s.stages[p].Trying? && s.stages[p].left == 0
    case Drop(p) => At(s, p) && s.stages[p].Inside?
    case Crash(p) => At(s, p)
    case Tick(_) => true
    case Work => true
  }

  function Goto(s: State, p: ProcId, stage: Stage): State {
    s.(stages := s.stages[p := stage])
  }

  predicate Stale(s: State, limits: Limits) {
    s.lock.Some? && s.now - s.lock.value > limits.staleAfter
  }

  /** The effect of one step. Breaking a stale lock is a look followed, some steps later, by a removal of whatever
      directory is there by then; dropping the guard also removes whatever is there. */
  function Apply(s: State, a: Action, limits: Limits): State
    requires Enabled(s, a)
  {
    match a
    case Start(p) => Goto(s, p, Trying(limits.retries))
    case Create(p) => Goto(s, p, Inside).(lock := Some(s.now))
    case CreateFails(p) => Goto(s, p, Examining(s.stages[p].left))
    case CreateErrs(p) => Goto(s, p, Outside)
    case Examine(p) =>
      Goto(s, p, if Stale(s, limits) then Breaking(s.stages[p].left) else Trying(s.stages[p].left - 1))
    case Break(p) => Goto(s, p, Trying(s.stages[p].left - 1)).(lock := None)
    case GiveUp(p) => Goto(s, p, Outside)
    case Drop(p) => Goto(s, p, Outside).(lock := None)
    case Crash(p) => Goto(s, p, Outside)
    case Tick(elapsed) => s.(now := s.now + elapsed)
    case Work => s
  }

  predicate Initial(s: State) {
    s.lock.None? && forall p <- s.stages :: s.stages[p].Outside?
  }

  // ---------------------------------------------------------------------------
  // Runs
  // ---------------------------------------------------------------------------

  ghost predicate IsRun(s: State, run: seq<Action>, limits: Limits)
    decreases |run|
  {
    run != [] ==> Enabled(s, run[0]) && IsRun(Apply(s, run[0], limits), run[1..], limits)
  }

  ghost function After(s: State, run: seq<Action>, limits: Limits): State
    requires IsRun(s, run, limits)
    decreases |run|
  {
    if run == [] then s else After(Apply(s, run[0], limits), run[1..], limits)
  }

  predicate Holder(s: State, p: ProcId) {
    p in s.stages && s.stages[p].Inside?
  }

  /** Nobody removes the directory as stale while a process is inside. */
  predicate SafeStep(s: State, a: Action) {
    a.Break? ==> forall p <- s.stages :: !Holder(s, p)
  }

  ghost predicate SafeRun(s: State, run: seq<Action>, limits: Limits)
    requires IsRun(s, run, limits)
    decreases |run|
  {
    run != [] ==> SafeStep(s, run[0]) && SafeRun(Apply(s, run[0], limits), run[1..], limits)
  }

  // ---------------------------------------------------------------------------
  // The lock discipline
  // ---------------------------------------------------------------------------

  ghost predicate AtMostOneInside(s: State) {
    forall p, q | Holder(s, p) && Holder(s, q) :: p == q
  }

  /** One process inside at most, and under cover of the directory. */
  ghost predicate LockInv(s: State) {
    && AtMostOneInside(s)
    && (forall p | Holder(s, p) :: s.lock.Some?)
  }

  /** Of all steps, exactly the removal of a lock somebody still holds breaks the lock discipline; crashes, dead
      holders and races between breakers are covered. */
  lemma StepKeepsLockInvExactly(s: State, a: Action, limits: Limits)
    requires LockInv(s) && Enabled(s, a)
    ensures LockInv(Apply(s, a, limits)) <==> SafeStep(s, a)
  {
    var t := Apply(s, a, limits);
    if SafeStep(s, a) {
      forall p, q | Holder(t, p) && Holder(t, q) ensures p == q && t.lock.Some? {
        if a.Create? {
          assert !Holder(s, p) && !Holder(s, q);
        } else {
          assert Holder(s, p) && Holder(s, q);
          assert a.Drop? ==> Holder(s, a.p);
        }
      }
    } else {
      var p :| p in s.stages && Holder(s, p);
      assert Holder(t, p) && t.lock.None?;
    }
  }

  ghost predicate AlwaysLockInv(s: State, run: seq<Action>, limits: Limits)
    requires IsRun(s, run, limits)
    decreases |run|
  {
    LockInv(s) && (run != [] ==> AlwaysLockInv(Apply(s, run[0], limits), run[1..], limits))
  }

  /** The discipline holds throughout a run exactly when no held lock is broken in it. */
  lemma {:induction false} DisciplineKeptExactly(s: State, run: seq<Action>, limits: Limits)
    requires LockInv(s) && IsRun(s, run, limits)
    ensures AlwaysLockInv(s, run, limits) <==> SafeRun(s, run, limits)
    ensures SafeRun(s, run, limits) ==> LockInv(After(s, run, limits))
    decreases |run|
  {
    if run != [] {
      StepKeepsLockInvExactly(s, run[0], limits);
      var next := Apply(s, run[0], limits);
      if LockInv(next) {
        DisciplineKeptExactly(next, run[1..], limits);
      } else {
        assert !AlwaysLockInv(next, run[1..], limits);
      }
    }
  }

  // ---------------------------------------------------------------------------
  // Staleness
  // ---------------------------------------------------------------------------

  /** The directory is never older than the threshold, in any state of the run. */
  ghost predicate NeverStale(s: State, run: seq<Action>, limits: Limits)
    requires IsRun(s, run, limits)
    decreases |run|
  {
    !Stale(s, limits) && (run != [] ==> NeverStale(Apply(s, run[0], limits), run[1..], limits))
  }

  ghost predicate NobodyBreaking(s: State) {
    forall p <- s.stages :: !s.stages[p].Breaking?
  }

  /** Then nobody breaks it, so the run is safe. */
  lemma {:induction false} NeverStaleIsSafe(s: State, run: seq<Action>, limits: Limits)
    requires IsRun(s, run, limits) && NeverStale(s, run, limits) && NobodyBreaking(s)
    ensures SafeRun(s, run, limits)
    decreases |run|
  {
    if run != [] {
      assert NobodyBreaking(Apply(s, run[0], limits));
      NeverStaleIsSafe(Apply(s, run[0], limits), run[1..], limits);
    }
  }

  ghost predicate SomeoneInside(s: State) {
    exists p :: Holder(s, p)
  }

  /** Nobody who is inside stays there for longer than the threshold. */
  ghost predicate ShortHolds(s: State, run: seq<Action>, limits: Limits)
    requires IsRun(s, run, limits)
    decreases |run|
  {
    && (SomeoneInside(s) ==> !Stale(s, limits))
    && (run != [] ==> ShortHolds(Apply(s, run[0], limits), run[1..], limits))
  }

  ghost predicate NoCrashInside(s: State, run: seq<Action>, limits: Limits)
    requires IsRun(s, run, limits)
    decreases |run|
  {
    run != [] ==>
      && (run[0].Crash? ==> !Holder(s, run[0].p))
      && NoCrashInside(Apply(s, run[0], limits), run[1..], limits)
  }

  ghost predicate LockIsHeld(s: State) {
    LockInv(s) && NobodyBreaking(s) && (s.lock.Some? ==> SomeoneInside(s))
  }

  /** As long as nobody crashes inside, the directory never goes stale exactly when everybody leaves in time. */
  lemma {:induction false} NeverStaleExactly(s: State, run: seq<Action>, limits: Limits)
    requires LockIsHeld(s) && IsRun(s, run, limits) && NoCrashInside(s, run, limits)
    ensures NeverStale(s, run, limits) <==> ShortHolds(s, run, limits)
    decreases |run|
  {
    if run != [] && !Stale(s, limits) {
      StepKeepsHeld(s, run[0], limits);
      NeverStaleExactly(Apply(s, run[0], limits), run[1..], limits);
    }
  }

  lemma StepKeepsHeld(s: State, a: Action, limits: Limits)
    requires LockIsHeld(s) && Enabled(s, a) && !Stale(s, limits) && (a.Crash? ==> !Holder(s, a.p))
    ensures LockIsHeld(Apply(s, a, limits))
  {
    StepKeepsLockInvExactly(s, a, limits);
    var t := Apply(s, a, limits);
    if a.Create? {
      assert Holder(t, a.p);
    } else if t.lock.Some? {
      var p :| Holder(s, p);
      assert Holder(t, p);
    }
  }

  // ---------------------------------------------------------------------------
  // Two breakers
  // ---------------------------------------------------------------------------

  lemma PrependShort(s: State, a: Action, rest: seq<Action>, end: State, limits: Limits)
    requires Enabled(s, a) && (SomeoneInside(s) ==> !Stale(s, limits))
    requires IsRun(Apply(s, a, limits), rest, limits) && ShortHolds(Apply(s, a, limits), rest, limits)
    requires After(Apply(s, a, limits), rest, limits) == end
    ensures IsRun(s, [a] + rest, limits) && ShortHolds(s, [a] + rest, limits)
    ensures After(s, [a] + rest, limits) == end
  {
    assert ([a] + rest)[1..] == rest;
  }

  function Three(now: nat, lock: Option<nat>, first: Stage, second: Stage, third: Stage): State {
    State(now, lock, map[1 := first, 2 := second, 3 := third])
  }

  lemma GotoTwice(s: State, p: ProcId, first: Stage, second: Stage)
    requires At(s, p)
    ensures Goto(Goto(s, p, first), p, second) == Goto(s, p, second)
    ensures !SomeoneInside(s) && !first.Inside? ==> !SomeoneInside(Goto(s, p, first))
  {
    assert forall q :: q != p && Holder(Goto(s, p, first), q) ==> Holder(s, q);
  }

  lemma StartPrepended(s: State, p: ProcId, k: nat, rest: seq<Action>, end: State, limits: Limits)
    returns (run: seq<Action>)
    requires At(s, p) && s.stages[p].Outside? && k == limits.retries
    requires (SomeoneInside(s) ==> !Stale(s, limits)) && Leads(Goto(s, p, Trying(k)), rest, end, limits)
    ensures Leads(s, run, end, limits)
  {
    PrependShort(s, Start(p), rest, end, limits);
    run := [Start(p)] + rest;
  }

  /** `run` leads from `s` to `end` without any hold that is too long. */
  ghost predicate Leads(s: State, run: seq<Action>, end: State, limits: Limits) {
    IsRun(s, run, limits) && ShortHolds(s, run, limits) && After(s, run, limits) == end
  }

  /** Two processes have both seen that the lock of a crashed one is stale. The faster one breaks it and takes it; the
      slower one then breaks the fresh lock and takes that. */
  lemma BreakersCollide(n: nat, limits: Limits) returns (run: seq<Action>)
    requires limits.retries >= 2 && n == limits.staleAfter + 1
    ensures Leads(Three(n, Some(0), Breaking(limits.retries), Breaking(limits.retries), Outside), run,
                  Three(n, Some(n), Inside, Inside, Outside), limits)
  {
    var k := limits.retries;
    var s0 := Three(n, Some(0), Breaking(k), Breaking(k), Outside);
    var s1 := Three(n, None, Trying(k - 1), Breaking(k), Outside);
    var s2 := Three(n, Some(n), Inside, Breaking(k), Outside);
    var end := Three(n, Some(n), Inside, Inside, Outside);
    run := SlowerBreaks(n, limits);
    assert Apply(s0, Break(1), limits) == s1 && Apply(s1, Create(1), limits) == s2;
    PrependShort(s1, Create(1), run, end, limits);
    run := [Create(1)] + run;
    PrependShort(s0, Break(1), run, end, limits);
    run := [Break(1)] + run;
  }

  lemma SlowerBreaks(n: nat, limits: Limits) returns (run: seq<Action>)
    requires limits.retries >= 2
    ensures Leads(Three(n, Some(n), Inside, Breaking(limits.retries), Outside), run,
                  Three(n, Some(n), Inside, Inside, Outside), limits)
  {
    var k := limits.retries;
    var s0 := Three(n, Some(n), Inside, Breaking(k), Outside);
    var s1 := Three(n, None, Inside, Trying(k - 1), Outside);
    var end := Three(n, Some(n), Inside, Inside, Outside);
    assert Apply(s0, Break(2), limits) == s1 && Apply(s1, Create(2), limits) == end;
    run := [];
    PrependShort(s1, Create(2), run, end, limits);
    run := [Create(2)] + run;
    PrependShort(s0, Break(2), run, end, limits);
    run := [Break(2)] + run;
  }

  lemma BothSeeStale(n: nat, rest: seq<Action>, end: State, limits: Limits) returns (run: seq<Action>)
    requires limits.retries >= 2 && n == limits.staleAfter + 1
    requires Leads(Three(n, Some(0), Breaking(limits.retries), Breaking(limits.retries), Outside), rest, end, limits)
    ensures Leads(Three(n, Some(0), Outside, Outside, Outside), run, end, limits)
  {
    var none := Three(n, Some(0), Outside, Outside, Outside);
    var one := Three(n, Some(0), Breaking(limits.retries), Outside, Outside);
    assert Goto(none, 1, Breaking(limits.retries)) == one;
    assert Goto(one, 2, Breaking(limits.retries))
        == Three(n, Some(0), Breaking(limits.retries), Breaking(limits.retries), Outside);
    run := SeesStale(one, 2, rest, end, limits);
    run := SeesStale(none, 1, run, end, limits);
  }

  /** Without any hold that is too long, a crash inside is enough to let two processes in. */
  lemma CrashLetsTwoIn(limits: Limits) returns (s: State, run: seq<Action>)
    requires limits.retries >= 2
    ensures Initial(s) && IsRun(s, run, limits) && ShortHolds(s, run, limits)
    ensures !AtMostOneInside(After(s, run, limits))
  {
    var k, n := limits.retries, limits.staleAfter + 1;
    s := Three(0, None, Outside, Outside, Outside);
    var end := Three(n, Some(n), Inside, Inside, Outside);
    assert Holder(end, 1) && Holder(end, 2);
    run := BreakersCollide(n, limits);
    run := BothSeeStale(n, run, end, limits);
    var s1 := Three(0, None, Outside, Outside, Trying(k));
    var s2 := Three(0, Some(0), Outside, Outside, Inside);
    var s3 := Three(0, Some(0), Outside, Outside, Outside);
    assert Goto(s, 3, Trying(k)) == s1 && Apply(s1, Create(3), limits) == s2 && Apply(s2, Crash(3), limits) == s3;
    assert Apply(s3, Tick(n), limits) == s3.(now := n);
    PrependShort(s3, Tick(n), run, end, limits);
    run := [Tick(n)] + run;
    PrependShort(s2, Crash(3), run, end, limits);
    run := [Crash(3)] + run;
    PrependShort(s1, Create(3), run, end, limits);
    run := [Create(3)] + run;
    run := StartPrepended(s, 3, k, run, end, limits);
  }

  /** Before it breaks a stale lock nobody is under, a process starts, fails and looks. */
  lemma SeesStale(s: State, p: ProcId, rest: seq<Action>, end: State, limits: Limits) returns (run: seq<Action>)
    requires At(s, p) && s.stages[p].Outside? && Stale(s, limits) && !SomeoneInside(s) && limits.retries > 0
    requires Leads(Goto(s, p, Breaking(limits.retries)), rest, end, limits)
    ensures Leads(s, run, end, limits)
  {
    var k := limits.retries;
    var trying, examining := Goto(s, p, Trying(k)), Goto(s, p, Examining(k));
    GotoTwice(s, p, Trying(k), Examining(k));
    GotoTwice(s, p, Examining(k), Breaking(k));
    PrependShort(examining, Examine(p), rest, end, limits);
    run := [Examine(p)] + rest;
    PrependShort(trying, CreateFails(p), run, end, limits);
    run := [CreateFails(p)] + run;
    run := StartPrepended(s, p, k, run, end, limits);
  }
}
