/** The proxy's route cache and the task that keeps it in step with the file. */
module RoutePoller {
  import opened Text
  import opened Routes

  /** One state of `routes.json`: its modification time, if it exists, and what is in it. */
  datatype Version = Version(mtime: Option<nat>, file: RoutesFile)

  /** A file that cannot be read gives an empty cache. */
  function LoadOrEmpty(file: RoutesFile, live: set<nat>): seq<Route> {
    match Load(file, live)
    case Ok(routes) => routes
    case Err(_) => []
  }

  // ---------------------------------------------------------------------------
  // The task
  // ---------------------------------------------------------------------------

  class CachePoller {
    var cache: seq<Route>
    var lastMtime: Option<nat>

    /** The initial load and, later, the first look at the modification time. */
    constructor (loaded: RoutesFile, firstMtime: Option<nat>, live: set<nat>)
      ensures cache == LoadOrEmpty(loaded, live) && lastMtime == firstMtime
    {
      cache := LoadOrEmpty(loaded, live);
      lastMtime := firstMtime;
    }

    /** One round of the loop; `onDisk` is what the file holds by the time it is read. */
    method Poll(currentMtime: Option<nat>, onDisk: RoutesFile, live: set<nat>)
      modifies this
      ensures (cache, lastMtime) == Polled(old(cache), old(lastMtime), currentMtime, onDisk, live)
    {
      if currentMtime != lastMtime {
        var newRoutes := LoadOrEmpty(onDisk, live);
        cache := newRoutes;
        lastMtime := currentMtime;
      }
    }
  }

  /** What one round makes of the cache and of the remembered modification time. */
  function Polled(
    cache: seq<Route>, lastMtime: Option<nat>, currentMtime: Option<nat>, onDisk: RoutesFile, live: set<nat>)
    : (seq<Route>, Option<nat>)
  {
    if currentMtime == lastMtime then (cache, lastMtime) else (LoadOrEmpty(onDisk, live), currentMtime)
  }

  // ---------------------------------------------------------------------------
  // The task among writers
  // ---------------------------------------------------------------------------

  datatype Phase =
    | Unstarted
    | CacheFilled
    | Asleep(lastMtime: Option<nat>)
    | SawChange(lastMtime: Option<nat>, seen: Option<nat>)

  /** Where a cache comes from: which version of the file, and which processes were alive when it was loaded. */
  datatype Source = Source(version: nat, live: set<nat>)

  /** `versions` is the history of the file, the last one being current. `source`, and `seenAt` and `pendingAt` (which
      versions the two modification times belong to) are bookkeeping. */
  datatype State = State(
    versions: seq<Version>, phase: Phase, cache: seq<Route>, source: Source, seenAt: nat, pendingAt: nat)

  /** Processes live and die all the time: each load sees its own set of them. */
  datatype Action =
    | Write(version: Version)
    | InitialLoad(live: set<nat>)
    | FirstStat
    | Stat
    | Reload(live: set<nat>)

  function Current(s: State): nat
    requires s.versions != []
  {
    |s.versions| - 1
  }

  predicate Enabled(s: State, a: Action) {
    s.versions != []
    && match a
       case Write(_) => true
       case InitialLoad(_) => s.phase.Unstarted?
       case FirstStat => s.phase.CacheFilled?
       case Stat => s.phase.Asleep?
       case Reload(_) => s.phase.SawChange?
  }

  function Apply(s: State, a: Action): State
    requires Enabled(s, a)
  {
    var now := Current(s);
    match a
    case Write(version) => s.(versions := s.versions + [version])
    case InitialLoad(live) =>
      s.(phase := CacheFilled, cache := LoadOrEmpty(s.versions[now].file, live), source := Source(now, live))
    case FirstStat => s.(phase := Asleep(s.versions[now].mtime), seenAt := now)
    case Stat =>
      if s.versions[now].mtime != s.phase.lastMtime
      then s.(phase := SawChange(s.phase.lastMtime, s.versions[now].mtime), pendingAt := now)
      else s
    case Reload(live) =>
      s.(phase := Asleep(s.phase.seen), cache := LoadOrEmpty(s.versions[now].file, live), source := Source(now, live),
         seenAt := s.pendingAt)
  }

  ghost predicate IsRun(s: State, run: seq<Action>)
    decreases |run|
  {
    run != [] ==> Enabled(s, run[0]) && IsRun(Apply(s, run[0]), run[1..])
  }

  ghost function After(s: State, run: seq<Action>): State
    requires IsRun(s, run)
    decreases |run|
  {
    if run == [] then s else After(Apply(s, run[0]), run[1..])
  }

  /** No write falls between the initial load and the first look at the modification time. */
  ghost predicate QuietStart(s: State, run: seq<Action>)
    requires IsRun(s, run)
    decreases |run|
  {
    run != [] ==>
      && (run[0].Write? ==> !s.phase.CacheFilled?)
      && QuietStart(Apply(s, run[0]), run[1..])
  }

  /** Every write of the run gives the file a modification time it never had before. */
  ghost predicate FreshMtimes(s: State, run: seq<Action>)
    requires IsRun(s, run)
    decreases |run|
  {
    run != [] ==>
      && (run[0].Write? ==> forall v <- s.versions :: v.mtime != run[0].version.mtime)
      && FreshMtimes(Apply(s, run[0]), run[1..])
  }

  // ---------------------------------------------------------------------------
  // Coherence
  // ---------------------------------------------------------------------------

  ghost predicate DistinctMtimes(versions: seq<Version>) {
    forall i, j | 0 <= i < j < |versions| :: versions[i].mtime != versions[j].mtime
  }

  /** The cache holds a version of the file at least as new as the one whose modification time is remembered. */
  ghost predicate Coherent(s: State) {
    && s.versions != [] && DistinctMtimes(s.versions)
    && (!s.phase.Unstarted? ==>
          && s.source.version < |s.versions|
          && s.cache == LoadOrEmpty(s.versions[s.source.version].file, s.source.live))
    && (s.phase.CacheFilled? ==> s.source.version == Current(s))
    && (s.phase.Asleep? || s.phase.SawChange? ==>
          s.seenAt <= s.source.version && s.phase.lastMtime == s.versions[s.seenAt].mtime)
    && (s.phase.SawChange? ==>
          s.seenAt < s.pendingAt < |s.versions| && s.phase.seen == s.versions[s.pendingAt].mtime)
  }

  lemma StepKeepsCoherent(s: State, a: Action)
    requires Coherent(s) && Enabled(s, a)
    requires a.Write? ==> !s.phase.CacheFilled? && forall v <- s.versions :: v.mtime != a.version.mtime
    ensures Coherent(Apply(s, a))
  {
    var t := Apply(s, a);
    if a.Write? {
      assert forall i | 0 <= i < |s.versions| :: t.versions[i] == s.versions[i] && s.versions[i] in s.versions;
    }
  }

  /** Over every run of writes, looks and loads, whatever processes each load sees. */
  lemma {:induction false} RunKeepsCoherent(s: State, run: seq<Action>)
    requires Coherent(s) && IsRun(s, run) && QuietStart(s, run) && FreshMtimes(s, run)
    ensures Coherent(After(s, run))
    decreases |run|
  {
    if run != [] {
      StepKeepsCoherent(s, run[0]);
      RunKeepsCoherent(Apply(s, run[0]), run[1..]);
    }
  }

  function Fresh(version: Version): State {
    State([version], Unstarted, [], Source(0, {}), 0, 0)
  }

  /** One undisturbed round of the loop from where the task stands; `live` are the processes it sees if it loads. */
  function Round(s: State, live: set<nat>): State
    requires s.versions != [] && (s.phase.Asleep? || s.phase.SawChange?)
  {
    var looked := if s.phase.Asleep? then Apply(s, Stat) else s;
    if looked.phase.SawChange? then Apply(looked, Reload(live)) else looked
  }

  /** One round for each entry of `lives`. */
  ghost function Rounds(s: State, lives: seq<set<nat>>): State
    requires s.versions != [] && (s.phase.Asleep? || s.phase.SawChange?)
    decreases |lives|
  {
    if lives == [] then s else Rounds(Round(s, lives[0]), lives[1..])
  }

  /** The two steps of the machine, with any writes between them, are one round of the task. */
  lemma StepsAreOnePoll(s: State, written: seq<Version>, live: set<nat>)
    requires s.versions != [] && s.phase.Asleep?
    ensures var looked := Apply(s, Stat);
            var later := looked.(versions := looked.versions + written);
            var after := if later.phase.SawChange? then Apply(later, Reload(live)) else later;
            && after.phase.Asleep?
            && (after.cache, after.phase.lastMtime)
               == Polled(s.cache, s.phase.lastMtime, s.versions[Current(s)].mtime, later.versions[Current(later)].file,
                         live)
  {
  }

  /** The task has yet to notice a change of the file. */
  predicate ChangePending(s: State)
    requires s.versions != [] && (s.phase.Asleep? || s.phase.SawChange?)
  {
    s.phase.SawChange? || s.versions[Current(s)].mtime != s.phase.lastMtime
  }

  lemma CoherentRoundIsCurrent(s: State, live: set<nat>)
    requires Coherent(s) && (s.phase.Asleep? || s.phase.SawChange?)
    ensures Round(s, live).source == Source(Current(s), if ChangePending(s) then live else s.source.live)
    ensures Round(s, live).cache == LoadOrEmpty(s.versions[Current(s)].file, Round(s, live).source.live)
  {
    if !ChangePending(s) {
      assert s.seenAt == Current(s);
    }
  }

  /** After any history of writes, deaths and polls with a quiet start, once the writes stop a single round leaves the
      cache as a load of the current file: a load of now if a change was pending, and otherwise the one it had. */
  lemma OneRoundCatchesUp(first: Version, run: seq<Action>, live: set<nat>)
    requires IsRun(Fresh(first), run)
    requires QuietStart(Fresh(first), run) && FreshMtimes(Fresh(first), run)
    ensures var s := After(Fresh(first), run);
            s.phase.Asleep? || s.phase.SawChange? ==>
              && s.versions != []
              && Round(s, live).cache
                 == LoadOrEmpty(s.versions[Current(s)].file, if ChangePending(s) then live else s.source.live)
  {
    RunKeepsCoherent(Fresh(first), run);
    var s := After(Fresh(first), run);
    if s.phase.Asleep? || s.phase.SawChange? {
      CoherentRoundIsCurrent(s, live);
    }
  }

  // ---------------------------------------------------------------------------
  // Deaths
  // ---------------------------------------------------------------------------

  lemma {:induction false} LiveOnlySameExactly(routes: seq<Route>, a: set<nat>, b: set<nat>)
    ensures LiveOnly(routes, a) == LiveOnly(routes, b) <==> forall r <- routes :: Alive(r.pid, a) <==> Alive(r.pid, b)
  {
    LiveOnlyMembers(routes, a);
    LiveOnlyMembers(routes, b);
    if forall r <- routes :: Alive(r.pid, a) <==> Alive(r.pid, b) {
      AliveAlike(routes, a, b);
    } else {
      var r :| r in routes && !(Alive(r.pid, a) <==> Alive(r.pid, b));
      assert r in LiveOnly(routes, a) <==> !(r in LiveOnly(routes, b));
    }
  }

  lemma {:induction false} AliveAlike(routes: seq<Route>, a: set<nat>, b: set<nat>)
    requires forall r <- routes :: Alive(r.pid, a) <==> Alive(r.pid, b)
    ensures LiveOnly(routes, a) == LiveOnly(routes, b)
  {
    if routes != [] {
      assert routes[0] in routes && forall r <- routes[1..] :: r in routes;
      AliveAlike(routes[1..], a, b);
    }
  }

  /** The poller watches the file and not the processes. After such a round the cache is what loading the file now
      would give exactly when a change was pending, or every process of a record is as alive or dead as it was when the
      cache was loaded: a death alone goes unnoticed until the next write. */
  lemma RoundIsFreshExactly(s: State, live: set<nat>)
    requires Coherent(s) && (s.phase.Asleep? || s.phase.SawChange?)
    ensures Round(s, live).cache == LoadOrEmpty(s.versions[Current(s)].file, live)
      <==> ChangePending(s)
           || forall r <- RoutesOf(s.versions[Current(s)].file) :: Alive(r.pid, s.source.live) <==> Alive(r.pid, live)
  {
    CoherentRoundIsCurrent(s, live);
    LiveOnlySameExactly(RoutesOf(s.versions[Current(s)].file), s.source.live, live);
  }

  // ---------------------------------------------------------------------------
  // Without the quiet start
  // ---------------------------------------------------------------------------

  /** The state after a write between the initial load and the first look. */
  function Surprised(first: Version, second: Version, live: set<nat>): State {
    State([first, second], Asleep(second.mtime), LoadOrEmpty(first.file, live), Source(0, live), 1, 0)
  }

  lemma {:induction false} RoundsChangeNothing(s: State, lives: seq<set<nat>>)
    requires s.versions != [] && s.phase == Asleep(s.versions[Current(s)].mtime)
    ensures Rounds(s, lives) == s
    decreases |lives|
  {
    if lives != [] { RoundsChangeNothing(s, lives[1..]); }
  }

  /** A write in that gap is never noticed: without further writes the cache is, after any number of rounds and whatever
      processes live by then, a load of the newer version exactly when loading the older one gave just that. */
  lemma MissedWriteExactly(first: Version, second: Version, live: set<nat>, lives: seq<set<nat>>, now: set<nat>)
    ensures IsRun(Fresh(first), [InitialLoad(live), Write(second), FirstStat])
    ensures After(Fresh(first), [InitialLoad(live), Write(second), FirstStat]) == Surprised(first, second, live)
    ensures Rounds(Surprised(first, second, live), lives).cache == LoadOrEmpty(second.file, now)
      <==> LoadOrEmpty(first.file, live) == LoadOrEmpty(second.file, now)
  {
    var s0 := Fresh(first);
    var s1 := Apply(s0, InitialLoad(live));
    var s2 := Apply(s1, Write(second));
    var s3 := Apply(s2, FirstStat);
    assert [first] + [second] == [first, second];
    assert s3 == Surprised(first, second, live);
    var run := [InitialLoad(live), Write(second), FirstStat];
    assert run[1..] == [Write(second), FirstStat] && run[1..][1..] == [FirstStat] && run[1..][1..][1..] == [];
    assert IsRun(s3, []) && IsRun(s2, [FirstStat]) && IsRun(s1, run[1..]);
    assert After(s2, [FirstStat]) == s3;
    RoundsChangeNothing(s3, lives);
  }
}
