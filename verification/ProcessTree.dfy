/** Stopping a process together with everything it started, from one snapshot of the process list. */
module ProcessTree {
  import opened Text

  type Pid = nat

  /** A process and its parent. */
  type Entry = (Pid, Pid)

  // ---------------------------------------------------------------------------
  // Chains of descent
  // ---------------------------------------------------------------------------

  /** The entry says that `child` was started by `parent`. */
  predicate ChildOf(processes: seq<Entry>, child: Pid, parent: Pid) {
    (child, parent) in processes
  }

  /** Each process in the list was started by the one before it. */
  predicate Chain(processes: seq<Entry>, path: seq<Pid>) {
    forall i | 0 < i < |path| :: ChildOf(processes, path[i], path[i - 1])
  }

  predicate Distinct(path: seq<Pid>) {
    forall i, j | 0 <= i < j < |path| :: path[i] != path[j]
  }

  /** No chain that starts at `root` comes back to a process it has passed. */
  ghost predicate Acyclic(processes: seq<Entry>, root: Pid) {
    forall path | path != [] && path[0] == root && Chain(processes, path) :: Distinct(path)
  }

  /** `pid` is a strict descendant of `root`. */
  ghost predicate Descends(processes: seq<Entry>, root: Pid, pid: Pid) {
    exists path: seq<Pid> :: DescentPath(processes, root, pid, path)
  }

  ghost predicate DescentPath(processes: seq<Entry>, root: Pid, pid: Pid, path: seq<Pid>) {
    |path| >= 2 && path[0] == root && path[|path| - 1] == pid && Chain(processes, path)
  }

  predicate UniquePids(processes: seq<Entry>) {
    forall i, j | 0 <= i < j < |processes| :: processes[i].0 != processes[j].0
  }

  // ---------------------------------------------------------------------------
  // Termination
  // ---------------------------------------------------------------------------

  function Pids(processes: seq<Entry>): set<Pid> {
    set e <- processes :: e.0
  }

  lemma {:induction false} DistinctIsBounded(path: seq<Pid>, pids: set<Pid>)
    requires Distinct(path) && forall p <- path :: p in pids
    ensures |path| <= |pids|
  {
    if path != [] {
      var last := path[|path| - 1];
      assert last in path;
      forall p | p in path[..|path| - 1] ensures p in pids - {last} {
        var i :| 0 <= i < |path| - 1 && path[i] == p;
      }
      DistinctIsBounded(path[..|path| - 1], pids - {last});
    }
  }

  /** The descent from `root` to the process in hand. It can only get as long as there are processes. */
  ghost predicate OnPath(processes: seq<Entry>, path: seq<Pid>, root: Pid, pid: Pid) {
    path != [] && path[0] == root && path[|path| - 1] == pid && Chain(processes, path)
  }

  ghost function Room(processes: seq<Entry>, path: seq<Pid>): int {
    |Pids(processes)| + 1 - |path|
  }

  lemma PathHasRoom(processes: seq<Entry>, path: seq<Pid>, root: Pid)
    requires Acyclic(processes, root) && path != [] && path[0] == root && Chain(processes, path)
    ensures Room(processes, path) >= 0
  {
    forall p | p in path ensures p in Pids(processes) + {root} {
      var i :| 0 <= i < |path| && path[i] == p;
      if i > 0 { assert ChildOf(processes, path[i], path[i - 1]); }
    }
    DistinctIsBounded(path, Pids(processes) + {root});
    assert |Pids(processes) + {root}| <= |Pids(processes)| + 1;
  }

  lemma PathExtends(processes: seq<Entry>, path: seq<Pid>, root: Pid, parent: Pid, child: Pid)
    requires Acyclic(processes, root) && OnPath(processes, path, root, parent) && ChildOf(processes, child, parent)
    ensures OnPath(processes, path + [child], root, child)
    ensures 0 <= Room(processes, path + [child]) < Room(processes, path)
  {
    PathHasRoom(processes, path + [child], root);
  }

  /** Without acyclicity there is no bound at all on how deep the descent goes. */
  lemma {:induction false} CycleMeansUnboundedDescent(processes: seq<Entry>, root: Pid, n: nat) returns (path: seq<Pid>)
    requires !Acyclic(processes, root)
    ensures |path| > n && path[0] == root && Chain(processes, path)
  {
    var looped :| looped != [] && looped[0] == root && Chain(processes, looped) && !Distinct(looped);
    var i, j :| 0 <= i < j < |looped| && looped[i] == looped[j];
    var cycle := looped[i + 1..j + 1];
    path := looped[..i + 1];
    var rounds := 0;
    while rounds < n
      invariant |path| > rounds && path[0] == root && Chain(processes, path)
      invariant path[|path| - 1] == looped[i]
    {
      var longer := path + cycle;
      forall k | 0 < k < |longer| ensures ChildOf(processes, longer[k], longer[k - 1]) {
        if k == |path| {
          assert longer[k] == looped[i + 1] && longer[k - 1] == looped[i];
        } else if k > |path| {
          assert longer[k] == looped[i + 1 + k - |path|] && longer[k - 1] == looped[i + k - |path|];
        }
      }
      path := longer;
      rounds := rounds + 1;
    }
  }

  // ---------------------------------------------------------------------------
  // Collecting
  // ---------------------------------------------------------------------------

  /** What the loop from entry `i` on pushes for `parent`: each child followed by what is collected for it. */
  ghost function Collected(processes: seq<Entry>, parent: Pid, i: nat, path: seq<Pid>, root: Pid): seq<Pid>
    requires Acyclic(processes, root) && OnPath(processes, path, root, parent) && i <= |processes|
    decreases Room(processes, path), |processes| - i
  {
    if i == |processes| then []
    else if processes[i].1 == parent then
      assert ChildOf(processes, processes[i].0, parent);
      PathExtends(processes, path, root, parent, processes[i].0);
      [processes[i].0]
      + Collected(processes, processes[i].0, 0, path + [processes[i].0], root)
      + Collected(processes, parent, i + 1, path, root)
    else Collected(processes, parent, i + 1, path, root)
  }

  /** The vector the recursion pushes onto. */
  class PidVec {
    var items: seq<Pid>

    constructor ()
      ensures items == []
    {
      items := [];
    }

    method Push(pid: Pid)
      modifies this
      ensures items == old(items) + [pid]
    {
      items := items + [pid];
    }
  }

  method CollectDescendants(
    parent: Pid, processes: seq<Entry>, output: PidVec, ghost path: seq<Pid>, ghost root: Pid)
    requires Acyclic(processes, root) && OnPath(processes, path, root, parent)
    modifies output
    ensures output.items == old(output.items) + Collected(processes, parent, 0, path, root)
    decreases Room(processes, path)
  {
    PathHasRoom(processes, path, root);
    for i := 0 to |processes|
      invariant output.items + Collected(processes, parent, i, path, root)
             == old(output.items) + Collected(processes, parent, 0, path, root)
    {
      var (pid, pidParent) := processes[i];
      if pidParent == parent {
        assert ChildOf(processes, pid, parent);
        PathExtends(processes, path, root, parent, pid);
        ghost var before := output.items;
        output.Push(pid);
        CollectDescendants(pid, processes, output, path + [pid], root);
        assert output.items == before + ([pid] + Collected(processes, pid, 0, path + [pid], root));
      }
    }
  }

  // ---------------------------------------------------------------------------
  // When the recursion ends
  // ---------------------------------------------------------------------------

  /** The same recursion, for any snapshot, given up when calls nest more than `depth` deep. */
  function CollectedWithin(processes: seq<Entry>, parent: Pid, i: nat, depth: nat): Option<seq<Pid>>
    requires i <= |processes|
    decreases depth, |processes| - i
  {
    if i == |processes| then Some([])
    else if processes[i].1 != parent then CollectedWithin(processes, parent, i + 1, depth)
    else if depth == 0 then None
    else
      match (CollectedWithin(processes, processes[i].0, 0, depth - 1), CollectedWithin(processes, parent, i + 1, depth))
      case (Some(below), Some(rest)) => Some([processes[i].0] + below + rest)
      case _ => None
  }

  lemma {:induction false} AcyclicEnds(
    processes: seq<Entry>, parent: Pid, i: nat, path: seq<Pid>, root: Pid, depth: nat)
    requires Acyclic(processes, root) && OnPath(processes, path, root, parent) && i <= |processes|
    requires depth >= Room(processes, path)
    ensures CollectedWithin(processes, parent, i, depth) == Some(Collected(processes, parent, i, path, root))
    decreases Room(processes, path), |processes| - i
  {
    if i < |processes| {
      AcyclicEnds(processes, parent, i + 1, path, root, depth);
      if processes[i].1 == parent {
        assert ChildOf(processes, processes[i].0, parent);
        PathExtends(processes, path, root, parent, processes[i].0);
        AcyclicEnds(processes, processes[i].0, 0, path + [processes[i].0], root, depth - 1);
      }
    }
  }

  lemma {:induction false} ChainRunsOut(processes: seq<Entry>, path: seq<Pid>, depth: nat)
    requires |path| >= depth + 2 && Chain(processes, path)
    ensures CollectedWithin(processes, path[0], 0, depth).None?
  {
    assert ChildOf(processes, path[1], path[0]);
    var k :| 0 <= k < |processes| && processes[k] == (path[1], path[0]);
    if depth > 0 {
      forall j | 0 < j < |path[1..]| ensures ChildOf(processes, path[1..][j], path[1..][j - 1]) {
        assert path[1..][j] == path[j + 1] && path[1..][j - 1] == path[j];
      }
      ChainRunsOut(processes, path[1..], depth - 1);
    }
    GivenUpFrom(processes, path[0], 0, k, depth);
  }

  lemma {:induction false} GivenUpFrom(processes: seq<Entry>, parent: Pid, i: nat, k: nat, depth: nat)
    requires i <= k < |processes| && CollectedWithin(processes, parent, k, depth).None?
    ensures CollectedWithin(processes, parent, i, depth).None?
    decreases k - i
  {
    if i < k { GivenUpFrom(processes, parent, i + 1, k, depth); }
  }

  /** The collection comes to an end exactly when no chain of parents from the root loops; an entry that is its own
      parent is such a loop. It then collects what `Collected` says. */
  lemma DescentEndsExactly(processes: seq<Entry>, root: Pid)
    ensures (exists depth :: CollectedWithin(processes, root, 0, depth).Some?) <==> Acyclic(processes, root)
    ensures Acyclic(processes, root) ==>
      exists depth :: CollectedWithin(processes, root, 0, depth) == Some(Collected(processes, root, 0, [root], root))
  {
    if Acyclic(processes, root) {
      PathHasRoom(processes, [root], root);
      AcyclicEnds(processes, root, 0, [root], root, Room(processes, [root]));
    } else {
      forall depth: nat ensures CollectedWithin(processes, root, 0, depth).None? {
        var path := CycleMeansUnboundedDescent(processes, root, depth + 1);
        ChainRunsOut(processes, path, depth);
      }
    }
  }

  // ---------------------------------------------------------------------------
  // What is collected
  // ---------------------------------------------------------------------------

  lemma DescendsTransitive(processes: seq<Entry>, a: Pid, b: Pid, c: Pid)
    requires Descends(processes, a, b) && Descends(processes, b, c)
    ensures Descends(processes, a, c)
  {
    var p :| DescentPath(processes, a, b, p);
    var q :| DescentPath(processes, b, c, q);
    var joined := p + q[1..];
    forall k | 0 < k < |joined| ensures ChildOf(processes, joined[k], joined[k - 1]) {
      if k >= |p| { assert joined[k] == q[k - |p| + 1] && joined[k - 1] == q[k - |p|]; }
    }
    assert DescentPath(processes, a, c, joined);
  }

  lemma ChildDescends(processes: seq<Entry>, parent: Pid, child: Pid)
    requires ChildOf(processes, child, parent)
    ensures Descends(processes, parent, child)
  {
    assert DescentPath(processes, parent, child, [parent, child]);
  }

  /** From entry `i` on, `pid` is a child of `parent` or descends from one. */
  ghost predicate UnderEntriesFrom(processes: seq<Entry>, parent: Pid, i: nat, pid: Pid) {
    exists k | i <= k < |processes| :: UnderEntry(processes, parent, k, pid)
  }

  ghost predicate UnderEntry(processes: seq<Entry>, parent: Pid, k: nat, pid: Pid)
    requires k < |processes|
  {
    processes[k].1 == parent && (processes[k].0 == pid || Descends(processes, processes[k].0, pid))
  }

  lemma DescendsThroughEntry(processes: seq<Entry>, parent: Pid, pid: Pid)
    ensures UnderEntriesFrom(processes, parent, 0, pid) <==> Descends(processes, parent, pid)
  {
    if Descends(processes, parent, pid) {
      var path :| DescentPath(processes, parent, pid, path);
      assert ChildOf(processes, path[1], path[0]);
      var k :| 0 <= k < |processes| && processes[k] == (path[1], parent);
      if |path| > 2 {
        forall j | 0 < j < |path[1..]| ensures ChildOf(processes, path[1..][j], path[1..][j - 1]) {
          assert path[1..][j] == path[j + 1] && path[1..][j - 1] == path[j];
        }
        assert DescentPath(processes, path[1], pid, path[1..]);
      }
      assert UnderEntry(processes, parent, k, pid);
    }
    if UnderEntriesFrom(processes, parent, 0, pid) {
      var k :| 0 <= k < |processes| && UnderEntry(processes, parent, k, pid);
      assert ChildOf(processes, processes[k].0, parent);
      ChildDescends(processes, parent, processes[k].0);
      if processes[k].0 != pid {
        DescendsTransitive(processes, parent, processes[k].0, pid);
      }
    }
  }

  lemma {:induction false} CollectedFromEntries(
    processes: seq<Entry>, parent: Pid, i: nat, path: seq<Pid>, root: Pid, pid: Pid)
    requires Acyclic(processes, root) && OnPath(processes, path, root, parent) && i <= |processes|
    ensures pid in Collected(processes, parent, i, path, root) <==> UnderEntriesFrom(processes, parent, i, pid)
    decreases Room(processes, path), |processes| - i
  {
    if i < |processes| {
      var child := processes[i].0;
      if processes[i].1 == parent {
        assert ChildOf(processes, child, parent);
        PathExtends(processes, path, root, parent, child);
        CollectedFromEntries(processes, child, 0, path + [child], root, pid);
        DescendsThroughEntry(processes, child, pid);
      }
      CollectedFromEntries(processes, parent, i + 1, path, root, pid);
      assert UnderEntriesFrom(processes, parent, i, pid)
        <==> UnderEntry(processes, parent, i, pid) || UnderEntriesFrom(processes, parent, i + 1, pid);
    }
  }

  /** Exactly the strict descendants are collected. */
  lemma CollectedExactly(processes: seq<Entry>, root: Pid, pid: Pid)
    requires Acyclic(processes, root)
    ensures pid in Collected(processes, root, 0, [root], root) <==> Descends(processes, root, pid)
  {
    CollectedFromEntries(processes, root, 0, [root], root, pid);
    DescendsThroughEntry(processes, root, pid);
  }

  // ---------------------------------------------------------------------------
  // Order
  // ---------------------------------------------------------------------------

  ghost predicate Before(pids: seq<Pid>, x: Pid, y: Pid) {
    exists a, b | 0 <= a < b < |pids| :: pids[a] == x && pids[b] == y
  }

  lemma BeforeInConcat(a: seq<Pid>, b: seq<Pid>, c: seq<Pid>, x: Pid, y: Pid)
    requires Before(b, x, y)
    ensures Before(a + b + c, x, y)
  {
    var i, j :| 0 <= i < j < |b| && b[i] == x && b[j] == y;
    assert (a + b + c)[|a| + i] == x && (a + b + c)[|a| + j] == y;
  }

  /** A collected process stands before each of its own descendants. */
  lemma {:induction false} AncestorsFirst(
    processes: seq<Entry>, parent: Pid, i: nat, path: seq<Pid>, root: Pid, x: Pid, y: Pid)
    requires Acyclic(processes, root) && OnPath(processes, path, root, parent) && i <= |processes|
    requires x in Collected(processes, parent, i, path, root) && Descends(processes, x, y)
    ensures Before(Collected(processes, parent, i, path, root), x, y)
    decreases Room(processes, path), |processes| - i
  {
    var child := processes[i].0;
    var rest := Collected(processes, parent, i + 1, path, root);
    if processes[i].1 == parent {
      assert ChildOf(processes, child, parent);
      PathExtends(processes, path, root, parent, child);
      var below := Collected(processes, child, 0, path + [child], root);
      var all := [child] + below + rest;
      if x == child {
        CollectedFromEntries(processes, child, 0, path + [child], root, y);
        DescendsThroughEntry(processes, child, y);
        var b :| 0 <= b < |below| && below[b] == y;
        assert all[0] == x && all[1 + b] == y;
      } else if x in below {
        AncestorsFirst(processes, child, 0, path + [child], root, x, y);
        BeforeInConcat([child], below, rest, x, y);
      } else {
        AncestorsFirst(processes, parent, i + 1, path, root, x, y);
        BeforeInConcat([child] + below, rest, [], x, y);
        assert [child] + below + rest + [] == all;
      }
    } else {
      AncestorsFirst(processes, parent, i + 1, path, root, x, y);
    }
  }

  // ---------------------------------------------------------------------------
  // Each process once
  // ---------------------------------------------------------------------------

  lemma ParentUnique(processes: seq<Entry>, pid: Pid, p: Pid, q: Pid)
    requires UniquePids(processes) && ChildOf(processes, pid, p) && ChildOf(processes, pid, q)
    ensures p == q
  {
    var i :| 0 <= i < |processes| && processes[i] == (pid, p);
    var j :| 0 <= j < |processes| && processes[j] == (pid, q);
  }

  /** Going up from a process there is only one way. */
  lemma {:induction false} ChainsMerge(processes: seq<Entry>, p: seq<Pid>, q: seq<Pid>)
    requires UniquePids(processes) && Chain(processes, p) && Chain(processes, q)
    requires 1 <= |p| <= |q| && p[|p| - 1] == q[|q| - 1]
    ensures p == q[|q| - |p|..]
  {
    if |p| > 1 {
      var m, n := |p| - 1, |q| - 1;
      assert ChildOf(processes, p[m], p[m - 1]) && ChildOf(processes, q[n], q[n - 1]);
      ParentUnique(processes, p[m], p[m - 1], q[n - 1]);
      ChainsMerge(processes, p[..m], q[..n]);
      assert p == p[..m] + [p[m]];
      assert q[|q| - |p|..] == q[..n][|q| - |p|..] + [q[n]];
    }
  }

  /** On an acyclic path nothing below a process is that process again or one of those above it. */
  lemma NothingComesBack(processes: seq<Entry>, path: seq<Pid>, root: Pid, parent: Pid, down: seq<Pid>)
    requires Acyclic(processes, root) && OnPath(processes, path, root, parent)
    requires |down| >= 2 && down[0] == parent && Chain(processes, down)
    ensures down[|down| - 1] != parent
  {
    var joined := path + down[1..];
    forall k | 0 < k < |joined| ensures ChildOf(processes, joined[k], joined[k - 1]) {
      if k >= |path| { assert joined[k] == down[k - |path| + 1] && joined[k - 1] == down[k - |path|]; }
    }
    assert Chain(processes, joined) && joined[0] == root;
    assert Distinct(joined);
    assert joined[|path| - 1] == parent && joined[|joined| - 1] == down[|down| - 1];
  }

  lemma PathUnderChild(processes: seq<Entry>, child: Pid, pid: Pid) returns (p: seq<Pid>)
    requires pid == child || Descends(processes, child, pid)
    ensures p != [] && p[0] == child && p[|p| - 1] == pid && Chain(processes, p)
  {
    if pid == child {
      p := [child];
    } else {
      p :| DescentPath(processes, child, pid, p);
    }
  }

  /** The subtrees of two children do not overlap. */
  lemma SubtreesDisjoint(
    processes: seq<Entry>, path: seq<Pid>, root: Pid, parent: Pid, i: nat, k: nat, pid: Pid)
    requires Acyclic(processes, root) && OnPath(processes, path, root, parent) && UniquePids(processes)
    requires i < |processes| && k < |processes|
    requires UnderEntry(processes, parent, i, pid) && UnderEntry(processes, parent, k, pid)
    ensures i == k
  {
    var p := PathUnderChild(processes, processes[i].0, pid);
    var q := PathUnderChild(processes, processes[k].0, pid);
    if |p| <= |q| {
      ShorterIsWhole(processes, path, root, parent, processes[i].0, processes[k].0, p, q);
    } else {
      ShorterIsWhole(processes, path, root, parent, processes[k].0, processes[i].0, q, p);
    }
  }

  lemma ShorterIsWhole(
    processes: seq<Entry>, path: seq<Pid>, root: Pid, parent: Pid, a: Pid, b: Pid, p: seq<Pid>, q: seq<Pid>)
    requires Acyclic(processes, root) && OnPath(processes, path, root, parent) && UniquePids(processes)
    requires ChildOf(processes, a, parent) && ChildOf(processes, b, parent)
    requires 1 <= |p| <= |q| && p[0] == a && q[0] == b && p[|p| - 1] == q[|q| - 1]
    requires Chain(processes, p) && Chain(processes, q)
    ensures a == b
  {
    ChainsMerge(processes, p, q);
    var d := |q| - |p|;
    assert q[d] == a;
    if d > 0 {
      assert ChildOf(processes, q[d], q[d - 1]);
      ParentUnique(processes, a, parent, q[d - 1]);
      var down := [parent] + q[..d];
      forall j | 0 < j < |down| ensures ChildOf(processes, down[j], down[j - 1]) {
        if j > 1 { assert down[j] == q[j - 1] && down[j - 1] == q[j - 2]; }
      }
      NothingComesBack(processes, path, root, parent, down);
    }
  }

  /** Nothing is collected twice. */
  lemma {:induction false} CollectedOnce(processes: seq<Entry>, parent: Pid, i: nat, path: seq<Pid>, root: Pid)
    requires Acyclic(processes, root) && OnPath(processes, path, root, parent) && i <= |processes|
    requires UniquePids(processes)
    ensures Distinct(Collected(processes, parent, i, path, root))
    decreases Room(processes, path), |processes| - i
  {
    if i < |processes| {
      var child := processes[i].0;
      var rest := Collected(processes, parent, i + 1, path, root);
      CollectedOnce(processes, parent, i + 1, path, root);
      if processes[i].1 == parent {
        assert ChildOf(processes, child, parent);
        PathExtends(processes, path, root, parent, child);
        var below := Collected(processes, child, 0, path + [child], root);
        CollectedOnce(processes, child, 0, path + [child], root);
        ChildNotBelow(processes, path + [child], root, child);
        forall pid | pid == child || pid in below ensures pid !in rest {
          BelowNotInRest(processes, parent, i, path, root, pid);
        }
        DistinctConcat([child], below);
        DistinctConcat([child] + below, rest);
      }
    }
  }

  lemma DistinctConcat(a: seq<Pid>, b: seq<Pid>)
    requires Distinct(a) && Distinct(b) && forall p <- a :: p !in b
    ensures Distinct(a + b)
  {
    var s := a + b;
    forall i, j | 0 <= i < j < |s| ensures s[i] != s[j] {
      if i < |a| <= j { assert s[i] in a && s[j] in b; }
    }
  }

  lemma ChildNotBelow(processes: seq<Entry>, path: seq<Pid>, root: Pid, child: Pid)
    requires Acyclic(processes, root) && OnPath(processes, path, root, child)
    ensures child !in Collected(processes, child, 0, path, root)
  {
    CollectedFromEntries(processes, child, 0, path, root, child);
    DescendsThroughEntry(processes, child, child);
    if Descends(processes, child, child) {
      var down :| DescentPath(processes, child, child, down);
      NothingComesBack(processes, path, root, child, down);
    }
  }

  lemma BelowNotInRest(processes: seq<Entry>, parent: Pid, i: nat, path: seq<Pid>, root: Pid, pid: Pid)
    requires Acyclic(processes, root) && OnPath(processes, path, root, parent) && i < |processes|
    requires UniquePids(processes) && processes[i].1 == parent
    requires OnPath(processes, path + [processes[i].0], root, processes[i].0)
    requires pid == processes[i].0 || pid in Collected(processes, processes[i].0, 0, path + [processes[i].0], root)
    ensures pid !in Collected(processes, parent, i + 1, path, root)
  {
    var child := processes[i].0;
    CollectedFromEntries(processes, child, 0, path + [child], root, pid);
    DescendsThroughEntry(processes, child, pid);
    assert UnderEntry(processes, parent, i, pid);
    CollectedFromEntries(processes, parent, i + 1, path, root, pid);
    if UnderEntriesFrom(processes, parent, i + 1, pid) {
      var k :| i + 1 <= k < |processes| && UnderEntry(processes, parent, k, pid);
      SubtreesDisjoint(processes, path, root, parent, i, k, pid);
    }
  }

  // ---------------------------------------------------------------------------
  // Terminating
  // ---------------------------------------------------------------------------

  /** The system call, as far as this program can tell: which processes it was asked to stop, in order. */
  class Platform {
    var asked: seq<Pid>

    constructor ()
      ensures asked == []
    {
      asked := [];
    }

    method TerminateProcess(pid: Pid, refused: set<Pid>) returns (ok: bool)
      modifies this
      ensures asked == old(asked) + [pid] && ok == (pid !in refused)
    {
      asked := asked + [pid];
      ok := pid !in refused;
    }
  }

  function Reversed(pids: seq<Pid>): seq<Pid> {
    if pids == [] then [] else Reversed(pids[1..]) + [pids[0]]
  }

  lemma {:induction false} ReversedAt(pids: seq<Pid>)
    ensures |Reversed(pids)| == |pids|
    ensures forall k | 0 <= k < |pids| :: Reversed(pids)[k] == pids[|pids| - 1 - k]
  {
    if pids != [] { ReversedAt(pids[1..]); }
  }

  lemma ReversedGrows(pids: seq<Pid>, k: nat)
    requires k < |pids|
    ensures |Reversed(pids)| == |pids|
    ensures Reversed(pids)[..|pids| - k] == Reversed(pids)[..|pids| - k - 1] + [pids[k]]
  {
    ReversedAt(pids);
  }

  lemma ReversedLength(pids: seq<Pid>)
    ensures |Reversed(pids)| == |pids|
    ensures Reversed(pids)[..0] == [] && Reversed(pids)[..|pids|] == Reversed(pids)
  {
    ReversedAt(pids);
  }

  method TerminateInReverse(pids: seq<Pid>, platform: Platform, refused: set<Pid>)
    modifies platform
    ensures platform.asked == old(platform.asked) + Reversed(pids)
  {
    ReversedLength(pids);
    var k := |pids|;
    while k > 0
      invariant 0 <= k <= |pids|
      invariant platform.asked == old(platform.asked) + Reversed(pids)[..|pids| - k]
    {
      k := k - 1;
      var _ := platform.TerminateProcess(pids[k], refused);
      ReversedGrows(pids, k);
    }
  }

  /** Every process of the tree is asked to stop, whether or not stopping another one works; only the root counts for
      the result. A snapshot that could not be taken is an empty one. */
  method TerminateProcessTree(root: Pid, snapshot: seq<Entry>, platform: Platform, refused: set<Pid>)
    returns (ok: bool)
    requires Acyclic(snapshot, root)
    modifies platform
    ensures ok == (root !in refused)
    ensures platform.asked == old(platform.asked) + KillOrder(snapshot, root)
  {
    var descendants := new PidVec();
    CollectDescendants(root, snapshot, descendants, [root], root);
    assert [] + Collected(snapshot, root, 0, [root], root) == Collected(snapshot, root, 0, [root], root);
    TerminateInReverse(descendants.items, platform, refused);
    ok := platform.TerminateProcess(root, refused);
  }

  ghost function KillOrder(snapshot: seq<Entry>, root: Pid): seq<Pid>
    requires Acyclic(snapshot, root)
  {
    Reversed(Collected(snapshot, root, 0, [root], root)) + [root]
  }

  /** The root and exactly its descendants are stopped, each once, and every process only after everything that
      descends from it; the root therefore last. */
  lemma ChildrenStopBeforeParents(snapshot: seq<Entry>, root: Pid)
    requires Acyclic(snapshot, root) && UniquePids(snapshot)
    ensures var order := KillOrder(snapshot, root);
            && Distinct(order)
            && (forall pid :: pid in order <==> pid == root || Descends(snapshot, root, pid))
            && (forall x, y | x in order && Descends(snapshot, x, y) :: Before(order, y, x))
            && order[|order| - 1] == root
  {
    var collected := Collected(snapshot, root, 0, [root], root);
    var order := KillOrder(snapshot, root);
    ReversedAt(collected);
    CollectedOnce(snapshot, root, 0, [root], root);
    ChildNotBelow(snapshot, [root], root, root);
    forall pid ensures pid in order <==> pid == root || pid in collected {
      OrderMembers(collected, root, pid);
    }
    forall pid ensures pid in collected <==> Descends(snapshot, root, pid) {
      CollectedExactly(snapshot, root, pid);
    }
    assert Distinct(order);
    forall x, y | x in order && Descends(snapshot, x, y) ensures Before(order, y, x) {
      if x == root {
        var b :| 0 <= b < |collected| && collected[b] == y;
        assert order[|collected| - 1 - b] == y && order[|collected|] == x;
      } else {
        AncestorsFirst(snapshot, root, 0, [root], root, x, y);
        var a, b :| 0 <= a < b < |collected| && collected[a] == x && collected[b] == y;
        assert order[|collected| - 1 - b] == y && order[|collected| - 1 - a] == x;
      }
    }
  }

  lemma OrderMembers(collected: seq<Pid>, root: Pid, pid: Pid)
    ensures pid in Reversed(collected) + [root] <==> pid == root || pid in collected
  {
    ReversedAt(collected);
    if pid in collected {
      var k :| 0 <= k < |collected| && collected[k] == pid;
      assert Reversed(collected)[|collected| - 1 - k] == pid;
    }
  }
}
