/** The route records, the edits the registry makes to them and the store that applies an edit to the file. */
module Routes {
  import opened Text

  datatype RouteOwner = RouteOwner(
    pid: nat, platform: string, cwd: string, command: seq<string>, processGroup: Option<nat>, startTime: Option<nat>)

  datatype Route = Route(
    hostname: string, port: nat, pid: nat, changeOrigin: bool, pathPrefix: string, stripPrefix: bool,
    owner: Option<RouteOwner>)

  datatype RouteError =
    | LockFailed
    | Io
    | Malformed
    | RouteConflict(hostname: string, pathPrefix: string, pid: nat)
    | UnsafeRouteReplacement(pid: nat)

  /** `routes.json`: absent, present but not a list of records, or a list of records. */
  datatype RoutesFile = Missing | Garbled | Records(routes: seq<Route>)

  // ---------------------------------------------------------------------------
  // Path prefixes
  // ---------------------------------------------------------------------------

  function Normalize(prefix: string): string {
    var p := if "/" <= prefix then prefix else "/" + prefix;
    if |p| > 1 && p[|p| - 1] == '/' then p[..|p| - 1] else p
  }

  method NormalizePathPrefix(prefix: string) returns (p: string)
    ensures p == Normalize(prefix)
  {
    p := prefix;
    if !("/" <= p) {
      p := "/" + p;
    }
    if |p| > 1 && p[|p| - 1] == '/' {
      p := p[..|p| - 1];
    }
  }

  /** Only one trailing slash is removed, so normalizing twice differs from once on inputs ending in "//". */
  lemma NormalizeIdempotentExactly(prefix: string)
    ensures Normalize(Normalize(prefix)) == Normalize(prefix) <==> !(EndsWith(prefix, "//") && prefix != "//")
  {
    var q := if "/" <= prefix then prefix else "/" + prefix;
    if EndsWith(prefix, "//") {
      assert prefix[|prefix| - 2..] == "//";
      assert prefix[|prefix| - 2] == '/' && prefix[|prefix| - 1] == '/';
      assert Normalize(prefix) == q[..|q| - 1];
    } else if |prefix| >= 2 && prefix[|prefix| - 1] == '/' {
      assert prefix[|prefix| - 2..] == [prefix[|prefix| - 2], '/'];
      assert prefix[|prefix| - 2] != '/';
    }
  }

  /** A prefix means the same with and without the slashes at its ends, and is written with the first and without the
      last. */
  lemma NormalizeMeans(body: string)
    requires body != "" && body[0] != '/' && body[|body| - 1] != '/'
    ensures Normalize(body) == "/" + body && Normalize("/" + body) == "/" + body
    ensures Normalize(body + "/") == "/" + body && Normalize("/" + body + "/") == "/" + body
    ensures Normalize("") == "/" && Normalize("/") == "/"
  {
    assert ("/" + body)[|body|] == body[|body| - 1];
    assert ("/" + body + "/")[..|body| + 1] == "/" + body;
    assert "/" + (body + "/") == "/" + body + "/";
  }

  predicate SameKey(r: Route, hostname: string, norm: string) {
    r.hostname == hostname && Normalize(r.pathPrefix) == norm
  }

  /** No two records share a hostname and a normalized prefix. */
  ghost predicate KeysUnique(routes: seq<Route>) {
    forall i, j | 0 <= i < j < |routes| :: !SameKey(routes[i], routes[j].hostname, Normalize(routes[j].pathPrefix))
  }

  // ---------------------------------------------------------------------------
  // Loading and editing
  // ---------------------------------------------------------------------------

  predicate Alive(pid: nat, live: set<nat>) {
    pid == 0 || pid in live
  }

  function LiveOnly(routes: seq<Route>, live: set<nat>): seq<Route> {
    if routes == [] then []
    else if Alive(routes[0].pid, live) then [routes[0]] + LiveOnly(routes[1..], live)
    else LiveOnly(routes[1..], live)
  }

  function Load(file: RoutesFile, live: set<nat>): Result<seq<Route>, RouteError> {
    match file
    case Missing => Ok([])
    case Garbled => Err(Malformed)
    case Records(routes) => Ok(LiveOnly(routes, live))
  }

  datatype Op =
    | Add(hostname: string, port: nat, pid: nat, owner: Option<RouteOwner>, force: bool, changeOrigin: bool,
          pathPrefix: string, stripPrefix: bool)
    | Remove(hostname: string, prefixFilter: Option<string>)
    | RemoveForPid(hostname: string, prefixFilter: Option<string>, pid: nat)

  predicate InFilter(r: Route, hostname: string, prefixFilter: Option<string>) {
    match prefixFilter
    case Some(prefix) => SameKey(r, hostname, Normalize(prefix))
    case None => r.hostname == hostname
  }

  /** Which records the edit's `retain` drops. */
  predicate Drops(op: Op, r: Route) {
    match op
    case Add(hostname, _, _, _, _, _, pathPrefix, _) => SameKey(r, hostname, Normalize(pathPrefix))
    case Remove(hostname, prefixFilter) => InFilter(r, hostname, prefixFilter)
    case RemoveForPid(hostname, prefixFilter, pid) => InFilter(r, hostname, prefixFilter) && r.pid == pid
  }

  function Retain(op: Op, routes: seq<Route>): seq<Route> {
    if routes == [] then []
    else if Drops(op, routes[0]) then Retain(op, routes[1..])
    else [routes[0]] + Retain(op, routes[1..])
  }

  function FirstWithKey(routes: seq<Route>, hostname: string, norm: string): Option<Route> {
    if routes == [] then None
    else if SameKey(routes[0], hostname, norm) then Some(routes[0])
    else FirstWithKey(routes[1..], hostname, norm)
  }

  function NewRoute(op: Op): Route
    requires op.Add?
  {
    Route(op.hostname, op.port, op.pid, op.changeOrigin, Normalize(op.pathPrefix), op.stripPrefix, op.owner)
  }

  /** The owner an add asks the platform to kill before it replaces a live route. */
  function Victim(op: Op, routes: seq<Route>, live: set<nat>): Option<RouteOwner> {
    if !op.Add? || !op.force then None
    else
      var clash := FirstWithKey(routes, op.hostname, Normalize(op.pathPrefix));
      if clash.Some? && clash.value.pid != op.pid && clash.value.pid != 0 && Alive(clash.value.pid, live)
      then clash.value.owner else None
  }

  /** An edit of the loaded list. `live` is the liveness seen by the conflict check and `killed` says whether the
      platform managed to kill the owner it was asked to. */
  function Edit(op: Op, routes: seq<Route>, live: set<nat>, killed: bool): Result<seq<Route>, RouteError> {
    match op
    case Add(hostname, _, pid, _, force, _, pathPrefix, _) =>
      var norm := Normalize(pathPrefix);
      var clash := FirstWithKey(routes, hostname, norm);
      if clash.Some? && clash.value.pid != pid && Alive(clash.value.pid, live) then
        if !force then Err(RouteConflict(hostname, norm, clash.value.pid))
        else if clash.value.pid != 0 && (clash.value.owner.None? || !killed) then
          Err(UnsafeRouteReplacement(clash.value.pid))
        else Ok(Retain(op, routes) + [NewRoute(op)])
      else Ok(Retain(op, routes) + [NewRoute(op)])
    case _ => Ok(Retain(op, routes))
  }

  /** Load, then edit: what one locked operation does to the file it found. */
  function Transact(op: Op, file: RoutesFile, atLoad: set<nat>, atCheck: set<nat>, killed: bool)
    : Result<seq<Route>, RouteError>
  {
    match Load(file, atLoad)
    case Err(e) => Err(e)
    case Ok(routes) => Edit(op, routes, atCheck, killed)
  }

  function RoutesOf(file: RoutesFile): seq<Route> {
    if file.Records? then file.routes else []
  }

  // ---------------------------------------------------------------------------
  // What an edit keeps
  // ---------------------------------------------------------------------------

  /** `a` is `b` with some elements left out. */
  ghost predicate Subsequence<T>(a: seq<T>, b: seq<T>) {
    if a == [] then true
    else if b == [] then false
    else (a[0] == b[0] && Subsequence(a[1..], b[1..])) || Subsequence(a, b[1..])
  }

  /** The survivors of one operation, as one list: live at load and not dropped. */
  function Survivors(op: Op, routes: seq<Route>, atLoad: set<nat>): seq<Route> {
    Retain(op, LiveOnly(routes, atLoad))
  }

  lemma {:induction false} LiveOnlyMembers(routes: seq<Route>, live: set<nat>)
    ensures forall r :: r in LiveOnly(routes, live) <==> r in routes && Alive(r.pid, live)
    ensures Subsequence(LiveOnly(routes, live), routes)
  {
    if routes != [] {
      LiveOnlyMembers(routes[1..], live);
      assert routes == [routes[0]] + routes[1..];
      if Alive(routes[0].pid, live) {
        assert LiveOnly(routes, live)[1..] == LiveOnly(routes[1..], live);
      }
    }
  }

  lemma {:induction false} RetainMembers(op: Op, routes: seq<Route>)
    ensures forall r :: r in Retain(op, routes) <==> r in routes && !Drops(op, r)
    ensures Subsequence(Retain(op, routes), routes)
  {
    if routes != [] {
      RetainMembers(op, routes[1..]);
      assert routes == [routes[0]] + routes[1..];
      if !Drops(op, routes[0]) {
        assert Retain(op, routes)[1..] == Retain(op, routes[1..]);
      }
    }
  }

  lemma {:induction false} SubsequenceTransitive<T>(a: seq<T>, b: seq<T>, c: seq<T>)
    requires Subsequence(a, b) && Subsequence(b, c)
    ensures Subsequence(a, c)
    decreases |b| + |c|
  {
    if a != [] {
      if b[0] == c[0] && Subsequence(b[1..], c[1..]) {
        if a[0] == b[0] && Subsequence(a[1..], b[1..]) {
          SubsequenceTransitive(a[1..], b[1..], c[1..]);
        } else {
          SubsequenceTransitive(a, b[1..], c[1..]);
        }
      } else {
        SubsequenceTransitive(a, b, c[1..]);
      }
    }
  }

  /** A committed operation keeps, in their order, exactly the records that were live at load and that it does not
      drop, and puts an added record last. */
  lemma TransactKeepsTheRest(op: Op, file: RoutesFile, atLoad: set<nat>, atCheck: set<nat>, killed: bool)
    requires Transact(op, file, atLoad, atCheck, killed).Ok?
    ensures var after := Transact(op, file, atLoad, atCheck, killed).value;
            var kept := if op.Add? then after[..|after| - 1] else after;
            && (op.Add? ==> after != [] && after[|after| - 1] == NewRoute(op))
            && Subsequence(kept, RoutesOf(file))
            && (forall r :: r in kept <==> r in RoutesOf(file) && Alive(r.pid, atLoad) && !Drops(op, r))
  {
    var routes := RoutesOf(file);
    LiveOnlyMembers(routes, atLoad);
    RetainMembers(op, LiveOnly(routes, atLoad));
    SubsequenceTransitive(Survivors(op, routes, atLoad), LiveOnly(routes, atLoad), routes);
    assert LiveOnly([], atLoad) == [];
    var kept := Survivors(op, routes, atLoad);
    if op.Add? {
      assert (kept + [NewRoute(op)])[..|kept|] == kept;
    }
  }

  // ---------------------------------------------------------------------------
  // Key uniqueness
  // ---------------------------------------------------------------------------

  lemma {:induction false} SubsequenceKeepsKeysUnique(a: seq<Route>, b: seq<Route>)
    requires Subsequence(a, b) && KeysUnique(b)
    ensures KeysUnique(a)
    ensures forall r <- a :: r in b
    decreases |b|
  {
    if a != [] {
      assert KeysUnique(b[1..]);
      if a[0] == b[0] && Subsequence(a[1..], b[1..]) {
        SubsequenceKeepsKeysUnique(a[1..], b[1..]);
        forall i, j | 0 <= i < j < |a|
          ensures !SameKey(a[i], a[j].hostname, Normalize(a[j].pathPrefix))
        {
          if i == 0 {
            assert a[j] == a[1..][j - 1];
            assert a[j] in a[1..];
            var k :| 0 <= k < |b[1..]| && b[1..][k] == a[j];
            assert b[k + 1] == a[j];
          } else {
            assert a[i] == a[1..][i - 1] && a[j] == a[1..][j - 1];
          }
        }
        assert a == [a[0]] + a[1..];
      } else {
        SubsequenceKeepsKeysUnique(a, b[1..]);
      }
      assert b == [b[0]] + b[1..];
    }
  }

  /** A committed operation keeps keys unique, except for an add whose prefix still ends in a slash once normalized:
      that one does so exactly when no kept record already holds the key its own record will be read under. */
  lemma TransactKeepsKeysUniqueExactly(op: Op, file: RoutesFile, atLoad: set<nat>, atCheck: set<nat>, killed: bool)
    requires KeysUnique(RoutesOf(file)) && Transact(op, file, atLoad, atCheck, killed).Ok?
    ensures KeysUnique(Transact(op, file, atLoad, atCheck, killed).value)
      <==> (op.Add? && EndsWith(op.pathPrefix, "//") && op.pathPrefix != "//" ==>
              forall r <- RoutesOf(file) | Alive(r.pid, atLoad) ::
                !SameKey(r, op.hostname, Normalize(Normalize(op.pathPrefix))))
  {
    TransactKeepsTheRest(op, file, atLoad, atCheck, killed);
    var after := Transact(op, file, atLoad, atCheck, killed).value;
    var kept := if op.Add? then after[..|after| - 1] else after;
    SubsequenceKeepsKeysUnique(kept, RoutesOf(file));
    if op.Add? {
      NormalizeIdempotentExactly(op.pathPrefix);
      assert after == kept + [NewRoute(op)];
      AppendKeysUnique(kept, NewRoute(op));
    }
  }

  lemma AppendKeysUnique(kept: seq<Route>, r: Route)
    requires KeysUnique(kept)
    ensures KeysUnique(kept + [r]) <==> forall k <- kept :: !SameKey(k, r.hostname, Normalize(r.pathPrefix))
  {
    var all := kept + [r];
    if KeysUnique(all) {
      forall k | k in kept ensures !SameKey(k, r.hostname, Normalize(r.pathPrefix)) {
        var i :| 0 <= i < |kept| && kept[i] == k;
        assert all[i] == k && all[|kept|] == r;
      }
    }
  }

  // ---------------------------------------------------------------------------
  // Ownership
  // ---------------------------------------------------------------------------

  /** The operations entitled to take a live route away: its own process, a forced add, a matching `remove_route`. */
  predicate Displaces(op: Op, r: Route) {
    match op
    case Add(hostname, _, pid, _, force, _, pathPrefix, _) =>
      SameKey(r, hostname, Normalize(pathPrefix)) && (pid == r.pid || force)
    case Remove(hostname, prefixFilter) => InFilter(r, hostname, prefixFilter)
    case RemoveForPid(hostname, prefixFilter, pid) => InFilter(r, hostname, prefixFilter) && r.pid == pid
  }

  /** `r` is the record an add for its key would find. */
  predicate HoldsKey(routes: seq<Route>, r: Route) {
    FirstWithKey(routes, r.hostname, Normalize(r.pathPrefix)) == Some(r)
  }

  lemma {:induction false} LiveOnlyKeepsHolder(routes: seq<Route>, live: set<nat>, r: Route)
    requires HoldsKey(routes, r) && Alive(r.pid, live)
    ensures HoldsKey(LiveOnly(routes, live), r)
  {
    if !SameKey(routes[0], r.hostname, Normalize(r.pathPrefix)) {
      LiveOnlyKeepsHolder(routes[1..], live, r);
    }
    if Alive(routes[0].pid, live) {
      assert LiveOnly(routes, live)[1..] == LiveOnly(routes[1..], live);
    }
  }

  lemma {:induction false} RetainKeepsHolder(op: Op, routes: seq<Route>, r: Route)
    requires HoldsKey(routes, r) && !Drops(op, r)
    ensures HoldsKey(Retain(op, routes), r)
  {
    if !SameKey(routes[0], r.hostname, Normalize(r.pathPrefix)) {
      RetainKeepsHolder(op, routes[1..], r);
    }
    if !Drops(op, routes[0]) {
      assert Retain(op, routes)[1..] == Retain(op, routes[1..]);
    }
  }

  lemma {:induction false} AppendKeepsHolder(routes: seq<Route>, last: Route, r: Route)
    requires HoldsKey(routes, r)
    ensures HoldsKey(routes + [last], r)
  {
    assert (routes + [last])[0] == routes[0];
    if !SameKey(routes[0], r.hostname, Normalize(r.pathPrefix)) {
      AppendKeepsHolder(routes[1..], last, r);
      assert (routes + [last])[1..] == routes[1..] + [last];
    }
  }

  /** A live route that holds its key is taken away by a committed operation exactly when that operation is entitled
      to it; otherwise the whole record, port and flags included, still holds its key afterwards. */
  lemma LiveRouteKeptUnlessDisplaced(
    op: Op, file: RoutesFile, atLoad: set<nat>, atCheck: set<nat>, killed: bool, r: Route)
    requires HoldsKey(RoutesOf(file), r) && Alive(r.pid, atLoad) && Alive(r.pid, atCheck)
    requires Transact(op, file, atLoad, atCheck, killed).Ok?
    ensures var after := Transact(op, file, atLoad, atCheck, killed).value;
            && (!Displaces(op, r) ==> HoldsKey(after, r))
            && (Displaces(op, r) ==> r !in Survivors(op, RoutesOf(file), atLoad))
  {
    var loaded := LiveOnly(RoutesOf(file), atLoad);
    LiveOnlyKeepsHolder(RoutesOf(file), atLoad, r);
    RetainMembers(op, loaded);
    if !Displaces(op, r) {
      assert !Drops(op, r);
      RetainKeepsHolder(op, loaded, r);
      if op.Add? {
        AppendKeepsHolder(Retain(op, loaded), NewRoute(op), r);
      }
    }
  }

  /** The live record that an add under the key of `r` finds, which may be an earlier one than `r`. */
  function Front(routes: seq<Route>, live: set<nat>, r: Route): Option<Route> {
    FirstWithKey(LiveOnly(routes, live), r.hostname, Normalize(r.pathPrefix))
  }

  /** No committed operation takes `r` away that is not entitled to, as long as the process of `r` is alive. */
  ghost predicate Secure(routes: seq<Route>, live: set<nat>, r: Route) {
    forall op, atCheck, killed |
      Alive(r.pid, atCheck) && !Displaces(op, r) && Transact(op, Records(routes), live, atCheck, killed).Ok? ::
      r in Transact(op, Records(routes), live, atCheck, killed).value
  }

  lemma {:induction false} FirstWithKeyFound(routes: seq<Route>, r: Route)
    requires r in routes
    ensures var first := FirstWithKey(routes, r.hostname, Normalize(r.pathPrefix));
            first.Some? && first.value in routes && SameKey(first.value, r.hostname, Normalize(r.pathPrefix))
  {
    if !SameKey(routes[0], r.hostname, Normalize(r.pathPrefix)) {
      assert r in routes[1..];
      FirstWithKeyFound(routes[1..], r);
    }
  }

  lemma FrontFound(routes: seq<Route>, live: set<nat>, r: Route)
    requires r in routes && Alive(r.pid, live)
    ensures Front(routes, live, r).Some?
    ensures var front := Front(routes, live, r).value;
            front in routes && Alive(front.pid, live) && SameKey(front, r.hostname, Normalize(r.pathPrefix))
  {
    LiveOnlyMembers(routes, live);
    FirstWithKeyFound(LiveOnly(routes, live), r);
  }

  lemma OwnFrontSecures(
    op: Op, routes: seq<Route>, live: set<nat>, atCheck: set<nat>, killed: bool, r: Route)
    requires r in routes && Alive(r.pid, live) && Alive(r.pid, atCheck) && !Displaces(op, r)
    requires Front(routes, live, r).Some? && Front(routes, live, r).value.pid == r.pid
    requires Transact(op, Records(routes), live, atCheck, killed).Ok?
    ensures r in Transact(op, Records(routes), live, atCheck, killed).value
  {
    LiveOnlyMembers(routes, live);
    RetainMembers(op, LiveOnly(routes, live));
    assert !Drops(op, r);
  }

  /** The first live record with the key of `r` belongs to the process of `r`. */
  predicate OwnFront(routes: seq<Route>, live: set<nat>, r: Route) {
    Front(routes, live, r).Some? && Front(routes, live, r).value.pid == r.pid
  }

  lemma {:induction false} FirstSurvivesLoad(routes: seq<Route>, live: set<nat>, hostname: string, norm: string)
    requires FirstWithKey(routes, hostname, norm).Some? && Alive(FirstWithKey(routes, hostname, norm).value.pid, live)
    ensures FirstWithKey(LiveOnly(routes, live), hostname, norm) == FirstWithKey(routes, hostname, norm)
  {
    if !SameKey(routes[0], hostname, norm) {
      FirstSurvivesLoad(routes[1..], live, hostname, norm);
    }
    if Alive(routes[0].pid, live) {
      assert LiveOnly(routes, live)[1..] == LiveOnly(routes[1..], live);
    }
  }

  lemma {:induction false} FirstSurvivesEdit(op: Op, routes: seq<Route>, hostname: string, norm: string)
    requires FirstWithKey(routes, hostname, norm).Some? && !Drops(op, FirstWithKey(routes, hostname, norm).value)
    ensures FirstWithKey(Retain(op, routes), hostname, norm) == FirstWithKey(routes, hostname, norm)
  {
    if !SameKey(routes[0], hostname, norm) {
      FirstSurvivesEdit(op, routes[1..], hostname, norm);
    }
    if !Drops(op, routes[0]) {
      assert Retain(op, routes)[1..] == Retain(op, routes[1..]);
    }
  }

  lemma {:induction false} FirstSurvivesAppend(routes: seq<Route>, last: Route, hostname: string, norm: string)
    requires FirstWithKey(routes, hostname, norm).Some?
    ensures FirstWithKey(routes + [last], hostname, norm) == FirstWithKey(routes, hostname, norm)
  {
    assert (routes + [last])[0] == routes[0];
    if !SameKey(routes[0], hostname, norm) {
      FirstSurvivesAppend(routes[1..], last, hostname, norm);
      assert (routes + [last])[1..] == routes[1..] + [last];
    }
  }

  /** As long as fewer processes live, and that of `r` among them, the front stays what it was. */
  lemma {:induction false} FrontOfFewer(routes: seq<Route>, live: set<nat>, fewer: set<nat>, r: Route)
    requires OwnFront(routes, live, r) && Alive(r.pid, fewer)
    requires forall k <- routes | SameKey(k, r.hostname, Normalize(r.pathPrefix)) && Alive(k.pid, fewer) :: Alive(k.pid, live)
    ensures Front(routes, fewer, r) == Front(routes, live, r)
  {
    if routes != [] {
      var tail := routes[1..];
      assert routes == [routes[0]] + tail;
      assert Alive(routes[0].pid, live) ==> LiveOnly(routes, live)[1..] == LiveOnly(tail, live);
      assert Alive(routes[0].pid, fewer) ==> LiveOnly(routes, fewer)[1..] == LiveOnly(tail, fewer);
      if !(SameKey(routes[0], r.hostname, Normalize(r.pathPrefix)) && Alive(routes[0].pid, live)) {
        FrontOfFewer(tail, live, fewer, r);
      }
    }
  }

  /** A committed operation that is not entitled to `r` keeps it and its front, which then comes first of all with the
      key, dead ones included. */
  lemma OwnFrontKept(
    op: Op, file: RoutesFile, atLoad: set<nat>, atCheck: set<nat>, killed: bool, r: Route)
    requires r in RoutesOf(file) && Alive(r.pid, atLoad) && Alive(r.pid, atCheck) && !Displaces(op, r)
    requires OwnFront(RoutesOf(file), atLoad, r) && Transact(op, file, atLoad, atCheck, killed).Ok?
    ensures var after := Transact(op, file, atLoad, atCheck, killed).value;
            && r in after
            && FirstWithKey(after, r.hostname, Normalize(r.pathPrefix)) == Front(RoutesOf(file), atLoad, r)
  {
    var norm, loaded := Normalize(r.pathPrefix), LiveOnly(RoutesOf(file), atLoad);
    OwnFrontSecures(op, RoutesOf(file), atLoad, atCheck, killed, r);
    var front := Front(RoutesOf(file), atLoad, r).value;
    FirstHasKey(loaded, r.hostname, norm);
    assert !Drops(op, front);
    FirstSurvivesEdit(op, loaded, r.hostname, norm);
    if op.Add? {
      FirstSurvivesAppend(Retain(op, loaded), NewRoute(op), r.hostname, norm);
    }
  }

  lemma {:induction false} FirstHasKey(routes: seq<Route>, hostname: string, norm: string)
    requires FirstWithKey(routes, hostname, norm).Some?
    ensures SameKey(FirstWithKey(routes, hostname, norm).value, hostname, norm)
  {
    if !SameKey(routes[0], hostname, norm) { FirstHasKey(routes[1..], hostname, norm); }
  }

  /** The unforced add that the process of `front` may make: it replaces what has its key. */
  function Reregistration(front: Route, r: Route): Op {
    Add(r.hostname, front.port, front.pid, front.owner, false, front.changeOrigin, r.pathPrefix, front.stripPrefix)
  }

  lemma ForeignFrontDisplaces(routes: seq<Route>, live: set<nat>, r: Route)
    requires r in routes && Alive(r.pid, live)
    requires Front(routes, live, r).Some? && Front(routes, live, r).value.pid != r.pid
    ensures var op := Reregistration(Front(routes, live, r).value, r);
            && !Displaces(op, r) && Transact(op, Records(routes), live, live, false).Ok?
            && r !in Transact(op, Records(routes), live, live, false).value
  {
    var op := Reregistration(Front(routes, live, r).value, r);
    RetainMembers(op, LiveOnly(routes, live));
    assert NewRoute(op) != r;
  }

  /** A live record is safe from everybody but those entitled to it exactly when the first live record with its key,
      itself or an earlier one, belongs to the same process. */
  lemma SecureExactly(routes: seq<Route>, live: set<nat>, r: Route)
    requires r in routes && Alive(r.pid, live)
    ensures Front(routes, live, r).Some?
    ensures Secure(routes, live, r) <==> Front(routes, live, r).value.pid == r.pid
  {
    FrontFound(routes, live, r);
    var front := Front(routes, live, r).value;
    if front.pid == r.pid {
      forall op, atCheck, killed |
        Alive(r.pid, atCheck) && !Displaces(op, r) && Transact(op, Records(routes), live, atCheck, killed).Ok?
        ensures r in Transact(op, Records(routes), live, atCheck, killed).value
      {
        OwnFrontSecures(op, routes, live, atCheck, killed, r);
      }
    } else {
      ForeignFrontDisplaces(routes, live, r);
    }
  }

  /** Registries in which the first record belongs to somebody else do arise: from one normalized record, by an add
      whose prefix ends in two slashes. */
  lemma HalfNormalizedAddIsInsecure()
    ensures exists file: RoutesFile, op: Op, live: set<nat> ::
              && file.Records? && (forall r <- file.routes :: Normalize(r.pathPrefix) == r.pathPrefix)
              && op.Add? && Alive(op.pid, live)
              && Transact(op, file, live, live, false).Ok?
              && !Secure(Transact(op, file, live, live, false).value, live, NewRoute(op))
  {
    var front := Route("a.localhost", 4000, 7, false, "/api", false, None);
    var op := Add("a.localhost", 4001, 8, None, false, false, "/api//", false);
    var live: set<nat> := {7, 8};
    var prefix := "/api";
    assert "/api//"[..5] == "/api/" && "/api/"[..4] == prefix && prefix[3] == 'i';
    assert Normalize(prefix) == prefix && Normalize("/api//") == "/api/" && Normalize("/api/") == prefix;
    assert "/api/" != prefix;
    var file := Records([front]);
    assert LiveOnly([front], live) == [front] by { assert LiveOnly([], live) == []; }
    assert !SameKey(front, op.hostname, Normalize(op.pathPrefix));
    assert FirstWithKey([front], op.hostname, "/api/") == None by { assert [front][1..] == []; }
    assert Retain(op, [front]) == [front] by { assert [front][1..] == []; }
    var after := [front] + [NewRoute(op)];
    assert Transact(op, file, live, live, false) == Ok(after);
    assert LiveOnly(after, live)[0] == front;
    assert after[1] == NewRoute(op);
    SecureExactly(after, live, NewRoute(op));
  }

  /** Exit cleanup only ever removes records of the process that exits, so it cannot delete its replacement. */
  lemma CleanupSparesReplacement(
    hostname: string, prefixFilter: Option<string>, pid: nat, file: RoutesFile, atLoad: set<nat>, atCheck: set<nat>,
    killed: bool, r: Route)
    requires r in RoutesOf(file) && Alive(r.pid, atLoad)
    requires Transact(RemoveForPid(hostname, prefixFilter, pid), file, atLoad, atCheck, killed).Ok?
    ensures r in Transact(RemoveForPid(hostname, prefixFilter, pid), file, atLoad, atCheck, killed).value
      <==> !(InFilter(r, hostname, prefixFilter) && r.pid == pid)
  {
    TransactKeepsTheRest(RemoveForPid(hostname, prefixFilter, pid), file, atLoad, atCheck, killed);
  }

  // ---------------------------------------------------------------------------
  // The store
  // ---------------------------------------------------------------------------

  const LOCK_MAX_RETRIES := 20

  /** What the operating system answers to one attempt at creating the lock directory. */
  datatype CreateDirAnswer = Created | AlreadyExists(stale: bool) | OtherError

  /** What becomes of a write: a failing one can leave anything in the file. */
  datatype WriteAnswer = Written | WriteFails(left: RoutesFile)

  /** What the surroundings do during one locked operation: the answers to the lock attempts, the processes alive
      when the file is loaded and when the conflict is checked, whether a requested kill succeeds, and the write. */
  datatype Surroundings = Surroundings(
    answers: seq<CreateDirAnswer>, atLoad: set<nat>, atCheck: set<nat>, killed: bool, write: WriteAnswer)

  /** Some attempt creates the directory, and every attempt before it found one. */
  predicate Acquires(answers: seq<CreateDirAnswer>) {
    exists k | 0 <= k < |answers| :: answers[k].Created? && forall i | 0 <= i < k :: answers[i].AlreadyExists?
  }

  function LockOutcome(answers: seq<CreateDirAnswer>): Result<(), RouteError> {
    if Acquires(answers) then Ok(())
    else if forall i | 0 <= i < |answers| :: answers[i].AlreadyExists? then Err(LockFailed)
    else Err(Io)
  }

  /** The whole of one locked operation: what it reports. */
  function Reports(op: Op, file: RoutesFile, env: Surroundings): Result<(), RouteError> {
    match LockOutcome(env.answers)
    case Err(e) => Err(e)
    case Ok(_) =>
      match Transact(op, file, env.atLoad, env.atCheck, env.killed)
      case Err(e) => Err(e)
      case Ok(_) => if env.write.Written? then Ok(()) else Err(Io)
  }

  /** Whether it comes as far as writing. */
  predicate Writes(op: Op, file: RoutesFile, env: Surroundings) {
    LockOutcome(env.answers).Ok? && Transact(op, file, env.atLoad, env.atCheck, env.killed).Ok?
  }

  /** What it leaves in the file: any failure but that of the write itself leaves it as it was. */
  function Leaves(op: Op, file: RoutesFile, env: Surroundings): RoutesFile {
    if !Writes(op, file, env) then file
    else
      match env.write
      case Written => Records(Transact(op, file, env.atLoad, env.atCheck, env.killed).value)
      case WriteFails(left) => left
  }

  /** Whom it asks the platform to kill, once it holds the lock. */
  function Signals(op: Op, file: RoutesFile, env: Surroundings): seq<RouteOwner> {
    if LockOutcome(env.answers).Err? || Load(file, env.atLoad).Err? then []
    else
      match Victim(op, Load(file, env.atLoad).value, env.atCheck)
      case None => []
      case Some(owner) => [owner]
  }

  // ---------------------------------------------------------------------------
  // What an operation does, from the file before to the file after
  // ---------------------------------------------------------------------------

  /** Nothing fails that has nothing to do with the records. */
  predicate AllWell(env: Surroundings, file: RoutesFile) {
    LockOutcome(env.answers).Ok? && env.write.Written? && !file.Garbled?
  }

  /** Record `i` is the first one with the key that was alive when the file was loaded. */
  ghost predicate FirstAlive(routes: seq<Route>, i: int, live: set<nat>, hostname: string, norm: string) {
    && 0 <= i < |routes|
    && routes[i].hostname == hostname && Normalize(routes[i].pathPrefix) == norm && Alive(routes[i].pid, live)
    && forall j | 0 <= j < i && routes[j].hostname == hostname && Normalize(routes[j].pathPrefix) == norm ::
         !Alive(routes[j].pid, live)
  }

  lemma {:induction false} FirstAliveIsFound(routes: seq<Route>, i: int, live: set<nat>, hostname: string, norm: string)
    requires FirstAlive(routes, i, live, hostname, norm)
    ensures FirstWithKey(LiveOnly(routes, live), hostname, norm) == Some(routes[i])
  {
    var tail := routes[1..];
    assert Alive(routes[0].pid, live) ==> LiveOnly(routes, live)[1..] == LiveOnly(tail, live);
    if i > 0 {
      assert FirstAlive(tail, i - 1, live, hostname, norm) by {
        assert forall j | 0 <= j < i - 1 :: tail[j] == routes[j + 1];
      }
      FirstAliveIsFound(tail, i - 1, live, hostname, norm);
    }
  }

  lemma {:induction false} NoneAliveIsFound(routes: seq<Route>, live: set<nat>, hostname: string, norm: string)
    requires forall i :: !FirstAlive(routes, i, live, hostname, norm)
    ensures FirstWithKey(LiveOnly(routes, live), hostname, norm) == None
  {
    if routes != [] {
      var tail := routes[1..];
      assert !FirstAlive(routes, 0, live, hostname, norm);
      assert Alive(routes[0].pid, live) ==> LiveOnly(routes, live)[1..] == LiveOnly(tail, live);
      forall i ensures !FirstAlive(tail, i, live, hostname, norm) {
        if FirstAlive(tail, i, live, hostname, norm) {
          assert forall j | 0 < j < i + 1 :: routes[j] == tail[j - 1];
          assert FirstAlive(routes, i + 1, live, hostname, norm);
        }
      }
      NoneAliveIsFound(tail, live, hostname, norm);
    }
  }

  /** The add went through: the file holds a list that ends in a record with all that was asked for. */
  ghost predicate Registered(op: Op, file: RoutesFile)
    requires op.Add?
  {
    && file.Records? && file.routes != []
    && var last := file.routes[|file.routes| - 1];
       && last.hostname == op.hostname && last.port == op.port && last.pid == op.pid && last.owner == op.owner
       && last.changeOrigin == op.changeOrigin && last.stripPrefix == op.stripPrefix
       && last.pathPrefix == Normalize(op.pathPrefix)
  }

  /** An add whose key no living process of anybody else holds goes through and asks for nobody's life. */
  lemma UncontestedAddRegisters(op: Op, file: RoutesFile, env: Surroundings)
    requires op.Add? && AllWell(env, file)
    requires forall i | FirstAlive(RoutesOf(file), i, env.atLoad, op.hostname, Normalize(op.pathPrefix)) ::
               RoutesOf(file)[i].pid == op.pid || !Alive(RoutesOf(file)[i].pid, env.atCheck)
    ensures Reports(op, file, env) == Ok(()) && Registered(op, Leaves(op, file, env)) && Signals(op, file, env) == []
  {
    var routes, norm := RoutesOf(file), Normalize(op.pathPrefix);
    assert LiveOnly([], env.atLoad) == [];
    if i :| FirstAlive(routes, i, env.atLoad, op.hostname, norm) {
      FirstAliveIsFound(routes, i, env.atLoad, op.hostname, norm);
    } else {
      NoneAliveIsFound(routes, env.atLoad, op.hostname, norm);
    }
  }

  /** An add against the living process of somebody else: it goes through exactly if it is forced and the record is
      static, or names an owner whom the platform then killed. Otherwise it says why, and the file stays. That owner is
      asked for exactly if it is forced, and nobody else ever is. */
  lemma ContestedAddExactly(op: Op, file: RoutesFile, env: Surroundings, i: int)
    requires op.Add? && AllWell(env, file)
    requires FirstAlive(RoutesOf(file), i, env.atLoad, op.hostname, Normalize(op.pathPrefix))
    requires RoutesOf(file)[i].pid != op.pid && Alive(RoutesOf(file)[i].pid, env.atCheck)
    ensures var r := RoutesOf(file)[i];
            var goesThrough := op.force && (r.pid == 0 || (r.owner.Some? && env.killed));
            && (goesThrough ==> Reports(op, file, env) == Ok(()) && Registered(op, Leaves(op, file, env)))
            && (!goesThrough ==>
                  && Leaves(op, file, env) == file
                  && Reports(op, file, env)
                     == Err(if op.force then UnsafeRouteReplacement(r.pid)
                            else RouteConflict(op.hostname, Normalize(op.pathPrefix), r.pid)))
            && Signals(op, file, env) == if op.force && r.pid != 0 && r.owner.Some? then [r.owner.value] else []
  {
    FirstAliveIsFound(RoutesOf(file), i, env.atLoad, op.hostname, Normalize(op.pathPrefix));
  }

  /** So a living dynamic route is displaced by the add of another process exactly if that was forced, the record names
      an owner, that owner was signalled and the kill worked. */
  lemma DisplacedExactly(op: Op, file: RoutesFile, env: Surroundings, i: int)
    requires op.Add? && AllWell(env, file)
    requires FirstAlive(RoutesOf(file), i, env.atLoad, op.hostname, Normalize(op.pathPrefix))
    requires var r := RoutesOf(file)[i]; r.pid != op.pid && r.pid != 0 && Alive(r.pid, env.atCheck)
    ensures var r := RoutesOf(file)[i];
            r !in RoutesOf(Leaves(op, file, env))
            <==> op.force && r.owner.Some? && Signals(op, file, env) == [r.owner.value] && env.killed
  {
    var r := RoutesOf(file)[i];
    ContestedAddExactly(op, file, env, i);
    if op.force && r.owner.Some? && env.killed {
      TransactKeepsTheRest(op, file, env.atLoad, env.atCheck, env.killed);
      var after := RoutesOf(Leaves(op, file, env));
      assert after == after[..|after| - 1] + [NewRoute(op)];
    }
  }

  /** Whoever is signalled owns a living dynamic record of another process, and the add was forced. */
  lemma SignalledOnlyIfForced(op: Op, file: RoutesFile, env: Surroundings, owner: RouteOwner)
    requires owner in Signals(op, file, env)
    ensures op.Add? && op.force && Signals(op, file, env) == [owner]
    ensures exists r <- RoutesOf(file) ::
              r.owner == Some(owner) && r.hostname == op.hostname && r.pid != op.pid && r.pid != 0
              && Alive(r.pid, env.atLoad) && Alive(r.pid, env.atCheck)
  {
    var routes := RoutesOf(file);
    assert LiveOnly([], env.atLoad) == [];
    if i :| FirstAlive(routes, i, env.atLoad, op.hostname, Normalize(op.pathPrefix)) {
      FirstAliveIsFound(routes, i, env.atLoad, op.hostname, Normalize(op.pathPrefix));
      assert routes[i] in routes;
    } else {
      NoneAliveIsFound(routes, env.atLoad, op.hostname, Normalize(op.pathPrefix));
    }
  }

  /** Without the lock, and on a file that cannot be read, nothing is touched and nobody signalled. */
  lemma NothingTouched(op: Op, file: RoutesFile, env: Surroundings)
    requires LockOutcome(env.answers).Err? || file.Garbled?
    ensures Reports(op, file, env).Err? && Leaves(op, file, env) == file && Signals(op, file, env) == []
  {
  }

  /** What a removal leaves, of the records of living processes: without a prefix none of the hostname, with one those
      under another prefix, and in a cleanup also those of other processes. */
  lemma RemovalTakesExactly(op: Op, file: RoutesFile, env: Surroundings, r: Route)
    requires !op.Add? && AllWell(env, file)
    ensures Reports(op, file, env) == Ok(()) && Leaves(op, file, env).Records?
    ensures r in RoutesOf(Leaves(op, file, env)) <==>
            && r in RoutesOf(file) && (r.pid == 0 || r.pid in env.atLoad)
            && !(&& r.hostname == op.hostname
                 && (op.prefixFilter.Some? ==> Normalize(r.pathPrefix) == Normalize(op.prefixFilter.value))
                 && (op.RemoveForPid? ==> r.pid == op.pid))
  {
    assert LiveOnly([], env.atLoad) == [];
    TransactKeepsTheRest(op, file, env.atLoad, env.atCheck, env.killed);
  }

  class RouteStore {
    var file: RoutesFile
    /** The owners the platform was asked to kill, in order. */
    var signalled: seq<RouteOwner>

    constructor (file: RoutesFile)
      ensures this.file == file && signalled == []
    {
      this.file := file;
      signalled := [];
    }

    /** The retry loop. Whether a lock that is found is old enough to be broken makes a difference to the other
        processes, which `LockProtocol` follows, but not to how many attempts there are. */
    method AcquireLock(answers: seq<CreateDirAnswer>) returns (r: Result<(), RouteError>)
      requires |answers| == LOCK_MAX_RETRIES
      ensures r == LockOutcome(answers)
    {
      for attempt := 0 to LOCK_MAX_RETRIES
        invariant forall i | 0 <= i < attempt :: answers[i].AlreadyExists?
      {
        match answers[attempt]
        case Created => return Ok(());
        case OtherError => return Err(Io);
        case AlreadyExists(_) =>
      }
      return Err(LockFailed);
    }

    method LoadRoutes(live: set<nat>) returns (r: Result<seq<Route>, RouteError>)
      ensures r == Load(file, live)
    {
      match file
      case Missing => return Ok([]);
      case Garbled => return Err(Malformed);
      case Records(routes) =>
        var alive: seq<Route> := [];
        for i := 0 to |routes|
          invariant LiveOnly(routes, live) == alive + LiveOnly(routes[i..], live)
        {
          if Alive(routes[i].pid, live) {
            alive := alive + [routes[i]];
          }
          assert routes[i..][1..] == routes[i + 1..];
        }
        assert alive + LiveOnly([], live) == alive;
        return Ok(alive);
    }

    method SaveRoutes(routes: seq<Route>, write: WriteAnswer) returns (r: Result<(), RouteError>)
      modifies this`file
      ensures r == if write.Written? then Ok(()) else Err(Io)
      ensures file == match write case Written => Records(routes) case WriteFails(left) => left
    {
      if write.WriteFails? {
        file := write.left;
        return Err(Io);
      }
      file := Records(routes);
      return Ok(());
    }

    method AddRouteWithOwner(
      hostname: string, port: nat, pid: nat, owner: Option<RouteOwner>, force: bool, changeOrigin: bool,
      pathPrefix: string, stripPrefix: bool, env: Surroundings) returns (r: Result<(), RouteError>)
      requires |env.answers| == LOCK_MAX_RETRIES
      modifies this
      ensures var op := Add(hostname, port, pid, owner, force, changeOrigin, pathPrefix, stripPrefix);
              && r == Reports(op, old(file), env)
              && file == Leaves(op, old(file), env)
              && signalled == old(signalled) + Signals(op, old(file), env)
    {
      var lock := AcquireLock(env.answers);
      if lock.Err? { return Err(lock.error); }
      var norm := NormalizePathPrefix(pathPrefix);
      var loaded := LoadRoutes(env.atLoad);
      if loaded.Err? { return Err(loaded.error); }
      var routes := loaded.value;
      var clash := FirstWithKey(routes, hostname, norm);
      if clash.Some? && clash.value.pid != pid && Alive(clash.value.pid, env.atCheck) {
        if !force {
          return Err(RouteConflict(hostname, norm, clash.value.pid));
        }
        if clash.value.pid != 0 {
          if clash.value.owner.None? {
            return Err(UnsafeRouteReplacement(clash.value.pid));
          }
          signalled := signalled + [clash.value.owner.value];
          if !env.killed {
            return Err(UnsafeRouteReplacement(clash.value.pid));
          }
        }
      }
      var op := Add(hostname, port, pid, owner, force, changeOrigin, pathPrefix, stripPrefix);
      routes := Retain(op, routes) + [Route(hostname, port, pid, changeOrigin, norm, stripPrefix, owner)];
      r := SaveRoutes(routes, env.write);
    }

    method RemoveRoute(hostname: string, prefixFilter: Option<string>, env: Surroundings)
      returns (r: Result<(), RouteError>)
      requires |env.answers| == LOCK_MAX_RETRIES
      modifies this`file
      ensures r == Reports(Remove(hostname, prefixFilter), old(file), env)
      ensures file == Leaves(Remove(hostname, prefixFilter), old(file), env)
    {
      var lock := AcquireLock(env.answers);
      if lock.Err? { return Err(lock.error); }
      var loaded := LoadRoutes(env.atLoad);
      if loaded.Err? { return Err(loaded.error); }
      r := SaveRoutes(Retain(Remove(hostname, prefixFilter), loaded.value), env.write);
    }

    method RemoveRouteForPid(hostname: string, prefixFilter: Option<string>, pid: nat, env: Surroundings)
      returns (r: Result<(), RouteError>)
      requires |env.answers| == LOCK_MAX_RETRIES
      modifies this`file
      ensures r == Reports(RemoveForPid(hostname, prefixFilter, pid), old(file), env)
      ensures file == Leaves(RemoveForPid(hostname, prefixFilter, pid), old(file), env)
    {
      var lock := AcquireLock(env.answers);
      if lock.Err? { return Err(lock.error); }
      var loaded := LoadRoutes(env.atLoad);
      if loaded.Err? { return Err(loaded.error); }
      r := SaveRoutes(Retain(RemoveForPid(hostname, prefixFilter, pid), loaded.value), env.write);
    }
  }
}
