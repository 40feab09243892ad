/** Choosing the route for a request: the longest matching prefix, first come on ties. */
module Routing {
  import opened Text
  import opened Routes
  import opened PathPrefix
  import opened HostNames

  predicate Matches(r: Route, host: string, path: string, domains: seq<string>) {
    HostnameMatches(r.hostname, host, domains) && PathMatchesPrefix(path, r.pathPrefix)
  }

  function Candidates(host: string, path: string, routes: seq<Route>, domains: seq<string>): seq<Route> {
    if routes == [] then []
    else if Matches(routes[0], host, path, domains) then
      [routes[0]] + Candidates(host, path, routes[1..], domains)
    else Candidates(host, path, routes[1..], domains)
  }

  /** The library's stable sort, longest prefix (in bytes) first. */
  function SortByPrefix(routes: seq<Route>): seq<Route> {
    if routes == [] then [] else Insert(routes[0], SortByPrefix(routes[1..]))
  }

  function Insert(r: Route, sorted: seq<Route>): (out: seq<Route>)
    ensures out != []
  {
    if sorted == [] || Utf8Len(r.pathPrefix) >= Utf8Len(sorted[0].pathPrefix) then [r] + sorted
    else [sorted[0]] + Insert(r, sorted[1..])
  }

  predicate LongestFirst(routes: seq<Route>) {
    |routes| <= 1
    || (Utf8Len(routes[0].pathPrefix) >= Utf8Len(routes[1].pathPrefix) && LongestFirst(routes[1..]))
  }

  function OfLength(routes: seq<Route>, n: nat): seq<Route> {
    if routes == [] then []
    else if Utf8Len(routes[0].pathPrefix) == n then [routes[0]] + OfLength(routes[1..], n)
    else OfLength(routes[1..], n)
  }

  /** It is a stable sort: ordered by length, and within each length the records and their order are untouched. */
  lemma {:induction false} SortIsStable(routes: seq<Route>, n: nat)
    ensures LongestFirst(SortByPrefix(routes))
    ensures OfLength(SortByPrefix(routes), n) == OfLength(routes, n)
  {
    if routes != [] {
      SortIsStable(routes[1..], n);
      InsertIsStable(routes[0], SortByPrefix(routes[1..]), n);
      assert ([routes[0]] + SortByPrefix(routes[1..]))[1..] == SortByPrefix(routes[1..]);
    }
  }

  lemma {:induction false} InsertIsStable(r: Route, sorted: seq<Route>, n: nat)
    requires LongestFirst(sorted)
    ensures LongestFirst(Insert(r, sorted))
    ensures OfLength(Insert(r, sorted), n) == OfLength([r] + sorted, n)
  {
    assert ([r] + sorted)[1..] == sorted;
    if sorted != [] && Utf8Len(r.pathPrefix) < Utf8Len(sorted[0].pathPrefix) {
      var out := Insert(r, sorted[1..]);
      InsertIsStable(r, sorted[1..], n);
      assert ([r] + sorted[1..])[1..] == sorted[1..];
      assert ([sorted[0]] + out)[1..] == out;
      assert Insert(r, sorted) == [sorted[0]] + out;
      assert out[0] == r || (|sorted| > 1 && out[0] == sorted[1]);
    }
  }

  function Best(host: string, path: string, routes: seq<Route>, domains: seq<string>): Option<Route> {
    var sorted := SortByPrefix(Candidates(host, path, routes, domains));
    if sorted == [] then None else Some(sorted[0])
  }

  method FindRoute(host: string, path: string, routes: seq<Route>, domains: seq<string>)
    returns (best: Option<Route>)
    ensures best == Best(host, path, routes, domains)
    ensures best.None? <==> forall r <- routes :: !Matches(r, host, path, domains)
    ensures best.Some? ==> exists i :: FirstLongest(i, host, path, routes, domains) && routes[i] == best.value
  {
    var candidates: seq<Route> := [];
    for i := 0 to |routes|
      invariant Candidates(host, path, routes, domains) == candidates + Candidates(host, path, routes[i..], domains)
    {
      assert routes[i..][1..] == routes[i + 1..];
      if Matches(routes[i], host, path, domains) {
        candidates := candidates + [routes[i]];
      }
    }
    assert candidates + Candidates(host, path, [], domains) == candidates;
    candidates := SortByPrefix(candidates);
    BestIsFirstLongest(host, path, routes, domains);
    best := if candidates == [] then None else Some(candidates[0]);
  }

  /** Entry `i` matches, is longer than every matching entry before it and no shorter than any after it. */
  ghost predicate FirstLongest(i: int, host: string, path: string, routes: seq<Route>, domains: seq<string>) {
    && 0 <= i < |routes|
    && Matches(routes[i], host, path, domains)
    && (forall j | 0 <= j < i && Matches(routes[j], host, path, domains) ::
          Utf8Len(routes[j].pathPrefix) < Utf8Len(routes[i].pathPrefix))
    && (forall j | i <= j < |routes| && Matches(routes[j], host, path, domains) ::
          Utf8Len(routes[j].pathPrefix) <= Utf8Len(routes[i].pathPrefix))
  }

  lemma {:induction false} BestIsFirstLongest(host: string, path: string, routes: seq<Route>, domains: seq<string>)
    ensures Best(host, path, routes, domains).None? <==> forall r <- routes :: !Matches(r, host, path, domains)
    ensures Best(host, path, routes, domains).Some? ==>
      exists i :: FirstLongest(i, host, path, routes, domains) && routes[i] == Best(host, path, routes, domains).value
  {
    if routes != [] {
      var tail := routes[1..];
      BestIsFirstLongest(host, path, tail, domains);
      assert routes == [routes[0]] + tail;
      var best := Best(host, path, tail, domains);
      if Matches(routes[0], host, path, domains) {
        assert Candidates(host, path, routes, domains)[1..] == Candidates(host, path, tail, domains);
      }
      if best.Some? {
        var k :| FirstLongest(k, host, path, tail, domains) && tail[k] == best.value;
        assert routes[k + 1] == tail[k];
        if Matches(routes[0], host, path, domains)
           && Utf8Len(routes[0].pathPrefix) >= Utf8Len(best.value.pathPrefix) {
          forall j | 0 <= j < |routes| && Matches(routes[j], host, path, domains)
            ensures Utf8Len(routes[j].pathPrefix) <= Utf8Len(routes[0].pathPrefix)
          {
            if j > 0 { assert routes[j] == tail[j - 1]; }
          }
          assert FirstLongest(0, host, path, routes, domains);
        } else {
          forall j | 0 <= j < |routes| && Matches(routes[j], host, path, domains)
            ensures Utf8Len(routes[j].pathPrefix) <= Utf8Len(best.value.pathPrefix)
            ensures j < k + 1 ==> Utf8Len(routes[j].pathPrefix) < Utf8Len(best.value.pathPrefix)
          {
            if j > 0 { assert routes[j] == tail[j - 1]; }
          }
          assert FirstLongest(k + 1, host, path, routes, domains);
        }
      } else if Matches(routes[0], host, path, domains) {
        forall j | 1 <= j < |routes| ensures !Matches(routes[j], host, path, domains) {
          assert routes[j] == tail[j - 1];
        }
        assert FirstLongest(0, host, path, routes, domains);
      }
    }
  }

  // ---------------------------------------------------------------------------
  // When the order of the list matters
  // ---------------------------------------------------------------------------

  ghost predicate Longest(r: Route, host: string, path: string, routes: seq<Route>, domains: seq<string>) {
    && r in routes && Matches(r, host, path, domains)
    && forall s <- routes | Matches(s, host, path, domains) :: Utf8Len(s.pathPrefix) <= Utf8Len(r.pathPrefix)
  }

  ghost predicate Reordering(a: seq<Route>, b: seq<Route>) {
    multiset(a) == multiset(b)
  }

  lemma BestIsLongest(host: string, path: string, routes: seq<Route>, domains: seq<string>)
    ensures var best := Best(host, path, routes, domains);
            if best.Some? then Longest(best.value, host, path, routes, domains)
            else forall r :: !Longest(r, host, path, routes, domains)
  {
    BestIsFirstLongest(host, path, routes, domains);
    var best := Best(host, path, routes, domains);
    if best.Some? {
      var i :| FirstLongest(i, host, path, routes, domains) && routes[i] == best.value;
      forall s | s in routes && Matches(s, host, path, domains)
        ensures Utf8Len(s.pathPrefix) <= Utf8Len(best.value.pathPrefix)
      {
        var j :| 0 <= j < |routes| && routes[j] == s;
      }
    }
  }

  lemma ReorderingKeepsLongest(r: Route, host: string, path: string, a: seq<Route>, b: seq<Route>, domains: seq<string>)
    requires Reordering(a, b)
    ensures Longest(r, host, path, a, domains) <==> Longest(r, host, path, b, domains)
  {
    assert forall s :: s in a <==> s in multiset(a);
    assert forall s :: s in b <==> s in multiset(b);
  }

  /** A list that starts with a longest match answers with it. */
  lemma LongestFirstWins(r: Route, rest: seq<Route>, host: string, path: string, domains: seq<string>)
    requires Longest(r, host, path, [r] + rest, domains)
    ensures Best(host, path, [r] + rest, domains) == Some(r)
  {
    var routes := [r] + rest;
    BestIsFirstLongest(host, path, routes, domains);
    var i :| FirstLongest(i, host, path, routes, domains)
          && routes[i] == Best(host, path, routes, domains).value;
    assert routes[0] == r;
    assert routes[i] in routes;
  }

  lemma ToFront(r: Route, routes: seq<Route>) returns (rest: seq<Route>)
    requires r in routes
    ensures Reordering([r] + rest, routes)
  {
    var i :| 0 <= i < |routes| && routes[i] == r;
    rest := routes[..i] + routes[i + 1..];
    assert routes == routes[..i] + [r] + routes[i + 1..];
  }

  lemma OneLongestFixesBest(
    host: string, path: string, routes: seq<Route>, domains: seq<string>, other: seq<Route>)
    requires Reordering(other, routes)
    requires forall a, b |
               Longest(a, host, path, routes, domains) && Longest(b, host, path, routes, domains) :: a == b
    ensures Best(host, path, other, domains) == Best(host, path, routes, domains)
  {
    BestIsLongest(host, path, routes, domains);
    BestIsLongest(host, path, other, domains);
    forall r {
      ReorderingKeepsLongest(r, host, path, other, routes, domains);
    }
  }

  /** A longest match wins once it is moved to the front. */
  lemma LongestCanWin(r: Route, host: string, path: string, routes: seq<Route>, domains: seq<string>)
    returns (other: seq<Route>)
    requires Longest(r, host, path, routes, domains)
    ensures Reordering(other, routes) && Best(host, path, other, domains) == Some(r)
  {
    var rest := ToFront(r, routes);
    other := [r] + rest;
    ReorderingKeepsLongest(r, host, path, other, routes, domains);
    LongestFirstWins(r, rest, host, path, domains);
  }

  /** The answer survives every reordering of the list exactly when all longest matches are the same record. */
  lemma OrderIrrelevantExactly(host: string, path: string, routes: seq<Route>, domains: seq<string>)
    ensures (forall other | Reordering(other, routes) ::
               Best(host, path, other, domains) == Best(host, path, routes, domains))
      <==> (forall a, b | Longest(a, host, path, routes, domains) && Longest(b, host, path, routes, domains) :: a == b)
  {
    if forall a, b | Longest(a, host, path, routes, domains) && Longest(b, host, path, routes, domains) :: a == b {
      forall other | Reordering(other, routes)
        ensures Best(host, path, other, domains) == Best(host, path, routes, domains)
      {
        OneLongestFixesBest(host, path, routes, domains, other);
      }
    } else {
      var a, b :| Longest(a, host, path, routes, domains) && Longest(b, host, path, routes, domains) && a != b;
      var withA := LongestCanWin(a, host, path, routes, domains);
      var withB := LongestCanWin(b, host, path, routes, domains);
    }
  }

  /** Equal length in bytes is equal length for prefixes of one path. */
  lemma SamePathSameLength(path: string, a: string, b: string)
    requires Normalized(a) && Normalized(b) && PathMatchesPrefix(path, a) && PathMatchesPrefix(path, b)
    requires Utf8Len(a) == Utf8Len(b)
    ensures a == b
  {
    var s, l := if |a| <= |b| then a else b, if |a| <= |b| then b else a;
    MatchingPrefixesNest(path, s, l);
    NormalizedShape(l);
    assert s <= l;
    var rest := l[|s|..];
    assert s + rest == l;
    Utf8LenConcat(s, rest);
  }

  /** In a registry with unique keys and normalized prefixes, as long as only one registered hostname matches the
      request host, the order of the list does not matter. */
  lemma OneHostOrderIrrelevant(host: string, path: string, routes: seq<Route>, domains: seq<string>, other: seq<Route>)
    requires KeysUnique(routes) && (forall r <- routes :: Normalized(r.pathPrefix))
    requires forall r <- routes, s <- routes |
               HostnameMatches(r.hostname, host, domains) && HostnameMatches(s.hostname, host, domains) ::
               r.hostname == s.hostname
    requires Reordering(other, routes)
    ensures Best(host, path, other, domains) == Best(host, path, routes, domains)
  {
    forall a, b | Longest(a, host, path, routes, domains) && Longest(b, host, path, routes, domains)
      ensures a == b
    {
      SamePathSameLength(path, a.pathPrefix, b.pathPrefix);
      var i :| 0 <= i < |routes| && routes[i] == a;
      var j :| 0 <= j < |routes| && routes[j] == b;
      assert SameKey(a, b.hostname, Normalize(b.pathPrefix)) && SameKey(b, a.hostname, Normalize(a.pathPrefix));
    }
    OrderIrrelevantExactly(host, path, routes, domains);
  }
}
