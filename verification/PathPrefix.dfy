/** Matching a request path against a route's prefix and stripping that prefix. */
module PathPrefix {
  import opened Text
  import opened Routes

  predicate PathMatchesPrefix(path: string, prefix: string) {
    prefix == "/" || path == Normalize(prefix) || Normalize(prefix) + "/" <= path
  }

  function TrimStartSlashes(s: string): string {
    if "/" <= s then TrimStartSlashes(s[1..]) else s
  }

  function StripPathPrefix(path: string, prefix: string): string {
    var norm := Normalize(prefix);
    var stripped := if norm <= path then path[|norm|..] else path;
    if stripped == "" || !("/" <= stripped) then "/" + TrimStartSlashes(stripped) else stripped
  }

  predicate Normalized(prefix: string) {
    Normalize(prefix) == prefix
  }

  lemma NormalizedShape(prefix: string)
    ensures Normalized(prefix) <==> "/" <= prefix && (prefix == "/" || prefix[|prefix| - 1] != '/')
  {
  }

  // ---------------------------------------------------------------------------
  // Segments
  // ---------------------------------------------------------------------------

  lemma {:induction false} JoinOfPrefix(a: seq<string>, b: seq<string>)
    requires 1 <= |a| && a <= b
    ensures Join(a, "/") == Join(b, "/") || Join(a, "/") + "/" <= Join(b, "/")
  {
    if |a| == 1 {
      if |b| > 1 { assert Join(b, "/") == a[0] + "/" + Join(b[1..], "/"); }
    } else {
      JoinOfPrefix(a[1..], b[1..]);
      assert Join(a, "/") == a[0] + "/" + Join(a[1..], "/");
      assert Join(b, "/") == a[0] + "/" + Join(b[1..], "/");
    }
  }

  /** Matching compares whole segments: "/api" matches "/api/users" and not "/apifoo"; the root matches everything. */
  lemma MatchesBySegments(path: string, prefix: string)
    ensures PathMatchesPrefix(path, prefix) <==> prefix == "/" || Split(Normalize(prefix), '/') <= Split(path, '/')
  {
    var norm := Normalize(prefix);
    if norm + "/" <= path {
      var rest := path[|norm| + 1..];
      assert path == norm + "/" + rest;
      SplitConcat(norm, '/', rest);
    }
    if Split(norm, '/') <= Split(path, '/') {
      JoinOfSplit(norm, '/');
      JoinOfSplit(path, '/');
      JoinOfPrefix(Split(norm, '/'), Split(path, '/'));
    }
  }

  /** Two normalized prefixes that match one path nest. */
  lemma MatchingPrefixesNest(path: string, a: string, b: string)
    requires Normalized(a) && Normalized(b) && |a| <= |b|
    requires PathMatchesPrefix(path, a) && PathMatchesPrefix(path, b)
    ensures a == b || PathMatchesPrefix(b, a)
  {
    if a != "/" && b != "/" && a != b {
      assert a <= path && b <= path;
      assert path[..|a|] == a && path[..|b|] == b;
      if |a| < |b| {
        assert path[|a|] == (a + "/")[|a|];
        assert b[|a|] == path[|a|] && b[..|a|] == a;
        assert a + "/" <= b;
      }
    }
  }

  // ---------------------------------------------------------------------------
  // Stripping
  // ---------------------------------------------------------------------------

  /** On a match, putting the prefix back restores the path; only the bare prefix becomes "/". */
  lemma StripIsInvertible(path: string, prefix: string)
    requires prefix != "/" && PathMatchesPrefix(path, prefix)
    ensures "/" <= StripPathPrefix(path, prefix)
    ensures if path == Normalize(prefix) then StripPathPrefix(path, prefix) == "/"
            else Normalize(prefix) + StripPathPrefix(path, prefix) == path
  {
    var norm := Normalize(prefix);
    if path != norm {
      assert path[|norm|] == (norm + "/")[|norm|];
      assert path == norm + path[|norm|..];
    }
  }

  lemma StripTwice(path: string, a: string, b: string)
    requires Normalized(a) && Normalized(b) && Normalized(a + b) && a != "/" && b != "/"
    requires |b| >= 2 && b[0] == '/' && PathMatchesPrefix(path, a + b)
    ensures PathMatchesPrefix(path, a) && PathMatchesPrefix(StripPathPrefix(path, a), b)
    ensures StripPathPrefix(StripPathPrefix(path, a), b) == StripPathPrefix(path, a + b)
  {
    StripOuter(path, a, b);
    var inner := path[|a|..];
    if path != a + b {
      assert path[..|a + b| + 1] == a + b + "/";
      assert inner[..|b| + 1] == b + "/";
    }
    assert path[|a + b|..] == inner[|b|..];
  }

  lemma StripOuter(path: string, a: string, b: string)
    requires Normalized(a) && a != "/" && |b| >= 2 && b[0] == '/' && a + b <= path
    ensures PathMatchesPrefix(path, a) && StripPathPrefix(path, a) == path[|a|..]
  {
    assert path[..|a + b|] == a + b;
    assert path[|a|] == b[0];
    assert a + "/" <= path;
  }

  /** Mounting under `a` and then under `b` is mounting under `a ++ b`. */
  lemma StripComposes(path: string, a: string, b: string)
    requires Normalized(a) && Normalized(b) && a != "/" && b != "/"
    ensures Normalized(a + b)
    ensures PathMatchesPrefix(path, a + b)
      <==> PathMatchesPrefix(path, a) && PathMatchesPrefix(StripPathPrefix(path, a), b)
    ensures PathMatchesPrefix(path, a + b)
      ==> StripPathPrefix(StripPathPrefix(path, a), b) == StripPathPrefix(path, a + b)
  {
    NormalizedShape(a);
    NormalizedShape(b);
    assert b[0] == '/' && |b| >= 2;
    if PathMatchesPrefix(path, a + b) {
      StripTwice(path, a, b);
    } else if PathMatchesPrefix(path, a) && path != a {
      StripIsInvertible(path, a);
      var inner := StripPathPrefix(path, a);
      assert b + "/" <= inner ==> a + b + "/" <= a + inner;
    }
  }

  // ---------------------------------------------------------------------------
  // The forwarded target
  // ---------------------------------------------------------------------------

  function ForwardedPathAndQuery(path: string, query: Option<string>, route: Route): string {
    var forwarded :=
      if route.stripPrefix && route.pathPrefix != "/" then StripPathPrefix(path, route.pathPrefix) else path;
    match query
    case Some(q) => forwarded + "?" + q
    case None => forwarded
  }

  /** The part of a request target before its first '?', and what follows it. */
  function SplitTarget(target: string): (string, Option<string>) {
    if target == "" then ("", None)
    else if target[0] == '?' then ("", Some(target[1..]))
    else
      var (path, query) := SplitTarget(target[1..]);
      ([target[0]] + path, query)
  }

  lemma {:induction false} SplitTargetOf(path: string, query: Option<string>)
    requires '?' !in path
    ensures SplitTarget(match query case Some(q) => path + "?" + q case None => path) == (path, query)
  {
    var target := match query case Some(q) => path + "?" + q case None => path;
    if path != "" {
      SplitTargetOf(path[1..], query);
      assert target[1..] == match query case Some(q) => path[1..] + "?" + q case None => path[1..];
      assert [path[0]] + path[1..] == path;
    } else if query.Some? {
      assert target[1..] == query.value;
    }
  }

  /** The upstream reads back the query unchanged and a path from which the original can be rebuilt. */
  lemma ForwardedTargetFaithful(path: string, query: Option<string>, route: Route)
    requires '?' !in path && PathMatchesPrefix(path, route.pathPrefix)
    ensures var (p, q) := SplitTarget(ForwardedPathAndQuery(path, query, route));
            && q == query
            && (if !route.stripPrefix || route.pathPrefix == "/" then p == path
                else if path == Normalize(route.pathPrefix) then p == "/"
                else Normalize(route.pathPrefix) + p == path)
  {
    if route.stripPrefix && route.pathPrefix != "/" {
      StripIsInvertible(path, route.pathPrefix);
      var p := StripPathPrefix(path, route.pathPrefix);
      assert '?' !in p;
      SplitTargetOf(p, query);
    } else {
      SplitTargetOf(path, query);
    }
  }
}
