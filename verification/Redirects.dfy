/** The static server's redirects to a directory, and where they lead a client that sees it under a mount prefix. */
module Redirects {
  import opened Text
  import opened Routes
  import opened PathPrefix

  // ---------------------------------------------------------------------------
  // The redirect
  // ---------------------------------------------------------------------------

  function TrimEndSlashes(s: string): string {
    if s != "" && s[|s| - 1] == '/' then TrimEndSlashes(s[..|s| - 1]) else s
  }

  function LastSegment(path: string): string {
    var parts := Split(path, '/');
    parts[|parts| - 1]
  }

  function Relative(location: string): string {
    LastSegment(TrimEndSlashes(location)) + "/"
  }

  /** A response, as far as its Location header goes; a value without text counts as absent. */
  class Response {
    var location: Option<string>

    constructor (location: Option<string>)
      ensures this.location == location
    {
      this.location := location;
    }

    method RelativizeLocation()
      modifies this
      ensures location == match old(location)
                          case Some(loc) => Some(if "/" <= loc then Relative(loc) else loc)
                          case None => None
    {
      if location.None? || !("/" <= location.value) {
        return;
      }
      location := Some(Relative(location.value));
    }
  }

  function LastNonEmpty(parts: seq<string>): string {
    if parts == [] then ""
    else if parts[|parts| - 1] != "" then parts[|parts| - 1]
    else LastNonEmpty(parts[..|parts| - 1])
  }

  /** The redirect of the directory listing itself. */
  function ListingLocation(path: string): string {
    LastNonEmpty(Split(path, '/')) + "/"
  }

  /** The address the file service redirects to when a directory is asked for without its final slash. */
  function SlashedLocation(path: string, query: Option<string>): string {
    path + "/" + match query case Some(q) => "?" + q case None => ""
  }

  // ---------------------------------------------------------------------------
  // The client: sections 5.2.2 to 5.2.4 and appendix B of RFC 3986
  // ---------------------------------------------------------------------------

  datatype Reference = Reference(
    scheme: Option<string>, authority: Option<string>, path: string, query: Option<string>, fragment: Option<string>)

  /** The longest beginning without any of the characters in `stops`. */
  function UpTo(s: string, stops: string): string {
    if s == "" || s[0] in stops then "" else [s[0]] + UpTo(s[1..], stops)
  }

  lemma {:induction false} UpToIs(s: string, begin: string, stops: string)
    requires begin <= s && (forall c <- begin :: c !in stops) && (|begin| < |s| ==> s[|begin|] in stops)
    ensures UpTo(s, stops) == begin
  {
    if begin != "" {
      assert s[0] == begin[0] && begin[0] in begin;
      UpToIs(s[1..], begin[1..], stops);
      assert [begin[0]] + begin[1..] == begin;
    }
  }

  lemma {:induction false} UpToShape(s: string, stops: string)
    ensures UpTo(s, stops) <= s && (forall c <- UpTo(s, stops) :: c !in stops)
    ensures |UpTo(s, stops)| < |s| ==> s[|UpTo(s, stops)|] in stops
  {
    if s != "" && s[0] !in stops { UpToShape(s[1..], stops); }
  }

  const COLON := ":/?#"
  const SLASH := "/?#"
  const QUESTION := "?#"

  function SchemeOf(s: string): Option<string> {
    var run := UpTo(s, COLON);
    UpToShape(s, COLON);
    if run != "" && |run| < |s| && s[|run|] == ':' then Some(run) else None
  }

  function Parse(s: string): Reference {
    var scheme := SchemeOf(s);
    UpToShape(s, COLON);
    ParseAfterScheme(scheme, if scheme.Some? then s[|scheme.value| + 1..] else s)
  }

  function ParseAfterScheme(scheme: Option<string>, s: string): Reference {
    if "//" <= s then
      var authority := UpTo(s[2..], SLASH);
      UpToShape(s[2..], SLASH);
      ParsePath(scheme, Some(authority), s[2 + |authority|..])
    else ParsePath(scheme, None, s)
  }

  function ParsePath(scheme: Option<string>, authority: Option<string>, s: string): Reference {
    var path := UpTo(s, QUESTION);
    UpToShape(s, QUESTION);
    var rest := s[|path|..];
    var query := if "?" <= rest then Some(UpTo(rest[1..], "#")) else None;
    UpToShape(rest[if "?" <= rest then 1 else 0..], "#");
    var last := if query.Some? then rest[1 + |query.value|..] else rest;
    Reference(scheme, authority, path, query, if "#" <= last then Some(last[1..]) else None)
  }

  function UpToLastSlash(path: string): (front: string)
    ensures front <= path
  {
    if path == "" || path[|path| - 1] == '/' then path else UpToLastSlash(path[..|path| - 1])
  }

  /** Without the last segment and the slash in front of it. */
  function DropLastSegment(path: string): (front: string)
    ensures front <= path
  {
    if path == "" then ""
    else if path[|path| - 1] == '/' then path[..|path| - 1]
    else DropLastSegment(path[..|path| - 1])
  }

  /** The first segment with the slash in front of it, if there is one. */
  function FirstSegment(path: string): (segment: string)
    requires path != ""
    ensures segment != "" && segment <= path
  {
    UpToShape(path[1..], "/");
    [path[0]] + UpTo(path[1..], "/")
  }

  function RemoveDotSegments(input: string, output: string): string
    decreases |input|
  {
    if input == "" then output
    else if "../" <= input then RemoveDotSegments(input[3..], output)
    else if "./" <= input then RemoveDotSegments(input[2..], output)
    else if "/./" <= input then RemoveDotSegments(input[2..], output)
    else if input == "/." then RemoveDotSegments("/", output)
    else if "/../" <= input then RemoveDotSegments(input[3..], DropLastSegment(output))
    else if input == "/.." then RemoveDotSegments("/", DropLastSegment(output))
    else if input == "." || input == ".." then output
    else RemoveDotSegments(input[|FirstSegment(input)|..], output + FirstSegment(input))
  }

  function Merge(base: Reference, path: string): string {
    if base.authority.Some? && base.path == "" then "/" + path else UpToLastSlash(base.path) + path
  }

  /** Where a client goes that meets the reference `ref` in an answer to a request for `base`. */
  function Resolve(base: Reference, ref: string): Reference {
    var r := Parse(ref);
    if r.scheme.Some? then r.(path := RemoveDotSegments(r.path, ""))
    else if r.authority.Some? then r.(scheme := base.scheme, path := RemoveDotSegments(r.path, ""))
    else
      var path :=
        if r.path == "" then base.path
        else RemoveDotSegments(if "/" <= r.path then r.path else Merge(base, r.path), "");
      var query := if r.path == "" && r.query.None? then base.query else r.query;
      Reference(base.scheme, base.authority, path, query, r.fragment)
  }

  // ---------------------------------------------------------------------------
  // Dot segments
  // ---------------------------------------------------------------------------

  predicate DotSegment(segment: string) {
    segment == "." || segment == ".."
  }

  predicate NoDotSegments(path: string) {
    forall s <- Split(path, '/') :: !DotSegment(s)
  }

  /** An absolute path that is not empty, cut behind its first segment. */
  lemma FirstSegmentCuts(path: string) returns (segment: string, rest: string)
    requires "/" <= path
    ensures path == "/" + segment + rest && FirstSegment(path) == "/" + segment && '/' !in segment
    ensures rest == "" || "/" <= rest
    ensures NoDotSegments(path) <==> !DotSegment(segment) && NoDotSegments(rest)
  {
    var tail := path[1..];
    UpToShape(tail, "/");
    segment := UpTo(tail, "/");
    rest := tail[|segment|..];
    assert tail == segment + rest;
    assert path == "" + ['/'] + tail;
    SplitConcat("", '/', tail);
    SplitNoSeparator(segment, '/');
    assert Split("", '/') == [""];
    if rest == "" {
      assert tail == segment;
      assert Split(path, '/') == ["", segment];
    } else {
      var after := rest[1..];
      assert rest == "" + ['/'] + after && tail == segment + ['/'] + after;
      SplitConcat(segment, '/', after);
      SplitConcat("", '/', after);
      assert Split(path, '/') == [""] + ([segment] + Split(after, '/'));
      assert Split(rest, '/') == [""] + Split(after, '/');
      assert forall s :: s in Split(path, '/') <==> s == "" || s == segment || s in Split(after, '/');
    }
  }

  lemma {:induction false} DotSegmentsShorten(input: string, output: string)
    requires input == "" || "/" <= input
    ensures NoDotSegments(input) ==> RemoveDotSegments(input, output) == output + input
    ensures !NoDotSegments(input) ==> |RemoveDotSegments(input, output)| < |output| + |input|
    decreases |input|, 0
  {
    if input == "" {
      assert output + input == output;
    } else {
      var segment, rest := FirstSegmentCuts(input);
      if segment == "." {
        DotShortens(input, output, rest);
      } else if segment == ".." {
        DotDotShortens(input, output, rest);
      } else {
        PlainSegmentMoves(input, output, segment, rest);
        Regroup(output, segment, rest);
        MovedKeeps(output + ("/" + segment), rest);
      }
    }
  }

  lemma DotShortens(input: string, output: string, rest: string)
    requires input == "/" + "." + rest && (rest == "" || "/" <= rest)
    ensures |RemoveDotSegments(input, output)| < |output| + |input|
    decreases |input| - 1, 1
  {
    if rest == "" {
      DotSegmentsShorten("/", output);
    } else {
      assert input[0] == '/' && input[1] == '.' && input[2] == '/';
      assert "/./" <= input && input[2..] == rest;
      DotSegmentsShorten(rest, output);
    }
  }

  lemma DotDotShortens(input: string, output: string, rest: string)
    requires input == "/" + ".." + rest && (rest == "" || "/" <= rest)
    ensures |RemoveDotSegments(input, output)| < |output| + |input|
    decreases |input| - 1, 1
  {
    if rest == "" {
      DotSegmentsShorten("/", DropLastSegment(output));
    } else {
      assert input[0] == '/' && input[1] == '.' && input[2] == '.' && input[3] == '/';
      assert !("/./" <= input) && "/../" <= input && input[3..] == rest;
      DotSegmentsShorten(rest, DropLastSegment(output));
      assert RemoveDotSegments(input, output) == RemoveDotSegments(rest, DropLastSegment(output));
    }
  }

  lemma Regroup(output: string, segment: string, rest: string)
    ensures output + ("/" + segment) + rest == output + ("/" + segment + rest)
  {
  }

  lemma MovedKeeps(output: string, rest: string)
    requires rest == "" || "/" <= rest
    ensures NoDotSegments(rest) ==> RemoveDotSegments(rest, output) == output + rest
    ensures !NoDotSegments(rest) ==> |RemoveDotSegments(rest, output)| < |output + rest|
    decreases |rest|, 1
  {
    DotSegmentsShorten(rest, output);
  }

  lemma PlainSegmentMoves(input: string, output: string, segment: string, rest: string)
    requires input == "/" + segment + rest && (rest == "" || "/" <= rest) && '/' !in segment
    requires FirstSegment(input) == "/" + segment && !DotSegment(segment)
    ensures RemoveDotSegments(input, output) == RemoveDotSegments(rest, output + ("/" + segment))
  {
    assert input[|FirstSegment(input)|..] == rest;
    assert input[0] == '/';
  }

  // ---------------------------------------------------------------------------
  // Where the redirect leads
  // ---------------------------------------------------------------------------

  /** What a client would take for a scheme: something in front of a colon. */
  predicate SchemeLike(segment: string) {
    ':' in segment && segment[0] != ':'
  }

  lemma {:induction false} UpToLastSlashOf(front: string, last: string)
    requires '/' !in last
    ensures UpToLastSlash(front + "/" + last) == front + "/"
    decreases |last|
  {
    var path := front + "/" + last;
    if last == "" {
      assert path == front + "/";
    } else {
      assert path[|path| - 1] == last[|last| - 1] && last[|last| - 1] in last;
      assert path[..|path| - 1] == front + "/" + last[..|last| - 1];
      UpToLastSlashOf(front, last[..|last| - 1]);
    }
  }

  lemma LastSegmentOf(front: string, last: string)
    requires '/' !in last
    ensures LastSegment(front + "/" + last) == last
  {
    SplitConcat(front, '/', last);
    SplitNoSeparator(last, '/');
    assert front + "/" + last == front + ['/'] + last;
  }

  lemma {:induction false} CutAtLastSlash(path: string) returns (front: string, last: string)
    requires '/' in path
    ensures path == front + "/" + last && '/' !in last
    ensures LastSegment(path) == last
  {
    var n := |path| - 1;
    if path[n] == '/' {
      front, last := path[..n], "";
    } else {
      assert path == path[..n] + [path[n]];
      var f, l := CutAtLastSlash(path[..n]);
      front, last := f, l + [path[n]];
    }
    LastSegmentOf(front, last);
  }

  lemma SchemeOfSegment(last: string)
    requires last != "" && '/' !in last && '?' !in last && '#' !in last
    ensures SchemeOf(last + "/").Some? <==> SchemeLike(last)
  {
    var s := last + "/";
    if ':' !in last {
      UpToIs(s, last, COLON);
    } else if last[0] == ':' {
      UpToIs(s, "", COLON);
    } else {
      var run := UpTo(s, COLON);
      UpToShape(s, COLON);
      assert s[0] !in COLON;
      assert run != "";
      var k :| 0 <= k < |last| && last[k] == ':';
      assert s[k] in COLON;
      assert forall j | 0 <= j < |run| :: s[j] == run[j] && run[j] in run;
      assert |run| <= k;
      assert s[|run|] in COLON && s[|run|] == last[|run|] && last[|run|] in last;
    }
  }

  /** What a client makes of a last segment with a slash, as a reference without scheme. */
  lemma ParseOfSegment(last: string)
    requires last != "" && '/' !in last && '?' !in last && '#' !in last && !SchemeLike(last)
    ensures Parse(last + "/") == Reference(None, None, last + "/", None, None)
  {
    var s := last + "/";
    SchemeOfSegment(last);
    assert s[0] == last[0] && last[0] in last;
    UpToIs(s, s, QUESTION);
  }

  /** A directory path without its final slash, as the server sees it: the path of an address. */
  predicate DirectoryPath(path: string) {
    "/" <= path && path[|path| - 1] != '/' && '?' !in path && '#' !in path
  }

  lemma RelativeOfSlashed(path: string)
    requires DirectoryPath(path)
    ensures Relative(path + "/") == LastSegment(path) + "/"
  {
    var slashed := path + "/";
    assert slashed[..|slashed| - 1] == path;
    assert TrimEndSlashes(slashed) == TrimEndSlashes(path);
  }

  lemma ResolvePlain(base: Reference, last: string)
    requires last != "" && '/' !in last && '?' !in last && '#' !in last && !SchemeLike(last)
    requires base.authority.Some? && base.path != ""
    ensures Resolve(base, last + "/")
            == Reference(base.scheme, base.authority,
                         RemoveDotSegments(UpToLastSlash(base.path) + (last + "/"), ""), None, None)
  {
    ParseOfSegment(last);
    assert (last + "/")[0] == last[0] && last[0] in last;
  }

  lemma SchemeLosesAuthority(last: string)
    requires last != "" && '/' !in last && '?' !in last && '#' !in last && SchemeLike(last)
    ensures Parse(last + "/").scheme.Some? && Parse(last + "/").authority.None?
  {
    SchemeOfSegment(last);
    var s := last + "/";
    UpToShape(s, COLON);
    var rest := s[|SchemeOf(s).value| + 1..];
    assert |rest| >= 2 ==> rest[0] == last[|SchemeOf(s).value| + 1];
    assert forall k | 0 <= k < |last| :: last[k] in last;
  }

  lemma DotsInSlashed(path: string)
    requires "/" <= path
    ensures RemoveDotSegments(path + "/", "") == path + "/" <==> NoDotSegments(path)
  {
    var slashed := path + "/";
    DotSegmentsShorten(slashed, "");
    assert "" + slashed == slashed;
    SplitConcat(path, '/', "");
    assert slashed == path + ['/'] + "";
    assert NoDotSegments(slashed) <==> NoDotSegments(path);
  }

  /** For a redirect that carries no query, below any mount prefix: the client ends up at the address it asked for with
      a slash behind it, exactly when no segment of that address is a dot segment and the last one does not read like a
      scheme. */
  lemma SlashRedirectExactly(base: Reference, mount: string, path: string)
    requires base.scheme.Some? && base.authority.Some?
    requires DirectoryPath(path) && base.path == mount + path && "/" <= base.path
    ensures Resolve(base, Relative(path + "/")) == Reference(base.scheme, base.authority, base.path + "/", None, None)
      <==> NoDotSegments(base.path) && !SchemeLike(LastSegment(path))
  {
    RelativeOfSlashed(path);
    var front, last := CutAtLastSlash(path);
    assert last != "" && forall c <- last :: c in path;
    if SchemeLike(last) {
      SchemeLosesAuthority(last);
    } else {
      assert base.path == mount + front + "/" + last;
      UpToLastSlashOf(mount + front, last);
      assert mount + front + "/" + (last + "/") == base.path + "/";
      ResolvePlain(base, last);
      DotsInSlashed(base.path);
    }
  }

  /** The listing's own redirect is the same reference. */
  lemma ListingRedirectsAlike(path: string)
    requires DirectoryPath(path)
    ensures ListingLocation(path) == Relative(path + "/")
  {
    RelativeOfSlashed(path);
    var front, last := CutAtLastSlash(path);
    assert last != "";
  }

  lemma QueryShorter(ref: string)
    ensures Parse(ref).query.Some? ==> |Parse(ref).query.value| < |ref|
  {
    UpToShape(ref, COLON);
    var scheme := SchemeOf(ref);
    var s := if scheme.Some? then ref[|scheme.value| + 1..] else ref;
    QueryShorterAfterScheme(scheme, s);
  }

  lemma QueryShorterAfterScheme(scheme: Option<string>, s: string)
    ensures ParseAfterScheme(scheme, s).query.Some? ==> |ParseAfterScheme(scheme, s).query.value| < |s|
  {
    if "//" <= s {
      var authority := UpTo(s[2..], SLASH);
      UpToShape(s[2..], SLASH);
      QueryShorterInPath(scheme, Some(authority), s[2 + |authority|..]);
    } else {
      QueryShorterInPath(scheme, None, s);
    }
  }

  lemma QueryShorterInPath(scheme: Option<string>, authority: Option<string>, s: string)
    ensures ParsePath(scheme, authority, s).query.Some? ==> |ParsePath(scheme, authority, s).query.value| < |s|
  {
    UpToShape(s, QUESTION);
    var rest := s[|UpTo(s, QUESTION)|..];
    if "?" <= rest { UpToShape(rest[1..], "#"); }
  }

  lemma {:induction false} TrimBehind(front: string, tail: string)
    requires front != "" && front[|front| - 1] != '/'
    ensures TrimEndSlashes(front + tail) == front + TrimEndSlashes(tail)
    decreases |tail|
  {
    var s := front + tail;
    if tail == "" {
      assert s == front;
    } else if tail[|tail| - 1] == '/' {
      assert s[..|s| - 1] == front + tail[..|tail| - 1];
      TrimBehind(front, tail[..|tail| - 1]);
    }
  }

  lemma {:induction false} TrimEndSlashesShape(s: string)
    ensures |TrimEndSlashes(s)| <= |s|
    ensures TrimEndSlashes(s) != "" ==> TrimEndSlashes(s)[|TrimEndSlashes(s)| - 1] != '/'
  {
    if s != "" && s[|s| - 1] == '/' { TrimEndSlashesShape(s[..|s| - 1]); }
  }

  lemma ParseOfQuery(rest: string)
    ensures Parse("?" + rest).scheme.None? && Parse("?" + rest).authority.None? && Parse("?" + rest).path == ""
  {
    var s := "?" + rest;
    assert s[0] == '?';
    UpToIs(s, "", COLON);
    UpToIs(s, "", QUESTION);
  }

  lemma ShortReferenceMisses(base: Reference, ref: string, query: string)
    requires |ref| <= |query|
    ensures Resolve(base, ref) != Reference(base.scheme, base.authority, base.path + "/", Some(query), None)
  {
    QueryShorter(ref);
    assert |base.path + "/"| != |base.path|;
  }

  lemma QueryReferenceMisses(base: Reference, rest: string, query: string)
    ensures Resolve(base, "?" + rest) != Reference(base.scheme, base.authority, base.path + "/", Some(query), None)
  {
    ParseOfQuery(rest);
    assert |base.path + "/"| != |base.path|;
  }

  /** With a query the redirect always goes wrong: the query is taken for the last segment, or the last segment out of
      the query. */
  lemma QueryIsMistaken(base: Reference, path: string, query: string)
    ensures Resolve(base, Relative(SlashedLocation(path, Some(query))))
            != Reference(base.scheme, base.authority, base.path + "/", Some(query), None)
  {
    var location := SlashedLocation(path, Some(query));
    var trimmed := TrimEndSlashes(query);
    TrimEndSlashesShape(query);
    assert location == path + "/?" + query;
    TrimBehind(path + "/?", query);
    assert path + "/?" + trimmed == path + "/" + ("?" + trimmed);
    var ref := Relative(location);
    if '/' in trimmed {
      var front, last := CutAtLastSlash(trimmed);
      assert path + "/?" + trimmed == (path + "/?" + front) + "/" + last;
      LastSegmentOf(path + "/?" + front, last);
      assert ref == last + "/" && |ref| <= |query|;
      ShortReferenceMisses(base, ref, query);
    } else {
      LastSegmentOf(path, "?" + trimmed);
      assert ref == "?" + (trimmed + "/");
      QueryReferenceMisses(base, trimmed + "/", query);
    }
  }

  /** The path under which the server sees a request for `path` on its route. */
  function ServedPath(path: string, prefix: string): string {
    if prefix == "/" then path else StripPathPrefix(path, prefix)
  }

  lemma LastSegmentMounted(mount: string, path: string)
    requires "/" <= path
    ensures LastSegment(mount + path) == LastSegment(path)
  {
    assert path[0] == '/' && path[0] in path;
    var front, last := CutAtLastSlash(path);
    assert mount + path == (mount + front) + "/" + last;
    LastSegmentOf(mount + front, last);
  }

  /** A browser that asks, below a stripping route's prefix, for a directory without its slash is sent to the directory
      it meant, exactly when it sent no query, the address has no dot segments and the directory's name does not read
      like a scheme. */
  lemma MountedRedirectExactly(base: Reference, prefix: string)
    requires base.scheme.Some? && base.authority.Some? && "/" <= base.path && PathMatchesPrefix(base.path, prefix)
    requires DirectoryPath(ServedPath(base.path, prefix))
    ensures Resolve(base, Relative(SlashedLocation(ServedPath(base.path, prefix), base.query)))
            == Reference(base.scheme, base.authority, base.path + "/", base.query, None)
      <==> base.query.None? && NoDotSegments(base.path) && !SchemeLike(LastSegment(base.path))
  {
    var path := ServedPath(base.path, prefix);
    var mount := if prefix == "/" then "" else Normalize(prefix);
    if prefix != "/" { StripIsInvertible(base.path, prefix); }
    assert base.path == mount + path;
    match base.query
    case Some(query) => QueryIsMistaken(base, path, query);
    case None =>
      LastSegmentMounted(mount, path);
      assert path + "/" + "" == path + "/";
      SlashRedirectExactly(base, mount, path);
  }
}
