/** From what the user types to the addresses that are printed, and back through the proxy to the route. */
module Naming {
  import opened Text
  import opened Routes
  import opened PathPrefix
  import opened HostNames
  import opened Routing

  // ---------------------------------------------------------------------------
  // Lower-casing and leading patterns
  // ---------------------------------------------------------------------------

  /** Every leading repetition of `pattern` removed. */
  function TrimStartMatches(s: string, pattern: string): (t: string)
    requires pattern != ""
    ensures |t| <= |s| && t == s[|s| - |t|..]
    ensures !(pattern <= t)
  {
    if pattern <= s then TrimStartMatches(s[|pattern|..], pattern) else s
  }

  /** What is used of Unicode lower-casing: it introduces no ASCII character but small letters. */
  ghost predicate AddsOnlySmallLetters(lower: string -> string) {
    forall s: string, c <- lower(s) :: c as int < 0x80 ==> c in s || 'a' <= c <= 'z'
  }

  // ---------------------------------------------------------------------------
  // Names and hostnames
  // ---------------------------------------------------------------------------

  function SplitOnce(s: string, c: char): Option<(string, string)> {
    if s == "" then None
    else if s[0] == c then Some(("", s[1..]))
    else
      match SplitOnce(s[1..], c)
      case None => None
      case Some((before, after)) => Some(([s[0]] + before, after))
  }

  function SplitNamePath(raw: string): (string, string) {
    var cleaned := Trim(raw);
    match SplitOnce(cleaned, ':')
    case Some((name, rest)) =>
      var trimmed := TrimStartSlashes(rest);
      (name, if trimmed == "" then "/" else "/" + trimmed)
    case None => (cleaned, "/")
  }

  datatype HostnameError = EmptyHostname | ConsecutiveDots(name: string)

  /** What precedes the first configured domain the hostname ends in. */
  function NameBeforeDomain(hostname: string, domains: seq<string>): Option<string> {
    if domains == [] then None
    else if EndsWith(hostname, "." + domains[0]) then StripSuffix(hostname, "." + domains[0])
    else NameBeforeDomain(hostname, domains[1..])
  }

  /** The typed text without scheme and path. */
  function BareHostname(input: string): string {
    Split(TrimStartMatches(TrimStartMatches(Trim(input), "http://"), "https://"), '/')[0]
  }

  predicate HasDomain(hostname: string, domains: seq<string>) {
    exists d <- domains :: hostname == d || EndsWith(hostname, "." + d)
  }

  function Qualify(typed: string, domains: seq<string>): string {
    if HasDomain(typed, domains) then typed else Host(typed, if domains == [] then "localhost" else domains[0])
  }

  function NameForValidation(hostname: string, domains: seq<string>): string {
    match NameBeforeDomain(hostname, domains)
    case Some(n) => n
    case None => if hostname in domains then "" else hostname
  }

  function ParseHostname(input: string, domains: seq<string>, lower: string -> string)
    : Result<string, HostnameError>
  {
    Qualified(lower(BareHostname(input)), domains)
  }

  function Qualified(typed: string, domains: seq<string>): Result<string, HostnameError> {
    if typed == "" then Err(EmptyHostname)
    else
      var hostname := Qualify(typed, domains);
      var name := NameForValidation(hostname, domains);
      if name == "" then Err(EmptyHostname)
      else if Contains(name, "..") then Err(ConsecutiveDots(name))
      else Ok(hostname)
  }

  function ExtractHostnamePrefix(hostname: string, domains: seq<string>): string {
    match NameBeforeDomain(hostname, domains)
    case Some(prefix) => prefix
    case None => hostname
  }

  lemma {:induction false} NameBeforeDomainSplits(hostname: string, domains: seq<string>)
    ensures match NameBeforeDomain(hostname, domains)
            case Some(n) => exists d <- domains :: hostname == Host(n, d)
            case None => forall d <- domains :: !EndsWith(hostname, "." + d)
  {
    if domains != [] {
      assert domains == [domains[0]] + domains[1..];
      if EndsWith(hostname, "." + domains[0]) {
        assert hostname == Host(NameBeforeDomain(hostname, domains).value, domains[0]);
      } else {
        NameBeforeDomainSplits(hostname, domains[1..]);
      }
    }
  }

  lemma QualifiedHasDomain(typed: string, domains: seq<string>)
    requires domains != []
    ensures HasDomain(Qualify(typed, domains), domains)
  {
    HostEndsWithDomain(typed, domains[0]);
    assert domains[0] in domains;
  }

  lemma ValidatedName(hostname: string, domains: seq<string>)
    requires HasDomain(hostname, domains) && NameForValidation(hostname, domains) != ""
    ensures ExtractHostnamePrefix(hostname, domains) == NameForValidation(hostname, domains)
    ensures exists d <- domains :: hostname == Host(NameForValidation(hostname, domains), d)
  {
    NameBeforeDomainSplits(hostname, domains);
  }

  /** A hostname is cut in front of the first domain it ends in, and kept whole if it ends in none. */
  lemma PrefixIsWhatIsLeft(hostname: string, domains: seq<string>)
    ensures var prefix := ExtractHostnamePrefix(hostname, domains);
            if UnderNone(hostname, domains) then prefix == hostname
            else exists d <- domains :: hostname == Host(prefix, d)
  {
    NameBeforeDomainSplits(hostname, domains);
    if n :| NameBeforeDomain(hostname, domains) == Some(n) {
      var d :| d in domains && hostname == Host(n, d);
      HostEndsWithDomain(n, d);
    }
  }

  /** An accepted hostname is a non-empty name, without doubled dots, under one of the configured domains; that name
      is what the printed addresses are built from. */
  lemma ParsedHostnameIsRegistrable(input: string, domains: seq<string>, lower: string -> string)
    requires domains != [] && ParseHostname(input, domains, lower).Ok?
    ensures var hostname := ParseHostname(input, domains, lower).value;
            var prefix := ExtractHostnamePrefix(hostname, domains);
            && prefix != "" && !Contains(prefix, "..")
            && (exists d <- domains :: hostname == Host(prefix, d))
            && Registrable(hostname, domains)
  {
    QualifiedHasDomain(lower(BareHostname(input)), domains);
    ValidatedName(ParseHostname(input, domains, lower).value, domains);
  }

  // ---------------------------------------------------------------------------
  // Printed addresses
  // ---------------------------------------------------------------------------

  /** A display override for one domain suffix. */
  datatype DomainDisplay = DomainDisplay(suffix: string, https: bool, port: Option<nat>)

  /** The display entry with the longest suffix; the last of several equally long ones. */
  function MatchDisplay(hostname: string, displays: seq<DomainDisplay>, lower: string -> string)
    : Option<DomainDisplay>
  {
    if displays == [] then None
    else
      var best := MatchDisplay(hostname, displays[..|displays| - 1], lower);
      var d := displays[|displays| - 1];
      if (lower(hostname) == d.suffix || EndsWith(lower(hostname), "." + d.suffix))
         && (best.None? || Utf8Len(d.suffix) >= Utf8Len(best.value.suffix))
      then Some(d) else best
  }

  function Address(https: bool, hostname: string, port: Option<nat>): string {
    (if https then "https" else "http") + "://" + hostname + (if port.Some? then ":" + Digits(port.value) else "")
  }

  function FormatUrl(
    hostname: string, proxyPort: nat, tls: bool, displays: seq<DomainDisplay>, lower: string -> string): string
  {
    match MatchDisplay(hostname, displays, lower)
    case Some(d) =>
      var standard := if d.https then 443 else 80;
      Address(d.https, hostname, if d.port == Some(standard) then None else d.port)
    case None =>
      var standard := if tls then 443 else 80;
      Address(tls, hostname, if proxyPort == standard then None else Some(proxyPort))
  }

  function FormatUrls(
    prefix: string, domains: seq<string>, proxyPort: nat, tls: bool, displays: seq<DomainDisplay>,
    lower: string -> string): (urls: seq<string>)
    ensures |urls| == |domains|
    ensures forall i | 0 <= i < |urls| :: urls[i] == FormatUrl(Host(prefix, domains[i]), proxyPort, tls, displays, lower)
  {
    if domains == [] then []
    else [FormatUrl(Host(prefix, domains[0]), proxyPort, tls, displays, lower)]
         + FormatUrls(prefix, domains[1..], proxyPort, tls, displays, lower)
  }

  // ---------------------------------------------------------------------------
  // What an address says
  // ---------------------------------------------------------------------------

  /** Where a client connects to. */
  datatype Endpoint = Endpoint(https: bool, host: string, port: nat)

  /** A client's reading of an address: scheme, host, and the port behind a colon or else the one of the scheme. */
  function ReadAddress(address: string): Option<Endpoint> {
    match SplitOnce(address, ':')
    case None => None
    case Some((scheme, rest)) =>
      if !("//" <= rest) || (scheme != "http" && scheme != "https") then None
      else
        match SplitOnce(rest[2..], ':')
        case None => Some(Endpoint(scheme == "https", rest[2..], StandardPort(scheme == "https")))
        case Some((host, digits)) =>
          match DigitsValue(digits)
          case None => None
          case Some(port) => Some(Endpoint(scheme == "https", host, port))
  }

  function StandardPort(https: bool): nat {
    if https then 443 else 80
  }

  lemma AddressIsRead(https: bool, host: string, port: Option<nat>)
    requires ':' !in host
    ensures ReadAddress(Address(https, host, port))
            == Some(Endpoint(https, host, if port.Some? then port.value else StandardPort(https)))
  {
    var scheme := if https then "https" else "http";
    var authority := host + if port.Some? then ":" + Digits(port.value) else "";
    var rest := "//" + authority;
    assert ':' !in scheme;
    assert Address(https, host, port) == scheme + [':'] + rest;
    SplitOnceAt(scheme, ':', rest);
    assert rest[2..] == authority;
    assert "http" != "https";
    match port
    case Some(n) =>
      assert authority == host + [':'] + Digits(n);
      SplitOnceAt(host, ':', Digits(n));
      DigitsValueOf(n);
    case None =>
      assert authority == host;
      SplitOncePieces(host, ':');
  }

  predicate Covered(d: DomainDisplay, hostname: string, lower: string -> string) {
    lower(hostname) == d.suffix || EndsWith(lower(hostname), "." + d.suffix)
  }

  /** Entry `i` covers the host, its suffix is at least as long as that of every other entry that does, and longer than
      that of every later one. */
  ghost predicate LastLongest(displays: seq<DomainDisplay>, i: int, hostname: string, lower: string -> string) {
    && 0 <= i < |displays| && Covered(displays[i], hostname, lower)
    && forall j | 0 <= j < |displays| && Covered(displays[j], hostname, lower) ::
         && Utf8Len(displays[j].suffix) <= Utf8Len(displays[i].suffix)
         && (j > i ==> Utf8Len(displays[j].suffix) < Utf8Len(displays[i].suffix))
  }

  lemma {:induction false} DisplayIsLastLongest(hostname: string, displays: seq<DomainDisplay>, lower: string -> string)
    ensures match MatchDisplay(hostname, displays, lower)
            case None => forall d <- displays :: !Covered(d, hostname, lower)
            case Some(d) => exists i :: LastLongest(displays, i, hostname, lower) && displays[i] == d
  {
    if displays != [] {
      var n := |displays| - 1;
      var front, d := displays[..n], displays[n];
      assert displays == front + [d];
      DisplayIsLastLongest(hostname, front, lower);
      var best := MatchDisplay(hostname, front, lower);
      var all := MatchDisplay(hostname, displays, lower);
      if best.Some? {
        var i :| LastLongest(front, i, hostname, lower) && front[i] == best.value;
        assert forall j | 0 <= j < n :: displays[j] == front[j];
        if all == best && !(Covered(d, hostname, lower) && Utf8Len(d.suffix) >= Utf8Len(best.value.suffix)) {
          assert LastLongest(displays, i, hostname, lower);
        } else {
          assert LastLongest(displays, n, hostname, lower);
        }
      } else if Covered(d, hostname, lower) {
        forall j | 0 <= j < n ensures !Covered(displays[j], hostname, lower) {
          assert displays[j] == front[j] && front[j] in front;
        }
        assert LastLongest(displays, n, hostname, lower);
      }
    }
  }

  /** A client that reads a printed address comes to the proxy's own port and scheme, unless a display entry covers the
      host, and then to what the most specific one says. */
  lemma PrintedAddressSays(
    host: string, proxyPort: nat, tls: bool, displays: seq<DomainDisplay>, lower: string -> string)
    requires ':' !in host
    ensures var said := ReadAddress(FormatUrl(host, proxyPort, tls, displays, lower));
            && ((forall d <- displays :: !Covered(d, host, lower)) ==> said == Some(Endpoint(tls, host, proxyPort)))
            && (forall i | LastLongest(displays, i, host, lower) ::
                  said == Some(Endpoint(displays[i].https, host,
                    if displays[i].port.Some? then displays[i].port.value else StandardPort(displays[i].https))))
  {
    DisplayIsLastLongest(host, displays, lower);
    match MatchDisplay(host, displays, lower)
    case Some(d) =>
      AddressIsRead(d.https, host, if d.port == Some(StandardPort(d.https)) then None else d.port);
    case None =>
      AddressIsRead(tls, host, if proxyPort == StandardPort(tls) then None else Some(proxyPort));
  }

  /** The authority a client puts into its Host header for an address: what stands between "//" and the next slash. */
  function HostHeaderFor(url: string): string {
    match SplitOnce(url, '/')
    case None => ""
    case Some((_, rest)) => if "/" <= rest then Split(rest[1..], '/')[0] else ""
  }

  /** The proxy drops the port from the header. */
  function ExtractHost(header: string): string {
    Split(header, ':')[0]
  }

  predicate PlainHost(host: string) {
    '/' !in host && ':' !in host
  }

  lemma AuthorityOf(https: bool, rest: string)
    requires '/' !in rest
    ensures HostHeaderFor((if https then "https" else "http") + "://" + rest) == rest
  {
    var scheme := if https then "https:" else "http:";
    var url := (if https then "https" else "http") + "://" + rest;
    assert url == scheme + ['/'] + ("/" + rest);
    SplitOnceAt(scheme, '/', "/" + rest);
    assert ("/" + rest)[1..] == rest;
    SplitNoSeparator(rest, '/');
  }

  lemma HostSurvivesTheAddress(https: bool, host: string, port: Option<nat>)
    requires PlainHost(host)
    ensures ExtractHost(HostHeaderFor(Address(https, host, port))) == host
  {
    SplitNoSeparator(host, ':');
    match port
    case Some(n) =>
      DigitsAreDigits(n);
      var rest := host + (":" + Digits(n));
      assert Address(https, host, port) == (if https then "https" else "http") + "://" + rest;
      AuthorityOf(https, rest);
      assert rest == host + [':'] + Digits(n);
      SplitConcat(host, ':', Digits(n));
    case None =>
      assert Address(https, host, port) == (if https then "https" else "http") + "://" + host;
      AuthorityOf(https, host);
  }

  lemma {:induction false} SplitOnceAt(before: string, c: char, after: string)
    requires c !in before
    ensures SplitOnce(before + [c] + after, c) == Some((before, after))
  {
    var s := before + [c] + after;
    if before == "" {
      assert s[1..] == after;
    } else {
      assert s[1..] == before[1..] + [c] + after;
      SplitOnceAt(before[1..], c, after);
      assert [before[0]] + before[1..] == before;
    }
  }

  lemma {:induction false} SplitOncePieces(s: string, c: char)
    ensures match SplitOnce(s, c)
            case None => c !in s
            case Some((before, after)) => c !in before && s == before + [c] + after
  {
    if s != "" {
      SplitOncePieces(s[1..], c);
    }
  }

  // ---------------------------------------------------------------------------
  // The way back
  // ---------------------------------------------------------------------------

  lemma {:induction false} SlashesTrimmed(slashes: string, t: string)
    requires (forall c <- slashes :: c == '/') && !("/" <= t)
    ensures TrimStartSlashes(slashes + t) == t
  {
    if slashes == "" {
      assert slashes + t == t;
    } else {
      assert slashes[0] in slashes && (slashes + t)[0] == '/';
      assert (slashes + t)[1..] == slashes[1..] + t;
      assert forall c <- slashes[1..] :: c in slashes;
      SlashesTrimmed(slashes[1..], t);
    }
  }

  /** What is typed in front of the first colon is the name, and what is typed behind it the path, with one slash in
      front however many were typed. Blanks around it all do not matter. */
  lemma TypedPathIsKept(name: string, slashes: string, rest: string, a: string, b: string)
    requires ':' !in name && (forall c <- slashes :: c == '/') && !("/" <= rest)
    requires NoBlankEnds(name + ":" + slashes + rest) && Blank(a) && Blank(b)
    ensures SplitNamePath(a + (name + ":" + slashes + rest) + b) == (name, "/" + rest)
  {
    var core := name + ":" + slashes + rest;
    TrimOfPadded(a, core, b);
    assert core == name + [':'] + (slashes + rest);
    SplitOnceAt(name, ':', slashes + rest);
    SlashesTrimmed(slashes, rest);
    assert SplitOnce(core, ':') == Some((name, slashes + rest));
    assert "/" + "" == "/";
  }

  /** Without a colon it is all name, and the path is the root. */
  lemma TypedNameIsKept(name: string, a: string, b: string)
    requires ':' !in name && NoBlankEnds(name) && Blank(a) && Blank(b)
    ensures SplitNamePath(a + name + b) == (name, "/")
  {
    TrimOfPadded(a, name, b);
    SplitOncePieces(name, ':');
  }

  lemma NamePathShape(raw: string)
    ensures ':' !in SplitNamePath(raw).0
    ensures "/" <= SplitNamePath(raw).1
  {
    SplitOncePieces(Trim(raw), ':');
  }

  lemma {:induction false} FirstPieceIsPrefix(s: string, c: char)
    ensures Split(s, c)[0] <= s && c !in Split(s, c)[0]
  {
    if s != "" { FirstPieceIsPrefix(s[1..], c); }
  }

  lemma ParsedHostnameIsPlain(name: string, domains: seq<string>, lower: string -> string)
    requires AddsOnlySmallLetters(lower) && ':' !in name && (forall d <- domains :: PlainHost(d))
    requires domains != [] && ParseHostname(name, domains, lower).Ok?
    ensures PlainHost(ParseHostname(name, domains, lower).value)
  {
    var piece := BareHostname(name);
    BareHostnameIsPlain(name);
    LowerKeepsPlain(piece, lower);
    var hostname := ParseHostname(name, domains, lower).value;
    assert hostname == lower(piece) || hostname == Host(lower(piece), domains[0]);
    assert PlainHost(domains[0]);
  }

  lemma TrimmedCharacters(s: string, pattern: string)
    requires pattern != ""
    ensures forall c <- TrimStartMatches(s, pattern) :: c in s
  {
  }

  lemma BareHostnameIsPlain(name: string)
    requires ':' !in name
    ensures PlainHost(BareHostname(name))
  {
    var trimmed := Trim(name);
    TrimCharacters(name);
    var once := TrimStartMatches(trimmed, "http://");
    TrimmedCharacters(trimmed, "http://");
    var bare := TrimStartMatches(once, "https://");
    TrimmedCharacters(once, "https://");
    FirstPieceIsPrefix(bare, '/');
    assert forall c <- BareHostname(name) :: c in bare;
  }

  lemma LowerKeepsPlain(piece: string, lower: string -> string)
    requires AddsOnlySmallLetters(lower) && PlainHost(piece)
    ensures PlainHost(lower(piece))
  {
  }

  lemma MatchesOwnPrefix(path: string)
    requires "/" <= path
    ensures PathMatchesPrefix(path, Normalize(path))
  {
    var norm := Normalize(path);
    var again := Normalize(norm);
    if path != norm {
      assert path == norm + "/";
      if norm != again && norm != "/" {
        assert norm == again + "/";
        assert path == again + "/" + "/";
      }
    }
  }

  /** The host of an address printed for an accepted name is read back by the proxy and matches the hostname. */
  lemma PrintedAddressMatches(
    raw: string, domains: seq<string>, lower: string -> string, proxyPort: nat, tls: bool,
    displays: seq<DomainDisplay>, i: nat, hostname: string)
    requires AddsOnlySmallLetters(lower) && SuffixFree(domains) && (forall d <- domains :: PlainHost(d)) && i < |domains|
    requires ParseHostname(SplitNamePath(raw).0, domains, lower) == Ok(hostname)
    ensures var prefix := ExtractHostnamePrefix(hostname, domains);
            var host := ExtractHost(HostHeaderFor(FormatUrls(prefix, domains, proxyPort, tls, displays, lower)[i]));
            host == Host(prefix, domains[i]) && HostnameMatches(hostname, host, domains)
  {
    var name := SplitNamePath(raw).0;
    NamePathShape(raw);
    ParsedHostnameIsRegistrable(name, domains, lower);
    ParsedHostnameIsPlain(name, domains, lower);
    var prefix := ExtractHostnamePrefix(hostname, domains);
    var own :| own in domains && hostname == Host(prefix, own);
    assert domains[i] in domains && PlainHost(domains[i]);
    assert PlainHost(prefix) by { assert forall c <- prefix :: c in hostname; }
    PrintedHost(Host(prefix, domains[i]), proxyPort, tls, displays, lower);
    MatchesByName(prefix, own, prefix, domains[i], domains);
  }

  /** After a successful add, a matching host with the route's path finds a route at least as specific. */
  lemma AddedRouteReachable(
    host: string, domains: seq<string>, op: Op, file: RoutesFile, atLoad: set<nat>, atCheck: set<nat>, killed: bool)
    requires op.Add? && "/" <= op.pathPrefix && HostnameMatches(op.hostname, host, domains)
    requires Transact(op, file, atLoad, atCheck, killed).Ok?
    ensures var found := Best(host, op.pathPrefix, Transact(op, file, atLoad, atCheck, killed).value, domains);
            found.Some? && Utf8Len(found.value.pathPrefix) >= Utf8Len(Normalize(op.pathPrefix))
  {
    var routes := Transact(op, file, atLoad, atCheck, killed).value;
    TransactKeepsTheRest(op, file, atLoad, atCheck, killed);
    MatchesOwnPrefix(op.pathPrefix);
    var added := NewRoute(op);
    assert routes[|routes| - 1] == added && Matches(added, host, op.pathPrefix, domains);
    BestIsLongest(host, op.pathPrefix, routes, domains);
    BestIsFirstLongest(host, op.pathPrefix, routes, domains);
  }

  /** Every address printed for a freshly added route leads back to it: whatever name and path the user typed, and
      under every configured domain, the proxy reads the host that was printed, finds a route for the path, and the
      one it finds has a prefix at least as long as the added one. */
  lemma PrintedAddressReaches(
    raw: string, domains: seq<string>, lower: string -> string, proxyPort: nat, tls: bool,
    displays: seq<DomainDisplay>, i: nat,
    op: Op, file: RoutesFile, atLoad: set<nat>, atCheck: set<nat>, killed: bool)
    requires AddsOnlySmallLetters(lower) && SuffixFree(domains) && (forall d <- domains :: PlainHost(d)) && i < |domains|
    requires op.Add? && op.pathPrefix == SplitNamePath(raw).1
    requires ParseHostname(SplitNamePath(raw).0, domains, lower) == Ok(op.hostname)
    requires Transact(op, file, atLoad, atCheck, killed).Ok?
    ensures var url := FormatUrls(
              ExtractHostnamePrefix(op.hostname, domains), domains, proxyPort, tls, displays, lower)[i];
            var found := Best(ExtractHost(HostHeaderFor(url)), op.pathPrefix,
                              Transact(op, file, atLoad, atCheck, killed).value, domains);
            found.Some? && Utf8Len(found.value.pathPrefix) >= Utf8Len(Normalize(op.pathPrefix))
  {
    NamePathShape(raw);
    PrintedAddressMatches(raw, domains, lower, proxyPort, tls, displays, i, op.hostname);
    var url := FormatUrls(ExtractHostnamePrefix(op.hostname, domains), domains, proxyPort, tls, displays, lower)[i];
    AddedRouteReachable(ExtractHost(HostHeaderFor(url)), domains, op, file, atLoad, atCheck, killed);
  }

  lemma PrintedHost(host: string, proxyPort: nat, tls: bool, displays: seq<DomainDisplay>, lower: string -> string)
    requires PlainHost(host)
    ensures ExtractHost(HostHeaderFor(FormatUrl(host, proxyPort, tls, displays, lower))) == host
  {
    match MatchDisplay(host, displays, lower)
    case Some(d) =>
      HostSurvivesTheAddress(d.https, host, if d.port == Some(if d.https then 443 else 80) then None else d.port);
    case None =>
      HostSurvivesTheAddress(tls, host, if proxyPort == (if tls then 443 else 80) then None else Some(proxyPort));
  }

  /** It is the added route itself that is found, when the records that were kept have normalized prefixes and no
      other registered hostname matches the printed host. */
  lemma PrintedAddressReachesThisRoute(
    host: string, domains: seq<string>, op: Op, file: RoutesFile, atLoad: set<nat>, atCheck: set<nat>, killed: bool)
    requires op.Add? && "/" <= op.pathPrefix && HostnameMatches(op.hostname, host, domains)
    requires Transact(op, file, atLoad, atCheck, killed).Ok?
    requires forall r <- RoutesOf(file) ::
               Normalized(r.pathPrefix) && (HostnameMatches(r.hostname, host, domains) ==> r.hostname == op.hostname)
    ensures Best(host, op.pathPrefix, Transact(op, file, atLoad, atCheck, killed).value, domains) == Some(NewRoute(op))
  {
    var path := op.pathPrefix;
    var routes := Transact(op, file, atLoad, atCheck, killed).value;
    var added := NewRoute(op);
    TransactKeepsTheRest(op, file, atLoad, atCheck, killed);
    MatchesOwnPrefix(path);
    assert routes[|routes| - 1] == added && Matches(added, host, path, domains);
    BestIsLongest(host, path, routes, domains);
    BestIsFirstLongest(host, path, routes, domains);
    var found := Best(host, path, routes, domains).value;
    if found != added {
      InKept(routes, found);
      ShorterThanOwn(path, found.pathPrefix);
    }
  }

  lemma InKept(routes: seq<Route>, r: Route)
    requires r in routes && r != routes[|routes| - 1]
    ensures r in routes[..|routes| - 1]
  {
    assert routes == routes[..|routes| - 1] + [routes[|routes| - 1]];
  }

  /** A normalized prefix that matches the path `p` and is not `Normalize(p)` is shorter than it. */
  lemma ShorterThanOwn(path: string, prefix: string)
    requires "/" <= path && Normalized(prefix) && PathMatchesPrefix(path, prefix)
    ensures prefix == Normalize(path) || Utf8Len(prefix) < Utf8Len(Normalize(path))
  {
    var norm := Normalize(path);
    NormalizedShape(prefix);
    assert prefix <= path && norm <= path;
    if prefix != norm {
      assert |prefix| < |norm|;
      assert norm[..|prefix|] == path[..|prefix|] == prefix;
      Utf8LenConcat(prefix, norm[|prefix|..]);
      assert prefix + norm[|prefix|..] == norm;
    }
  }
}
