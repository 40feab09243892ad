/** When every address that is printed for a route leads back to it, whatever the configured domains. */
module Reachability {
  import opened Text
  import opened Routes
  import opened PathPrefix
  import opened HostNames
  import opened Routing
  import opened Naming

  // ---------------------------------------------------------------------------
  // Accepted hostnames
  // ---------------------------------------------------------------------------

  /** The checks an input has to pass, on the hostname that is made of it. */
  predicate Accepted(hostname: string, domains: seq<string>) {
    && HasDomain(hostname, domains)
    && NameForValidation(hostname, domains) != "" && !Contains(NameForValidation(hostname, domains), "..")
  }

  lemma ParsedIsAccepted(input: string, domains: seq<string>, lower: string -> string)
    requires domains != [] && ParseHostname(input, domains, lower).Ok?
    ensures Accepted(ParseHostname(input, domains, lower).value, domains)
  {
    QualifiedHasDomain(lower(BareHostname(input)), domains);
  }

  /** No domain starts with a dot or has two in a row, which no accepted name has either. */
  predicate NoDoubledDots(domains: seq<string>) {
    forall d <- domains :: !Contains("." + d, "..")
  }

  /** For every accepted hostname, the host that is printed under every domain matches it. */
  ghost predicate AllMatch(domains: seq<string>) {
    forall h, d | Accepted(h, domains) && d in domains ::
      HostnameMatches(h, Host(ExtractHostnamePrefix(h, domains), d), domains)
  }

  // ---------------------------------------------------------------------------
  // The first domain a host ends in
  // ---------------------------------------------------------------------------

  function FirstEnding(host: string, domains: seq<string>): Option<string> {
    if domains == [] then None
    else if EndsWith(host, "." + domains[0]) then Some(domains[0])
    else FirstEnding(host, domains[1..])
  }

  lemma {:induction false} NameBeforeFirstEnding(host: string, domains: seq<string>)
    ensures match FirstEnding(host, domains)
            case None => NameBeforeDomain(host, domains) == None
            case Some(d) =>
              d in domains && EndsWith(host, "." + d)
              && NameBeforeDomain(host, domains) == StripSuffix(host, "." + d)
    ensures host !in domains ==> StripDomainSuffix(host, domains) == NameBeforeDomain(host, domains)
  {
    if domains != [] {
      assert domains == [domains[0]] + domains[1..];
      NameBeforeFirstEnding(host, domains[1..]);
    }
  }

  lemma {:induction false} SameEndingsSameFirst(a: string, b: string, domains: seq<string>)
    requires forall d <- domains :: EndsWith(a, "." + d) <==> EndsWith(b, "." + d)
    ensures FirstEnding(a, domains) == FirstEnding(b, domains)
  {
    if domains != [] {
      assert domains[0] in domains;
      assert forall d <- domains[1..] :: d in domains;
      SameEndingsSameFirst(a, b, domains[1..]);
    }
  }

  // ---------------------------------------------------------------------------
  // Nested domains
  // ---------------------------------------------------------------------------

  predicate Nested(t: string, domains: seq<string>) {
    t in domains && exists e <- domains :: EndsWith(t, "." + e)
  }

  /** No domain is `t` with something and a dot in front. */
  predicate Outermost(t: string, domains: seq<string>) {
    forall d <- domains :: !EndsWith(d, "." + t)
  }

  function LongestLength(domains: seq<string>): nat {
    if domains == [] then 0
    else
      var n := LongestLength(domains[1..]);
      if |domains[0]| > n then |domains[0]| else n
  }

  lemma {:induction false} LongestLengthBounds(domains: seq<string>, d: string)
    requires d in domains
    ensures |d| <= LongestLength(domains)
  {
    if d != domains[0] {
      assert d in domains[1..];
      LongestLengthBounds(domains[1..], d);
    }
  }

  lemma {:induction false} SomeOutermost(d: string, domains: seq<string>) returns (t: string)
    requires Nested(d, domains)
    ensures Nested(t, domains) && Outermost(t, domains)
    decreases LongestLength(domains) - |d|
  {
    if Outermost(d, domains) {
      t := d;
    } else {
      var longer :| longer in domains && EndsWith(longer, "." + d);
      LongestLengthBounds(domains, longer);
      t := SomeOutermost(longer, domains);
    }
  }

  /** Hosts under an outermost domain all end in the same domains. */
  lemma EndingsUnder(z: string, t: string, d: string, domains: seq<string>)
    requires Outermost(t, domains) && t in domains && d in domains
    ensures EndsWith(Host(z, t), "." + d) <==> EndsWith("." + t, "." + d)
    ensures Host(z, t) !in domains
  {
    HostEndsWithDomain(z, t);
    if EndsWith(Host(z, t), "." + d) {
      if |t| < |d| {
        ShorterDomainEndsLonger(Host(z, t), t, d);
      } else {
        SuffixesNest(Host(z, t), "." + d, "." + t);
      }
    }
    if EndsWith("." + t, "." + d) {
      EndsWithTrans("." + d, "." + t, Host(z, t));
    }
  }

  /** So the same one comes first for all of them, and is what both the printer and the proxy strip. */
  lemma StrippedUnder(z: string, t: string, domains: seq<string>) returns (f: string)
    requires Outermost(t, domains) && t in domains
    ensures FirstEnding("." + t, domains) == Some(f) && f in domains && EndsWith("." + t, "." + f)
    ensures NameBeforeDomain(Host(z, t), domains) == StripSuffix(Host(z, t), "." + f)
    ensures StripDomainSuffix(Host(z, t), domains) == StripSuffix(Host(z, t), "." + f)
    ensures EndsWith(Host(z, t), "." + f)
  {
    forall d | d in domains ensures EndsWith(Host(z, t), "." + d) <==> EndsWith("." + t, "." + d) {
      EndingsUnder(z, t, d, domains);
    }
    EndingsUnder(z, t, t, domains);
    SameEndingsSameFirst(Host(z, t), "." + t, domains);
    NameBeforeFirstEnding(Host(z, t), domains);
    SomeFirstEnding("." + t, t, domains);
    f := FirstEnding("." + t, domains).value;
  }

  lemma {:induction false} SomeFirstEnding(host: string, d: string, domains: seq<string>)
    requires d in domains && EndsWith(host, "." + d)
    ensures FirstEnding(host, domains).Some?
  {
    if !EndsWith(host, "." + domains[0]) {
      assert d in domains[1..];
      SomeFirstEnding(host, d, domains[1..]);
    }
  }

  // ---------------------------------------------------------------------------
  // An address that leads nowhere
  // ---------------------------------------------------------------------------

  /** `t` is `x` under `e`. */
  lemma NestedSplits(t: string, e: string, domains: seq<string>) returns (x: string)
    requires t in domains && EndsWith(t, "." + e) && NoDoubledDots(domains)
    ensures t == Host(x, e) && x != ""
  {
    x := t[..|t| - |e| - 1];
    assert t == x + ("." + e) && x + ("." + e) == Host(x, e);
    if x == "" { LeadingDot(t); }
  }

  lemma LeadingDot(t: string)
    requires "." <= t
    ensures Contains("." + t, "..")
  {
    assert ("." + t)[0..2] == "..";
    assert OccursAt("." + t, "..", 0);
  }

  lemma DoubledDotsCarry(y: string, x: string, t: string)
    requires '.' !in y && x <= t && Contains(Host(y, x), "..")
    ensures Contains("." + t, "..")
  {
    var name, dotted := Host(y, x), "." + t;
    assert forall k | 0 <= k < |y| :: name[k] == y[k] && y[k] in y;
    var k :| 0 <= k <= |name| && OccursAt(name, "..", k);
    assert name[k..k + 2][0] == name[k] == '.' && name[k..k + 2][1] == name[k + 1] == '.';
    var j := k - |y|;
    assert name[k] == dotted[j] && name[k + 1] == dotted[j + 1];
    assert dotted[j..j + 2] == "..";
    assert OccursAt(dotted, "..", j);
  }

  /** A name without dots that is longer than `t`. */
  predicate Blocks(y: string, t: string) {
    |y| > |t| && forall c <- y :: c == 'b'
  }

  /** Putting something between such a name and what follows makes a host that does not end in the old one. */
  lemma InsertionMisses(y: string, x: string, s: string)
    requires Blocks(y, x)
    ensures !EndsWith(Host(Host(y, x), s), "." + Host(y, s)) && Host(Host(y, x), s) != Host(y, s)
  {
    var long, short := Host(Host(y, x), s), "." + Host(y, s);
    assert long[|x|] == y[|x|] && y[|x|] in y;
    if EndsWith(long, short) { EndsWithAt(long, short, 0); }
  }

  lemma NoMatch(h: string, q: string, rp: string, qp: string, domains: seq<string>)
    requires h != q && !EndsWith(q, "." + h) && rp != qp && !EndsWith(qp, "." + rp)
    requires StripDomainSuffix(h, domains) == Some(rp) && StripDomainSuffix(q, domains) == Some(qp)
    ensures !HostnameMatches(h, q, domains)
  {
  }

  /** Under `t`, with `f` the domain that is stripped, the name of `z.t` is what stands in front of `f`. */
  lemma NameUnder(z: string, x: string, f: string, t: string, domains: seq<string>)
    requires Outermost(t, domains) && t in domains && t == Host(x, f)
    requires FirstEnding("." + t, domains) == Some(f)
    ensures NameBeforeDomain(Host(z, t), domains) == Some(Host(z, x))
    ensures StripDomainSuffix(Host(z, t), domains) == Some(Host(z, x))
  {
    var g := StrippedUnder(z, t, domains);
    assert Host(z, t) == Host(Host(z, x), f);
    HostEndsWithDomain(Host(z, x), f);
  }

  lemma OwnNameUnder(z: string, t: string, domains: seq<string>)
    requires Outermost(t, domains) && t in domains && FirstEnding("." + t, domains) == Some(t)
    ensures NameBeforeDomain(Host(z, t), domains) == Some(z)
    ensures StripDomainSuffix(Host(z, t), domains) == Some(z)
  {
    var g := StrippedUnder(z, t, domains);
    HostEndsWithDomain(z, t);
  }

  /** The hostname is `y.x.t` for `t = x.e`, stripped of `t`; the address printed under `e` is `y.t`. */
  lemma LongerNameMisses(y: string, x: string, e: string, t: string, domains: seq<string>)
    requires Outermost(t, domains) && t in domains && t == Host(x, e)
    requires FirstEnding("." + t, domains) == Some(t)
    ensures NameBeforeDomain(Host(Host(y, x), t), domains) == Some(Host(y, x))
    ensures !HostnameMatches(Host(Host(y, x), t), Host(Host(y, x), e), domains)
  {
    OwnNameUnder(Host(y, x), t, domains);
    OwnNameUnder(y, t, domains);
    assert Host(Host(y, x), e) == Host(y, t);
    assert |Host(y, t)| < |Host(Host(y, x), t)| && |y| < |Host(y, x)|;
    NoMatch(Host(Host(y, x), t), Host(y, t), Host(y, x), y, domains);
  }

  /** The hostname is `y.t` for `t = x.f`, stripped of `f`; the address printed under `t` is `y.x.t`. */
  lemma ShorterNameMisses(y: string, x: string, f: string, t: string, domains: seq<string>)
    requires Outermost(t, domains) && t in domains && t == Host(x, f) && Blocks(y, x)
    requires FirstEnding("." + t, domains) == Some(f)
    ensures NameBeforeDomain(Host(y, t), domains) == Some(Host(y, x))
    ensures !HostnameMatches(Host(y, t), Host(Host(y, x), t), domains)
  {
    NameUnder(y, x, f, t, domains);
    NameUnder(Host(y, x), x, f, t, domains);
    InsertionMisses(y, x, t);
    InsertionMisses(y, x, x);
    NoMatch(Host(y, t), Host(Host(y, x), t), Host(y, x), Host(Host(y, x), x), domains);
  }

  lemma AcceptedUnder(h: string, t: string, y: string, x: string, domains: seq<string>)
    requires t in domains && EndsWith(h, "." + t) && NoDoubledDots(domains)
    requires NameBeforeDomain(h, domains) == Some(Host(y, x)) && '.' !in y && x <= t
    ensures Accepted(h, domains) && ExtractHostnamePrefix(h, domains) == Host(y, x)
  {
    if Contains(Host(y, x), "..") { DoubledDotsCarry(y, x, t); }
  }

  /** All its characters are filler, dots, or taken from the domains. */
  predicate MadeOf(h: string, domains: seq<string>) {
    forall c <- h :: c == 'b' || c == '.' || exists d <- domains :: c in d
  }

  /** In every list with a nested domain there is an accepted hostname with an address that does not match it. */
  lemma SomeAddressMisses(domains: seq<string>) returns (h: string, d: string)
    requires NoDoubledDots(domains) && !SuffixFree(domains)
    ensures Accepted(h, domains) && d in domains && MadeOf(h, domains)
    ensures !HostnameMatches(h, Host(ExtractHostnamePrefix(h, domains), d), domains)
  {
    var n, inner :| n in domains && inner in domains && EndsWith(n, "." + inner);
    var t := SomeOutermost(n, domains);
    var y := Filler(|t| + 1);
    var f := StrippedUnder(y, t, domains);
    if f == t {
      var e :| e in domains && EndsWith(t, "." + e);
      var x := NestedSplits(t, e, domains);
      LongerNameMisses(y, x, e, t, domains);
      h, d := Host(Host(y, x), t), e;
      HostEndsWithDomain(Host(y, x), t);
      AcceptedUnder(h, t, y, x, domains);
      assert forall c <- x :: c in t;
    } else {
      ProperEnding(t, f);
      var x := NestedSplits(t, f, domains);
      ShorterNameMisses(y, x, f, t, domains);
      h, d := Host(y, t), t;
      HostEndsWithDomain(y, t);
      AcceptedUnder(h, t, y, x, domains);
    }
  }

  lemma ProperEnding(t: string, f: string)
    requires EndsWith("." + t, "." + f) && f != t
    ensures EndsWith(t, "." + f)
  {
    assert ("." + t)[1..] == t && ("." + f)[1..] == f;
    assert ("." + t)[|t| - |f|..] == "." + f;
    assert |f| < |t| ==> t[|t| - |f| - 1..] == ("." + t)[|t| - |f|..];
  }

  /** Every printed address matches its hostname exactly when no configured domain is a dot-suffix of another. */
  lemma AllMatchExactly(domains: seq<string>)
    requires NoDoubledDots(domains)
    ensures AllMatch(domains) <==> SuffixFree(domains)
  {
    if SuffixFree(domains) {
      forall h, d | Accepted(h, domains) && d in domains
        ensures HostnameMatches(h, Host(ExtractHostnamePrefix(h, domains), d), domains)
      {
        ValidatedName(h, domains);
        var name := ExtractHostnamePrefix(h, domains);
        var own :| own in domains && h == Host(name, own);
        MatchesByName(name, own, name, d, domains);
      }
    } else {
      var h, d := SomeAddressMisses(domains);
    }
  }

  // ---------------------------------------------------------------------------
  // From the keyboard to the route
  // ---------------------------------------------------------------------------

  predicate IsDnsChar(c: char) {
    'a' <= c <= 'z' || '0' <= c <= '9' || c == '-' || c == '.'
  }

  predicate DnsText(s: string) {
    s != "" && forall c <- s :: IsDnsChar(c)
  }

  /** Lower-casing leaves such texts alone. */
  ghost predicate KeepsDnsText(lower: string -> string) {
    forall s | DnsText(s) :: lower(s) == s
  }

  /** What the proxy finds with only this route registered when a client asks for the path under a printed address. */
  function Found(
    r: Route, path: string, domains: seq<string>, i: nat, proxyPort: nat, tls: bool, displays: seq<DomainDisplay>,
    lower: string -> string): Option<Route>
    requires i < |domains|
  {
    var urls := FormatUrls(ExtractHostnamePrefix(r.hostname, domains), domains, proxyPort, tls, displays, lower);
    Best(ExtractHost(HostHeaderFor(urls[i])), path, [r], domains)
  }

  predicate RegisteredFor(r: Route, raw: string, domains: seq<string>, lower: string -> string) {
    && ParseHostname(SplitNamePath(raw).0, domains, lower) == Ok(r.hostname)
    && r.pathPrefix == Normalize(SplitNamePath(raw).1)
  }

  predicate LeadsBack(
    r: Route, raw: string, domains: seq<string>, i: nat, proxyPort: nat, tls: bool, displays: seq<DomainDisplay>,
    lower: string -> string)
    requires i < |domains|
  {
    Found(r, SplitNamePath(raw).1, domains, i, proxyPort, tls, displays, lower) == Some(r)
  }

  /** The promise: whatever is typed, every address printed for the route it makes leads to that route. */
  ghost predicate AddressesLeadBack(
    domains: seq<string>, proxyPort: nat, tls: bool, displays: seq<DomainDisplay>, lower: string -> string)
  {
    forall raw, r, i: nat | i < |domains| && RegisteredFor(r, raw, domains, lower) ::
      LeadsBack(r, raw, domains, i, proxyPort, tls, displays, lower)
  }

  lemma LoneRouteFoundExactly(r: Route, host: string, path: string, domains: seq<string>)
    requires "/" <= path && r.pathPrefix == Normalize(path)
    ensures Best(host, path, [r], domains) == Some(r) <==> HostnameMatches(r.hostname, host, domains)
    ensures PathMatchesPrefix(path, r.pathPrefix)
  {
    MatchesOwnPrefix(path);
    assert [r][1..] == [];
    assert Candidates(host, path, [], domains) == [];
    if Matches(r, host, path, domains) {
      assert Candidates(host, path, [r], domains) == [r];
      assert SortByPrefix([r]) == [r];
    } else {
      assert Candidates(host, path, [r], domains) == [];
    }
  }

  lemma DnsTextStays(h: string, domains: seq<string>, lower: string -> string)
    requires DnsText(h) && KeepsDnsText(lower)
    ensures SplitNamePath(h) == (h, "/")
    ensures lower(BareHostname(h)) == h
  {
    assert forall k | 0 <= k < |h| :: h[k] in h;
    assert "" + h + "" == h;
    TypedNameIsKept(h, "", "");
    BareOfDnsText(h);
  }

  lemma AcceptedAsTyped(h: string, domains: seq<string>, lower: string -> string)
    requires DnsText(h) && KeepsDnsText(lower) && Accepted(h, domains)
    ensures ParseHostname(SplitNamePath(h).0, domains, lower) == Ok(h)
  {
    DnsTextStays(h, domains, lower);
  }

  predicate Scheme(scheme: string) {
    scheme in {"", "http://", "https://"}
  }

  lemma BareOfAddress(scheme: string, s: string, rest: string)
    requires Scheme(scheme) && DnsText(s)
    ensures BareHostname(scheme + s + "/" + rest) == s
  {
    var raw, trimmed := scheme + s + "/" + rest, scheme + s + "/" + TrimEnd(rest);
    TrimOfAddress(scheme, s, rest);
    SchemeIsTrimmed(scheme, s, TrimEnd(rest), trimmed);
    BareOfTrimmed(raw, trimmed, s, TrimEnd(rest));
  }

  lemma BareOfTrimmed(raw: string, trimmed: string, s: string, tail: string)
    requires DnsText(s) && Trim(raw) == trimmed
    requires TrimStartMatches(TrimStartMatches(trimmed, "http://"), "https://") == s + "/" + tail
    ensures BareHostname(raw) == s
  {
    FirstPieceOf(TrimStartMatches(TrimStartMatches(trimmed, "http://"), "https://"), s, tail);
  }

  lemma FirstPieceOf(bare: string, s: string, tail: string)
    requires DnsText(s) && bare == s + "/" + tail
    ensures Split(bare, '/')[0] == s
  {
    assert bare == s + ['/'] + tail;
    SplitConcat(s, '/', tail);
    assert forall c <- s :: c != '/';
    SplitNoSeparator(s, '/');
  }

  lemma TrimOfAddress(scheme: string, s: string, rest: string)
    requires Scheme(scheme) && DnsText(s)
    ensures Trim(scheme + s + "/" + rest) == scheme + s + "/" + TrimEnd(rest)
  {
    var typed := scheme + s + "/" + rest;
    assert s[0] in s && typed[0] == if scheme == "" then s[0] else scheme[0];
    assert scheme != "" ==> scheme[0] == 'h';
    assert TrimStart(typed) == typed;
    SlashStopsTrim(scheme + s, rest);
  }

  lemma SlashStopsTrim(front: string, rest: string)
    ensures TrimEnd(front + "/" + rest) == front + "/" + TrimEnd(rest)
  {
    var w := TrimEndSplits(rest);
    var kept := front + "/" + TrimEnd(rest);
    assert front + "/" + rest == kept + w;
    TrimEndAppend(kept, w);
    assert kept[|kept| - 1] == if TrimEnd(rest) == "" then '/' else TrimEnd(rest)[|TrimEnd(rest)| - 1];
    assert TrimEnd(kept) == kept;
  }

  lemma TrimsOnce(text: string, pattern: string)
    requires pattern != "" && !(pattern <= text)
    ensures TrimStartMatches(text, pattern) == text && TrimStartMatches(pattern + text, pattern) == text
  {
    assert (pattern + text)[|pattern|..] == text;
  }

  lemma SchemesDiffer(text: string)
    ensures !("http://" <= "https://" + text)
  {
    assert ("https://" + text)[4] == "https://"[4] == 's' && "http://"[4] == ':';
  }

  lemma HttpTrimmed(text: string, trimmed: string)
    requires trimmed == "http://" + text && !("http://" <= text) && !("https://" <= text)
    ensures TrimStartMatches(TrimStartMatches(trimmed, "http://"), "https://") == text
  {
    TrimsOnce(text, "http://");
    TrimsOnce(text, "https://");
  }

  lemma HttpsTrimmed(text: string, trimmed: string)
    requires trimmed == "https://" + text && !("https://" <= text)
    ensures TrimStartMatches(TrimStartMatches(trimmed, "http://"), "https://") == text
  {
    SchemesDiffer(text);
    TrimsOnce(trimmed, "http://");
    TrimsOnce(text, "https://");
  }

  lemma NothingTrimmed(text: string)
    requires !("http://" <= text) && !("https://" <= text)
    ensures TrimStartMatches(TrimStartMatches(text, "http://"), "https://") == text
  {
    TrimsOnce(text, "http://");
    TrimsOnce(text, "https://");
  }

  lemma SchemeIsTrimmed(scheme: string, s: string, rest: string, trimmed: string)
    requires Scheme(scheme) && DnsText(s) && trimmed == scheme + s + "/" + rest
    ensures TrimStartMatches(TrimStartMatches(trimmed, "http://"), "https://") == s + "/" + rest
  {
    assert trimmed == scheme + (s + "/" + rest);
    NoSchemeAhead(s, rest);
    if scheme == "http://" {
      HttpTrimmed(s + "/" + rest, trimmed);
    } else if scheme == "https://" {
      HttpsTrimmed(s + "/" + rest, trimmed);
    } else {
      assert trimmed == s + "/" + rest;
      NothingTrimmed(trimmed);
    }
  }

  /** A hostname followed by a slash does not begin with a scheme. */
  lemma NoSchemeAhead(s: string, rest: string)
    requires DnsText(s)
    ensures !("http://" <= s + "/" + rest) && !("https://" <= s + "/" + rest)
  {
    var text := s + "/" + rest;
    assert forall k | 0 <= k < |s| :: text[k] == s[k] && s[k] in s;
    assert text[|s|] == '/';
    assert "http://"[4] == ':' && "https://"[5] == ':';
    assert forall k | 0 <= k < 4 :: "http://"[k] != '/';
    assert forall k | 0 <= k < 5 :: "https://"[k] != '/';
  }

  lemma SameBareSameHostname(a: string, b: string, domains: seq<string>, lower: string -> string)
    requires BareHostname(a) == BareHostname(b)
    ensures ParseHostname(a, domains, lower) == ParseHostname(b, domains, lower)
  {
  }

  /** A pasted address is read as its host: scheme and path do not matter. */
  lemma AddressIsTypedHost(scheme: string, s: string, rest: string, domains: seq<string>, lower: string -> string)
    requires Scheme(scheme) && DnsText(s)
    ensures ParseHostname(scheme + s + "/" + rest, domains, lower) == ParseHostname(s, domains, lower)
  {
    BareOfAddress(scheme, s, rest);
    BareOfDnsText(s);
    SameBareSameHostname(scheme + s + "/" + rest, s, domains, lower);
  }

  lemma BareOfDnsText(s: string)
    requires DnsText(s)
    ensures BareHostname(s) == s
  {
    assert forall k | 0 <= k < |s| :: s[k] in s;
    assert Trim(s) == s;
    assert ':' !in s && '/' !in s;
    assert "http://"[4] == ':' && "https://"[5] == ':';
    assert !("http://" <= s) && !("https://" <= s);
    SplitNoSeparator(s, '/');
  }

  /** A plain name is put under the first domain, and a name under a configured domain stays as it is. */
  lemma TypedNameIsQualified(s: string, domains: seq<string>, lower: string -> string)
    requires DnsText(s) && KeepsDnsText(lower) && domains != []
    ensures !HasDomain(s, domains) && Accepted(Host(s, domains[0]), domains) ==>
              ParseHostname(s, domains, lower) == Ok(Host(s, domains[0]))
    ensures Accepted(s, domains) ==> ParseHostname(s, domains, lower) == Ok(s)
  {
    BareOfDnsText(s);
  }

  /** A domain alone is no name. */
  lemma DomainIsNoName(s: string, domains: seq<string>, lower: string -> string)
    requires DnsText(s) && KeepsDnsText(lower) && s in domains && forall d <- domains :: !EndsWith(s, "." + d)
    ensures ParseHostname(s, domains, lower) == Err(EmptyHostname)
  {
    BareOfDnsText(s);
    NameBeforeDomainSplits(s, domains);
    NameBeforeFirstEnding(s, domains);
  }

  /** Neither is one with two dots in a row. */
  lemma DoubledDotsRefused(s: string, d: string, domains: seq<string>, lower: string -> string)
    requires DnsText(s) && KeepsDnsText(lower) && SuffixFree(domains) && d in domains
    requires s == Host(NameBefore(s, d), d) && Contains(NameBefore(s, d), "..")
    ensures ParseHostname(s, domains, lower) == Err(ConsecutiveDots(NameBefore(s, d)))
  {
    BareOfDnsText(s);
    OwnDomainIsFirst(s, d, domains);
  }

  function NameBefore(s: string, d: string): string {
    if |d| + 1 <= |s| then s[..|s| - |d| - 1] else ""
  }

  lemma OwnDomainIsFirst(s: string, d: string, domains: seq<string>)
    requires SuffixFree(domains) && d in domains && s == Host(NameBefore(s, d), d)
    ensures NameBeforeDomain(s, domains) == Some(NameBefore(s, d)) && HasDomain(s, domains)
  {
    HostEndsWithDomain(NameBefore(s, d), d);
    SomeFirstEnding(s, d, domains);
    NameBeforeFirstEnding(s, domains);
    DomainUnique(s, d, FirstEnding(s, domains).value, domains);
  }

  lemma PrintedHostIs(
    r: Route, domains: seq<string>, i: nat, proxyPort: nat, tls: bool, displays: seq<DomainDisplay>,
    lower: string -> string)
    requires i < |domains| && PlainHost(ExtractHostnamePrefix(r.hostname, domains)) && PlainHost(domains[i])
    ensures var prefix := ExtractHostnamePrefix(r.hostname, domains);
            ExtractHost(HostHeaderFor(FormatUrls(prefix, domains, proxyPort, tls, displays, lower)[i]))
            == Host(prefix, domains[i])
  {
    PrintedHost(Host(ExtractHostnamePrefix(r.hostname, domains), domains[i]), proxyPort, tls, displays, lower);
  }

  lemma DnsTextIsPlain(s: string)
    requires DnsText(s)
    ensures PlainHost(s)
  {
  }

  lemma PrefixCharacters(h: string, domains: seq<string>)
    ensures forall c <- ExtractHostnamePrefix(h, domains) :: c in h
  {
    NameBeforeFirstEnding(h, domains);
  }

  lemma MadeOfDnsText(h: string, domains: seq<string>)
    requires MadeOf(h, domains) && h != "" && forall d <- domains :: DnsText(d)
    ensures DnsText(h)
  {
  }

  lemma MissedIsLost(
    r: Route, raw: string, domains: seq<string>, i: nat, proxyPort: nat, tls: bool, displays: seq<DomainDisplay>,
    lower: string -> string)
    requires i < |domains| && PlainHost(r.hostname) && PlainHost(domains[i])
    requires "/" <= SplitNamePath(raw).1 && r.pathPrefix == Normalize(SplitNamePath(raw).1)
    requires !HostnameMatches(r.hostname, Host(ExtractHostnamePrefix(r.hostname, domains), domains[i]), domains)
    ensures !LeadsBack(r, raw, domains, i, proxyPort, tls, displays, lower)
  {
    var prefix := ExtractHostnamePrefix(r.hostname, domains);
    PrefixCharacters(r.hostname, domains);
    PrintedHostIs(r, domains, i, proxyPort, tls, displays, lower);
    LoneRouteFoundExactly(r, Host(prefix, domains[i]), SplitNamePath(raw).1, domains);
  }

  lemma UnreachableRoute(
    domains: seq<string>, proxyPort: nat, tls: bool, displays: seq<DomainDisplay>, lower: string -> string)
    returns (r: Route, raw: string, i: nat)
    requires (forall d <- domains :: DnsText(d)) && NoDoubledDots(domains) && KeepsDnsText(lower)
    requires !SuffixFree(domains)
    ensures i < |domains| && RegisteredFor(r, raw, domains, lower)
    ensures !LeadsBack(r, raw, domains, i, proxyPort, tls, displays, lower)
  {
    var h, d := SomeAddressMisses(domains);
    raw := h;
    MadeOfDnsText(h, domains);
    AcceptedAsTyped(h, domains, lower);
    DnsTextStays(h, domains, lower);
    r := Route(h, 4000, 0, false, Normalize("/"), false, None);
    i :| i < |domains| && domains[i] == d;
    DnsTextIsPlain(h);
    DnsTextIsPlain(d);
    MissedIsLost(r, raw, domains, i, proxyPort, tls, displays, lower);
  }

  lemma ReachableRoute(
    raw: string, r: Route, i: nat, domains: seq<string>, proxyPort: nat, tls: bool, displays: seq<DomainDisplay>,
    lower: string -> string)
    requires AddsOnlySmallLetters(lower) && SuffixFree(domains) && (forall d <- domains :: PlainHost(d))
    requires i < |domains| && RegisteredFor(r, raw, domains, lower)
    ensures LeadsBack(r, raw, domains, i, proxyPort, tls, displays, lower)
  {
    NamePathShape(raw);
    PrintedAddressMatches(raw, domains, lower, proxyPort, tls, displays, i, r.hostname);
    var prefix := ExtractHostnamePrefix(r.hostname, domains);
    LoneRouteFoundExactly(r, Host(prefix, domains[i]), SplitNamePath(raw).1, domains);
  }

  /** The promise is kept for everything that can be typed exactly when no configured domain is a dot-suffix of
      another. */
  lemma AddressesLeadBackExactly(
    domains: seq<string>, proxyPort: nat, tls: bool, displays: seq<DomainDisplay>, lower: string -> string)
    requires (forall d <- domains :: DnsText(d)) && NoDoubledDots(domains)
    requires AddsOnlySmallLetters(lower) && KeepsDnsText(lower)
    ensures AddressesLeadBack(domains, proxyPort, tls, displays, lower) <==> SuffixFree(domains)
  {
    if SuffixFree(domains) {
      forall d | d in domains ensures PlainHost(d) { DnsTextIsPlain(d); }
      forall raw, r, i: nat | i < |domains| && RegisteredFor(r, raw, domains, lower)
        ensures LeadsBack(r, raw, domains, i, proxyPort, tls, displays, lower)
      {
        ReachableRoute(raw, r, i, domains, proxyPort, tls, displays, lower);
      }
    } else {
      var r, raw, i := UnreachableRoute(domains, proxyPort, tls, displays, lower);
    }
  }

  /** The ordinary case, of a domain `x.f` configured beside `f`, which the configuration puts first if it is
      "localhost": a name without dots is reachable under `x.f` exactly when `x` ends in it. */
  lemma SubdomainUnreachableExactly(name: string, x: string, f: string, domains: seq<string>)
    requires domains == [f, Host(x, f)] && name != "" && '.' !in name
    ensures ExtractHostnamePrefix(Host(name, f), domains) == name
    ensures HostnameMatches(Host(name, f), Host(name, Host(x, f)), domains) <==> Covers(name, x)
  {
    var route, request := Host(name, f), Host(Host(name, x), f);
    assert Host(name, Host(x, f)) == request;
    HostEndsWithDomain(name, f);
    HostEndsWithDomain(Host(name, x), f);
    EndsUnder(Host(name, x), name, f);
    EndsWithOwnName(name, x);
    assert StripDomainSuffix(route, domains) == Some(name);
    assert StripDomainSuffix(request, domains) == Some(Host(name, x));
    assert |route| < |request| && |name| < |Host(name, x)|;
  }

  lemma EndsUnder(a: string, b: string, f: string)
    ensures EndsWith(Host(a, f), "." + Host(b, f)) <==> EndsWith(a, "." + b)
  {
    var long, short := Host(a, f), "." + Host(b, f);
    assert short == "." + b + ("." + f) && long == a + ("." + f);
    if |b| < |a| {
      var k := |a| - |b| - 1;
      assert long[k..] == a[k..] + ("." + f);
      assert (a[k..] + ("." + f))[..|b| + 1] == a[k..] && short[..|b| + 1] == "." + b;
    }
  }

  lemma EndsWithOwnName(name: string, x: string)
    requires '.' !in name
    ensures EndsWith(Host(name, x), "." + name) <==> Covers(name, x)
  {
    var long, short := Host(name, x), "." + name;
    assert forall k | 0 <= k < |name| :: long[k] == name[k] && name[k] in name;
    if EndsWith(long, short) { EndsWithAt(long, short, 0); }
    HostEndsWithDomain(name, x);
    if |name| < |x| {
      assert long[|x|..] == x[|x| - |name| - 1..];
    } else if |name| == |x| {
      assert long[|x|..] == "." + x && ("." + x)[1..] == x && short[1..] == name;
    }
  }
}
