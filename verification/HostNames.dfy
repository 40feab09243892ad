/** Comparing a request host with a registered hostname across the configured domain suffixes. */
module HostNames {
  import opened Text

  function Host(prefix: string, domain: string): string {
    prefix + "." + domain
  }

  function StripDomainSuffix(host: string, domains: seq<string>): Option<string> {
    if domains == [] then None
    else if host == domains[0] then Some("")
    else if EndsWith(host, "." + domains[0]) then StripSuffix(host, "." + domains[0])
    else StripDomainSuffix(host, domains[1..])
  }

  method FindDomainSuffix(host: string, domains: seq<string>) returns (prefix: Option<string>)
    ensures prefix == StripDomainSuffix(host, domains)
  {
    for i := 0 to |domains|
      invariant StripDomainSuffix(host, domains) == StripDomainSuffix(host, domains[i..])
    {
      assert domains[i..][1..] == domains[i + 1..];
      if host == domains[i] {
        return Some("");
      }
      var stripped := StripSuffix(host, "." + domains[i]);
      if stripped.Some? {
        return stripped;
      }
    }
    return None;
  }

  predicate HostnameMatches(routeHost: string, reqHost: string, domains: seq<string>) {
    || routeHost == reqHost
    || EndsWith(reqHost, "." + routeHost)
    || match (StripDomainSuffix(routeHost, domains), StripDomainSuffix(reqHost, domains))
       case (Some(rp), Some(qp)) => rp != "" && qp != "" && (rp == qp || EndsWith(qp, "." + rp))
       case _ => false
  }

  /** No configured domain is another one with something and a dot in front. */
  predicate SuffixFree(domains: seq<string>) {
    forall d <- domains, e <- domains :: !EndsWith(d, "." + e)
  }

  /** The same name, or a subdomain of it. */
  predicate Covers(p: string, q: string) {
    q == p || EndsWith(q, "." + p)
  }

  lemma EndsWithAt(s: string, suffix: string, k: int)
    requires EndsWith(s, suffix) && 0 <= k < |suffix|
    ensures s[|s| - |suffix| + k] == suffix[k]
  {
    assert s[|s| - |suffix|..][k] == suffix[k];
  }

  lemma EndsWithTrans(a: string, b: string, c: string)
    requires EndsWith(b, a) && EndsWith(c, b)
    ensures EndsWith(c, a)
  {
    assert c[|c| - |a|..] == c[|c| - |b|..][|b| - |a|..];
  }

  /** Of two suffixes of one string, the shorter is a suffix of the longer. */
  lemma SuffixesNest(s: string, a: string, b: string)
    requires EndsWith(s, a) && EndsWith(s, b) && |a| <= |b|
    ensures EndsWith(b, a)
  {
    assert b[|b| - |a|..] == s[|s| - |b|..][|b| - |a|..] == s[|s| - |a|..];
  }

  lemma HostEndsWithDomain(p: string, d: string)
    ensures EndsWith(Host(p, d), "." + d)
    ensures StripSuffix(Host(p, d), "." + d) == Some(p)
  {
    assert Host(p, d)[|p|..] == "." + d;
    assert Host(p, d)[..|p|] == p;
  }

  lemma ShorterDomainEndsLonger(host: string, d: string, e: string)
    requires EndsWith(host, "." + d) && EndsWith(host, "." + e) && |d| < |e|
    ensures EndsWith(e, "." + d)
  {
    SuffixesNest(host, "." + d, "." + e);
    assert e[|e| - |d| - 1..] == ("." + e)[|e| - |d|..] == "." + d;
  }

  /** With suffix-free domains a host determines which of them it ends in. */
  lemma DomainUnique(host: string, d: string, e: string, domains: seq<string>)
    requires SuffixFree(domains) && d in domains && e in domains
    requires EndsWith(host, "." + d) && EndsWith(host, "." + e)
    ensures d == e
  {
    if |d| < |e| {
      ShorterDomainEndsLonger(host, d, e);
    } else if |e| < |d| {
      ShorterDomainEndsLonger(host, e, d);
    } else {
      assert ("." + d) == ("." + e);
      assert ("." + d)[1..] == d && ("." + e)[1..] == e;
    }
  }

  lemma {:induction false} StripsItsDomain(p: string, d: string, tail: seq<string>, domains: seq<string>)
    requires SuffixFree(domains) && d in tail && (forall e <- tail :: e in domains)
    ensures StripDomainSuffix(Host(p, d), tail) == Some(p)
  {
    var host := Host(p, d);
    HostEndsWithDomain(p, d);
    assert tail[0] in tail;
    assert host != tail[0];
    if EndsWith(host, "." + tail[0]) {
      DomainUnique(host, d, tail[0], domains);
    } else {
      assert d != tail[0];
      assert tail == [tail[0]] + tail[1..];
      StripsItsDomain(p, d, tail[1..], domains);
    }
  }

  lemma NameEndsWithName(p: string, d: string, q: string, e: string, domains: seq<string>)
    requires SuffixFree(domains) && d in domains && e in domains
    requires EndsWith(Host(q, e), "." + Host(p, d))
    ensures EndsWith(q, "." + p)
  {
    var host, inner := Host(q, e), "." + Host(p, d);
    HostEndsWithDomain(q, e);
    assert EndsWith(inner, "." + d) by { assert inner[1 + |p|..] == "." + d; }
    EndsWithTrans("." + d, inner, host);
    DomainUnique(host, d, e, domains);
    var k := |host| - |inner|;
    assert q == host[..|q|];
    assert q[k..] == host[k..][..1 + |p|];
    assert inner[..1 + |p|] == "." + p;
  }

  lemma HostsEqual(p: string, d: string, q: string, e: string, domains: seq<string>)
    requires SuffixFree(domains) && d in domains && e in domains && Host(p, d) == Host(q, e)
    ensures p == q
  {
    HostEndsWithDomain(p, d);
    HostEndsWithDomain(q, e);
    DomainUnique(Host(p, d), d, e, domains);
  }

  /** Under suffix-free domains the domain plays no part: only the names in front of it are compared. */
  lemma MatchesByName(p: string, d1: string, q: string, d2: string, domains: seq<string>)
    requires SuffixFree(domains) && d1 in domains && d2 in domains && p != "" && q != ""
    ensures HostnameMatches(Host(p, d1), Host(q, d2), domains) <==> Covers(p, q)
  {
    StripsItsDomain(p, d1, domains, domains);
    StripsItsDomain(q, d2, domains, domains);
    if Host(p, d1) == Host(q, d2) {
      HostsEqual(p, d1, q, d2, domains);
    } else if EndsWith(Host(q, d2), "." + Host(p, d1)) {
      NameEndsWithName(p, d1, q, d2, domains);
    }
  }

  predicate UnderNone(host: string, domains: seq<string>) {
    forall d <- domains :: !EndsWith(host, "." + d)
  }

  lemma {:induction false} NothingToStrip(host: string, domains: seq<string>)
    requires UnderNone(host, domains)
    ensures StripDomainSuffix(host, domains) in {None, Some("")}
  {
    if domains != [] {
      assert domains[0] in domains && forall d <- domains[1..] :: d in domains;
      if host != domains[0] { NothingToStrip(host, domains[1..]); }
    }
  }

  /** When one of the hosts is not under a domain, being one itself included, only the same host and its subdomains
      match. */
  lemma OtherHostsMatchExactly(routeHost: string, reqHost: string, domains: seq<string>)
    requires UnderNone(routeHost, domains) || UnderNone(reqHost, domains)
    ensures HostnameMatches(routeHost, reqHost, domains) <==> Covers(routeHost, reqHost)
  {
    if UnderNone(routeHost, domains) {
      NothingToStrip(routeHost, domains);
    } else {
      NothingToStrip(reqHost, domains);
    }
  }

  /** The names-only law for all configured domains at once. */
  ghost predicate DomainsInterchangeable(domains: seq<string>) {
    forall p, q, d1, d2 | p != "" && q != "" && d1 in domains && d2 in domains ::
      HostnameMatches(Host(p, d1), Host(q, d2), domains) <==> Covers(p, q)
  }

  function Filler(n: nat): (s: string)
    ensures |s| == n && forall c <- s :: c == 'b'
  {
    if n == 0 then "" else "b" + Filler(n - 1)
  }

  /** Cross-domain matching works on names alone exactly when no configured domain is a dot-suffix of another. */
  lemma InterchangeableExactly(domains: seq<string>)
    ensures DomainsInterchangeable(domains) <==> SuffixFree(domains)
  {
    if SuffixFree(domains) {
      forall p, q, d1, d2 | p != "" && q != "" && d1 in domains && d2 in domains
        ensures HostnameMatches(Host(p, d1), Host(q, d2), domains) <==> Covers(p, q)
      {
        MatchesByName(p, d1, q, d2, domains);
      }
    } else {
      var d, e :| d in domains && e in domains && EndsWith(d, "." + e);
      var x := d[..|d| - |e| - 1];
      assert d == x + "." + e;
      var y := Filler(|x| + 1);
      var q := y + "." + x;
      assert Host(y, d) == Host(q, e);
      assert HostnameMatches(Host(y, d), Host(q, e), domains);
      assert y[|x|] in y;
      if EndsWith(q, "." + y) {
        EndsWithAt(q, "." + y, 0);
      }
      assert !Covers(y, q);
    }
  }

  ghost predicate Registrable(host: string, domains: seq<string>) {
    exists p, d :: p != "" && d in domains && host == Host(p, d)
  }

  lemma CoversTransitive(p: string, q: string, r: string)
    requires Covers(p, q) && Covers(q, r)
    ensures Covers(p, r)
  {
    if q != p && r != q {
      assert EndsWith("." + q, q) by { assert ("." + q)[1..] == q; }
      EndsWithTrans("." + p, q, "." + q);
      EndsWithTrans("." + p, "." + q, r);
    }
  }

  /** On registrable names, matching is reflexive and transitive. */
  lemma MatchesIsPreorder(a: string, b: string, c: string, domains: seq<string>)
    requires SuffixFree(domains)
    requires Registrable(a, domains) && Registrable(b, domains) && Registrable(c, domains)
    ensures HostnameMatches(a, a, domains)
    ensures HostnameMatches(a, b, domains) && HostnameMatches(b, c, domains) ==> HostnameMatches(a, c, domains)
  {
    var p, d :| p != "" && d in domains && a == Host(p, d);
    var q, e :| q != "" && e in domains && b == Host(q, e);
    var r, f :| r != "" && f in domains && c == Host(r, f);
    MatchesByName(p, d, q, e, domains);
    MatchesByName(q, e, r, f, domains);
    MatchesByName(p, d, r, f, domains);
    if Covers(p, q) && Covers(q, r) {
      CoversTransitive(p, q, r);
    }
  }
}
