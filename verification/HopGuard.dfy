/** The hop counter that is meant to cut forwarding loops. */
module HopGuard {
  import opened Text
  import opened Routes

  const NSL_HEADER := "x-nsl"
  const NSL_HOPS_HEADER := "x-nsl-hops"

  /** Header names in lower case with their values, in the order of the message; a value without text is absent. */
  type Headers = seq<(string, Option<string>)>

  // ---------------------------------------------------------------------------
  // Header lookup and numbers
  // ---------------------------------------------------------------------------

  /** The first header of that name. */
  function Get(headers: Headers, name: string): Option<(string, Option<string>)> {
    if headers == [] then None
    else if headers[0].0 == name then Some(headers[0])
    else Get(headers[1..], name)
  }

  predicate Has(headers: Headers, name: string) {
    Get(headers, name).Some?
  }

  function TextOf(headers: Headers, name: string): Option<string> {
    match Get(headers, name)
    case None => None
    case Some((_, value)) => value
  }

  /** The library's reading of a 32-bit number. */
  function ParseU32(s: string): Option<nat> {
    var digits := if s != "" && s[0] == '+' then s[1..] else s;
    if digits == "" then None
    else
      match DigitsValue(digits)
      case Some(n) => if n < 0x1_0000_0000 then Some(n) else None
      case None => None
  }

  lemma ParseOfDigits(n: nat)
    requires n < 0x1_0000_0000
    ensures ParseU32(Digits(n)) == Some(n)
  {
    DigitsValueOf(n);
    DigitsAreDigits(n);
    assert Digits(n)[0] in Digits(n);
  }

  function ExtractHops(headers: Headers): nat {
    match TextOf(headers, NSL_HOPS_HEADER)
    case None => 0
    case Some(s) => match ParseU32(s) case Some(n) => n case None => 0
  }

  // ---------------------------------------------------------------------------
  // Forwarding
  // ---------------------------------------------------------------------------

  predicate SkippedHeader(name: string, route: Route) {
    ":" <= name || (route.changeOrigin && name == "host")
  }

  function Copied(headers: Headers, route: Route): Headers {
    if headers == [] then []
    else if SkippedHeader(headers[0].0, route) then Copied(headers[1..], route)
    else [headers[0]] + Copied(headers[1..], route)
  }

  /** The headers with one more appended, as a further header of its name, unless `present`. */
  function AppendUnless(present: bool, headers: Headers, name: string, value: string): Headers {
    if present then headers else headers + [(name, Some(value))]
  }

  function ForwardedFor(headers: Headers): string {
    match TextOf(headers, "x-forwarded-for")
    case Some(existing) => existing + ", 127.0.0.1"
    case None => "127.0.0.1"
  }

  function Forwarded(headers: Headers, host: string, proxyPort: nat, hops: nat, route: Route, tls: bool): Headers {
    var h0 := Copied(headers, route);
    var h1 := AppendUnless(!route.changeOrigin, h0, "host", "127.0.0.1:" + Digits(route.port));
    var h2 := AppendUnless(false, h1, "x-forwarded-for", ForwardedFor(headers));
    var h3 := AppendUnless(Has(headers, "x-forwarded-proto"), h2, "x-forwarded-proto", if tls then "https" else "http");
    var h4 := AppendUnless(Has(headers, "x-forwarded-host"), h3, "x-forwarded-host", host);
    var h5 := AppendUnless(Has(headers, "x-forwarded-port"), h4, "x-forwarded-port", Digits(proxyPort));
    var h6 := AppendUnless(false, h5, NSL_HOPS_HEADER, Digits(hops + 1));
    AppendUnless(false, h6, NSL_HEADER, "1")
  }

  method CopyHeaders(headers: Headers, route: Route) returns (out: Headers)
    ensures out == Copied(headers, route)
  {
    out := [];
    for i := 0 to |headers|
      invariant Copied(headers, route) == out + Copied(headers[i..], route)
    {
      assert headers[i..][1..] == headers[i + 1..];
      if ":" <= headers[i].0 { continue; }
      if route.changeOrigin && headers[i].0 == "host" { continue; }
      out := out + [headers[i]];
    }
    assert out + Copied([], route) == out;
  }

  method BuildForwardedHeaders(headers: Headers, host: string, proxyPort: nat, hops: nat, route: Route, tls: bool)
    returns (out: Headers)
    ensures out == Forwarded(headers, host, proxyPort, hops, route, tls)
  {
    out := CopyHeaders(headers, route);
    if route.changeOrigin {
      out := out + [("host", Some("127.0.0.1:" + Digits(route.port)))];
    }
    out := out + [("x-forwarded-for", Some(ForwardedFor(headers)))];
    if !Has(headers, "x-forwarded-proto") {
      out := out + [("x-forwarded-proto", Some(if tls then "https" else "http"))];
    }
    if !Has(headers, "x-forwarded-host") {
      out := out + [("x-forwarded-host", Some(host))];
    }
    if !Has(headers, "x-forwarded-port") {
      out := out + [("x-forwarded-port", Some(Digits(proxyPort)))];
    }
    out := out + [(NSL_HOPS_HEADER, Some(Digits(hops + 1)))];
    out := out + [(NSL_HEADER, Some("1"))];
  }

  datatype Verdict = LoopDetected | Pass(headers: Headers)

  /** One passage through a proxy, as far as the hop counter goes. `maxHops` is configured as one byte. */
  function Handle(headers: Headers, maxHops: nat, host: string, proxyPort: nat, route: Route, tls: bool): Verdict {
    var hops := ExtractHops(headers);
    if hops >= maxHops then LoopDetected else Pass(Forwarded(headers, host, proxyPort, hops, route, tls))
  }

  // ---------------------------------------------------------------------------
  // What the next proxy reads
  // ---------------------------------------------------------------------------

  lemma {:induction false} GetConcat(a: Headers, b: Headers, name: string)
    ensures Get(a + b, name) == if Has(a, name) then Get(a, name) else Get(b, name)
  {
    if a == [] {
      assert a + b == b;
    } else {
      assert (a + b)[1..] == a[1..] + b;
      GetConcat(a[1..], b, name);
    }
  }

  lemma {:induction false} GetCopied(headers: Headers, route: Route, name: string)
    requires !SkippedHeader(name, route)
    ensures Get(Copied(headers, route), name) == Get(headers, name)
  {
    if headers != [] {
      GetCopied(headers[1..], route, name);
      if !SkippedHeader(headers[0].0, route) {
        assert ([headers[0]] + Copied(headers[1..], route))[1..] == Copied(headers[1..], route);
      }
    }
  }

  lemma HopsHeaderIsDistinct()
    ensures "host" != NSL_HOPS_HEADER && "x-forwarded-for" != NSL_HOPS_HEADER
    ensures "x-forwarded-proto" != NSL_HOPS_HEADER && "x-forwarded-host" != NSL_HOPS_HEADER
    ensures "x-forwarded-port" != NSL_HOPS_HEADER && !(":" <= NSL_HOPS_HEADER)
  {
    assert NSL_HOPS_HEADER[0] == 'x' && ":"[0] == ':' && "host"[0] == 'h';
    assert NSL_HOPS_HEADER[2] == 'n' && "x-forwarded-for"[2] == 'f' && "x-forwarded-proto"[2] == 'f';
    assert "x-forwarded-host"[2] == 'f' && "x-forwarded-port"[2] == 'f';
  }

  lemma GetAppended(present: bool, headers: Headers, name: string, value: string, wanted: string)
    ensures Get(AppendUnless(present, headers, name, value), wanted)
            == if present || Has(headers, wanted) || name != wanted then Get(headers, wanted)
               else Some((name, Some(value)))
  {
    GetConcat(headers, [(name, Some(value))], wanted);
  }

  /** What the proxy supplies for a header the copied ones lack. */
  function Supplied(wanted: string, headers: Headers, host: string, proxyPort: nat, hops: nat, route: Route, tls: bool)
    : Option<string>
  {
    if wanted == "host" && route.changeOrigin then Some("127.0.0.1:" + Digits(route.port))
    else if wanted == "x-forwarded-for" then Some(ForwardedFor(headers))
    else if wanted == "x-forwarded-proto" && !Has(headers, wanted) then Some(if tls then "https" else "http")
    else if wanted == "x-forwarded-host" && !Has(headers, wanted) then Some(host)
    else if wanted == "x-forwarded-port" && !Has(headers, wanted) then Some(Digits(proxyPort))
    else if wanted == NSL_HOPS_HEADER then Some(Digits(hops + 1))
    else if wanted == NSL_HEADER then Some("1")
    else None
  }

  /** The upstream reads the client's first header of a name if one was copied, and otherwise what the proxy supplies
      for that name. */
  lemma UpstreamReads(
    wanted: string, headers: Headers, host: string, proxyPort: nat, hops: nat, route: Route, tls: bool)
    ensures Get(Forwarded(headers, host, proxyPort, hops, route, tls), wanted)
            == if Has(Copied(headers, route), wanted) then Get(Copied(headers, route), wanted)
               else match Supplied(wanted, headers, host, proxyPort, hops, route, tls)
                    case Some(value) => Some((wanted, Some(value)))
                    case None => None
  {
    var h0 := Copied(headers, route);
    var h1 := AppendUnless(!route.changeOrigin, h0, "host", "127.0.0.1:" + Digits(route.port));
    GetAppended(!route.changeOrigin, h0, "host", "127.0.0.1:" + Digits(route.port), wanted);
    var h2 := AppendUnless(false, h1, "x-forwarded-for", ForwardedFor(headers));
    GetAppended(false, h1, "x-forwarded-for", ForwardedFor(headers), wanted);
    var scheme := if tls then "https" else "http";
    var h3 := AppendUnless(Has(headers, "x-forwarded-proto"), h2, "x-forwarded-proto", scheme);
    GetAppended(Has(headers, "x-forwarded-proto"), h2, "x-forwarded-proto", scheme, wanted);
    var h4 := AppendUnless(Has(headers, "x-forwarded-host"), h3, "x-forwarded-host", host);
    GetAppended(Has(headers, "x-forwarded-host"), h3, "x-forwarded-host", host, wanted);
    var h5 := AppendUnless(Has(headers, "x-forwarded-port"), h4, "x-forwarded-port", Digits(proxyPort));
    GetAppended(Has(headers, "x-forwarded-port"), h4, "x-forwarded-port", Digits(proxyPort), wanted);
    var h6 := AppendUnless(false, h5, NSL_HOPS_HEADER, Digits(hops + 1));
    GetAppended(false, h5, NSL_HOPS_HEADER, Digits(hops + 1), wanted);
    GetAppended(false, h6, NSL_HEADER, "1", wanted);
  }

  /** A hop header that is already there stays the first one; only a request without one gets the new count. */
  lemma NextProxyReads(headers: Headers, host: string, proxyPort: nat, hops: nat, route: Route, tls: bool)
    ensures Get(Forwarded(headers, host, proxyPort, hops, route, tls), NSL_HOPS_HEADER)
            == if Has(headers, NSL_HOPS_HEADER) then Get(headers, NSL_HOPS_HEADER)
               else Some((NSL_HOPS_HEADER, Some(Digits(hops + 1))))
  {
    HopsHeaderIsDistinct();
    GetCopied(headers, route, NSL_HOPS_HEADER);
    UpstreamReads(NSL_HOPS_HEADER, headers, host, proxyPort, hops, route, tls);
  }

  // ---------------------------------------------------------------------------
  // All values of a name
  // ---------------------------------------------------------------------------

  /** The values of all headers of that name, in order. */
  function ValuesOf(headers: Headers, name: string): seq<Option<string>> {
    if headers == [] then []
    else if headers[0].0 == name then [headers[0].1] + ValuesOf(headers[1..], name)
    else ValuesOf(headers[1..], name)
  }

  lemma {:induction false} ValuesConcat(a: Headers, b: Headers, name: string)
    ensures ValuesOf(a + b, name) == ValuesOf(a, name) + ValuesOf(b, name)
  {
    if a == [] {
      assert a + b == b;
    } else {
      assert (a + b)[1..] == a[1..] + b;
      ValuesConcat(a[1..], b, name);
    }
  }

  lemma {:induction false} ValuesCopied(headers: Headers, route: Route, name: string)
    ensures ValuesOf(Copied(headers, route), name)
            == if ":" <= name || (route.changeOrigin && name == "host") then [] else ValuesOf(headers, name)
  {
    if headers != [] {
      ValuesCopied(headers[1..], route, name);
      var rest := Copied(headers[1..], route);
      assert ([headers[0]] + rest)[1..] == rest;
    }
  }

  lemma {:induction false} FirstOfValues(headers: Headers, name: string)
    ensures Has(headers, name) <==> ValuesOf(headers, name) != []
    ensures Has(headers, name) ==> Get(headers, name) == Some((name, ValuesOf(headers, name)[0]))
  {
    if headers != [] { FirstOfValues(headers[1..], name); }
  }

  lemma ValuesAppended(present: bool, headers: Headers, name: string, value: string, wanted: string)
    ensures ValuesOf(AppendUnless(present, headers, name, value), wanted)
            == ValuesOf(headers, wanted) + if present || name != wanted then [] else [Some(value)]
  {
    var one := [(name, Some(value))];
    assert one[1..] == [];
    ValuesConcat(headers, one, wanted);
    assert ValuesOf(headers, wanted) + [] == ValuesOf(headers, wanted);
  }

  function Only(wanted: string, name: string, added: bool, value: string): seq<Option<string>> {
    if wanted == name && added then [Some(value)] else []
  }

  /** What the proxy puts behind the values that the client sent for a name. */
  function AddedValues(
    wanted: string, client: seq<Option<string>>, host: string, proxyPort: nat, hops: nat, route: Route, tls: bool)
    : seq<Option<string>>
  {
    var via := if client != [] && client[0].Some? then client[0].value + ", 127.0.0.1" else "127.0.0.1";
    Only(wanted, "host", route.changeOrigin, "127.0.0.1:" + Digits(route.port))
    + Only(wanted, "x-forwarded-for", true, via)
    + Only(wanted, "x-forwarded-proto", client == [], if tls then "https" else "http")
    + Only(wanted, "x-forwarded-host", client == [], host)
    + Only(wanted, "x-forwarded-port", client == [], Digits(proxyPort))
    + Only(wanted, NSL_HOPS_HEADER, true, Digits(hops + 1))
    + Only(wanted, NSL_HEADER, true, "1")
  }

  lemma ForwardedForOf(headers: Headers, wanted: string)
    requires wanted == "x-forwarded-for"
    ensures var client := ValuesOf(headers, wanted);
            ForwardedFor(headers)
            == if client != [] && client[0].Some? then client[0].value + ", 127.0.0.1" else "127.0.0.1"
  {
    FirstOfValues(headers, wanted);
  }

  lemma ValuesInPieces(
    wanted: string, headers: Headers, host: string, proxyPort: nat, hops: nat, route: Route, tls: bool)
    ensures ValuesOf(Forwarded(headers, host, proxyPort, hops, route, tls), wanted)
            == ValuesOf(Copied(headers, route), wanted)
               + Only(wanted, "host", route.changeOrigin, "127.0.0.1:" + Digits(route.port))
               + Only(wanted, "x-forwarded-for", true, ForwardedFor(headers))
               + Only(wanted, "x-forwarded-proto", !Has(headers, "x-forwarded-proto"), if tls then "https" else "http")
               + Only(wanted, "x-forwarded-host", !Has(headers, "x-forwarded-host"), host)
               + Only(wanted, "x-forwarded-port", !Has(headers, "x-forwarded-port"), Digits(proxyPort))
               + Only(wanted, NSL_HOPS_HEADER, true, Digits(hops + 1))
               + Only(wanted, NSL_HEADER, true, "1")
  {
    var h0 := Copied(headers, route);
    var h1 := AppendUnless(!route.changeOrigin, h0, "host", "127.0.0.1:" + Digits(route.port));
    ValuesAppended(!route.changeOrigin, h0, "host", "127.0.0.1:" + Digits(route.port), wanted);
    var h2 := AppendUnless(false, h1, "x-forwarded-for", ForwardedFor(headers));
    ValuesAppended(false, h1, "x-forwarded-for", ForwardedFor(headers), wanted);
    var scheme := if tls then "https" else "http";
    var h3 := AppendUnless(Has(headers, "x-forwarded-proto"), h2, "x-forwarded-proto", scheme);
    ValuesAppended(Has(headers, "x-forwarded-proto"), h2, "x-forwarded-proto", scheme, wanted);
    var h4 := AppendUnless(Has(headers, "x-forwarded-host"), h3, "x-forwarded-host", host);
    ValuesAppended(Has(headers, "x-forwarded-host"), h3, "x-forwarded-host", host, wanted);
    var h5 := AppendUnless(Has(headers, "x-forwarded-port"), h4, "x-forwarded-port", Digits(proxyPort));
    ValuesAppended(Has(headers, "x-forwarded-port"), h4, "x-forwarded-port", Digits(proxyPort), wanted);
    var h6 := AppendUnless(false, h5, NSL_HOPS_HEADER, Digits(hops + 1));
    ValuesAppended(false, h5, NSL_HOPS_HEADER, Digits(hops + 1), wanted);
    ValuesAppended(false, h6, NSL_HEADER, "1", wanted);
  }

  lemma Regroup<T>(a: seq<T>, b: seq<T>, c: seq<T>, d: seq<T>, e: seq<T>, f: seq<T>, g: seq<T>, h: seq<T>)
    ensures a + b + c + d + e + f + g + h == a + (b + c + d + e + f + g + h)
  {
  }

  lemma SamePiece(wanted: string, name: string, added: bool, value: string, added': bool, value': string)
    requires wanted == name ==> added == added' && value == value'
    ensures Only(wanted, name, added, value) == Only(wanted, name, added', value')
  {
  }

  lemma PiecesAreAdded(
    wanted: string, headers: Headers, host: string, proxyPort: nat, hops: nat, route: Route, tls: bool)
    ensures Only(wanted, "host", route.changeOrigin, "127.0.0.1:" + Digits(route.port))
            + Only(wanted, "x-forwarded-for", true, ForwardedFor(headers))
            + Only(wanted, "x-forwarded-proto", !Has(headers, "x-forwarded-proto"), if tls then "https" else "http")
            + Only(wanted, "x-forwarded-host", !Has(headers, "x-forwarded-host"), host)
            + Only(wanted, "x-forwarded-port", !Has(headers, "x-forwarded-port"), Digits(proxyPort))
            + Only(wanted, NSL_HOPS_HEADER, true, Digits(hops + 1))
            + Only(wanted, NSL_HEADER, true, "1")
            == AddedValues(wanted, ValuesOf(headers, wanted), host, proxyPort, hops, route, tls)
  {
    var client, scheme := ValuesOf(headers, wanted), if tls then "https" else "http";
    var via := if client != [] && client[0].Some? then client[0].value + ", 127.0.0.1" else "127.0.0.1";
    FirstOfValues(headers, wanted);
    if wanted == "x-forwarded-for" { ForwardedForOf(headers, wanted); }
    SamePiece(wanted, "x-forwarded-for", true, ForwardedFor(headers), true, via);
    SamePiece(wanted, "x-forwarded-proto", !Has(headers, "x-forwarded-proto"), scheme, client == [], scheme);
    SamePiece(wanted, "x-forwarded-host", !Has(headers, "x-forwarded-host"), host, client == [], host);
    SamePiece(wanted, "x-forwarded-port", !Has(headers, "x-forwarded-port"), Digits(proxyPort), client == [],
              Digits(proxyPort));
  }

  /** For every name, all values that arrive at the upstream: those of the client in order, and behind them what the
      proxy adds. Only names with a leading colon and, under `change_origin`, the host lose the client's values. */
  lemma AllValuesArrive(
    wanted: string, headers: Headers, host: string, proxyPort: nat, hops: nat, route: Route, tls: bool)
    ensures var client := ValuesOf(headers, wanted);
            ValuesOf(Forwarded(headers, host, proxyPort, hops, route, tls), wanted)
            == (if ":" <= wanted || (route.changeOrigin && wanted == "host") then [] else client)
               + AddedValues(wanted, client, host, proxyPort, hops, route, tls)
  {
    ValuesInPieces(wanted, headers, host, proxyPort, hops, route, tls);
    ValuesCopied(headers, route, wanted);
    PiecesAreAdded(wanted, headers, host, proxyPort, hops, route, tls);
    Regroup(ValuesOf(Copied(headers, route), wanted),
            Only(wanted, "host", route.changeOrigin, "127.0.0.1:" + Digits(route.port)),
            Only(wanted, "x-forwarded-for", true, ForwardedFor(headers)),
            Only(wanted, "x-forwarded-proto", !Has(headers, "x-forwarded-proto"), if tls then "https" else "http"),
            Only(wanted, "x-forwarded-host", !Has(headers, "x-forwarded-host"), host),
            Only(wanted, "x-forwarded-port", !Has(headers, "x-forwarded-port"), Digits(proxyPort)),
            Only(wanted, NSL_HOPS_HEADER, true, Digits(hops + 1)), Only(wanted, NSL_HEADER, true, "1"));
  }

  lemma HostIsDistinct()
    ensures "host" != "x-forwarded-for" && "host" != "x-forwarded-proto" && "host" != "x-forwarded-host"
    ensures "host" != "x-forwarded-port" && "host" != NSL_HOPS_HEADER && "host" != NSL_HEADER && !(":" <= "host")
  {
    assert "host"[0] == 'h' && ":"[0] == ':' && "x-forwarded-for"[0] == 'x' && "x-forwarded-proto"[0] == 'x';
    assert "x-forwarded-host"[0] == 'x' && "x-forwarded-port"[0] == 'x';
    assert NSL_HOPS_HEADER[0] == 'x' && NSL_HEADER[0] == 'x';
  }

  /** The host the upstream goes by: its own address under `change_origin`, and otherwise what the client sent first. */
  lemma UpstreamsHost(headers: Headers, host: string, proxyPort: nat, hops: nat, route: Route, tls: bool)
    ensures var arrived := ValuesOf(Forwarded(headers, host, proxyPort, hops, route, tls), "host");
            if route.changeOrigin then arrived == [Some("127.0.0.1:" + Digits(route.port))]
            else arrived == ValuesOf(headers, "host")
  {
    AllValuesArrive("host", headers, host, proxyPort, hops, route, tls);
    HostIsDistinct();
    assert ValuesOf(headers, "host") + [] == ValuesOf(headers, "host");
  }

  lemma NoColonArrives(
    wanted: string, headers: Headers, host: string, proxyPort: nat, hops: nat, route: Route, tls: bool)
    requires ":" <= wanted
    ensures ValuesOf(Forwarded(headers, host, proxyPort, hops, route, tls), wanted) == []
  {
    AllValuesArrive(wanted, headers, host, proxyPort, hops, route, tls);
    assert "host"[0] == 'h' && "x-forwarded-for"[0] == 'x' && "x-forwarded-proto"[0] == 'x';
    assert "x-forwarded-host"[0] == 'x' && "x-forwarded-port"[0] == 'x' && "x-nsl-hops"[0] == 'x' && "x-nsl"[0] == 'x';
  }

  /** The count that is read is the number in the first header of its name, and 0 if there is none or it is no number
      of 32 bits. */
  lemma FirstCountIsRead(headers: Headers)
    ensures var sent := ValuesOf(headers, NSL_HOPS_HEADER);
            && (sent == [] || sent[0].None? ==> ExtractHops(headers) == 0)
            && (forall n: nat | sent != [] && sent[0] == Some(Digits(n)) ::
                  ExtractHops(headers) == if n < 0x1_0000_0000 then n else 0)
            && (sent != [] && sent[0].Some? && (exists c <- sent[0].value :: c != '+' && !('0' <= c <= '9')) ==>
                  ExtractHops(headers) == 0)
  {
    FirstOfValues(headers, NSL_HOPS_HEADER);
    var sent := ValuesOf(headers, NSL_HOPS_HEADER);
    if sent != [] && sent[0].Some? {
      var s := sent[0].value;
      forall n: nat | s == Digits(n) ensures ExtractHops(headers) == if n < 0x1_0000_0000 then n else 0 {
        ReadDecimal(n);
      }
      if exists c <- s :: c != '+' && !('0' <= c <= '9') {
        NoNumber(s);
      }
    }
  }

  lemma ReadDecimal(n: nat)
    ensures ParseU32(Digits(n)) == if n < 0x1_0000_0000 then Some(n) else None
  {
    DigitsValueOf(n);
    DigitsAreDigits(n);
    assert Digits(n)[0] in Digits(n);
  }

  lemma NoNumber(s: string)
    requires exists c <- s :: c != '+' && !('0' <= c <= '9')
    ensures ParseU32(s) == None
  {
    var c :| c in s && c != '+' && !('0' <= c <= '9');
    assert s[0] == '+' ==> c in s[1..] by { assert s == [s[0]] + s[1..]; }
    DigitsValueExactly(s);
    DigitsValueExactly(s[1..]);
  }

  // ---------------------------------------------------------------------------
  // Loops
  // ---------------------------------------------------------------------------

  /** One proxy on the way round. */
  datatype Stop = Stop(host: string, proxyPort: nat, route: Route, tls: bool)

  /** The headers that leave the last of `stops`, or the detection of a loop at one of them. */
  function Chain(headers: Headers, stops: seq<Stop>, maxHops: nat): Verdict
    decreases |stops|
  {
    if stops == [] then Pass(headers)
    else
      match Handle(headers, maxHops, stops[0].host, stops[0].proxyPort, stops[0].route, stops[0].tls)
      case LoopDetected => LoopDetected
      case Pass(next) => Chain(next, stops[1..], maxHops)
  }

  /** The counts that the proxies on the way write into what they send on. */
  function CountsSent(headers: Headers, stops: seq<Stop>, maxHops: nat): seq<nat>
    decreases |stops|
  {
    if stops == [] then []
    else
      match Handle(headers, maxHops, stops[0].host, stops[0].proxyPort, stops[0].route, stops[0].tls)
      case LoopDetected => []
      case Pass(next) => [ExtractHops(headers) + 1] + CountsSent(next, stops[1..], maxHops)
  }

  /** However long the chain and whatever the client sent, no count ever passes the limit, which is configured as one
      byte; the sum of 32-bit numbers that makes it cannot overflow. */
  lemma {:induction false} NoHopOverflow(headers: Headers, stops: seq<Stop>, maxHops: nat)
    ensures forall c <- CountsSent(headers, stops, maxHops) :: 1 <= c <= maxHops
    decreases |stops|
  {
    if stops != [] {
      var s := stops[0];
      var hops := ExtractHops(headers);
      if hops < maxHops {
        NoHopOverflow(Forwarded(headers, s.host, s.proxyPort, hops, s.route, s.tls), stops[1..], maxHops);
      }
    }
  }

  lemma {:induction false} CountStandsStill(headers: Headers, stops: seq<Stop>, maxHops: nat)
    requires Has(headers, NSL_HOPS_HEADER)
    ensures Chain(headers, stops, maxHops).LoopDetected? <==> stops != [] && ExtractHops(headers) >= maxHops
    decreases |stops|
  {
    if stops != [] {
      var s := stops[0];
      var hops := ExtractHops(headers);
      if hops < maxHops {
        NextProxyReads(headers, s.host, s.proxyPort, hops, s.route, s.tls);
        CountStandsStill(Forwarded(headers, s.host, s.proxyPort, hops, s.route, s.tls), stops[1..], maxHops);
      }
    }
  }

  /** A chain of forwards is cut exactly in these cases, however long it is: the client already sent a count that is
      high enough, or it sent none and the limit is 0, or 1 and there is a second stop. With the default limit of 5 a
      loop is never detected. */
  lemma LoopDetectedExactly(headers: Headers, stops: seq<Stop>, maxHops: nat)
    ensures Chain(headers, stops, maxHops).LoopDetected? <==>
            && stops != []
            && (ExtractHops(headers) >= maxHops
                || (!Has(headers, NSL_HOPS_HEADER) && maxHops == 1 && |stops| >= 2))
  {
    if Has(headers, NSL_HOPS_HEADER) {
      CountStandsStill(headers, stops, maxHops);
    } else if stops != [] && maxHops > 0 {
      var s := stops[0];
      var next := Forwarded(headers, s.host, s.proxyPort, 0, s.route, s.tls);
      NextProxyReads(headers, s.host, s.proxyPort, 0, s.route, s.tls);
      ParseOfDigits(1);
      assert ExtractHops(next) == 1;
      CountStandsStill(next, stops[1..], maxHops);
    }
  }

  // ---------------------------------------------------------------------------
  // With the count replaced instead of appended
  // ---------------------------------------------------------------------------

  function Without(headers: Headers, name: string): Headers {
    if headers == [] then []
    else if headers[0].0 == name then Without(headers[1..], name)
    else [headers[0]] + Without(headers[1..], name)
  }

  /** The same forwarding with the old count taken out of what is copied. */
  function ReplacingChain(headers: Headers, stops: seq<Stop>, maxHops: nat): Verdict
    decreases |stops|
  {
    if stops == [] then Pass(headers)
    else
      var s := stops[0];
      var hops := ExtractHops(headers);
      if hops >= maxHops then LoopDetected
      else
        ReplacingChain(Forwarded(Without(headers, NSL_HOPS_HEADER), s.host, s.proxyPort, hops, s.route, s.tls),
                       stops[1..], maxHops)
  }

  lemma {:induction false} WithoutLacks(headers: Headers, name: string)
    ensures !Has(Without(headers, name), name)
  {
    if headers != [] { WithoutLacks(headers[1..], name); }
  }

  /** The documented promise would then hold: a chain is cut exactly when it has more stops than hops remain. */
  lemma {:induction false} ReplacingCountCutsLoops(headers: Headers, stops: seq<Stop>, maxHops: nat)
    requires maxHops < 256
    ensures ReplacingChain(headers, stops, maxHops).LoopDetected? <==>
            stops != [] && ExtractHops(headers) + |stops| > maxHops
    decreases |stops|
  {
    var hops := ExtractHops(headers);
    if stops != [] && hops < maxHops {
      var s := stops[0];
      var bare := Without(headers, NSL_HOPS_HEADER);
      var next := Forwarded(bare, s.host, s.proxyPort, hops, s.route, s.tls);
      WithoutLacks(headers, NSL_HOPS_HEADER);
      NextProxyReads(bare, s.host, s.proxyPort, hops, s.route, s.tls);
      ParseOfDigits(hops + 1);
      assert ExtractHops(next) == hops + 1;
      ReplacingCountCutsLoops(next, stops[1..], maxHops);
    }
  }
}
