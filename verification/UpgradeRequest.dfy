/** The raw request sent upstream for a WebSocket upgrade, and what a recipient reads from it. */
module UpgradeRequest {
  import opened Text
  import opened Routes

  const NSL_HEADER := "X-NSL"
  const NSL_HOPS_HEADER := "x-nsl-hops"

  /** A header of the client's request. A value that is not visible ASCII has no text. */
  datatype Header = Header(name: string, value: Option<string>)

  datatype Request = Request(verb: string, target: string, headers: seq<Header>)

  type Field = (string, string)

  // ---------------------------------------------------------------------------
  // The printer
  // ---------------------------------------------------------------------------

  function Sanitize(value: string): string {
    if value == "" then ""
    else if value[0] == '\r' || value[0] == '\n' then Sanitize(value[1..])
    else [value[0]] + Sanitize(value[1..])
  }

  predicate Skipped(h: Header, route: Route) {
    ":" <= h.name || (route.changeOrigin && h.name == "host") || h.value.None?
  }

  predicate HasHeader(headers: seq<Header>, name: string) {
    exists h <- headers :: h.name == name
  }

  function Print(field: Field): string {
    field.0 + ": " + field.1 + "\r\n"
  }

  function PrintAll(fields: seq<Field>): string {
    if fields == [] then "" else Print(fields[0]) + PrintAll(fields[1..])
  }

  function CopiedFields(headers: seq<Header>, route: Route): seq<Field> {
    if headers == [] then []
    else if Skipped(headers[0], route) then CopiedFields(headers[1..], route)
    else [(headers[0].name, Sanitize(headers[0].value.value))] + CopiedFields(headers[1..], route)
  }

  function Unless(present: bool, field: Field): seq<Field> {
    if present then [] else [field]
  }

  /** The fields the proxy adds after the copied ones. */
  function AddedFields(headers: seq<Header>, host: string, proxyPort: nat, hops: nat, route: Route, tls: bool): seq<Field> {
    Unless(!route.changeOrigin, ("host", "127.0.0.1:" + Digits(route.port)))
    + Unless(HasHeader(headers, "x-forwarded-for"), ("x-forwarded-for", "127.0.0.1"))
    + Unless(HasHeader(headers, "x-forwarded-proto"), ("x-forwarded-proto", if tls then "https" else "http"))
    + Unless(HasHeader(headers, "x-forwarded-host"), ("x-forwarded-host", host))
    + Unless(HasHeader(headers, "x-forwarded-port"), ("x-forwarded-port", Digits(proxyPort)))
    + [(NSL_HOPS_HEADER, Digits(hops + 1)), (NSL_HEADER, "1")]
  }

  function SentFields(headers: seq<Header>, host: string, proxyPort: nat, hops: nat, route: Route, tls: bool): seq<Field> {
    CopiedFields(headers, route) + AddedFields(headers, host, proxyPort, hops, route, tls)
  }

  function RequestLine(req: Request): string {
    req.verb + " " + req.target + " HTTP/1.1"
  }

  lemma {:induction false} PrintAllConcat(a: seq<Field>, b: seq<Field>)
    ensures PrintAll(a + b) == PrintAll(a) + PrintAll(b)
  {
    if a == [] {
      assert a + b == b;
    } else {
      assert (a + b)[1..] == a[1..] + b;
      PrintAllConcat(a[1..], b);
    }
  }

  lemma PrintAllSnoc(a: seq<Field>, f: Field)
    ensures PrintAll(a + [f]) == PrintAll(a) + Print(f)
  {
    PrintAllConcat(a, [f]);
    assert PrintAll([f]) == Print(f) + PrintAll([]);
  }

  /** The whole request, as `BuildRawUpgradeRequest` puts it together piece by piece. */
  function RawRequest(req: Request, host: string, proxyPort: nat, hops: nat, route: Route, tls: bool): string {
    RequestLine(req) + "\r\n" + PrintAll(SentFields(req.headers, host, proxyPort, hops, route, tls)) + "\r\n"
  }

  method BuildRawUpgradeRequest(req: Request, host: string, proxyPort: nat, hops: nat, route: Route, tls: bool)
    returns (raw: string)
    ensures raw == RawRequest(req, host, proxyPort, hops, route, tls)
  {
    raw := RequestLine(req) + "\r\n";
    raw := PushCopied(raw, req.headers, route);
    raw := PushAdded(raw, req.headers, host, proxyPort, hops, route, tls);
    raw := raw + "\r\n";
    RawRequestInParts(req, host, proxyPort, hops, route, tls);
  }

  lemma RawRequestInParts(req: Request, host: string, proxyPort: nat, hops: nat, route: Route, tls: bool)
    ensures RawRequest(req, host, proxyPort, hops, route, tls)
            == RequestLine(req) + "\r\n" + PrintAll(CopiedFields(req.headers, route))
               + PrintAll(AddedFields(req.headers, host, proxyPort, hops, route, tls)) + "\r\n"
  {
    var copied, added := CopiedFields(req.headers, route), AddedFields(req.headers, host, proxyPort, hops, route, tls);
    PrintAllConcat(copied, added);
    ConcatAssociative(RequestLine(req) + "\r\n", PrintAll(copied), PrintAll(added));
  }

  lemma ConcatAssociative(a: string, b: string, c: string)
    ensures a + (b + c) == a + b + c
  {
  }

  method PushCopied(start: string, headers: seq<Header>, route: Route) returns (raw: string)
    ensures raw == start + PrintAll(CopiedFields(headers, route))
  {
    raw := start;
    ghost var sent: seq<Field> := [];
    for i := 0 to |headers|
      invariant CopiedFields(headers, route) == sent + CopiedFields(headers[i..], route)
      invariant raw == start + PrintAll(sent)
    {
      var h := headers[i];
      assert headers[i..][1..] == headers[i + 1..];
      if ":" <= h.name || (route.changeOrigin && h.name == "host") { continue; }
      if h.value.Some? {
        var field := (h.name, Sanitize(h.value.value));
        PrintAllSnoc(sent, field);
        raw := raw + Print(field);
        sent := sent + [field];
      }
    }
    assert sent + CopiedFields([], route) == sent;
  }

  method PushAdded(start: string, headers: seq<Header>, host: string, proxyPort: nat, hops: nat, route: Route, tls: bool)
    returns (raw: string)
    ensures raw == start + PrintAll(AddedFields(headers, host, proxyPort, hops, route, tls))
  {
    var changed := Unless(!route.changeOrigin, ("host", "127.0.0.1:" + Digits(route.port)));
    var forwardedFor := Unless(HasHeader(headers, "x-forwarded-for"), ("x-forwarded-for", "127.0.0.1"));
    var proto := Unless(HasHeader(headers, "x-forwarded-proto"), ("x-forwarded-proto", if tls then "https" else "http"));
    var forwardedHost := Unless(HasHeader(headers, "x-forwarded-host"), ("x-forwarded-host", host));
    var port := Unless(HasHeader(headers, "x-forwarded-port"), ("x-forwarded-port", Digits(proxyPort)));
    raw := Push(start, start, [], changed);
    raw := Push(raw, start, changed, forwardedFor);
    raw := Push(raw, start, changed + forwardedFor, proto);
    raw := Push(raw, start, changed + forwardedFor + proto, forwardedHost);
    raw := Push(raw, start, changed + forwardedFor + proto + forwardedHost, port);
    raw := Push(raw, start, changed + forwardedFor + proto + forwardedHost + port,
                [(NSL_HOPS_HEADER, Digits(hops + 1)), (NSL_HEADER, "1")]);
  }

  method Push(raw: string, ghost start: string, ghost sent: seq<Field>, fields: seq<Field>) returns (out: string)
    requires raw == start + PrintAll(sent)
    ensures out == start + PrintAll(sent + fields)
  {
    out := raw + PrintAll(fields);
    PrintAllConcat(sent, fields);
  }

  // ---------------------------------------------------------------------------
  // The reader: lines and fields as in sections 2.1, 3 and 5 of RFC 9112
  // ---------------------------------------------------------------------------

  function Cons(line: string, rest: Option<(seq<string>, string)>): Option<(seq<string>, string)> {
    match rest
    case None => None
    case Some((lines, body)) => Some(([line] + lines, body))
  }

  /** The text up to the first CRLF and the text after it. */
  function TakeLine(s: string): Option<(string, string)> {
    if |s| < 2 then None
    else if s[..2] == "\r\n" then Some(("", s[2..]))
    else
      match TakeLine(s[1..])
      case None => None
      case Some((line, rest)) => Some(([s[0]] + line, rest))
  }

  lemma {:induction false} TakeLineShortens(s: string)
    requires TakeLine(s).Some?
    ensures |TakeLine(s).value.1| < |s|
  {
    if s[..2] != "\r\n" { TakeLineShortens(s[1..]); }
  }

  /** The lines before the first empty one, and the body after it. */
  function TakeHead(s: string): Option<(seq<string>, string)>
    decreases |s|
  {
    match TakeLine(s)
    case None => None
    case Some((line, rest)) =>
      TakeLineShortens(s);
      if line == "" then Some(([], rest)) else Cons(line, TakeHead(rest))
  }

  /** A field line cut at its first colon and space. */
  function SplitField(line: string): Option<Field> {
    if |line| < 2 then None
    else if line[..2] == ": " then Some(("", line[2..]))
    else
      match SplitField(line[1..])
      case None => None
      case Some((name, value)) => Some(([line[0]] + name, value))
  }

  function SplitFields(lines: seq<string>): Option<seq<Field>> {
    if lines == [] then Some([])
    else
      match (SplitField(lines[0]), SplitFields(lines[1..]))
      case (Some(field), Some(fields)) => Some([field] + fields)
      case _ => None
  }

  /** The request line, the fields and whatever follows the head. */
  function ReadRequest(raw: string): Option<(string, seq<Field>, string)> {
    match TakeHead(raw)
    case None => None
    case Some((lines, body)) =>
      if lines == [] then None
      else
        match SplitFields(lines[1..])
        case None => None
        case Some(fields) => Some((lines[0], fields, body))
  }

  // ---------------------------------------------------------------------------
  // Round trip
  // ---------------------------------------------------------------------------

  predicate OneLine(s: string) {
    '\r' !in s && '\n' !in s
  }

  /** What the surrounding HTTP library guarantees of the parts: no line breaks, and no colon inside a name. */
  predicate WellFormed(req: Request, host: string) {
    && OneLine(req.verb) && OneLine(req.target) && OneLine(host)
    && forall h <- req.headers :: OneLine(h.name) && (':' in h.name ==> ":" <= h.name)
  }

  predicate CleanField(f: Field) {
    OneLine(f.0) && OneLine(f.1) && ':' !in f.0
  }

  lemma {:induction false} SanitizeIsOneLine(value: string)
    ensures OneLine(Sanitize(value))
    ensures OneLine(value) ==> Sanitize(value) == value
  {
    if value != "" {
      SanitizeIsOneLine(value[1..]);
      assert value[0] in value && [value[0]] + value[1..] == value;
    }
  }

  /** Of any value exactly the line breaks go, wherever they stand. */
  lemma {:induction false} SanitizeDropsOnlyBreaks(a: string, breaks: string, b: string)
    requires OneLine(a) && forall c <- breaks :: c == '\r' || c == '\n'
    ensures Sanitize(a + breaks + b) == a + Sanitize(b)
    decreases |a|, |breaks|
  {
    var s := a + breaks + b;
    if a != "" {
      assert s[1..] == a[1..] + breaks + b && a[0] in a;
      assert forall c <- a[1..] :: c in a;
      SanitizeDropsOnlyBreaks(a[1..], breaks, b);
      assert [a[0]] + (a[1..] + Sanitize(b)) == a + Sanitize(b);
    } else if breaks != "" {
      assert s[1..] == a + breaks[1..] + b && breaks[0] in breaks;
      assert forall c <- breaks[1..] :: c in breaks;
      SanitizeDropsOnlyBreaks(a, breaks[1..], b);
    } else {
      assert s == b && a + Sanitize(b) == Sanitize(b);
    }
  }

  lemma {:induction false} CopiedFieldsClean(headers: seq<Header>, route: Route)
    requires forall h <- headers :: OneLine(h.name) && (':' in h.name ==> ":" <= h.name)
    ensures AllClean(CopiedFields(headers, route))
  {
    if headers != [] {
      assert headers[0] in headers;
      CopiedFieldsClean(headers[1..], route);
      if headers[0].value.Some? { SanitizeIsOneLine(headers[0].value.value); }
    }
  }

  predicate AllClean(fields: seq<Field>) {
    forall f <- fields :: CleanField(f)
  }

  lemma DigitsClean(name: string, n: nat)
    requires OneLine(name) && ':' !in name
    ensures CleanField((name, Digits(n)))
  {
    DigitsAreDigits(n);
  }

  lemma ConstantFieldsClean()
    ensures CleanField(("x-forwarded-for", "127.0.0.1")) && CleanField((NSL_HEADER, "1"))
    ensures CleanField(("x-forwarded-proto", "https")) && CleanField(("x-forwarded-proto", "http"))
  {
  }

  lemma HostFieldsClean(host: string, port: nat)
    requires OneLine(host)
    ensures CleanField(("host", "127.0.0.1:" + Digits(port))) && CleanField(("x-forwarded-host", host))
  {
    DigitsAreDigits(port);
  }

  lemma AllCleanConcat(a: seq<Field>, b: seq<Field>)
    requires AllClean(a) && AllClean(b)
    ensures AllClean(a + b)
  {
  }

  lemma AddedFieldsClean(headers: seq<Header>, host: string, proxyPort: nat, hops: nat, route: Route, tls: bool)
    requires OneLine(host)
    ensures AllClean(AddedFields(headers, host, proxyPort, hops, route, tls))
  {
    ConstantFieldsClean();
    HostFieldsClean(host, route.port);
    DigitsClean("x-forwarded-port", proxyPort);
    DigitsClean(NSL_HOPS_HEADER, hops + 1);
    var fields := Unless(!route.changeOrigin, ("host", "127.0.0.1:" + Digits(route.port)));
    var forwardedFor := Unless(HasHeader(headers, "x-forwarded-for"), ("x-forwarded-for", "127.0.0.1"));
    var proto := Unless(HasHeader(headers, "x-forwarded-proto"), ("x-forwarded-proto", if tls then "https" else "http"));
    var forwardedHost := Unless(HasHeader(headers, "x-forwarded-host"), ("x-forwarded-host", host));
    var port := Unless(HasHeader(headers, "x-forwarded-port"), ("x-forwarded-port", Digits(proxyPort)));
    AllCleanConcat(fields, forwardedFor);
    AllCleanConcat(fields + forwardedFor, proto);
    AllCleanConcat(fields + forwardedFor + proto, forwardedHost);
    AllCleanConcat(fields + forwardedFor + proto + forwardedHost, port);
    AllCleanConcat(fields + forwardedFor + proto + forwardedHost + port,
                   [(NSL_HOPS_HEADER, Digits(hops + 1)), (NSL_HEADER, "1")]);
  }

  lemma {:induction false} TakeLineOf(line: string, rest: string)
    requires OneLine(line)
    ensures TakeLine(line + "\r\n" + rest) == Some((line, rest))
  {
    var s := line + "\r\n" + rest;
    if line == "" {
      assert s[..2] == "\r\n" && s[2..] == rest;
    } else {
      assert s[..2][0] == line[0];
      assert s[1..] == line[1..] + "\r\n" + rest;
      TakeLineOf(line[1..], rest);
      assert [line[0]] + line[1..] == line;
    }
  }

  lemma {:induction false} SplitFieldOf(name: string, value: string)
    requires ':' !in name
    ensures SplitField(name + ": " + value) == Some((name, value))
  {
    var s := name + ": " + value;
    if name == "" {
      assert s[..2] == ": " && s[2..] == value;
    } else {
      assert s[..2][0] == name[0];
      assert s[1..] == name[1..] + ": " + value;
      SplitFieldOf(name[1..], value);
      assert [name[0]] + name[1..] == name;
    }
  }

  function FieldLines(fields: seq<Field>): seq<string> {
    if fields == [] then [] else [fields[0].0 + ": " + fields[0].1] + FieldLines(fields[1..])
  }

  lemma {:induction false} TakeHeadOfFields(fields: seq<Field>)
    requires AllClean(fields)
    ensures TakeHead(PrintAll(fields) + "\r\n") == Some((FieldLines(fields), ""))
    ensures SplitFields(FieldLines(fields)) == Some(fields)
  {
    if fields == [] {
      TakeLineOf("", "");
      assert PrintAll(fields) + "\r\n" == "" + "\r\n" + "";
    } else {
      var line := fields[0].0 + ": " + fields[0].1;
      var rest := PrintAll(fields[1..]) + "\r\n";
      assert CleanField(fields[0]);
      assert PrintAll(fields) + "\r\n" == line + "\r\n" + rest;
      TakeLineOf(line, rest);
      TakeHeadOfFields(fields[1..]);
      SplitFieldOf(fields[0].0, fields[0].1);
      assert FieldLines(fields)[1..] == FieldLines(fields[1..]);
      assert [fields[0]] + fields[1..] == fields;
    }
  }

  lemma SentFieldsClean(req: Request, host: string, proxyPort: nat, hops: nat, route: Route, tls: bool)
    requires WellFormed(req, host)
    ensures AllClean(SentFields(req.headers, host, proxyPort, hops, route, tls))
  {
    CopiedFieldsClean(req.headers, route);
    AddedFieldsClean(req.headers, host, proxyPort, hops, route, tls);
  }

  /** The recipient recovers the request line and exactly the copied and added fields, in order, and no body. */
  lemma RecipientReadsSentFields(req: Request, host: string, proxyPort: nat, hops: nat, route: Route, tls: bool)
    requires WellFormed(req, host)
    ensures ReadRequest(RawRequest(req, host, proxyPort, hops, route, tls))
            == Some((RequestLine(req), SentFields(req.headers, host, proxyPort, hops, route, tls), ""))
  {
    var fields := SentFields(req.headers, host, proxyPort, hops, route, tls);
    SentFieldsClean(req, host, proxyPort, hops, route, tls);
    TakeHeadOfFields(fields);
    var rest := PrintAll(fields) + "\r\n";
    assert RawRequest(req, host, proxyPort, hops, route, tls) == RequestLine(req) + "\r\n" + rest;
    TakeLineOf(RequestLine(req), rest);
    assert ([RequestLine(req)] + FieldLines(fields))[1..] == FieldLines(fields);
  }

  /** A field text of clean, non-empty lines: a blank line can only be its end. */
  lemma {:induction false} BlankLineOnlyAtEnd(line: string, fields: seq<Field>, i: nat)
    requires line != "" && OneLine(line) && AllClean(fields)
    requires OccursAt(line + "\r\n" + PrintAll(fields) + "\r\n", "\r\n\r\n", i)
    ensures i + 4 == |line + "\r\n" + PrintAll(fields) + "\r\n"|
    decreases |fields|
  {
    var text := line + "\r\n" + PrintAll(fields) + "\r\n";
    assert forall j | 0 <= j < |line| :: text[j] == line[j];
    assert text[i] == '\r' && text[i + 1] == '\n' && text[i + 2] == '\r' && text[i + 3] == '\n' by {
      assert text[i..i + 4][0] == '\r' && text[i..i + 4][1] == '\n';
      assert text[i..i + 4][2] == '\r' && text[i..i + 4][3] == '\n';
    }
    if fields != [] {
      var next := fields[0].0 + ": " + fields[0].1;
      assert CleanField(fields[0]) && OneLine(next) && next[0] != '\r';
      var tail := next + "\r\n" + PrintAll(fields[1..]) + "\r\n";
      assert text == line + "\r\n" + tail;
      assert text[|line| + 2] == next[0];
      var k := i - |line| - 2;
      assert tail[k..k + 4] == text[i..i + 4];
      BlankLineOnlyAtEnd(next, fields[1..], k);
    }
  }

  /** The blank line that ends the head occurs nowhere else in the request. */
  lemma HeadEndsOnce(req: Request, host: string, proxyPort: nat, hops: nat, route: Route, tls: bool, i: nat)
    requires WellFormed(req, host)
    ensures var raw := RawRequest(req, host, proxyPort, hops, route, tls);
            OccursAt(raw, "\r\n\r\n", i) <==> i + 4 == |raw|
  {
    var fields := SentFields(req.headers, host, proxyPort, hops, route, tls);
    SentFieldsClean(req, host, proxyPort, hops, route, tls);
    var raw := RawRequest(req, host, proxyPort, hops, route, tls);
    if OccursAt(raw, "\r\n\r\n", i) {
      BlankLineOnlyAtEnd(RequestLine(req), fields, i);
    }
    PrintAllEndsLine(fields);
    assert |fields| > 0;
    assert raw[|raw| - 4..] == "\r\n\r\n";
  }

  lemma {:induction false} PrintAllEndsLine(fields: seq<Field>)
    ensures fields != [] ==> EndsWith(PrintAll(fields), "\r\n")
  {
    if |fields| > 1 {
      PrintAllEndsLine(fields[1..]);
      assert PrintAll(fields)[|PrintAll(fields)| - 2..] == PrintAll(fields[1..])[|PrintAll(fields[1..])| - 2..];
    } else if |fields| == 1 {
      assert PrintAll(fields) == Print(fields[0]) + PrintAll([]);
    }
  }

  // ---------------------------------------------------------------------------
  // The host field
  // ---------------------------------------------------------------------------

  function Named(fields: seq<Field>, name: string): seq<Field> {
    if fields == [] then []
    else if fields[0].0 == name then [fields[0]] + Named(fields[1..], name)
    else Named(fields[1..], name)
  }

  lemma {:induction false} NamedConcat(a: seq<Field>, b: seq<Field>, name: string)
    ensures Named(a + b, name) == Named(a, name) + Named(b, name)
  {
    if a == [] {
      assert a + b == b;
    } else {
      assert (a + b)[1..] == a[1..] + b;
      NamedConcat(a[1..], b, name);
    }
  }

  lemma {:induction false} NoneNamed(fields: seq<Field>, name: string)
    requires forall f <- fields :: f.0 != name
    ensures Named(fields, name) == []
  {
    if fields != [] { NoneNamed(fields[1..], name); }
  }

  lemma {:induction false} CopiedHostless(headers: seq<Header>, route: Route)
    requires route.changeOrigin
    ensures forall f <- CopiedFields(headers, route) :: f.0 != "host"
  {
    if headers != [] { CopiedHostless(headers[1..], route); }
  }

  /** With `change_origin` the upstream sees one host field, its own address, whatever the client sent. */
  lemma OriginReplaced(req: Request, host: string, proxyPort: nat, hops: nat, route: Route, tls: bool)
    requires route.changeOrigin
    ensures Named(SentFields(req.headers, host, proxyPort, hops, route, tls), "host")
            == [("host", "127.0.0.1:" + Digits(route.port))]
  {
    var added := AddedFields(req.headers, host, proxyPort, hops, route, tls);
    CopiedHostless(req.headers, route);
    NoneNamed(CopiedFields(req.headers, route), "host");
    NamedConcat(CopiedFields(req.headers, route), added, "host");
    assert added == [("host", "127.0.0.1:" + Digits(route.port))] + added[1..];
    NoneNamed(added[1..], "host");
  }

  // ---------------------------------------------------------------------------
  // All fields of a name
  // ---------------------------------------------------------------------------

  /** The client's headers of a name that have text, in order, without line breaks. */
  function ClientFields(headers: seq<Header>, name: string): seq<Field> {
    if headers == [] then []
    else if headers[0].name == name && headers[0].value.Some? then
      [(name, Sanitize(headers[0].value.value))] + ClientFields(headers[1..], name)
    else ClientFields(headers[1..], name)
  }

  lemma {:induction false} CopiedOfName(headers: seq<Header>, route: Route, name: string)
    ensures Named(CopiedFields(headers, route), name)
            == if ":" <= name || (route.changeOrigin && name == "host") then [] else ClientFields(headers, name)
  {
    if headers != [] {
      CopiedOfName(headers[1..], route, name);
      var rest := CopiedFields(headers[1..], route);
      if !Skipped(headers[0], route) {
        var field := (headers[0].name, Sanitize(headers[0].value.value));
        assert ([field] + rest)[1..] == rest;
      }
    }
  }

  function Only(wanted: string, name: string, added: bool, value: string): seq<Field> {
    if wanted == name && added then [(name, value)] else []
  }

  /** What the proxy adds of a name, of which the client has sent headers or not. */
  function AddedOfName(
    wanted: string, sent: bool, host: string, proxyPort: nat, hops: nat, route: Route, tls: bool): seq<Field>
  {
    Only(wanted, "host", route.changeOrigin, "127.0.0.1:" + Digits(route.port))
    + Only(wanted, "x-forwarded-for", !sent, "127.0.0.1")
    + Only(wanted, "x-forwarded-proto", !sent, if tls then "https" else "http")
    + Only(wanted, "x-forwarded-host", !sent, host)
    + Only(wanted, "x-forwarded-port", !sent, Digits(proxyPort))
    + (Only(wanted, NSL_HOPS_HEADER, true, Digits(hops + 1)) + Only(wanted, NSL_HEADER, true, "1"))
  }

  lemma NamedUnless(present: bool, field: Field, wanted: string, added: bool)
    requires wanted == field.0 ==> added == !present
    ensures Named(Unless(present, field), wanted) == Only(wanted, field.0, added, field.1)
  {
    assert [field][1..] == [];
  }

  lemma NamedPair(a: Field, b: Field, wanted: string)
    ensures Named([a, b], wanted) == Only(wanted, a.0, true, a.1) + Only(wanted, b.0, true, b.1)
  {
    assert [a, b] == [a] + [b];
    NamedConcat([a], [b], wanted);
    assert [a][1..] == [] && [b][1..] == [];
  }

  lemma NamedOfSix(a: seq<Field>, b: seq<Field>, c: seq<Field>, d: seq<Field>, e: seq<Field>, f: seq<Field>, name: string)
    ensures Named(a + b + c + d + e + f, name)
            == Named(a, name) + Named(b, name) + Named(c, name) + Named(d, name) + Named(e, name) + Named(f, name)
  {
    NamedConcat(a, b, name);
    NamedConcat(a + b, c, name);
    NamedConcat(a + b + c, d, name);
    NamedConcat(a + b + c + d, e, name);
    NamedConcat(a + b + c + d + e, f, name);
  }

  lemma AddedNamed(
    wanted: string, headers: seq<Header>, host: string, proxyPort: nat, hops: nat, route: Route, tls: bool)
    ensures Named(AddedFields(headers, host, proxyPort, hops, route, tls), wanted)
            == AddedOfName(wanted, HasHeader(headers, wanted), host, proxyPort, hops, route, tls)
  {
    var origin := ("host", "127.0.0.1:" + Digits(route.port));
    var via := ("x-forwarded-for", "127.0.0.1");
    var proto := ("x-forwarded-proto", if tls then "https" else "http");
    var named, port := ("x-forwarded-host", host), ("x-forwarded-port", Digits(proxyPort));
    var count, mark := (NSL_HOPS_HEADER, Digits(hops + 1)), (NSL_HEADER, "1");
    var sent := HasHeader(headers, wanted);
    NamedOfSix(Unless(!route.changeOrigin, origin), Unless(HasHeader(headers, "x-forwarded-for"), via),
               Unless(HasHeader(headers, "x-forwarded-proto"), proto),
               Unless(HasHeader(headers, "x-forwarded-host"), named),
               Unless(HasHeader(headers, "x-forwarded-port"), port), [count, mark], wanted);
    NamedUnless(!route.changeOrigin, origin, wanted, route.changeOrigin);
    NamedUnless(HasHeader(headers, "x-forwarded-for"), via, wanted, !sent);
    NamedUnless(HasHeader(headers, "x-forwarded-proto"), proto, wanted, !sent);
    NamedUnless(HasHeader(headers, "x-forwarded-host"), named, wanted, !sent);
    NamedUnless(HasHeader(headers, "x-forwarded-port"), port, wanted, !sent);
    NamedPair(count, mark, wanted);
  }

  /** For every name, all fields that are sent: those of the client in order, and behind them what the proxy adds. Only
      names with a leading colon and, under `change_origin`, the host lose the client's. */
  lemma AllFieldsSent(
    wanted: string, headers: seq<Header>, host: string, proxyPort: nat, hops: nat, route: Route, tls: bool)
    ensures Named(SentFields(headers, host, proxyPort, hops, route, tls), wanted)
            == (if ":" <= wanted || (route.changeOrigin && wanted == "host") then [] else ClientFields(headers, wanted))
               + AddedOfName(wanted, HasHeader(headers, wanted), host, proxyPort, hops, route, tls)
  {
    NamedConcat(CopiedFields(headers, route), AddedFields(headers, host, proxyPort, hops, route, tls), wanted);
    CopiedOfName(headers, route, wanted);
    AddedNamed(wanted, headers, host, proxyPort, hops, route, tls);
  }

  /** Without `change_origin` the upstream sees the client's own host fields. */
  lemma OriginKept(req: Request, host: string, proxyPort: nat, hops: nat, route: Route, tls: bool)
    requires !route.changeOrigin
    ensures Named(SentFields(req.headers, host, proxyPort, hops, route, tls), "host") == ClientFields(req.headers, "host")
  {
    AllFieldsSent("host", req.headers, host, proxyPort, hops, route, tls);
    HostIsDistinct();
    assert ClientFields(req.headers, "host") + [] == ClientFields(req.headers, "host");
  }

  lemma HostIsDistinct()
    ensures "host" != "x-forwarded-for" && "host" != "x-forwarded-proto" && "host" != "x-forwarded-host"
    ensures "host" != "x-forwarded-port" && "host" != NSL_HOPS_HEADER && "host" != NSL_HEADER && !(":" <= "host")
  {
    assert "host"[0] == 'h' && ":"[0] == ':' && "x-forwarded-for"[0] == 'x' && "x-forwarded-proto"[0] == 'x';
    assert "x-forwarded-host"[0] == 'x' && "x-forwarded-port"[0] == 'x';
    assert NSL_HOPS_HEADER[0] == 'x' && NSL_HEADER[0] == 'X';
  }

  /** The first line, cut at its spaces, is the client's method, the target and the protocol version. */
  lemma RequestLineIsRead(req: Request)
    requires ' ' !in req.verb && ' ' !in req.target
    ensures Split(RequestLine(req), ' ') == [req.verb, req.target, "HTTP/1.1"]
  {
    var version := "HTTP/1.1";
    assert forall c <- version :: c != ' ';
    assert RequestLine(req) == req.verb + [' '] + (req.target + [' '] + version);
    SplitConcat(req.verb, ' ', req.target + [' '] + version);
    SplitConcat(req.target, ' ', version);
    SplitNoSeparator(req.verb, ' ');
    SplitNoSeparator(req.target, ' ');
    SplitNoSeparator(version, ' ');
  }
}
