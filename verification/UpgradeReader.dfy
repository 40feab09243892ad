/** Reading the head of the upstream's answer to an upgrade request, however the bytes arrive. */
module UpgradeReader {
  import opened Text

  newtype byte = b: int | 0 <= b < 256

  type Bytes = seq<byte>

  const CRLF: Bytes := [13, 10]
  const HEAD_END: Bytes := [13, 10, 13, 10]
  const SPACE: byte := 32

  const MAX_HEAD := 65536
  const READ_SIZE := 4096

  // ---------------------------------------------------------------------------
  // Parsing
  // ---------------------------------------------------------------------------

  /** The first offset at which `pattern` occurs. */
  function Position(buf: Bytes, pattern: Bytes): (at: Option<nat>)
    ensures at.Some? ==> at.value + |pattern| <= |buf|
  {
    if |buf| < |pattern| || buf == [] then None
    else if pattern <= buf then Some(0)
    else
      match Position(buf[1..], pattern)
      case None => None
      case Some(i) => Some(i + 1)
  }

  lemma {:induction false} PositionOccurs(buf: Bytes, pattern: Bytes)
    requires pattern != [] && Position(buf, pattern).Some?
    ensures var i := Position(buf, pattern).value;
            i + |pattern| <= |buf| && buf[i..i + |pattern|] == pattern
  {
    if !(pattern <= buf) {
      PositionOccurs(buf[1..], pattern);
      var i := Position(buf, pattern).value;
      assert buf[1..][i - 1..i - 1 + |pattern|] == buf[i..i + |pattern|];
    }
  }

  lemma {:induction false} PositionIsFirst(buf: Bytes, pattern: Bytes, i: nat)
    requires pattern != [] && i + |pattern| <= |buf| && buf[i..i + |pattern|] == pattern
    ensures Position(buf, pattern).Some? && Position(buf, pattern).value <= i
  {
    if !(pattern <= buf) {
      assert i > 0;
      assert buf[1..][i - 1..i - 1 + |pattern|] == buf[i..i + |pattern|];
      PositionIsFirst(buf[1..], pattern, i - 1);
    }
  }

  lemma {:induction false} PositionStable(buf: Bytes, more: Bytes, pattern: Bytes)
    requires pattern != [] && Position(buf, pattern).Some?
    ensures Position(buf + more, pattern) == Position(buf, pattern)
  {
    PositionOccurs(buf, pattern);
    assert pattern <= buf + more <==> pattern <= buf;
    if !(pattern <= buf) {
      assert (buf + more)[1..] == buf[1..] + more;
      PositionStable(buf[1..], more, pattern);
    }
  }

  /** The second piece of the line when it is cut at spaces into at most three. */
  function SecondField(line: Bytes): Option<Bytes> {
    match BeforeFirst(line, SPACE)
    case None => None
    case Some((_, rest)) =>
      match BeforeFirst(rest, SPACE)
      case None => Some(rest)
      case Some((field, _)) => Some(field)
  }

  function BeforeFirst(s: Bytes, b: byte): Option<(Bytes, Bytes)> {
    if s == [] then None
    else if s[0] == b then Some(([], s[1..]))
    else
      match BeforeFirst(s[1..], b)
      case None => None
      case Some((before, after)) => Some(([s[0]] + before, after))
  }

  function DigitsValue(s: Bytes): Option<nat> {
    if s == [] then Some(0)
    else
      match DigitsValue(s[..|s| - 1])
      case None => None
      case Some(n) =>
        var d := s[|s| - 1] as int - 48;
        if 0 <= d <= 9 then Some(10 * n + d) else None
  }

  /** The library's reading of a 16-bit number: an optional plus sign, at least one digit, no overflow. */
  function ParseU16(s: Bytes): Option<nat> {
    var digits := if s != [] && s[0] == 43 then s[1..] else s;
    if digits == [] then None
    else
      match DigitsValue(digits)
      case Some(n) => if n < 0x1_0000 then Some(n) else None
      case None => None
  }

  /** The status code on the first line. `utf8` says which byte strings are valid UTF-8. */
  function StatusCode(buf: Bytes, utf8: Bytes -> bool): Option<nat> {
    match Position(buf, CRLF)
    case None => None
    case Some(lineEnd) =>
      var line := buf[..lineEnd];
      if !utf8(line) then None
      else
        match SecondField(line)
        case None => None
        case Some(field) => ParseU16(field)
  }

  /** Status and head length, once the head is complete and its first line makes sense. */
  function ParseUpstreamResponse(buf: Bytes, utf8: Bytes -> bool): (r: Option<(nat, nat)>)
    ensures r.Some? ==> 4 <= r.value.1 <= |buf|
  {
    match Position(buf, HEAD_END)
    case None => None
    case Some(headerEnd) =>
      var status := StatusCode(buf, utf8);
      if status.None? then None else Some((status.value, headerEnd + 4))
  }

  lemma StatusCodeStable(buf: Bytes, more: Bytes, utf8: Bytes -> bool)
    requires Position(buf, CRLF).Some?
    ensures StatusCode(buf + more, utf8) == StatusCode(buf, utf8)
  {
    PositionStable(buf, more, CRLF);
    var lineEnd := Position(buf, CRLF).value;
    assert (buf + more)[..lineEnd] == buf[..lineEnd];
  }

  lemma HeadEndHoldsLineEnd(buf: Bytes)
    requires Position(buf, HEAD_END).Some?
    ensures Position(buf, CRLF).Some?
  {
    PositionOccurs(buf, HEAD_END);
    var i := Position(buf, HEAD_END).value;
    assert buf[i..i + 2] == buf[i..i + 4][..2];
    PositionIsFirst(buf, CRLF, i);
  }

  /** Once a head is complete, more bytes change nothing about how it is read. */
  lemma ParseStable(buf: Bytes, more: Bytes, utf8: Bytes -> bool)
    requires Position(buf, HEAD_END).Some?
    ensures ParseUpstreamResponse(buf + more, utf8) == ParseUpstreamResponse(buf, utf8)
  {
    PositionStable(buf, more, HEAD_END);
    HeadEndHoldsLineEnd(buf);
    StatusCodeStable(buf, more, utf8);
  }

  /** A prefix of the stream parses exactly when it holds the whole head, and then like the stream itself. */
  lemma ParseOfPrefix(stream: Bytes, n: nat, utf8: Bytes -> bool)
    requires n <= |stream|
    ensures ParseUpstreamResponse(stream[..n], utf8) ==
            if ParseUpstreamResponse(stream, utf8).Some? && ParseUpstreamResponse(stream, utf8).value.1 <= n
            then ParseUpstreamResponse(stream, utf8) else None
  {
    assert stream[..n] + stream[n..] == stream;
    if Position(stream[..n], HEAD_END).Some? {
      ParseStable(stream[..n], stream[n..], utf8);
      PositionStable(stream[..n], stream[n..], HEAD_END);
    } else if ParseUpstreamResponse(stream, utf8).Some? {
      PositionOccurs(stream, HEAD_END);
      var i := Position(stream, HEAD_END).value;
      if i + 4 <= n {
        assert stream[..n][i..i + 4] == stream[i..i + 4];
        PositionIsFirst(stream[..n], HEAD_END, i);
      }
    }
  }

  // ---------------------------------------------------------------------------
  // What is read out of a head
  // ---------------------------------------------------------------------------

  /** A number in decimal. */
  function Decimal(n: nat): Bytes {
    if n < 10 then [(48 + n) as byte] else Decimal(n / 10) + [(48 + n % 10) as byte]
  }

  predicate IsDigit(b: byte) {
    48 <= b <= 57
  }

  lemma {:induction false} DecimalIsRead(n: nat)
    ensures DigitsValue(Decimal(n)) == Some(n)
    ensures Decimal(n) != [] && forall b <- Decimal(n) :: IsDigit(b)
  {
    if n < 10 {
      assert Decimal(n)[..0] == [];
    } else {
      DecimalIsRead(n / 10);
      assert Decimal(n)[..|Decimal(n)| - 1] == Decimal(n / 10);
    }
  }

  lemma {:induction false} DigitsValueNeedsDigits(s: Bytes)
    requires exists b <- s :: !IsDigit(b)
    ensures DigitsValue(s).None?
  {
    var front, last := s[..|s| - 1], s[|s| - 1];
    assert s == front + [last];
    if IsDigit(last) {
      var b :| b in s && !IsDigit(b);
      assert b in front;
      DigitsValueNeedsDigits(front);
    }
  }

  /** Decimals below 65536 are read; larger ones, and what holds anything but digits behind a plus sign, are not. */
  lemma NumberIsRead(n: nat)
    ensures ParseU16(Decimal(n)) == if n < 0x1_0000 then Some(n) else None
  {
    DecimalIsRead(n);
    assert Decimal(n)[0] in Decimal(n);
  }

  lemma NoNumberIsRead(s: Bytes)
    requires s == [] || exists b <- s :: b != 43 && !IsDigit(b)
    ensures ParseU16(s).None?
  {
    if s != [] {
      var b :| b in s && b != 43 && !IsDigit(b);
      assert s == [s[0]] + s[1..];
      if s[0] == 43 {
        assert b in s[1..];
        DigitsValueNeedsDigits(s[1..]);
      } else {
        DigitsValueNeedsDigits(s);
      }
    }
  }

  lemma {:induction false} BeforeFirstOf(before: Bytes, after: Bytes)
    requires SPACE !in before
    ensures BeforeFirst(before + [SPACE] + after, SPACE) == Some((before, after))
    ensures BeforeFirst(before, SPACE).None?
  {
    var s := before + [SPACE] + after;
    if before == [] {
      assert s[1..] == after;
    } else {
      assert before[0] in before && forall b <- before[1..] :: b in before;
      assert s[1..] == before[1..] + [SPACE] + after;
      BeforeFirstOf(before[1..], after);
      assert [before[0]] + before[1..] == before;
    }
  }

  /** Behind the code comes nothing, or a space and a reason phrase. */
  function ReasonPart(reason: Option<Bytes>): Bytes {
    match reason
    case None => []
    case Some(phrase) => [SPACE] + phrase
  }

  function StatusLine(version: Bytes, code: Bytes, reason: Option<Bytes>): Bytes {
    version + [SPACE] + (code + ReasonPart(reason))
  }

  lemma SecondFieldIsCode(version: Bytes, code: Bytes, reason: Option<Bytes>)
    requires SPACE !in version && SPACE !in code
    ensures SecondField(StatusLine(version, code, reason)) == Some(code)
  {
    BeforeFirstOf(version, code + ReasonPart(reason));
    match reason
    case None =>
      assert code + [] == code;
      BeforeFirstOf(code, []);
    case Some(phrase) =>
      assert code + ([SPACE] + phrase) == code + [SPACE] + phrase;
      BeforeFirstOf(code, phrase);
  }

  predicate NoLineEnd(s: Bytes) {
    forall i | 0 <= i < |s| - 1 :: !(s[i] == 13 && s[i + 1] == 10)
  }

  predicate StandsAt(s: Bytes, pattern: Bytes, i: nat) {
    i + |pattern| <= |s| && s[i..i + |pattern|] == pattern
  }

  /** A first line, and behind it everything from its line end to the first blank line. */
  ghost predicate WholeHead(line: Bytes, rest: Bytes) {
    && NoLineEnd(line) && CRLF <= rest
    && |rest| >= 4 && rest[|rest| - 4..] == HEAD_END
    && forall i: nat | StandsAt(line + rest, HEAD_END, i) :: i + 4 == |line + rest|
  }

  lemma LineEndsFirst(line: Bytes, rest: Bytes, more: Bytes)
    requires NoLineEnd(line) && CRLF <= rest
    ensures Position(line + rest + more, CRLF) == Some(|line|)
  {
    var buf := line + rest + more;
    assert rest[..2] == CRLF && buf[|line|..|line| + 2] == CRLF;
    assert forall k | 0 <= k < |line| :: buf[k] == line[k];
    PositionIsFirst(buf, CRLF, |line|);
    PositionOccurs(buf, CRLF);
    var i := Position(buf, CRLF).value;
    assert buf[i..i + 2][0] == buf[i] == 13 && buf[i..i + 2][1] == buf[i + 1] == 10;
    assert buf[|line|] == rest[0] == 13;
  }

  lemma HeadEndsWhole(line: Bytes, rest: Bytes, more: Bytes)
    requires WholeHead(line, rest)
    ensures Position(line + rest + more, HEAD_END) == Some(|line + rest| - 4)
  {
    var head := line + rest;
    assert head[|head| - 4..|head| - 4 + 4] == rest[|rest| - 4..];
    PositionIsFirst(head, HEAD_END, |head| - 4);
    PositionOccurs(head, HEAD_END);
    assert StandsAt(head, HEAD_END, Position(head, HEAD_END).value);
    PositionStable(head, more, HEAD_END);
  }

  lemma StatusOfWhole(line: Bytes, rest: Bytes, more: Bytes, utf8: Bytes -> bool)
    requires WholeHead(line, rest)
    ensures ParseUpstreamResponse(line + rest + more, utf8)
            == if !utf8(line) || SecondField(line).None? || ParseU16(SecondField(line).value).None? then None
               else Some((ParseU16(SecondField(line).value).value, |line + rest|))
  {
    LineEndsFirst(line, rest, more);
    HeadEndsWhole(line, rest, more);
    assert (line + rest + more)[..|line|] == line;
  }

  /** Whatever the version, the status code, the reason phrase and the header lines: a printed head is read as its code
      and its length, with any bytes behind it. */
  lemma PrintedHeadIsRead(
    version: Bytes, n: nat, reason: Option<Bytes>, rest: Bytes, more: Bytes, utf8: Bytes -> bool)
    requires SPACE !in version && n < 0x1_0000
    requires var line := StatusLine(version, Decimal(n), reason); WholeHead(line, rest) && utf8(line)
    ensures var line := StatusLine(version, Decimal(n), reason);
            ParseUpstreamResponse(line + rest + more, utf8) == Some((n, |line + rest|))
  {
    DecimalIsRead(n);
    SecondFieldIsCode(version, Decimal(n), reason);
    NumberIsRead(n);
    StatusOfWhole(StatusLine(version, Decimal(n), reason), rest, more, utf8);
  }

  /** A head is not read whose first line is no UTF-8, holds no space, or has no 16-bit number between the first and the
      second. */
  lemma OtherHeadIsRefused(line: Bytes, rest: Bytes, more: Bytes, utf8: Bytes -> bool)
    requires WholeHead(line, rest)
    requires || !utf8(line) || SPACE !in line
             || exists version, code, reason ::
                  && line == StatusLine(version, code, reason) && SPACE !in version && SPACE !in code
                  && (code == [] || (exists b <- code :: b != 43 && !IsDigit(b))
                      || exists n: nat :: n >= 0x1_0000 && code == Decimal(n))
    ensures ParseUpstreamResponse(line + rest + more, utf8).None?
  {
    StatusOfWhole(line, rest, more, utf8);
    if SPACE !in line {
      BeforeFirstOf(line, []);
    } else if utf8(line) {
      var version, code, reason :|
        && line == StatusLine(version, code, reason) && SPACE !in version && SPACE !in code
        && (code == [] || (exists b <- code :: b != 43 && !IsDigit(b))
            || exists n: nat :: n >= 0x1_0000 && code == Decimal(n));
      SecondFieldIsCode(version, code, reason);
      if n: nat :| n >= 0x1_0000 && code == Decimal(n) {
        NumberIsRead(n);
      } else {
        NoNumberIsRead(code);
      }
    }
  }

  // ---------------------------------------------------------------------------
  // The read loop
  // ---------------------------------------------------------------------------

  datatype Outcome =
    | Head(status: nat, head: Bytes, extra: Bytes)
    | Closed
    | TooLarge

  /** The non-empty pieces, of at most the buffer's size, in which the upstream's bytes arrive before it closes. */
  ghost predicate Reads(chunks: seq<Bytes>) {
    forall c <- chunks :: 1 <= |c| <= READ_SIZE
  }

  function Flatten(chunks: seq<Bytes>): Bytes {
    if chunks == [] then [] else chunks[0] + Flatten(chunks[1..])
  }

  lemma {:induction false} FlattenSplit(chunks: seq<Bytes>, k: nat)
    requires k <= |chunks|
    ensures Flatten(chunks) == Flatten(chunks[..k]) + Flatten(chunks[k..])
    ensures k < |chunks| ==> Flatten(chunks[..k + 1]) == Flatten(chunks[..k]) + chunks[k]
  {
    if k == 0 {
      assert chunks[..0] == [] && chunks[0..] == chunks;
      if chunks != [] {
        assert chunks[..1][1..] == [] && chunks[..1][0] == chunks[0];
        assert Flatten(chunks[..1]) == chunks[0] + Flatten([]);
      }
    } else {
      FlattenSplit(chunks[1..], k - 1);
      assert chunks[..k][1..] == chunks[1..][..k - 1] && chunks[1..][k - 1..] == chunks[k..];
      if k < |chunks| { assert chunks[..k + 1][1..] == chunks[1..][..k]; }
    }
  }

  /** What has arrived after `k` reads. */
  function Seen(chunks: seq<Bytes>, k: nat): Bytes
    requires k <= |chunks|
  {
    Flatten(chunks[..k])
  }

  function Arrived(chunks: seq<Bytes>, k: nat): nat
    requires k <= |chunks|
  {
    |Seen(chunks, k)|
  }

  /** Read `k` is the one that gives the verdict: the first after which the head is complete or the limit passed. */
  ghost predicate DecidesAt(chunks: seq<Bytes>, k: nat, utf8: Bytes -> bool)
    requires 1 <= k <= |chunks|
  {
    && Undecided(chunks, k - 1, utf8)
    && (ParseUpstreamResponse(Seen(chunks, k), utf8).Some? || Arrived(chunks, k) > MAX_HEAD)
  }

  ghost predicate Undecided(chunks: seq<Bytes>, k: nat, utf8: Bytes -> bool)
    requires k <= |chunks|
  {
    forall j | 1 <= j <= k ::
      ParseUpstreamResponse(Seen(chunks, j), utf8).None? && Arrived(chunks, j) <= MAX_HEAD
  }

  /** Some read completes the head, and at every earlier one it was not complete and the limit had not been passed. */
  ghost predicate Accepts(chunks: seq<Bytes>, utf8: Bytes -> bool) {
    exists k :: 1 <= k <= |chunks| && DecidesAt(chunks, k, utf8)
                && ParseUpstreamResponse(Seen(chunks, k), utf8).Some?
  }

  lemma OneVerdict(chunks: seq<Bytes>, k: nat, utf8: Bytes -> bool)
    requires k <= |chunks|
    requires (1 <= k && DecidesAt(chunks, k, utf8) && ParseUpstreamResponse(Seen(chunks, k), utf8).None?)
             || (k == |chunks| && Undecided(chunks, k, utf8))
    ensures !Accepts(chunks, utf8)
  {
    forall i | 1 <= i <= |chunks| && DecidesAt(chunks, i, utf8)
      ensures ParseUpstreamResponse(Seen(chunks, i), utf8).None?
    {
    }
  }

  lemma ReadOneMore(chunks: seq<Bytes>, k: nat)
    requires k < |chunks|
    ensures Seen(chunks, k + 1) == Seen(chunks, k) + chunks[k]
  {
    FlattenSplit(chunks, k);
  }

  /** What is recognised in the part that was read is what the whole stream says. */
  lemma RecognisedIsTheStreams(chunks: seq<Bytes>, k: nat, utf8: Bytes -> bool)
    requires k <= |chunks| && ParseUpstreamResponse(Seen(chunks, k), utf8).Some?
    ensures ParseUpstreamResponse(Flatten(chunks), utf8) == ParseUpstreamResponse(Seen(chunks, k), utf8)
  {
    PrefixOfStream(chunks, k);
    ParseOfPrefix(Flatten(chunks), Arrived(chunks, k), utf8);
  }

  /** What the loop answers, and after how many reads: a head is recognised exactly when the reads accept one, and is
      then the stream's own, with the bytes after it all that was read; the buffer never holds more than the limit
      and one read. */
  ghost predicate Verdict(chunks: seq<Bytes>, utf8: Bytes -> bool, outcome: Outcome, used: nat) {
    && used <= |chunks|
    && Arrived(chunks, used) <= MAX_HEAD + READ_SIZE
    && (outcome.Head? <==> Accepts(chunks, utf8))
    && match outcome
       case Head(status, head, extra) =>
         && used >= 1 && DecidesAt(chunks, used, utf8)
         && head + extra == Seen(chunks, used)
         && ParseUpstreamResponse(Flatten(chunks), utf8) == Some((status, |head|))
       case TooLarge =>
         && used >= 1 && DecidesAt(chunks, used, utf8)
         && ParseUpstreamResponse(Seen(chunks, used), utf8).None?
       case Closed => used == |chunks| && Undecided(chunks, used, utf8)
  }

  lemma HeadVerdict(chunks: seq<Bytes>, k: nat, utf8: Bytes -> bool, status: nat, end: nat)
    requires 1 <= k <= |chunks| && Undecided(chunks, k - 1, utf8) && Arrived(chunks, k) <= MAX_HEAD + READ_SIZE
    requires ParseUpstreamResponse(Seen(chunks, k), utf8) == Some((status, end))
    ensures end <= Arrived(chunks, k)
    ensures Verdict(chunks, utf8, Head(status, Seen(chunks, k)[..end], Seen(chunks, k)[end..]), k)
  {
    RecognisedIsTheStreams(chunks, k, utf8);
    assert DecidesAt(chunks, k, utf8);
  }

  lemma TooLargeVerdict(chunks: seq<Bytes>, k: nat, utf8: Bytes -> bool)
    requires 1 <= k <= |chunks| && Undecided(chunks, k - 1, utf8)
    requires ParseUpstreamResponse(Seen(chunks, k), utf8).None?
    requires MAX_HEAD < Arrived(chunks, k) <= MAX_HEAD + READ_SIZE
    ensures Verdict(chunks, utf8, TooLarge, k)
  {
    assert DecidesAt(chunks, k, utf8);
    OneVerdict(chunks, k, utf8);
  }

  lemma ClosedVerdict(chunks: seq<Bytes>, utf8: Bytes -> bool)
    requires Undecided(chunks, |chunks|, utf8) && Arrived(chunks, |chunks|) <= MAX_HEAD
    ensures Verdict(chunks, utf8, Closed, |chunks|)
  {
    OneVerdict(chunks, |chunks|, utf8);
  }

  lemma StillUndecided(chunks: seq<Bytes>, k: nat, utf8: Bytes -> bool)
    requires 1 <= k <= |chunks| && Undecided(chunks, k - 1, utf8)
    requires ParseUpstreamResponse(Seen(chunks, k), utf8).None? && Arrived(chunks, k) <= MAX_HEAD
    ensures Undecided(chunks, k, utf8)
  {
  }

  /** The loop of the upgrade handler. */
  method ReadHead(chunks: seq<Bytes>, utf8: Bytes -> bool) returns (outcome: Outcome, used: nat)
    requires Reads(chunks)
    ensures Verdict(chunks, utf8, outcome, used)
  {
    var buf: Bytes := [];
    used := 0;
    NothingArrived(chunks);
    while used < |chunks|
      invariant used <= |chunks|
      invariant buf == Seen(chunks, used) && |buf| <= MAX_HEAD
      invariant Undecided(chunks, used, utf8)
    {
      ReadOneMore(chunks, used);
      buf := buf + chunks[used];
      used := used + 1;
      var parsed := ParseUpstreamResponse(buf, utf8);
      if parsed.Some? {
        var (status, end) := parsed.value;
        HeadVerdict(chunks, used, utf8, status, end);
        return Head(status, buf[..end], buf[end..]), used;
      }
      if |buf| > MAX_HEAD {
        TooLargeVerdict(chunks, used, utf8);
        return TooLarge, used;
      }
      StillUndecided(chunks, used, utf8);
    }
    ClosedVerdict(chunks, utf8);
    return Closed, used;
  }

  // ---------------------------------------------------------------------------
  // What the pieces can change
  // ---------------------------------------------------------------------------

  lemma {:induction false} ArrivedGrows(chunks: seq<Bytes>, j: nat, k: nat)
    requires Reads(chunks) && j <= k <= |chunks|
    ensures Arrived(chunks, j) + (k - j) <= Arrived(chunks, k) <= Arrived(chunks, j) + READ_SIZE * (k - j)
    ensures Arrived(chunks, k) <= |Flatten(chunks)|
    decreases k - j
  {
    FlattenSplit(chunks, k);
    if j < k {
      ArrivedGrows(chunks, j, k - 1);
      FlattenSplit(chunks, k - 1);
    }
  }

  lemma PrefixOfStream(chunks: seq<Bytes>, k: nat)
    requires k <= |chunks|
    ensures Arrived(chunks, k) <= |Flatten(chunks)|
    ensures Seen(chunks, k) == Flatten(chunks)[..Arrived(chunks, k)]
  {
    FlattenSplit(chunks, k);
  }

  /** Read `k` completes a head that ends at offset `end`. */
  ghost predicate CompletesAt(chunks: seq<Bytes>, k: nat, end: nat) {
    1 <= k <= |chunks| && Arrived(chunks, k - 1) < end <= Arrived(chunks, k)
  }

  lemma SomeReadCompletes(chunks: seq<Bytes>, end: nat) returns (k: nat)
    requires Reads(chunks) && 0 < end <= |Flatten(chunks)|
    ensures CompletesAt(chunks, k, end)
  {
    assert chunks[..0] == [];
    k := 1;
    assert chunks != [];
    assert chunks[..|chunks|] == chunks;
    while Arrived(chunks, k) < end
      invariant 1 <= k <= |chunks| && Arrived(chunks, k - 1) < end
      decreases |chunks| - k
    {
      k := k + 1;
    }
  }

  /** Where the head of the stream ends, if it has one. */
  function HeadLength(buf: Bytes, utf8: Bytes -> bool): Option<nat> {
    match ParseUpstreamResponse(buf, utf8)
    case None => None
    case Some((_, end)) => Some(end)
  }

  lemma HeadAfterRead(chunks: seq<Bytes>, j: nat, utf8: Bytes -> bool)
    requires j <= |chunks| && HeadLength(Flatten(chunks), utf8).Some?
    ensures ParseUpstreamResponse(Seen(chunks, j), utf8).Some?
      <==> HeadLength(Flatten(chunks), utf8).value <= Arrived(chunks, j)
  {
    PrefixOfStream(chunks, j);
    ParseOfPrefix(Flatten(chunks), Arrived(chunks, j), utf8);
  }

  lemma CompletedFrom(chunks: seq<Bytes>, k: nat, end: nat, j: nat)
    requires Reads(chunks) && j <= |chunks| && CompletesAt(chunks, k, end)
    ensures end <= Arrived(chunks, j) <==> k <= j
    ensures j < k ==> Arrived(chunks, j) <= Arrived(chunks, k - 1)
  {
    if j < k { ArrivedGrows(chunks, j, k - 1); } else { ArrivedGrows(chunks, k, j); }
  }

  /** With a head that ends at `end`, the reads from the completing one on are those that parse. */
  lemma ParseAfterRead(chunks: seq<Bytes>, k: nat, end: nat, j: nat, utf8: Bytes -> bool)
    requires Reads(chunks) && j <= |chunks|
    requires HeadLength(Flatten(chunks), utf8) == Some(end) && CompletesAt(chunks, k, end)
    ensures ParseUpstreamResponse(Seen(chunks, j), utf8).Some? <==> k <= j
    ensures j < k ==> Arrived(chunks, j) <= Arrived(chunks, k - 1)
  {
    HeadAfterRead(chunks, j, utf8);
    CompletedFrom(chunks, k, end, j);
  }

  lemma UndecidedBefore(chunks: seq<Bytes>, k: nat, end: nat, utf8: Bytes -> bool)
    requires Reads(chunks)
    requires HeadLength(Flatten(chunks), utf8) == Some(end) && CompletesAt(chunks, k, end)
    requires Arrived(chunks, k - 1) <= MAX_HEAD
    ensures Undecided(chunks, k - 1, utf8)
  {
    forall j | 1 <= j <= k - 1
      ensures ParseUpstreamResponse(Seen(chunks, j), utf8).None? && Arrived(chunks, j) <= MAX_HEAD
    {
      ParseAfterRead(chunks, k, end, j, utf8);
    }
  }

  /** A head is recognised exactly when, before the read that completes it, no more than the limit had arrived. */
  lemma AcceptedExactly(chunks: seq<Bytes>, k: nat, end: nat, utf8: Bytes -> bool)
    requires Reads(chunks)
    requires HeadLength(Flatten(chunks), utf8) == Some(end) && CompletesAt(chunks, k, end)
    ensures Accepts(chunks, utf8) <==> Arrived(chunks, k - 1) <= MAX_HEAD
  {
    ParseAfterRead(chunks, k, end, k, utf8);
    if Arrived(chunks, k - 1) <= MAX_HEAD {
      UndecidedBefore(chunks, k, end, utf8);
      assert DecidesAt(chunks, k, utf8);
    }
    if Accepts(chunks, utf8) {
      var i :| 1 <= i <= |chunks| && DecidesAt(chunks, i, utf8)
               && ParseUpstreamResponse(Seen(chunks, i), utf8).Some?;
      ParseAfterRead(chunks, k, end, i, utf8);
      NothingArrived(chunks);
      assert k > 1 ==> 1 <= k - 1 <= i - 1;
    }
  }

  lemma NothingArrived(chunks: seq<Bytes>)
    ensures Arrived(chunks, 0) == 0
  {
    assert chunks[..0] == [];
  }

  lemma UnreadableIsRefused(chunks: seq<Bytes>, utf8: Bytes -> bool)
    requires ParseUpstreamResponse(Flatten(chunks), utf8).None?
    ensures !Accepts(chunks, utf8)
  {
    if Accepts(chunks, utf8) {
      var i :| 1 <= i <= |chunks| && ParseUpstreamResponse(Seen(chunks, i), utf8).Some?;
      RecognisedIsTheStreams(chunks, i, utf8);
    }
  }

  lemma ReadableLimits(chunks: seq<Bytes>, end: nat, utf8: Bytes -> bool)
    requires Reads(chunks) && HeadLength(Flatten(chunks), utf8) == Some(end)
    ensures end <= MAX_HEAD + 1 ==> Accepts(chunks, utf8)
    ensures end > MAX_HEAD + READ_SIZE ==> !Accepts(chunks, utf8)
  {
    var k := SomeReadCompletes(chunks, end);
    AcceptedExactly(chunks, k, end, utf8);
    CompletionBounds(chunks, k, end);
  }

  lemma CompletionBounds(chunks: seq<Bytes>, k: nat, end: nat)
    requires Reads(chunks) && CompletesAt(chunks, k, end)
    ensures end - READ_SIZE <= Arrived(chunks, k - 1) < end
  {
    ArrivedGrows(chunks, k - 1, k);
  }

  /** How the bytes are cut makes no difference to a head of at most 65537 bytes, which is always recognised, nor to
      one of more than 69632 bytes or to a stream without a readable head, which never is. */
  lemma HeadLimits(chunks: seq<Bytes>, utf8: Bytes -> bool)
    requires Reads(chunks)
    ensures match HeadLength(Flatten(chunks), utf8)
            case None => !Accepts(chunks, utf8)
            case Some(end) =>
              && (end <= MAX_HEAD + 1 ==> Accepts(chunks, utf8))
              && (end > MAX_HEAD + READ_SIZE ==> !Accepts(chunks, utf8))
  {
    match HeadLength(Flatten(chunks), utf8)
    case None => UnreadableIsRefused(chunks, utf8);
    case Some(end) => ReadableLimits(chunks, end, utf8);
  }

  /** For the lengths in between it does: the same bytes are recognised when they come in full buffers and refused
      when they come one at a time. */
  lemma BetweenTheLimitsTheCutDecides(stream: Bytes, utf8: Bytes -> bool)
    requires HeadLength(stream, utf8).Some?
    requires MAX_HEAD + 1 < HeadLength(stream, utf8).value <= MAX_HEAD + READ_SIZE
    ensures Reads(Cut(stream, READ_SIZE)) && Flatten(Cut(stream, READ_SIZE)) == stream
    ensures Reads(Cut(stream, 1)) && Flatten(Cut(stream, 1)) == stream
    ensures Accepts(Cut(stream, READ_SIZE), utf8) && !Accepts(Cut(stream, 1), utf8)
  {
    CutDecides(stream, READ_SIZE, 17, utf8);
    CutDecides(stream, 1, HeadLength(stream, utf8).value, utf8);
  }

  lemma CutDecides(stream: Bytes, size: nat, k: nat, utf8: Bytes -> bool)
    requires 0 < size <= READ_SIZE && HeadLength(stream, utf8).Some?
    requires k > 0 && size * (k - 1) < HeadLength(stream, utf8).value <= size * k
    ensures Reads(Cut(stream, size)) && Flatten(Cut(stream, size)) == stream
    ensures Accepts(Cut(stream, size), utf8) <==> size * (k - 1) <= MAX_HEAD
  {
    CutIsReads(stream, size);
    CutCompletes(stream, size, k, HeadLength(stream, utf8).value);
    AcceptedExactly(Cut(stream, size), k, HeadLength(stream, utf8).value, utf8);
  }

  lemma CutCompletes(stream: Bytes, size: nat, k: nat, end: nat)
    requires 0 < size && k > 0 && size * (k - 1) < end <= size * k && end <= |stream|
    ensures CompletesAt(Cut(stream, size), k, end)
    ensures Arrived(Cut(stream, size), k - 1) == size * (k - 1)
  {
    assert k > 1 ==> size * (k - 2) < size * (k - 1);
    CutArrivals(stream, size, k - 1);
    CutArrivals(stream, size, k);
  }

  /** The stream in pieces of `size` bytes, the last one possibly shorter. */
  function Cut(stream: Bytes, size: nat): (chunks: seq<Bytes>)
    requires size > 0
    decreases |stream|
  {
    if stream == [] then []
    else if |stream| <= size then [stream]
    else [stream[..size]] + Cut(stream[size..], size)
  }

  lemma {:induction false} CutIsReads(stream: Bytes, size: nat)
    requires 0 < size <= READ_SIZE
    ensures Reads(Cut(stream, size)) && Flatten(Cut(stream, size)) == stream
    decreases |stream|
  {
    if 0 < |stream| <= size {
      assert Cut(stream, size)[1..] == [];
    } else if |stream| > size {
      CutIsReads(stream[size..], size);
      assert Cut(stream, size)[1..] == Cut(stream[size..], size);
    }
  }

  lemma AtLeastOnce(size: nat, n: nat)
    ensures n >= 1 ==> size * n >= size
  {
  }

  lemma {:induction false} CutArrivals(stream: Bytes, size: nat, k: nat)
    requires 0 < size && (k > 0 ==> size * (k - 1) < |stream|)
    ensures k <= |Cut(stream, size)|
    ensures Arrived(Cut(stream, size), k) == if size * k <= |stream| then size * k else |stream|
    decreases k
  {
    var chunks := Cut(stream, size);
    if k == 0 {
      assert chunks[..0] == [];
    } else if |stream| <= size {
      assert size * (k - 1) < size;
      AtLeastOnce(size, k - 1);
      assert chunks[..1] == [stream] && Flatten([stream]) == stream + Flatten([]);
    } else {
      CutArrivals(stream[size..], size, k - 1);
      assert chunks[..k][1..] == chunks[1..][..k - 1] && chunks[1..] == Cut(stream[size..], size);
    }
  }

  // ---------------------------------------------------------------------------
  // Heads of every length
  // ---------------------------------------------------------------------------

  const STATUS_LINE: Bytes := [72, 32, 49, 48, 49]

  function Filler(n: nat): (s: Bytes)
    ensures |s| == n && forall b <- s :: b == 97
  {
    if n == 0 then [] else [97] + Filler(n - 1)
  }

  /** The status line "H 101", one header line of filler and the blank line, in `n` bytes. */
  function HeadOf(n: nat): (head: Bytes)
    requires n >= 12
    ensures |head| == n
  {
    STATUS_LINE + CRLF + Filler(n - 11) + HEAD_END
  }

  /** The only carriage returns are those at the two line ends and in the blank line. */
  lemma ReturnsInHead(n: nat, i: nat)
    requires 12 <= n && i < n
    ensures HeadOf(n)[i] == 13 <==> i == 5 || i == n - 4 || i == n - 2
    ensures HeadOf(n)[i] == 10 <==> i == 6 || i == n - 3 || i == n - 1
  {
    var filler := Filler(n - 11);
    if 7 <= i < n - 4 {
      assert HeadOf(n)[i] == filler[i - 7] && filler[i - 7] in filler;
    } else if i >= n - 4 {
      assert HeadOf(n)[i] == HEAD_END[i - (n - 4)];
    }
  }

  lemma HeadEndsLast(n: nat)
    requires n >= 12
    ensures Position(HeadOf(n), HEAD_END) == Some(n - 4)
  {
    var head := HeadOf(n);
    assert head[n - 4..n - 4 + 4] == HEAD_END;
    PositionIsFirst(head, HEAD_END, n - 4);
    PositionOccurs(head, HEAD_END);
    var i := Position(head, HEAD_END).value;
    assert head[i..i + 4][0] == head[i] && head[i..i + 4][2] == head[i + 2];
    ReturnsInHead(n, i);
    ReturnsInHead(n, i + 2);
  }

  lemma StatusLineEndsFirst(n: nat)
    requires n >= 12
    ensures Position(HeadOf(n), CRLF) == Some(5)
  {
    var head := HeadOf(n);
    assert head[5..5 + 2] == CRLF;
    PositionIsFirst(head, CRLF, 5);
    PositionOccurs(head, CRLF);
    var i := Position(head, CRLF).value;
    assert head[i..i + 2][0] == head[i];
    ReturnsInHead(n, i);
  }

  lemma StatusOfLine(line: Bytes)
    requires line == STATUS_LINE
    ensures SecondField(line) == Some([49, 48, 49]) && ParseU16([49, 48, 49]) == Some(101)
  {
    var rest: Bytes := [49, 48, 49];
    assert line[1..] == [32] + rest && line[1..][1..] == rest;
    assert BeforeFirst(rest, SPACE).None? by {
      assert rest[1..] == [48, 49] && rest[1..][1..] == [49] && rest[1..][1..][1..] == [];
    }
    assert BeforeFirst(line[1..], SPACE) == Some(([], rest));
    assert BeforeFirst(line, SPACE) == Some(([72] + [], rest));
    assert rest[..2] == [49, 48] && rest[..2][..1] == [49] && rest[..2][..1][..0] == [];
    assert DigitsValue(rest[..2][..1]) == Some(1);
    assert DigitsValue(rest[..2]) == Some(10);
  }

  /** A head of every length from 12 bytes on is recognised, those between the two limits included. */
  lemma HeadsOfEveryLength(n: nat, utf8: Bytes -> bool)
    requires n >= 12 && utf8(STATUS_LINE)
    ensures ParseUpstreamResponse(HeadOf(n), utf8) == Some((101, n))
  {
    HeadEndsLast(n);
    StatusLineEndsFirst(n);
    assert HeadOf(n)[..5] == STATUS_LINE;
    StatusOfLine(STATUS_LINE);
  }

  /** So there is an answer, two bytes longer than the limit, that passes or fails by how it arrives. */
  lemma SomeHeadDependsOnTheCut(utf8: Bytes -> bool)
    requires utf8(STATUS_LINE)
    ensures var stream := HeadOf(MAX_HEAD + 2);
            Accepts(Cut(stream, READ_SIZE), utf8) && !Accepts(Cut(stream, 1), utf8)
  {
    HeadsOfEveryLength(MAX_HEAD + 2, utf8);
    BetweenTheLimitsTheCutDecides(HeadOf(MAX_HEAD + 2), utf8);
  }
}
