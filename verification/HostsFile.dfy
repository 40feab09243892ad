/** The block of lines the program manages inside the hosts file. */
module HostsFile {
  import opened Text

  const MARKER_START := "# nsl-start"
  const MARKER_END := "# nsl-end"

  // ---------------------------------------------------------------------------
  // Lines
  // ---------------------------------------------------------------------------

  predicate LastIs(s: string, c: char) {
    s != "" && s[|s| - 1] == c
  }

  predicate FirstIs(s: string, c: char) {
    s != "" && s[0] == c
  }

  function StripCr(line: string): string {
    if LastIs(line, '\r') then line[..|line| - 1] else line
  }

  function LinesOf(parts: seq<string>): seq<string>
    requires |parts| >= 1
  {
    if |parts| == 1 then (if parts[0] == "" then [] else parts)
    else [StripCr(parts[0])] + LinesOf(parts[1..])
  }

  /** The lines of a text: a carriage return before a newline goes, and so does an empty last line. */
  function Lines(content: string): seq<string> {
    LinesOf(Split(content, '\n'))
  }

  predicate IsMarker(line: string) {
    Trim(line) == MARKER_START || Trim(line) == MARKER_END
  }

  // ---------------------------------------------------------------------------
  // Reading and rewriting
  // ---------------------------------------------------------------------------

  /** The lines `remove_block` keeps: those outside, where an unclosed block extends to the end. */
  function Kept(lines: seq<string>, inside: bool): seq<string> {
    if lines == [] then []
    else if Trim(lines[0]) == MARKER_START then Kept(lines[1..], true)
    else if Trim(lines[0]) == MARKER_END then Kept(lines[1..], false)
    else if inside then Kept(lines[1..], inside)
    else [lines[0]] + Kept(lines[1..], inside)
  }

  /** The lines of a file outside its blocks. */
  function KeptLines(content: string): seq<string> {
    Kept(Lines(content), false)
  }

  function FinalNewline(content: string): string {
    if LastIs(content, '\n') then "\n" else ""
  }

  function RemoveBlock(content: string): string {
    Join(KeptLines(content), "\n") + FinalNewline(content)
  }

  method RemoveBlockFrom(content: string) returns (output: string)
    ensures output == RemoveBlock(content)
  {
    var lines := Lines(content);
    var result: seq<string> := [];
    var inside := false;
    for i := 0 to |lines|
      invariant Kept(lines, false) == result + Kept(lines[i..], inside)
    {
      assert lines[i..][1..] == lines[i + 1..];
      if Trim(lines[i]) == MARKER_START {
        inside := true;
        continue;
      }
      if Trim(lines[i]) == MARKER_END {
        inside := false;
        continue;
      }
      if !inside {
        result := result + [lines[i]];
      }
    }
    assert result + Kept([], inside) == result;
    output := Join(result, "\n");
    if LastIs(content, '\n') {
      output := output + "\n";
    }
  }

  function Prepend(lines: seq<string>, rest: Option<seq<string>>): Option<seq<string>> {
    match rest
    case None => None
    case Some(more) => Some(lines + more)
  }

  /** The lines of the first closed block; an end marker without a start closes an empty one. */
  function Managed(lines: seq<string>, inside: bool): Option<seq<string>> {
    if lines == [] then None
    else if Trim(lines[0]) == MARKER_START then Managed(lines[1..], true)
    else if Trim(lines[0]) == MARKER_END then Some([])
    else Prepend(if inside then [lines[0]] else [], Managed(lines[1..], inside))
  }

  lemma PrependTwice(a: seq<string>, b: seq<string>, rest: Option<seq<string>>)
    ensures Prepend(a, Prepend(b, rest)) == Prepend(a + b, rest)
    ensures Prepend([], rest) == rest
  {
    if rest.Some? {
      assert a + (b + rest.value) == a + b + rest.value;
      assert [] + rest.value == rest.value;
    }
  }

  predicate NoEnds(lines: seq<string>) {
    forall l <- lines :: Trim(l) != MARKER_END
  }

  /** A block is what stands between a start marker and the next end marker, without further start markers. */
  function WithoutStarts(lines: seq<string>): seq<string> {
    if lines == [] then []
    else if Trim(lines[0]) == MARKER_START then WithoutStarts(lines[1..])
    else [lines[0]] + WithoutStarts(lines[1..])
  }

  lemma {:induction false} UnclosedIsNoBlock(lines: seq<string>, inside: bool)
    requires NoEnds(lines)
    ensures Managed(lines, inside).None?
  {
    if lines != [] {
      assert lines[0] in lines && forall l <- lines[1..] :: l in lines;
      UnclosedIsNoBlock(lines[1..], true);
      UnclosedIsNoBlock(lines[1..], inside);
    }
  }

  lemma {:induction false} ClosedAtEnd(block: seq<string>, end: string, rest: seq<string>)
    requires NoEnds(block) && Trim(end) == MARKER_END
    ensures Managed(block + [end] + rest, true) == Some(WithoutStarts(block))
  {
    var all := block + [end] + rest;
    if block == [] {
      assert all[0] == end;
      assert |MARKER_START| != |MARKER_END|;
    } else {
      assert block[0] in block && forall l <- block[1..] :: l in block;
      assert all[0] == block[0] && all[1..] == block[1..] + [end] + rest;
      ClosedAtEnd(block[1..], end, rest);
    }
  }

  /** The managed block of any file: the first one that is closed. An end marker in front of every start marker closes an
      empty one, and without any end marker there is none. */
  lemma {:induction false} FirstClosedBlock(before: seq<string>, start: string, block: seq<string>, end: string, rest: seq<string>)
    requires (forall l <- before :: !IsMarker(l)) && Trim(start) == MARKER_START
    requires NoEnds(block) && Trim(end) == MARKER_END
    ensures Managed(before + ([start] + (block + [end] + rest)), false) == Some(WithoutStarts(block))
    ensures Managed(before + ([end] + rest), false) == Some([])
    ensures Managed(before, false).None?
    decreases |before|
  {
    var tail := block + [end] + rest;
    if before == [] {
      assert before + ([start] + tail) == [start] + tail && ([start] + tail)[1..] == tail;
      assert before + ([end] + rest) == [end] + rest;
      assert |MARKER_START| != |MARKER_END|;
      ClosedAtEnd(block, end, rest);
    } else {
      assert before[0] in before && forall l <- before[1..] :: l in before;
      assert (before + ([start] + tail))[1..] == before[1..] + ([start] + tail);
      assert (before + ([end] + rest))[1..] == before[1..] + ([end] + rest);
      FirstClosedBlock(before[1..], start, block, end, rest);
      PrependTwice([], [], Managed(before[1..] + ([start] + tail), false));
      PrependTwice([], [], Managed(before[1..] + ([end] + rest), false));
    }
  }

  method ExtractManagedBlock(content: string) returns (block: Option<seq<string>>)
    ensures block == Managed(Lines(content), false)
  {
    var all := Lines(content);
    var lines: seq<string> := [];
    var inside := false;
    PrependTwice([], [], Managed(all, false));
    assert all[0..] == all;
    for i := 0 to |all|
      invariant Managed(all, false) == Prepend(lines, Managed(all[i..], inside))
    {
      assert all[i..][1..] == all[i + 1..];
      PrependTwice(lines, if inside then [all[i]] else [], Managed(all[i + 1..], inside));
      if Trim(all[i]) == MARKER_START {
        inside := true;
        continue;
      }
      if Trim(all[i]) == MARKER_END {
        assert lines + [] == lines;
        return Some(lines);
      }
      if inside {
        lines := lines + [all[i]];
      } else {
        assert lines + [] == lines;
      }
    }
    return None;
  }

  function EntryLines(hostnames: seq<string>): seq<string> {
    if hostnames == [] then [] else ["127.0.0.1 " + hostnames[0]] + EntryLines(hostnames[1..])
  }

  function BlockLines(hostnames: seq<string>): seq<string> {
    [MARKER_START] + EntryLines(hostnames) + [MARKER_END]
  }

  function BuildBlock(hostnames: seq<string>): string {
    if hostnames == [] then "" else Join(BlockLines(hostnames), "\n")
  }

  method BuildBlockOf(hostnames: seq<string>) returns (block: string)
    ensures block == BuildBlock(hostnames)
  {
    if hostnames == [] {
      return "";
    }
    var lines := [MARKER_START];
    for i := 0 to |hostnames|
      invariant [MARKER_START] + EntryLines(hostnames) == lines + EntryLines(hostnames[i..])
    {
      assert hostnames[i..][1..] == hostnames[i + 1..];
      lines := lines + ["127.0.0.1 " + hostnames[i]];
    }
    lines := lines + [MARKER_END];
    assert lines == BlockLines(hostnames);
    return Join(lines, "\n");
  }

  /** What a sync leaves in front of its block. */
  function Base(content: string): string {
    TrimEnd(RemoveBlock(content))
  }

  function Compose(base: string, hostnames: seq<string>): string {
    if base == "" then BuildBlock(hostnames) + "\n" else base + "\n" + BuildBlock(hostnames) + "\n"
  }

  /** The new text of the file. */
  function Sync(content: string, hostnames: seq<string>): string {
    if hostnames == [] then RemoveBlock(content) else Compose(Base(content), hostnames)
  }

  function Clean(content: string): string {
    if Managed(Lines(content), false).None? then content else RemoveBlock(content)
  }

  function FirstWord(s: string): (w: string)
    ensures w <= s
    ensures s != "" && !IsWhitespace(s[0]) ==> w != ""
    ensures forall c <- w :: !IsWhitespace(c)
  {
    if s == "" || IsWhitespace(s[0]) then "" else [s[0]] + FirstWord(s[1..])
  }

  function SplitWhitespace(s: string): (words: seq<string>)
    ensures forall w <- words :: ValidHostname(w)
    decreases |s|
  {
    if s == "" then []
    else if IsWhitespace(s[0]) then SplitWhitespace(s[1..])
    else [FirstWord(s)] + SplitWhitespace(s[|FirstWord(s)|..])
  }

  function EntryHost(line: string): Option<string> {
    var parts := SplitWhitespace(line);
    if |parts| >= 2 && parts[0] == "127.0.0.1" then Some(parts[1]) else None
  }

  function EntryHosts(lines: seq<string>): seq<string> {
    if lines == [] then []
    else
      match EntryHost(lines[0])
      case None => EntryHosts(lines[1..])
      case Some(h) => [h] + EntryHosts(lines[1..])
  }

  function ManagedHostnames(content: string): seq<string> {
    match Managed(Lines(content), false)
    case None => []
    case Some(lines) => EntryHosts(lines)
  }

  predicate ValidHostname(h: string) {
    h != "" && forall c <- h :: !IsWhitespace(c)
  }

  predicate ValidHostnames(hostnames: seq<string>) {
    forall h <- hostnames :: ValidHostname(h)
  }

  /** All that it takes for every entry to be one line. */
  predicate OneLineEach(hostnames: seq<string>) {
    forall h <- hostnames :: '\n' !in h
  }

  // ---------------------------------------------------------------------------
  // Lines of a concatenation
  // ---------------------------------------------------------------------------

  predicate NoMarkers(lines: seq<string>) {
    forall l <- lines :: !IsMarker(l)
  }

  function Terminated(parts: seq<string>): seq<string> {
    if parts == [] then [] else [StripCr(parts[0])] + Terminated(parts[1..])
  }

  lemma {:induction false} LinesOfConcat(a: seq<string>, b: seq<string>)
    requires |b| >= 1
    ensures LinesOf(a + b) == Terminated(a) + LinesOf(b)
  {
    if a == [] {
      assert a + b == b;
    } else {
      assert (a + b)[1..] == a[1..] + b;
      LinesOfConcat(a[1..], b);
    }
  }

  lemma LinesConcat(a: string, b: string)
    ensures Lines(a + "\n" + b) == Terminated(Split(a, '\n')) + Lines(b)
  {
    SplitConcat(a, '\n', b);
    LinesOfConcat(Split(a, '\n'), Split(b, '\n'));
  }

  lemma StripCrTrims(line: string)
    ensures Trim(StripCr(line)) == Trim(line) && TrimEnd(StripCr(line)) == TrimEnd(line)
  {
    if LastIs(line, '\r') {
      assert line == line[..|line| - 1] + "\r";
      TrimAppend(line[..|line| - 1], "\r");
      TrimEndAppend(line[..|line| - 1], "\r");
    }
  }

  lemma {:induction false} TerminatedNoMarkers(parts: seq<string>)
    requires NoMarkers(parts)
    ensures NoMarkers(Terminated(parts))
    ensures |parts| >= 1 ==> NoMarkers(LinesOf(parts))
  {
    if parts != [] {
      StripCrTrims(parts[0]);
      assert parts[0] in parts;
      TerminatedNoMarkers(parts[1..]);
    }
  }

  lemma {:induction false} KeptNoMarkers(lines: seq<string>, inside: bool)
    ensures NoMarkers(Kept(lines, inside))
    ensures forall l <- Kept(lines, inside) :: l in lines
  {
    if lines != [] {
      KeptNoMarkers(lines[1..], true);
      KeptNoMarkers(lines[1..], false);
    }
  }

  lemma {:induction false} UnmarkedPassThrough(a: seq<string>, b: seq<string>)
    requires NoMarkers(a)
    ensures Kept(a + b, false) == a + Kept(b, false)
    ensures Managed(a + b, false) == Managed(b, false)
  {
    if a == [] {
      assert a + b == b;
    } else {
      assert (a + b)[1..] == a[1..] + b;
      assert !IsMarker(a[0]);
      UnmarkedPassThrough(a[1..], b);
      PrependTwice([], [], Managed(b, false));
    }
  }

  predicate IsStart(lines: seq<string>, j: nat) {
    j < |lines| && Trim(lines[j]) == MARKER_START
  }

  predicate NoEndBetween(lines: seq<string>, j: int, i: int) {
    forall k | j < k < i && 0 <= k < |lines| :: Trim(lines[k]) != MARKER_END
  }

  /** Before line `i` a block was started and not ended since. */
  ghost predicate InOpenBlock(lines: seq<string>, i: nat) {
    exists j: nat | j < i :: IsStart(lines, j) && NoEndBetween(lines, j, i)
  }

  function InsideAfter(lines: seq<string>, inside: bool): bool {
    if lines == [] then inside
    else if Trim(lines[0]) == MARKER_START then InsideAfter(lines[1..], true)
    else if Trim(lines[0]) == MARKER_END then InsideAfter(lines[1..], false)
    else InsideAfter(lines[1..], inside)
  }

  lemma InsideAfterSnoc(lines: seq<string>, line: string, inside: bool)
    ensures InsideAfter(lines + [line], inside)
            == (Trim(line) == MARKER_START || (Trim(line) != MARKER_END && InsideAfter(lines, inside)))
    ensures Kept(lines + [line], inside)
            == Kept(lines, inside) + if IsMarker(line) || InsideAfter(lines, inside) then [] else [line]
    decreases |lines|
  {
    if lines == [] {
      assert lines + [line] == [line];
      MarkersDiffer();
    } else {
      assert (lines + [line])[1..] == lines[1..] + [line];
      InsideAfterSnoc(lines[1..], line, true);
      InsideAfterSnoc(lines[1..], line, false);
    }
  }

  lemma MarkersDiffer()
    ensures MARKER_START != MARKER_END
  {
    assert |MARKER_START| != |MARKER_END|;
  }

  lemma {:induction false} InsideAfterExactly(lines: seq<string>, i: nat)
    requires i <= |lines|
    ensures InsideAfter(lines[..i], false) <==> InOpenBlock(lines, i)
  {
    if i > 0 {
      MarkersDiffer();
      InsideAfterExactly(lines, i - 1);
      assert lines[..i] == lines[..i - 1] + [lines[i - 1]];
      InsideAfterSnoc(lines[..i - 1], lines[i - 1], false);
      if IsStart(lines, i - 1) {
        assert NoEndBetween(lines, i - 1, i);
      } else if Trim(lines[i - 1]) != MARKER_END {
        assert forall j: nat | j < i - 1 :: NoEndBetween(lines, j, i) <==> NoEndBetween(lines, j, i - 1);
      } else {
        assert forall j: nat | j < i - 1 :: !NoEndBetween(lines, j, i);
      }
    }
  }

  /** Line by line, the removal keeps exactly the lines that are no marker and not in an open block; a block that is
      never closed takes everything after it along. */
  lemma LineKeptExactly(lines: seq<string>, i: nat)
    requires i < |lines|
    ensures Kept(lines[..i + 1], false)
            == Kept(lines[..i], false) + if IsMarker(lines[i]) || InOpenBlock(lines, i) then [] else [lines[i]]
  {
    assert lines[..i + 1] == lines[..i] + [lines[i]];
    InsideAfterSnoc(lines[..i], lines[i], false);
    InsideAfterExactly(lines, i);
  }

  lemma {:induction false} LinesHaveNoNewline(parts: seq<string>)
    requires |parts| >= 1 && forall p <- parts :: '\n' !in p
    ensures forall l <- LinesOf(parts) :: '\n' !in l
  {
    assert parts[0] in parts;
    if |parts| > 1 { LinesHaveNoNewline(parts[1..]); }
  }

  /** The pieces of a cleaned text are the kept lines, and perhaps one empty piece. */
  lemma CleanedPieces(content: string)
    ensures var kept := KeptLines(content);
            var pieces := Split(RemoveBlock(content), '\n');
            && (pieces == kept || pieces == kept + [""] || (kept == [] && pieces == ["", ""]))
            && NoMarkers(pieces)
  {
    var kept := KeptLines(content);
    KeptNoMarkers(Lines(content), false);
    JoinOfSplit(content, '\n');
    LinesHaveNoNewline(Split(content, '\n'));
    var joined := Join(kept, "\n");
    if kept != [] { SplitOfJoin(kept, '\n'); }
    if LastIs(content, '\n') {
      SplitConcat(joined, '\n', "");
      assert joined + "\n" + "" == RemoveBlock(content);
    } else {
      assert joined + "" == joined;
    }
    EmptyIsNoMarker();
  }

  lemma EmptyIsNoMarker()
    ensures !IsMarker("")
  {
  }

  // ---------------------------------------------------------------------------
  // Carriage returns
  // ---------------------------------------------------------------------------

  /** The text with every CRLF turned into a newline. */
  function DropCr(s: string): string {
    if s == "" then ""
    else if s[0] == '\r' && FirstIs(s[1..], '\n') then DropCr(s[1..])
    else [s[0]] + DropCr(s[1..])
  }

  lemma {:induction false} DropCrShrinks(s: string)
    ensures |DropCr(s)| <= |s|
    ensures Blank(s) ==> Blank(DropCr(s))
  {
    if s != "" {
      DropCrShrinks(s[1..]);
    }
  }

  predicate CrLfAt(s: string, i: nat) {
    i + 1 < |s| && s[i] == '\r' && s[i + 1] == '\n'
  }

  /** The text holds a carriage return directly followed by a newline. */
  predicate HasCrLf(s: string) {
    exists i | 0 <= i < |s| :: CrLfAt(s, i)
  }

  lemma {:induction false} DropCrChangesExactly(s: string)
    ensures DropCr(s) == s <==> !HasCrLf(s)
  {
    if s != "" {
      DropCrChangesExactly(s[1..]);
      DropCrShrinks(s[1..]);
      assert [s[0]] + s[1..] == s;
      assert forall i | 0 <= i < |s| - 1 :: CrLfAt(s[1..], i) <==> CrLfAt(s, i + 1);
      assert CrLfAt(s, 0) <==> s[0] == '\r' && FirstIs(s[1..], '\n');
      if HasCrLf(s) && !CrLfAt(s, 0) {
        var i :| 0 <= i < |s| && CrLfAt(s, i);
        assert CrLfAt(s[1..], i - 1);
      }
    }
  }

  lemma {:induction false} DropCrConcat(a: string, b: string)
    requires !LastIs(a, '\r') || !FirstIs(b, '\n')
    ensures DropCr(a + b) == DropCr(a) + DropCr(b)
  {
    if a == "" {
      assert a + b == b;
    } else {
      var tail := a[1..];
      assert (a + b)[1..] == tail + b && (a + b)[0] == a[0];
      assert FirstIs(tail + b, '\n') <==> if tail == "" then FirstIs(b, '\n') else FirstIs(tail, '\n');
      DropCrConcat(tail, b);
      assert [a[0]] + (DropCr(tail) + DropCr(b)) == [a[0]] + DropCr(tail) + DropCr(b);
    }
  }

  lemma DropCrShort()
    ensures DropCr("\r\n") == "\n" && DropCr("\n") == "\n" && DropCr("\r") == "\r"
  {
    assert "\r\n"[1..] == "\n" && "\n"[1..] == "" && "\r"[1..] == "";
  }

  lemma DropCrLine(line: string)
    requires '\n' !in line
    ensures DropCr(line) == line
    ensures DropCr(line + "\n") == StripCr(line) + "\n"
  {
    DropCrChangesExactly(line);
    DropCrShort();
    if LastIs(line, '\r') {
      var front := line[..|line| - 1];
      DropCrChangesExactly(front);
      assert line + "\n" == front + "\r\n";
      DropCrConcat(front, "\r\n");
    } else {
      DropCrConcat(line, "\n");
    }
  }

  /** Taking a text apart into lines and putting them together again only loses the returns. */
  lemma {:induction false} LinesRejoined(parts: seq<string>)
    requires |parts| >= 1 && forall p <- parts :: '\n' !in p
    ensures var s := Join(parts, "\n"); Join(LinesOf(parts), "\n") + FinalNewline(s) == DropCr(s)
  {
    assert parts[0] in parts;
    DropCrLine(parts[0]);
    if |parts| == 1 {
      NotLast(parts[0], '\n');
    } else {
      var rest := Join(parts[1..], "\n");
      var first := parts[0] + "\n";
      assert Join(parts, "\n") == first + rest;
      assert !LastIs(first, '\r');
      DropCrConcat(first, rest);
      LinesRejoined(parts[1..]);
      RejoinedStep(parts, rest);
    }
  }

  lemma JoinNonEmpty(parts: seq<string>)
    requires |parts| >= 1
    ensures Join(parts, "\n") == "" <==> parts == [""]
  {
  }

  lemma NotLast(s: string, c: char)
    requires c !in s
    ensures !LastIs(s, c)
  {
  }

  lemma LastOfConcat(a: string, b: string, c: char)
    requires b != ""
    ensures LastIs(a + b, c) <==> LastIs(b, c)
  {
  }

  lemma JoinFirst(first: string, tail: seq<string>)
    requires tail != []
    ensures Join([first] + tail, "\n") == first + "\n" + Join(tail, "\n")
  {
    assert ([first] + tail)[1..] == tail;
  }

  lemma JoinEnded(first: string, tail: seq<string>, end: string)
    ensures Join([first] + tail, "\n") + (if tail == [] then "\n" else end)
            == first + "\n" + (Join(tail, "\n") + if tail == [] then "" else end)
  {
    if tail == [] {
      assert [first] + tail == [first];
    } else {
      JoinFirst(first, tail);
    }
  }

  lemma FinalNewlineOf(line: string, rest: string)
    ensures FinalNewline(line + "\n" + rest) == if rest == "" then "\n" else FinalNewline(rest)
  {
    if rest != "" {
      LastOfConcat(line + "\n", rest, '\n');
    } else {
      LastOfConcat(line, "\n", '\n');
      assert line + "\n" + "" == line + "\n";
    }
  }

  lemma LinesOfEmpty(parts: seq<string>)
    requires |parts| >= 1
    ensures LinesOf(parts) == [] <==> Join(parts, "\n") == ""
  {
    JoinNonEmpty(parts);
  }

  lemma RejoinedStep(parts: seq<string>, rest: string)
    requires |parts| > 1 && rest == Join(parts[1..], "\n")
    ensures Join(LinesOf(parts), "\n") + FinalNewline(Join(parts, "\n"))
            == StripCr(parts[0]) + "\n" + (Join(LinesOf(parts[1..]), "\n") + FinalNewline(rest))
  {
    var first, tail := StripCr(parts[0]), LinesOf(parts[1..]);
    FinalNewlineOf(parts[0], rest);
    LinesOfEmpty(parts[1..]);
    JoinEnded(first, tail, FinalNewline(rest));
  }

  lemma RemoveFromUnmarked(content: string)
    requires NoMarkers(Split(content, '\n'))
    ensures RemoveBlock(content) == DropCr(content)
    ensures Managed(Lines(content), false).None?
  {
    var parts := Split(content, '\n');
    TerminatedNoMarkers(parts);
    UnmarkedPassThrough(Lines(content), []);
    assert Lines(content) + [] == Lines(content);
    JoinOfSplit(content, '\n');
    LinesRejoined(parts);
  }

  lemma NoCrLfInLine(line: string)
    requires '\n' !in line
    ensures !HasCrLf(line)
  {
  }

  lemma CrLfConcat(line: string, rest: string)
    requires '\n' !in line
    ensures HasCrLf(line + "\n" + rest) <==> LastIs(line, '\r') || HasCrLf(rest)
  {
    var s, k := line + "\n" + rest, |line| + 1;
    assert forall i | 0 <= i < |rest| :: s[k + i] == rest[i];
    assert forall i | 0 <= i < |line| :: s[i] == line[i] && line[i] in line;
    if LastIs(line, '\r') { assert CrLfAt(s, |line| - 1); }
    if HasCrLf(rest) {
      var i :| 0 <= i < |rest| && CrLfAt(rest, i);
      assert CrLfAt(s, k + i);
    }
    if HasCrLf(s) {
      var i :| 0 <= i < |s| && CrLfAt(s, i);
      if i >= k { assert CrLfAt(rest, i - k); }
    }
  }

  /** The line ends in a carriage return, and in a text that ends its last line or not, a newline follows it. */
  predicate CrBeforeNewline(lines: seq<string>, lastEnded: bool, i: nat) {
    i < |lines| && LastIs(lines[i], '\r') && (i + 1 < |lines| || lastEnded)
  }

  lemma {:induction false} JoinHasCrLf(lines: seq<string>, lastEnded: bool)
    requires forall l <- lines :: '\n' !in l
    ensures HasCrLf(Join(lines, "\n") + if lastEnded then "\n" else "")
      <==> exists i: nat :: CrBeforeNewline(lines, lastEnded, i)
  {
    var end := if lastEnded then "\n" else "";
    if lines == [] {
      assert "" + end == end;
    } else if |lines| == 1 {
      assert lines[0] in lines;
      if lastEnded {
        assert lines[0] + end == lines[0] + "\n" + "";
        CrLfConcat(lines[0], "");
      } else {
        assert lines[0] + end == lines[0];
        NoCrLfInLine(lines[0]);
      }
      assert CrBeforeNewline(lines, lastEnded, 0) <==> LastIs(lines[0], '\r') && lastEnded;
    } else {
      assert lines[0] in lines;
      var tail := lines[1..];
      assert Join(lines, "\n") + end == lines[0] + "\n" + (Join(tail, "\n") + end);
      CrLfConcat(lines[0], Join(tail, "\n") + end);
      JoinHasCrLf(tail, lastEnded);
      FirstOrLater(lines, lastEnded);
    }
  }

  lemma FirstOrLater(lines: seq<string>, lastEnded: bool)
    requires |lines| > 1
    ensures (exists i: nat :: CrBeforeNewline(lines, lastEnded, i))
      <==> LastIs(lines[0], '\r') || exists i: nat :: CrBeforeNewline(lines[1..], lastEnded, i)
  {
    assert CrBeforeNewline(lines, lastEnded, 0) <==> LastIs(lines[0], '\r');
    if i: nat :| CrBeforeNewline(lines[1..], lastEnded, i) {
      assert CrBeforeNewline(lines, lastEnded, i + 1);
    }
    if i: nat :| CrBeforeNewline(lines, lastEnded, i) && i > 0 {
      assert CrBeforeNewline(lines[1..], lastEnded, i - 1);
    }
  }

  lemma KeptHasNoNewline(content: string)
    ensures forall l <- KeptLines(content) :: '\n' !in l
  {
    KeptNoMarkers(Lines(content), false);
    JoinOfSplit(content, '\n');
    LinesHaveNoNewline(Split(content, '\n'));
  }

  /** Removing the block twice is removing it once, unless some kept line itself ends in a carriage return and is written
      with a newline: in the file it ends in two carriage returns before its newline. */
  lemma RemoveBlockIdempotentExactly(content: string)
    ensures RemoveBlock(RemoveBlock(content)) == RemoveBlock(content)
      <==> !exists i: nat :: CrBeforeNewline(KeptLines(content), LastIs(content, '\n'), i)
  {
    CleanedPieces(content);
    RemoveFromUnmarked(RemoveBlock(content));
    DropCrChangesExactly(RemoveBlock(content));
    KeptHasNoNewline(content);
    JoinHasCrLf(KeptLines(content), LastIs(content, '\n'));
  }

  // ---------------------------------------------------------------------------
  // The text in front of the block
  // ---------------------------------------------------------------------------

  lemma {:induction false} SplitBlank(w: string)
    requires Blank(w)
    ensures forall p <- Split(w, '\n') :: Blank(p)
  {
    if w != "" {
      assert w[0] in w;
      SplitBlank(w[1..]);
      var rest := Split(w[1..], '\n');
      assert Blank(rest[0]);
      assert Blank([w[0]] + rest[0]);
    }
  }

  /** `b` is `a` with blanks appended. */
  predicate BlankExtension(a: string, b: string) {
    a <= b && Blank(b[|a|..])
  }

  lemma BlankExtensionTrims(a: string, b: string)
    requires BlankExtension(a, b)
    ensures Trim(a) == Trim(b) && TrimEnd(a) == TrimEnd(b)
  {
    assert b == a + b[|a|..];
    TrimAppend(a, b[|a|..]);
    TrimEndAppend(a, b[|a|..]);
  }

  /** Blanks at the end of a text touch only the end of its last piece. */
  lemma {:induction false} SplitOfTrimmed(b: string, w: string)
    requires Blank(w)
    ensures |Split(b, '\n')| <= |Split(b + w, '\n')|
    ensures forall i | 0 <= i < |Split(b, '\n')| :: BlankExtension(Split(b, '\n')[i], Split(b + w, '\n')[i])
    ensures forall i | |Split(b, '\n')| <= i < |Split(b + w, '\n')| :: Blank(Split(b + w, '\n')[i])
  {
    if b == "" {
      assert b + w == w;
      SplitBlank(w);
    } else {
      assert (b + w)[1..] == b[1..] + w;
      SplitOfTrimmed(b[1..], w);
      var p, q := Split(b[1..], '\n')[0], Split(b[1..] + w, '\n')[0];
      assert ([b[0]] + q)[1 + |p|..] == q[|p|..];
    }
  }

  lemma BaseIsTrimmed(content: string) returns (w: string)
    ensures RemoveBlock(content) == Base(content) + w && Blank(w)
    ensures Base(content) != "" ==> !IsWhitespace(Base(content)[|Base(content)| - 1])
  {
    w := TrimEndSplits(RemoveBlock(content));
  }

  lemma BaseUnmarked(content: string)
    ensures NoMarkers(Split(Base(content), '\n'))
  {
    var w := BaseIsTrimmed(content);
    var base := Base(content);
    CleanedPieces(content);
    SplitOfTrimmed(base, w);
    forall p | p in Split(base, '\n') ensures !IsMarker(p) {
      var i :| 0 <= i < |Split(base, '\n')| && Split(base, '\n')[i] == p;
      BlankExtensionTrims(p, Split(base + w, '\n')[i]);
      assert Split(base + w, '\n')[i] in Split(base + w, '\n');
    }
  }

  // ---------------------------------------------------------------------------
  // The block
  // ---------------------------------------------------------------------------

  lemma TrimOfSolid(s: string)
    requires s != "" && !IsWhitespace(s[0]) && !IsWhitespace(s[|s| - 1])
    ensures Trim(s) == s
  {
  }

  lemma EntryIsNoMarker(h: string)
    ensures !IsMarker("127.0.0.1 " + h)
  {
    var line := "127.0.0.1 " + h;
    assert line[0] == '1';
    assert TrimStart(line) == line;
    var w := TrimEndSplits(line);
    assert Trim(line) == "" || Trim(line)[0] == line[0];
    assert MARKER_START[0] == '#' && MARKER_END[0] == '#';
  }

  lemma EntryKeepsItsEnd(h: string)
    requires ValidHostname(h)
    ensures StripCr("127.0.0.1 " + h) == "127.0.0.1 " + h
  {
    var line := "127.0.0.1 " + h;
    assert line[|line| - 1] == h[|h| - 1] && h[|h| - 1] in h;
  }

  lemma MarkersAreLines()
    ensures Trim(MARKER_START) == MARKER_START && Trim(MARKER_END) == MARKER_END
    ensures '\n' !in MARKER_START && StripCr(MARKER_START) == MARKER_START
    ensures '\n' !in MARKER_END && StripCr(MARKER_END) == MARKER_END
    ensures MARKER_START != MARKER_END
  {
    TrimOfSolid(MARKER_START);
    TrimOfSolid(MARKER_END);
    MarkersDiffer();
  }

  lemma {:induction false} EntryLinesShape(hostnames: seq<string>)
    requires OneLineEach(hostnames)
    ensures NoMarkers(EntryLines(hostnames)) && forall l <- EntryLines(hostnames) :: '\n' !in l
  {
    if hostnames != [] {
      EntryIsNoMarker(hostnames[0]);
      assert hostnames[0] in hostnames;
      EntryLinesShape(hostnames[1..]);
    }
  }

  lemma {:induction false} ValidEntriesStay(hostnames: seq<string>)
    requires ValidHostnames(hostnames)
    ensures Terminated(EntryLines(hostnames)) == EntryLines(hostnames) && OneLineEach(hostnames)
  {
    if hostnames != [] {
      EntryKeepsItsEnd(hostnames[0]);
      assert hostnames[0] in hostnames;
      ValidEntriesStay(hostnames[1..]);
      assert EntryLines(hostnames)[1..] == EntryLines(hostnames[1..]);
    }
  }

  lemma {:induction false} TerminatedConcat(a: seq<string>, b: seq<string>)
    ensures Terminated(a + b) == Terminated(a) + Terminated(b)
  {
    if a == [] {
      assert a + b == b;
    } else {
      assert (a + b)[1..] == a[1..] + b;
      TerminatedConcat(a[1..], b);
    }
  }

  /** The block as it reads back: every entry without a carriage return at its end. */
  function BlockRead(hostnames: seq<string>): seq<string> {
    [MARKER_START] + Terminated(EntryLines(hostnames)) + [MARKER_END]
  }

  lemma TerminatedBlock(hostnames: seq<string>)
    ensures Terminated(BlockLines(hostnames)) == BlockRead(hostnames)
  {
    MarkersAreLines();
    TerminatedConcat([MARKER_START] + EntryLines(hostnames), [MARKER_END]);
    TerminatedConcat([MARKER_START], EntryLines(hostnames));
    assert Terminated([MARKER_START]) == [MARKER_START] + Terminated([]);
    assert Terminated([MARKER_END]) == [MARKER_END] + Terminated([]);
  }

  lemma LinesOfBlock(hostnames: seq<string>)
    requires hostnames != [] && OneLineEach(hostnames)
    ensures Lines(BuildBlock(hostnames) + "\n") == BlockRead(hostnames)
  {
    var lines := BlockLines(hostnames);
    var block := BuildBlock(hostnames);
    MarkersAreLines();
    EntryLinesShape(hostnames);
    SplitOfJoin(lines, '\n');
    TerminatedBlock(hostnames);
    LinesConcat(block, "");
    assert block + "\n" + "" == block + "\n";
    assert Lines("") == [];
    assert Terminated(lines) + [] == Terminated(lines);
  }

  lemma {:induction false} InsideBlock(entries: seq<string>, rest: seq<string>)
    requires NoMarkers(entries)
    ensures Kept(entries + [MARKER_END] + rest, true) == Kept(rest, false)
    ensures Managed(entries + [MARKER_END] + rest, true) == Some(entries)
  {
    MarkersAreLines();
    var all := entries + [MARKER_END] + rest;
    if entries == [] {
      assert all[0] == MARKER_END && all[1..] == rest;
    } else {
      assert !IsMarker(entries[0]);
      assert all[0] == entries[0] && all[1..] == entries[1..] + [MARKER_END] + rest;
      InsideBlock(entries[1..], rest);
      assert [entries[0]] + entries[1..] == entries;
    }
  }

  lemma AcrossBlock(hostnames: seq<string>)
    requires OneLineEach(hostnames)
    ensures Kept(BlockRead(hostnames), false) == []
    ensures Managed(BlockRead(hostnames), false) == Some(Terminated(EntryLines(hostnames)))
  {
    MarkersAreLines();
    EntryLinesShape(hostnames);
    var entries := Terminated(EntryLines(hostnames));
    TerminatedNoMarkers(EntryLines(hostnames));
    InsideBlock(entries, []);
    assert BlockRead(hostnames)[0] == MARKER_START && BlockRead(hostnames)[1..] == entries + [MARKER_END] + [];
  }

  /** The lines in front of the block. */
  function Front(base: string): seq<string> {
    if base == "" then [] else Terminated(Split(base, '\n'))
  }

  /** The lines of a synced file: those in front, then the block. */
  lemma LinesOfSync(content: string, hostnames: seq<string>)
    requires hostnames != [] && OneLineEach(hostnames)
    ensures NoMarkers(Front(Base(content)))
    ensures Lines(Sync(content, hostnames)) == Front(Base(content)) + BlockRead(hostnames)
  {
    var base := Base(content);
    var block := BuildBlock(hostnames);
    LinesOfBlock(hostnames);
    BaseUnmarked(content);
    TerminatedNoMarkers(Split(base, '\n'));
    if base != "" {
      assert Sync(content, hostnames) == base + "\n" + (block + "\n");
      LinesConcat(base, block + "\n");
    } else {
      assert [] + BlockRead(hostnames) == BlockRead(hostnames);
    }
  }

  // ---------------------------------------------------------------------------
  // Reading back
  // ---------------------------------------------------------------------------

  lemma {:induction false} FirstWordOf(a: string, rest: string)
    requires forall c <- a :: !IsWhitespace(c)
    requires rest == "" || IsWhitespace(rest[0])
    ensures FirstWord(a + rest) == a
  {
    if a == "" {
      assert a + rest == rest;
    } else {
      assert (a + rest)[1..] == a[1..] + rest;
      FirstWordOf(a[1..], rest);
    }
  }

  lemma EntryHostOf(h: string)
    requires ValidHostname(h)
    ensures EntryHost("127.0.0.1 " + h) == Some(h)
  {
    var address := "127.0.0.1";
    var line := address + (" " + h);
    assert line == "127.0.0.1 " + h;
    assert forall c <- address :: !IsWhitespace(c);
    assert (" " + h)[1..] == h && h + "" == h;
    SplitFirst(h, "");
    assert SplitWhitespace(" " + h) == [h];
    SplitFirst(address, " " + h);
  }

  lemma SplitFirst(word: string, rest: string)
    requires ValidHostname(word) && (rest == "" || IsWhitespace(rest[0]))
    ensures SplitWhitespace(word + rest) == [word] + SplitWhitespace(rest)
  {
    FirstWordOf(word, rest);
    assert word[0] in word && (word + rest)[0] == word[0];
    assert (word + rest)[|word|..] == rest;
  }

  lemma {:induction false} BlanksSplitOff(blanks: string, s: string)
    requires Blank(blanks)
    ensures SplitWhitespace(blanks + s) == SplitWhitespace(s)
  {
    if blanks == "" {
      assert blanks + s == s;
    } else {
      assert blanks[0] in blanks && forall c <- blanks[1..] :: c in blanks;
      assert (blanks + s)[1..] == blanks[1..] + s;
      BlanksSplitOff(blanks[1..], s);
    }
  }

  /** Of any line of the block the second word is the hostname, whatever follows it, if the first is the address; a line
      with another first word, or with only one, is passed over. */
  lemma SecondWordIsHost(a: string, first: string, gap: string, second: string, tail: string)
    requires Blank(a) && Blank(gap) && gap != "" && ValidHostname(first) && ValidHostname(second)
    requires tail == "" || IsWhitespace(tail[0])
    ensures EntryHost(a + (first + (gap + (second + tail)))) == if first == "127.0.0.1" then Some(second) else None
    ensures EntryHost(a + (first + gap)) == None
  {
    assert gap[0] in gap;
    BlanksSplitOff(a, first + (gap + (second + tail)));
    SplitFirst(first, gap + (second + tail));
    BlanksSplitOff(gap, second + tail);
    SplitFirst(second, tail);
    BlanksSplitOff(a, first + gap);
    SplitFirst(first, gap);
    BlanksSplitOff(gap, "");
    assert gap + "" == gap;
  }

  lemma {:induction false} EntryHostsOf(hostnames: seq<string>)
    requires ValidHostnames(hostnames)
    ensures EntryHosts(EntryLines(hostnames)) == hostnames
  {
    if hostnames != [] {
      EntryHostOf(hostnames[0]);
      EntryHostsOf(hostnames[1..]);
      assert EntryLines(hostnames)[1..] == EntryLines(hostnames[1..]);
      assert [hostnames[0]] + hostnames[1..] == hostnames;
    }
  }

  lemma {:induction false} EntryHostsValid(lines: seq<string>)
    ensures ValidHostnames(EntryHosts(lines))
  {
    if lines != [] { EntryHostsValid(lines[1..]); }
  }

  lemma ReadBackValid(content: string, hostnames: seq<string>)
    requires hostnames != [] && ValidHostnames(hostnames)
    ensures ManagedHostnames(Sync(content, hostnames)) == hostnames
  {
    ValidEntriesStay(hostnames);
    LinesOfSync(content, hostnames);
    UnmarkedPassThrough(Front(Base(content)), BlockRead(hostnames));
    AcrossBlock(hostnames);
    EntryHostsOf(hostnames);
  }

  lemma ManagedHostnamesValid(content: string)
    ensures ValidHostnames(ManagedHostnames(content))
  {
    var block := Managed(Lines(content), false);
    if block.Some? { EntryHostsValid(block.value); }
  }

  /** Whatever the file held, reading the managed hostnames after a sync returns the synced list, in order, exactly
      when every hostname is a non-empty word. */
  lemma ReadBackExactly(content: string, hostnames: seq<string>)
    ensures ManagedHostnames(Sync(content, hostnames)) == hostnames <==> ValidHostnames(hostnames)
  {
    ManagedHostnamesValid(Sync(content, hostnames));
    if hostnames == [] {
      CleanedPieces(content);
      RemoveFromUnmarked(RemoveBlock(content));
    } else if ValidHostnames(hostnames) {
      ReadBackValid(content, hostnames);
    }
  }

  /** After a clean there is nothing left to read. */
  lemma CleanLeavesNothingManaged(content: string)
    ensures ManagedHostnames(Clean(content)) == []
  {
    CleanedPieces(content);
    RemoveFromUnmarked(RemoveBlock(content));
  }

  // ---------------------------------------------------------------------------
  // The last sync wins
  // ---------------------------------------------------------------------------

  lemma TrimEndOfDropCr(base: string, w: string)
    requires Blank(w) && (base != "" ==> !IsWhitespace(base[|base| - 1]))
    ensures TrimEnd(DropCr(base + w)) == DropCr(base)
  {
    DropCrConcat(base, w);
    DropCrShrinks(w);
    if base == "" {
      TrimEndOfBlank(DropCr(w));
      assert DropCr(base) + DropCr(w) == DropCr(w);
    } else {
      TrimEndAppend(DropCr(base), DropCr(w));
      DropCrKeepsLast(base);
    }
  }

  lemma {:induction false} DropCrKeepsLast(s: string)
    ensures s != "" ==> DropCr(s) != "" && LastIs(DropCr(s), s[|s| - 1])
  {
    if |s| > 1 {
      DropCrKeepsLast(s[1..]);
    }
  }

  lemma KeptOfSync(content: string, hostnames: seq<string>)
    requires hostnames != [] && OneLineEach(hostnames)
    ensures Base(content) == "" ==> RemoveBlock(Sync(content, hostnames)) == "\n"
    ensures Base(content) != "" ==> RemoveBlock(Sync(content, hostnames)) == DropCr(Base(content) + "\n")
  {
    var base := Base(content);
    LinesOfSync(content, hostnames);
    var front := Front(base);
    UnmarkedPassThrough(front, BlockRead(hostnames));
    AcrossBlock(hostnames);
    assert front + [] == front;
    assert LastIs(Sync(content, hostnames), '\n');
    if base != "" {
      var alone := base + "\n" + "";
      LinesConcat(base, "");
      assert Lines("") == [] && front + [] == front;
      assert alone == base + "\n";
      JoinOfSplit(alone, '\n');
      LinesRejoined(Split(alone, '\n'));
    }
  }

  lemma BaseOfCleaned(content: string)
    ensures Base(RemoveBlock(content)) == DropCr(Base(content))
  {
    var w := BaseIsTrimmed(content);
    CleanedPieces(content);
    RemoveFromUnmarked(RemoveBlock(content));
    TrimEndOfDropCr(Base(content), w);
  }

  /** After any sync, cleaning leaves the earlier front with its CRLFs turned into newlines. */
  lemma BaseOfSync(content: string, hostnames: seq<string>)
    requires OneLineEach(hostnames)
    ensures Base(Sync(content, hostnames)) == DropCr(Base(content))
  {
    if hostnames == [] {
      BaseOfCleaned(content);
    } else {
      KeptOfSync(content, hostnames);
      if Base(content) == "" {
        TrimEndOfBlank("\n");
      } else {
        var w := BaseIsTrimmed(content);
        TrimEndOfDropCr(Base(content), "\n");
      }
    }
  }

  lemma SyncTwiceUnlessCrLf(content: string, earlier: seq<string>, last: seq<string>)
    requires OneLineEach(earlier) && last != []
    ensures Sync(Sync(content, earlier), last) == Sync(content, last) <==> !HasCrLf(Base(content))
  {
    var base := Base(content);
    BaseOfSync(content, earlier);
    DropCrChangesExactly(base);
    if DropCr(base) != base {
      DropCrKeepsLast(base);
      DropCrShorter(base);
    }
  }

  /** Line `i` ends in a carriage return and a line that is not blank follows. */
  predicate CrBeforeVisible(lines: seq<string>, i: nat, j: nat) {
    i < j < |lines| && LastIs(lines[i], '\r') && TrimEnd(lines[j]) != ""
  }

  lemma SolidLastCrLf(front: seq<string>, last: string)
    requires (forall l <- front :: '\n' !in l) && '\n' !in last && TrimEnd(last) != ""
    ensures HasCrLf(TrimEnd(Join(front + [last], "\n"))) <==> exists i: nat :: i < |front| && LastIs(front[i], '\r')
  {
    var w := TrimEndSplits(last);
    var solid := TrimEnd(last);
    assert forall c :: c in last <==> c in solid || c in w;
    TrimmedJoin(front, solid, w);
    SolidEndCrLf(front, solid);
  }

  lemma SolidEndCrLf(front: seq<string>, solid: string)
    requires (forall l <- front :: '\n' !in l) && '\n' !in solid
    ensures HasCrLf(Join(front + [solid], "\n")) <==> exists i: nat :: i < |front| && LastIs(front[i], '\r')
  {
    var all := front + [solid];
    JoinHasCrLf(all, false);
    assert Join(all, "\n") + "" == Join(all, "\n");
    assert forall i: nat :: CrBeforeNewline(all, false, i) <==> i < |front| && LastIs(front[i], '\r');
  }

  lemma {:induction false} TrimmedHasCrLf(lines: seq<string>)
    requires forall l <- lines :: '\n' !in l
    ensures HasCrLf(TrimEnd(Join(lines, "\n"))) <==> exists i: nat, j: nat :: CrBeforeVisible(lines, i, j)
    decreases |lines|
  {
    if lines != [] {
      var front, last := lines[..|lines| - 1], lines[|lines| - 1];
      assert lines == front + [last];
      assert forall i: nat, j: nat | j < |front| :: CrBeforeVisible(front, i, j) <==> CrBeforeVisible(lines, i, j);
      if TrimEnd(last) == "" {
        BlankLastTrims(front, last);
        TrimmedHasCrLf(front);
      } else {
        SolidLastCrLf(front, last);
        assert forall i: nat :: i < |front| && LastIs(front[i], '\r') ==> CrBeforeVisible(lines, i, |front|);
        assert forall i: nat, j: nat :: CrBeforeVisible(lines, i, j) ==> i < |front| && LastIs(front[i], '\r');
      }
    }
  }

  lemma BlankLastTrims(front: seq<string>, last: string)
    requires TrimEnd(last) == ""
    ensures TrimEnd(Join(front + [last], "\n")) == TrimEnd(Join(front, "\n"))
  {
    TrimEndToBlank(last);
    if front == [] {
      assert front + [last] == [last];
    } else {
      JoinSnoc(front, last);
      TrimEndAppend(Join(front, "\n"), "\n" + last);
    }
  }

  lemma BaseHasCrLf(content: string)
    ensures HasCrLf(Base(content)) <==> exists i: nat, j: nat :: CrBeforeVisible(KeptLines(content), i, j)
  {
    KeptHasNoNewline(content);
    var kept := KeptLines(content);
    TrimmedHasCrLf(kept);
    var joined := Join(kept, "\n");
    if LastIs(content, '\n') {
      TrimEndAppend(joined, "\n");
    } else {
      assert joined + "" == joined;
    }
    assert Base(content) == TrimEnd(joined);
  }

  /** Syncing twice is syncing with the last list, unless among the kept lines there is one that itself ends in a carriage
      return, and behind it one that is not blank. */
  lemma LastSyncWinsExactly(content: string, earlier: seq<string>, last: seq<string>)
    requires OneLineEach(earlier) && last != []
    ensures Sync(Sync(content, earlier), last) == Sync(content, last)
      <==> !exists i: nat, j: nat :: CrBeforeVisible(KeptLines(content), i, j)
  {
    SyncTwiceUnlessCrLf(content, earlier, last);
    BaseHasCrLf(content);
  }

  /** As in "x\r\r\ny". */
  lemma DoubledCrLeavesATrace(content: string, hostnames: seq<string>)
    requires content == "x\r\r\ny" && hostnames != [] && OneLineEach(hostnames)
    ensures Sync(Sync(content, hostnames), hostnames) != Sync(content, hostnames)
    ensures RemoveBlock(RemoveBlock(content)) != RemoveBlock(content)
  {
    var kept := KeptLines(content);
    LinesOfDoubledCr(content);
    assert CrBeforeVisible(kept, 0, 1) && CrBeforeNewline(kept, false, 0);
    LastSyncWinsExactly(content, hostnames, hostnames);
    RemoveBlockIdempotentExactly(content);
  }

  lemma LinesOfDoubledCr(content: string)
    requires content == "x\r\r\ny"
    ensures KeptLines(content) == ["x\r", "y"]
  {
    assert content == "x\r\r" + ['\n'] + "y";
    SplitConcat("x\r\r", '\n', "y");
    SplitNoSeparator("x\r\r", '\n');
    SplitNoSeparator("y", '\n');
    assert Split(content, '\n') == ["x\r\r"] + ["y"] && ["x\r\r", "y"][1..] == ["y"];
    assert StripCr("x\r\r") == "x\r" by { assert "x\r\r"[..2] == "x\r"; }
    assert LinesOf(["y"]) == ["y"];
    assert LinesOf(["x\r\r", "y"]) == [StripCr("x\r\r")] + LinesOf(["y"]);
    assert Lines(content) == ["x\r", "y"];
    MarkerIsLong("x\r");
    MarkerIsLong("y");
    UnmarkedPassThrough(Lines(content), []);
    assert Lines(content) + [] == Lines(content);
  }

  lemma MarkerIsLong(line: string)
    requires |line| <= 2
    ensures !IsMarker(line)
  {
    var w := TrimEndSplits(TrimStart(line));
    TrimStartShortens(line);
    assert |MARKER_START| > 2 && |MARKER_END| > 2;
  }

  lemma {:induction false} TrimStartShortens(s: string)
    ensures |TrimStart(s)| <= |s|
  {
    if s != "" { TrimStartShortens(s[1..]); }
  }

  /** Every carriage return is the one in front of a newline, as in a file with ordinary CRLF line ends, or one without
      carriage returns. */
  predicate PlainLineEnds(content: string) {
    forall i | 0 <= i < |content| && content[i] == '\r' :: i + 1 < |content| && content[i + 1] == '\n'
  }

  lemma {:induction false} PlainLinesHaveNoCr(content: string)
    requires PlainLineEnds(content)
    ensures forall l <- Lines(content) :: '\r' !in l
  {
    if content != "" {
      var tail := content[1..];
      assert forall i | 0 <= i < |tail| :: tail[i] == content[i + 1];
      PlainLinesHaveNoCr(tail);
      if content[0] == '\n' {
        assert ([""] + Split(tail, '\n'))[1..] == Split(tail, '\n');
      } else {
        FirstLineGrows(content[0], Split(tail, '\n'), tail);
      }
    }
  }

  lemma FirstLineGrows(c: char, rest: seq<string>, tail: string)
    requires rest == Split(tail, '\n') && (c == '\r' ==> FirstIs(tail, '\n'))
    requires forall l <- LinesOf(rest) :: '\r' !in l
    ensures forall l <- LinesOf([[c] + rest[0]] + rest[1..]) :: '\r' !in l
  {
    var parts := [[c] + rest[0]] + rest[1..];
    assert parts[1..] == rest[1..];
    if c == '\r' { assert rest[0] == "" && |rest| > 1; }
    if |rest| == 1 {
      assert LinesOf(parts) == parts;
      assert rest[0] != "" ==> rest[0] in LinesOf(rest);
    } else {
      assert StripCr(rest[0]) in LinesOf(rest);
      assert rest[0] != "" ==> StripCr([c] + rest[0]) == [c] + StripCr(rest[0]);
      assert forall l <- LinesOf(rest[1..]) :: l in LinesOf(rest);
    }
  }

  /** Such files are safe: removing the block is idempotent and the last sync wins. */
  lemma PlainLineEndsAreHarmless(content: string, earlier: seq<string>, last: seq<string>)
    requires PlainLineEnds(content) && OneLineEach(earlier) && last != []
    ensures RemoveBlock(RemoveBlock(content)) == RemoveBlock(content)
    ensures Sync(Sync(content, earlier), last) == Sync(content, last)
  {
    PlainLinesHaveNoCr(content);
    KeptNoMarkers(Lines(content), false);
    var kept := KeptLines(content);
    assert forall i | 0 <= i < |kept| :: kept[i] in kept;
    RemoveBlockIdempotentExactly(content);
    LastSyncWinsExactly(content, earlier, last);
  }

  lemma {:induction false} DropCrShorter(s: string)
    requires DropCr(s) != s
    ensures |DropCr(s)| < |s|
  {
    DropCrShrinks(s[1..]);
    assert [s[0]] + s[1..] == s;
    if !(s[0] == '\r' && FirstIs(s[1..], '\n')) {
      DropCrShorter(s[1..]);
    }
  }

  // ---------------------------------------------------------------------------
  // Unmanaged lines
  // ---------------------------------------------------------------------------

  lemma {:induction false} TerminatedAt(parts: seq<string>)
    ensures |Terminated(parts)| == |parts|
    ensures forall i | 0 <= i < |parts| :: Terminated(parts)[i] == StripCr(parts[i])
  {
    if parts != [] { TerminatedAt(parts[1..]); }
  }

  /** `lines` without blank lines at the end, blanks at the end of the last line and one carriage return at the end of
      the others. */
  function Tidied(lines: seq<string>): seq<string> {
    if lines == [] then []
    else if TrimEnd(lines[|lines| - 1]) == "" then Tidied(lines[..|lines| - 1])
    else Terminated(lines[..|lines| - 1]) + [TrimEnd(lines[|lines| - 1])]
  }

  lemma {:induction false} JoinSnoc(parts: seq<string>, last: string)
    requires parts != []
    ensures Join(parts + [last], "\n") == Join(parts, "\n") + ("\n" + last)
  {
    var all := parts + [last];
    if |parts| == 1 {
      assert all[1..] == [last];
    } else {
      assert all[1..] == parts[1..] + [last];
      JoinSnoc(parts[1..], last);
    }
  }

  lemma TrimEndOfSolid(s: string)
    requires s != "" && !IsWhitespace(s[|s| - 1])
    ensures TrimEnd(s) == s && StripCr(s) == s
  {
  }

  lemma TrimEndToBlank(s: string)
    requires TrimEnd(s) == ""
    ensures Blank(s)
  {
    var w := TrimEndSplits(s);
    assert s == w;
  }

  lemma TrimmedJoin(parts: seq<string>, last: string, w: string)
    requires last != "" && !IsWhitespace(last[|last| - 1]) && Blank(w)
    ensures TrimEnd(Join(parts + [last + w], "\n")) == Join(parts + [last], "\n")
  {
    var all, whole := parts + [last], Join(parts + [last], "\n");
    if parts == [] {
      assert all == [last] && parts + [last + w] == [last + w];
    } else {
      JoinSnoc(parts, last);
      JoinSnoc(parts, last + w);
      assert Join(parts + [last + w], "\n") == whole + w;
    }
    TrimEndAppend(whole, w);
    assert whole != "" && whole[|whole| - 1] == last[|last| - 1];
    TrimEndOfSolid(whole);
  }

  lemma FrontOfSolidLast(parts: seq<string>, last: string, w: string)
    requires (forall p <- parts :: '\n' !in p) && '\n' !in last && Blank(w)
    requires last != "" && !IsWhitespace(last[|last| - 1])
    ensures Front(TrimEnd(Join(parts + [last + w], "\n"))) == Terminated(parts) + [last]
  {
    var all := parts + [last];
    TrimmedJoin(parts, last, w);
    TrimEndOfSolid(last);
    SplitOfJoin(all, '\n');
    JoinEndsVisibly(parts, last);
    TerminatedConcat(parts, [last]);
    assert Terminated([last]) == [last] + Terminated([]);
  }

  lemma JoinEndsVisibly(parts: seq<string>, last: string)
    requires last != ""
    ensures Join(parts + [last], "\n") != ""
  {
    if parts == [] {
      assert parts + [last] == [last];
    } else {
      JoinSnoc(parts, last);
    }
  }

  lemma {:induction false} FrontOfTrimmed(parts: seq<string>)
    requires parts != [] && forall p <- parts :: '\n' !in p
    ensures Front(TrimEnd(Join(parts, "\n"))) == Tidied(parts)
    decreases |parts|
  {
    var front, last := parts[..|parts| - 1], parts[|parts| - 1];
    assert parts == front + [last];
    if TrimEnd(last) == "" {
      BlankLastTrims(front, last);
      if front == [] {
        assert TrimEnd(Join(front, "\n")) == "";
      } else {
        FrontOfTrimmed(front);
      }
    } else {
      var w := TrimEndSplits(last);
      assert forall c :: c in last <==> c in TrimEnd(last) || c in w;
      FrontOfSolidLast(front, TrimEnd(last), w);
    }
  }

  lemma TidiedDropsEmptyLast(kept: seq<string>)
    ensures Tidied(kept + [""]) == Tidied(kept) && Tidied(["", ""]) == []
  {
    assert TrimEnd("") == "";
    assert (kept + [""])[..|kept|] == kept;
    assert ["", ""][..1] == [""] && [""][..0] == [];
    assert Tidied([""]) == Tidied([]);
  }

  /** After a sync of a list that is not empty, the lines outside the block are exactly those that the removal keeps,
      tidied: in their places, and untouched but for carriage returns, blanks at the end of the last one and blank lines
      after it. */
  lemma UnmanagedLinesExactly(content: string, hostnames: seq<string>)
    requires hostnames != [] && OneLineEach(hostnames)
    ensures KeptLines(Sync(content, hostnames)) == Tidied(KeptLines(content))
  {
    var kept, pieces := KeptLines(content), Split(RemoveBlock(content), '\n');
    var front := Front(Base(content));
    LinesOfSync(content, hostnames);
    UnmarkedPassThrough(front, BlockRead(hostnames));
    AcrossBlock(hostnames);
    assert front + [] == front;
    JoinOfSplit(RemoveBlock(content), '\n');
    FrontOfTrimmed(pieces);
    CleanedPieces(content);
    TidiedDropsEmptyLast(kept);
  }

  function LineAt(lines: seq<string>, i: nat): string {
    if i < |lines| then lines[i] else ""
  }

  lemma {:induction false} TidiedLineAt(lines: seq<string>, i: nat)
    ensures TrimEnd(LineAt(Tidied(lines), i)) == TrimEnd(LineAt(lines, i))
    decreases |lines|
  {
    if lines != [] {
      var front, last := lines[..|lines| - 1], lines[|lines| - 1];
      if TrimEnd(last) == "" {
        TidiedLineAt(front, i);
      } else {
        TerminatedAt(front);
        var w := TrimEndSplits(last);
        TrimEndOfSolid(TrimEnd(last));
        if i < |front| { StripCrTrims(front[i]); }
      }
    }
  }

  lemma {:induction false} LinesOfLineAt(parts: seq<string>, i: nat)
    requires parts != []
    ensures TrimEnd(LineAt(LinesOf(parts), i)) == TrimEnd(LineAt(parts, i))
  {
    StripCrTrims(parts[0]);
    if |parts| > 1 && i > 0 { LinesOfLineAt(parts[1..], i - 1); }
  }

  lemma RemovedLineAt(content: string, i: nat)
    ensures TrimEnd(LineAt(KeptLines(RemoveBlock(content)), i))
            == TrimEnd(LineAt(KeptLines(content), i))
  {
    var kept, pieces := KeptLines(content), Split(RemoveBlock(content), '\n');
    CleanedPieces(content);
    TerminatedNoMarkers(pieces);
    UnmarkedPassThrough(LinesOf(pieces), []);
    assert LinesOf(pieces) + [] == LinesOf(pieces);
    LinesOfLineAt(pieces, i);
    assert LineAt(pieces, i) == LineAt(kept, i);
  }

  /** So for every list of one-line names, the empty one included, each line that the removal keeps is still there in its
      place and the same up to blanks at its end; only blank lines at the end of the file may come or go. */
  lemma UnmanagedLinesPreserved(content: string, hostnames: seq<string>, i: nat)
    requires OneLineEach(hostnames)
    ensures TrimEnd(LineAt(KeptLines(Sync(content, hostnames)), i))
            == TrimEnd(LineAt(KeptLines(content), i))
  {
    var kept := KeptLines(content);
    if hostnames != [] {
      UnmanagedLinesExactly(content, hostnames);
      TidiedLineAt(kept, i);
    } else {
      RemovedLineAt(content, i);
    }
  }

  /** A clean keeps every other line in its place up to blanks at its end, and does not touch a file without a block. */
  lemma CleanKeepsOtherLines(content: string, i: nat)
    ensures TrimEnd(LineAt(KeptLines(Clean(content)), i)) == TrimEnd(LineAt(KeptLines(content), i))
    ensures Managed(Lines(content), false).None? ==> Clean(content) == content
  {
    if Managed(Lines(content), false).Some? { RemovedLineAt(content, i); }
  }
}
