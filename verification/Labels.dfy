/** Turning an arbitrary project name into a hostname label. */
module Labels {
  import opened Text

  const MAX_LABEL := 63
  const HASH_DIGITS := 6

  predicate IsLabelChar(c: char) {
    'a' <= c <= 'z' || '0' <= c <= '9' || c == '-'
  }

  predicate IsAsciiAlphanumeric(c: char) {
    'a' <= c <= 'z' || 'A' <= c <= 'Z' || '0' <= c <= '9'
  }

  /** What is used of Unicode lower-casing: it leaves no ASCII capital, and it changes nothing in an ASCII text that
      has none. */
  ghost predicate LowersAscii(lower: string -> string) {
    && (forall s: string, c <- lower(s) :: !('A' <= c <= 'Z'))
    && (forall s: string | forall c <- s :: IsLabelChar(c) :: lower(s) == s)
  }

  // ---------------------------------------------------------------------------
  // The sanitizer
  // ---------------------------------------------------------------------------

  function Hyphenate(s: string): string {
    if s == "" then ""
    else [if IsAsciiAlphanumeric(s[0]) || s[0] == '-' then s[0] else '-'] + Hyphenate(s[1..])
  }

  function NonEmpty(parts: seq<string>): seq<string> {
    if parts == [] then []
    else if parts[0] == "" then NonEmpty(parts[1..])
    else [parts[0]] + NonEmpty(parts[1..])
  }

  function Collapse(s: string): string {
    Join(NonEmpty(Split(s, '-')), "-")
  }

  function HexDigit(n: nat): char
    requires n < 16
  {
    if n < 10 then n as char + '0' else (n - 10) as char + 'a'
  }

  /** The last `width` hexadecimal digits of `n`, with leading zeros. */
  function Hex(n: nat, width: nat): string {
    if width == 0 then "" else Hex(n / 16, width - 1) + [HexDigit(n % 16)]
  }

  function TrimEndHyphens(s: string): string {
    if s != "" && s[|s| - 1] == '-' then TrimEndHyphens(s[..|s| - 1]) else s
  }

  /** `hash` is the library's hash of the label; its low 24 bits are printed. */
  function TruncateLabel(text: string, hash: string -> nat): string {
    if |text| <= MAX_LABEL then text
    else TrimEndHyphens(text[..MAX_LABEL - 1 - HASH_DIGITS]) + "-" + Hex(hash(text) % 0x100_0000, HASH_DIGITS)
  }

  function SanitizeForHostname(name: string, lower: string -> string, hash: string -> nat): string {
    TruncateLabel(Collapse(Hyphenate(lower(name))), hash)
  }

  // ---------------------------------------------------------------------------
  // Labels
  // ---------------------------------------------------------------------------

  /** Letters, digits and single inner hyphens. */
  predicate HyphenClean(s: string) {
    && (forall c <- s :: IsLabelChar(c))
    && (s != "" ==> s[0] != '-' && s[|s| - 1] != '-')
    && (forall i | 0 <= i < |s| - 1 :: s[i] != '-' || s[i + 1] != '-')
  }

  /** A label as DNS allows it (section 2.3.4 of RFC 1035), without doubled hyphens. */
  predicate IsLabel(s: string) {
    HyphenClean(s) && |s| <= MAX_LABEL
  }

  lemma {:induction false} HyphenateShape(s: string)
    requires forall c <- s :: !('A' <= c <= 'Z')
    ensures |Hyphenate(s)| == |s| && forall c <- Hyphenate(s) :: IsLabelChar(c)
  {
    if s != "" {
      assert s[0] in s;
      assert forall c <- s[1..] :: c in s;
      HyphenateShape(s[1..]);
    }
  }

  lemma {:induction false} HyphenateSame(s: string)
    requires forall c <- s :: IsLabelChar(c)
    ensures Hyphenate(s) == s
  {
    if s != "" {
      assert s[0] in s;
      HyphenateSame(s[1..]);
    }
  }

  predicate Word(p: string) {
    p != "" && forall c <- p :: IsLabelChar(c) && c != '-'
  }

  lemma {:induction false} PartsAreWords(s: string)
    requires forall c <- s :: IsLabelChar(c)
    ensures forall p <- Split(s, '-'), c <- p :: IsLabelChar(c) && c != '-'
  {
    if s != "" {
      assert s[0] in s;
      PartsAreWords(s[1..]);
      var rest := Split(s[1..], '-');
      assert forall c <- rest[0] :: IsLabelChar(c) && c != '-' by { assert rest[0] in rest; }
      forall p, c | p in Split(s, '-') && c in p ensures IsLabelChar(c) && c != '-' {
        if p !in rest && p != "" {
          assert p == [s[0]] + rest[0];
        }
      }
    }
  }

  lemma {:induction false} NonEmptyWords(parts: seq<string>)
    requires forall p <- parts, c <- p :: IsLabelChar(c) && c != '-'
    ensures forall p <- NonEmpty(parts) :: Word(p)
  {
    if parts != [] {
      assert parts[0] in parts;
      NonEmptyWords(parts[1..]);
    }
  }

  lemma {:induction false} JoinOfWords(words: seq<string>)
    requires forall w <- words :: Word(w)
    ensures HyphenClean(Join(words, "-"))
    ensures words != [] ==> Join(words, "-") != ""
  {
    if |words| > 0 {
      assert Word(words[0]);
      if |words| > 1 {
        JoinOfWords(words[1..]);
        CleanJoin(words[0], Join(words[1..], "-"));
      } else {
        WordIsClean(words[0]);
      }
    }
  }

  lemma WordIsClean(w: string)
    requires Word(w)
    ensures HyphenClean(w)
  {
    assert w[0] in w && w[|w| - 1] in w;
    assert forall i | 0 <= i < |w| :: w[i] in w;
  }

  lemma CleanJoin(a: string, b: string)
    requires HyphenClean(a) || Word(a)
    requires a != "" && b != "" && HyphenClean(b)
    ensures HyphenClean(a + "-" + b)
  {
    if Word(a) { WordIsClean(a); }
    var s := a + "-" + b;
    forall i | 0 <= i < |s| - 1 ensures s[i] != '-' || s[i + 1] != '-' {
      if i + 1 == |a| {
        assert s[i] == a[|a| - 1];
      } else if i == |a| {
        assert s[i + 1] == b[0];
      } else if i > |a| {
        assert s[i] == b[i - |a| - 1] && s[i + 1] == b[i - |a|];
      }
    }
  }

  lemma CollapseIsClean(s: string)
    requires forall c <- s :: IsLabelChar(c)
    ensures HyphenClean(Collapse(s))
  {
    PartsAreWords(s);
    NonEmptyWords(Split(s, '-'));
    JoinOfWords(NonEmpty(Split(s, '-')));
  }

  lemma {:induction false} CleanSplits(s: string)
    requires HyphenClean(s) && s != ""
    ensures forall p <- Split(s, '-') :: p != ""
  {
    var tail := s[1..];
    if tail == "" {
      assert Split(tail, '-') == [""];
    } else {
      assert forall i | 0 <= i < |tail| :: tail[i] == s[i + 1];
      if tail[0] != '-' {
        assert HyphenClean(tail);
        CleanSplits(tail);
        SplitAfterLetter(s);
      } else {
        var next := tail[1..];
        assert forall i | 0 <= i < |next| :: next[i] == s[i + 2];
        assert next != "";
        assert HyphenClean(next);
        CleanSplits(next);
        assert Split(tail, '-') == [""] + Split(next, '-');
        assert Split(s, '-') == [[s[0]] + ""] + Split(next, '-');
      }
    }
  }

  lemma SplitAfterLetter(s: string)
    requires s != "" && s[0] != '-' && forall p <- Split(s[1..], '-') :: p != ""
    ensures forall p <- Split(s, '-') :: p != ""
  {
    var rest := Split(s[1..], '-');
    assert Split(s, '-') == [[s[0]] + rest[0]] + rest[1..];
    assert forall p <- rest[1..] :: p in rest;
  }

  lemma {:induction false} NonEmptySame(parts: seq<string>)
    requires forall p <- parts :: p != ""
    ensures NonEmpty(parts) == parts
  {
    if parts != [] {
      assert parts[0] in parts;
      assert forall p <- parts[1..] :: p in parts;
      NonEmptySame(parts[1..]);
    }
  }

  lemma CollapseSame(s: string)
    requires HyphenClean(s)
    ensures Collapse(s) == s
  {
    if s == "" {
      assert NonEmpty([""]) == [];
    } else {
      CleanSplits(s);
      NonEmptySame(Split(s, '-'));
      JoinOfSplit(s, '-');
    }
  }

  lemma {:induction false} HexShape(n: nat, width: nat)
    ensures |Hex(n, width)| == width && forall c <- Hex(n, width) :: IsLabelChar(c) && c != '-'
  {
    if width > 0 { HexShape(n / 16, width - 1); }
  }

  /** The number that lower-case hexadecimal digits say. */
  function HexValue(s: string): nat {
    if s == "" then 0
    else
      var c := s[|s| - 1];
      16 * HexValue(s[..|s| - 1])
      + if '0' <= c <= '9' then c as int - '0' as int else if 'a' <= c <= 'f' then c as int - 'a' as int + 10 else 0
  }

  function PowerOf16(width: nat): nat {
    if width == 0 then 1 else 16 * PowerOf16(width - 1)
  }

  lemma {:induction false} HexIsRead(n: nat, width: nat)
    requires n < PowerOf16(width)
    ensures HexValue(Hex(n, width)) == n
  {
    if width > 0 {
      HexIsRead(n / 16, width - 1);
      var digits := Hex(n, width);
      assert digits[..|digits| - 1] == Hex(n / 16, width - 1);
    }
  }

  predicate IsHexDigit(c: char) {
    '0' <= c <= '9' || 'a' <= c <= 'f'
  }

  lemma {:induction false} HexAlphabet(n: nat, width: nat)
    ensures forall c <- Hex(n, width) :: IsHexDigit(c)
  {
    if width > 0 { HexAlphabet(n / 16, width - 1); }
  }

  lemma HashDigits(n: nat)
    ensures var digits := Hex(n % 0x100_0000, HASH_DIGITS);
            |digits| == 6 && (forall c <- digits :: IsHexDigit(c)) && HexValue(digits) == n % 0x100_0000
  {
    assert PowerOf16(3) == 4096 by { assert PowerOf16(1) == 16 && PowerOf16(2) == 256; }
    assert PowerOf16(6) == 0x100_0000 by { assert PowerOf16(4) == 65536 && PowerOf16(5) == 1048576; }
    HexIsRead(n % 0x100_0000, HASH_DIGITS);
    HexAlphabet(n % 0x100_0000, HASH_DIGITS);
    HexShape(n % 0x100_0000, HASH_DIGITS);
  }

  lemma {:induction false} TrimEndHyphensShape(s: string)
    ensures TrimEndHyphens(s) <= s
    ensures TrimEndHyphens(s) != "" ==> TrimEndHyphens(s)[|TrimEndHyphens(s)| - 1] != '-'
    ensures s != "" && s[0] != '-' ==> TrimEndHyphens(s) != ""
  {
    if s != "" && s[|s| - 1] == '-' { TrimEndHyphensShape(s[..|s| - 1]); }
  }

  lemma TruncateIsLabel(s: string, hash: string -> nat)
    requires HyphenClean(s)
    ensures IsLabel(TruncateLabel(s, hash))
    ensures s != "" ==> TruncateLabel(s, hash) != ""
  {
    if |s| > MAX_LABEL {
      var cut := s[..MAX_LABEL - 1 - HASH_DIGITS];
      var front := TrimEndHyphens(cut);
      var tail := Hex(hash(s) % 0x100_0000, HASH_DIGITS);
      TrimEndHyphensShape(cut);
      HexShape(hash(s) % 0x100_0000, HASH_DIGITS);
      assert cut[0] == s[0];
      assert HyphenClean(front) by {
        assert forall i | 0 <= i < |front| :: front[i] == s[i];
      }
      WordIsClean(tail);
      CleanJoin(front, tail);
    }
  }

  /** Whatever the name, the result is a label, or empty. */
  lemma SanitizedIsLabel(name: string, lower: string -> string, hash: string -> nat)
    requires LowersAscii(lower)
    ensures IsLabel(SanitizeForHostname(name, lower, hash))
  {
    HyphenateShape(lower(name));
    CollapseIsClean(Hyphenate(lower(name)));
    TruncateIsLabel(Collapse(Hyphenate(lower(name))), hash);
  }

  /** A text is left alone exactly when it is a label or empty; so sanitizing twice is sanitizing once, also for names
      long enough to be cut and hashed. */
  lemma SanitizeFixesExactlyLabels(s: string, lower: string -> string, hash: string -> nat)
    requires LowersAscii(lower)
    ensures SanitizeForHostname(s, lower, hash) == s <==> IsLabel(s)
  {
    SanitizedIsLabel(s, lower, hash);
    if IsLabel(s) {
      HyphenateSame(s);
      CollapseSame(s);
    }
  }

  lemma SanitizeIsIdempotent(name: string, lower: string -> string, hash: string -> nat)
    requires LowersAscii(lower)
    ensures SanitizeForHostname(SanitizeForHostname(name, lower, hash), lower, hash)
            == SanitizeForHostname(name, lower, hash)
  {
    SanitizedIsLabel(name, lower, hash);
    SanitizeFixesExactlyLabels(SanitizeForHostname(name, lower, hash), lower, hash);
  }

  // ---------------------------------------------------------------------------
  // What is kept of a name
  // ---------------------------------------------------------------------------

  function FirstRun(s: string): string {
    if s == "" || !IsAsciiAlphanumeric(s[0]) then "" else [s[0]] + FirstRun(s[1..])
  }

  lemma {:induction false} FirstRunFits(s: string)
    ensures |FirstRun(s)| <= |s|
    ensures s != "" && IsAsciiAlphanumeric(s[0]) ==> FirstRun(s) != ""
  {
    if s != "" { FirstRunFits(s[1..]); }
  }

  /** The maximal runs of ASCII letters and digits. */
  function Runs(s: string): seq<string>
    decreases |s|
  {
    if s == "" then []
    else if !IsAsciiAlphanumeric(s[0]) then Runs(s[1..])
    else
      FirstRunFits(s);
      [FirstRun(s)] + Runs(s[|FirstRun(s)|..])
  }

  lemma {:induction false} FirstPieceIsRun(s: string)
    ensures Split(Hyphenate(s), '-')[0] == FirstRun(s)
  {
    if s != "" {
      var h := Hyphenate(s);
      assert h[1..] == Hyphenate(s[1..]);
      FirstPieceIsRun(s[1..]);
    }
  }

  lemma {:induction false} PiecesAreRuns(s: string)
    ensures NonEmpty(Split(Hyphenate(s), '-')) == Runs(s)
  {
    if s == "" {
      assert NonEmpty([""]) == NonEmpty([]);
    } else {
      var h := Hyphenate(s);
      var rest := Split(Hyphenate(s[1..]), '-');
      assert h[1..] == Hyphenate(s[1..]);
      PiecesAreRuns(s[1..]);
      FirstPieceIsRun(s[1..]);
      if !IsAsciiAlphanumeric(s[0]) {
        assert ([""] + rest)[1..] == rest;
      } else {
        RunsStep(s, rest);
        assert Split(h, '-') == [[s[0]] + rest[0]] + rest[1..];
        assert ([[s[0]] + rest[0]] + rest[1..])[1..] == rest[1..];
      }
    }
  }

  lemma RunsStep(s: string, rest: seq<string>)
    requires s != "" && IsAsciiAlphanumeric(s[0]) && rest != []
    requires NonEmpty(rest) == Runs(s[1..]) && rest[0] == FirstRun(s[1..])
    ensures Runs(s) == [[s[0]] + rest[0]] + NonEmpty(rest[1..])
  {
    var tail := s[1..];
    FirstRunFits(tail);
    assert s[|FirstRun(s)|..] == tail[|FirstRun(tail)|..];
    if tail != "" && IsAsciiAlphanumeric(tail[0]) {
      assert Runs(tail) == [rest[0]] + NonEmpty(rest[1..]);
      assert Runs(tail)[1..] == NonEmpty(rest[1..]);
      assert Runs(tail)[1..] == Runs(tail[|FirstRun(tail)|..]);
    } else {
      assert tail[0..] == tail;
    }
  }

  /** The label spells the letter and digit runs of the lower-cased name, joined by hyphens; if that is too long, its
      beginning followed by six hexadecimal digits that say the low 24 bits of the hash of the whole. */
  lemma SanitizedSpellsRuns(name: string, lower: string -> string, hash: string -> nat)
    ensures var full := Join(Runs(lower(name)), "-");
            var spelled := SanitizeForHostname(name, lower, hash);
            && (|full| <= MAX_LABEL ==> spelled == full)
            && (|full| > MAX_LABEL ==>
                  exists front, digits ::
                    && front <= full[..56] && (forall c <- full[|front|..56] :: c == '-')
                    && spelled == front + "-" + digits
                    && |digits| == 6 && (forall c <- digits :: IsHexDigit(c))
                    && HexValue(digits) == hash(full) % 0x100_0000)
  {
    PiecesAreRuns(lower(name));
    var full := Join(Runs(lower(name)), "-");
    if |full| > MAX_LABEL {
      TrimEndHyphensShape(full[..56]);
      TrimEndHyphensDrops(full[..56]);
      var front := TrimEndHyphens(full[..56]);
      assert full[|front|..56] == full[..56][|front|..];
      HashDigits(hash(full));
      var digits := Hex(hash(full) % 0x100_0000, 6);
      assert SanitizeForHostname(name, lower, hash) == front + "-" + digits;
    }
  }

  lemma {:induction false} TrimEndHyphensDrops(s: string)
    ensures TrimEndHyphens(s) <= s && forall c <- s[|TrimEndHyphens(s)|..] :: c == '-'
  {
    if s != "" && s[|s| - 1] == '-' {
      var front := s[..|s| - 1];
      TrimEndHyphensDrops(front);
      assert s[|TrimEndHyphens(s)|..] == front[|TrimEndHyphens(s)|..] + "-";
    }
  }
}
