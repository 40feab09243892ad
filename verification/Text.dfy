/** Optional values, fallible results and the string operations the other modules share. */
module Text {

  datatype Option<+T> = None | Some(value: T)

  datatype Result<+T, +E> = Ok(value: T) | Err(error: E)

  predicate EndsWith(s: string, suffix: string) {
    |suffix| <= |s| && s[|s| - |suffix|..] == suffix
  }

  /** `suffix` removed from the end of `s`, if it is there. */
  function StripSuffix(s: string, suffix: string): Option<string> {
    if EndsWith(s, suffix) then Some(s[..|s| - |suffix|]) else None
  }

  predicate OccursAt(s: string, part: string, i: nat) {
    i + |part| <= |s| && s[i..i + |part|] == part
  }

  predicate Contains(s: string, part: string) {
    exists i | 0 <= i <= |s| :: OccursAt(s, part, i)
  }

  /** The bytes `c` takes in UTF-8. */
  function Utf8Width(c: char): (n: nat)
    ensures 1 <= n <= 4
  {
    if c as int < 0x80 then 1 else if c as int < 0x800 then 2 else if c as int < 0x1_0000 then 3 else 4
  }

  /** The length of a string as the source measures it, in bytes. */
  function Utf8Len(s: string): nat {
    if s == "" then 0 else Utf8Width(s[0]) + Utf8Len(s[1..])
  }

  lemma {:induction false} Utf8LenConcat(a: string, b: string)
    ensures Utf8Len(a + b) == Utf8Len(a) + Utf8Len(b)
    ensures |b| <= Utf8Len(b)
  {
    if a == "" {
      assert a + b == b;
      if b != "" { Utf8LenConcat("", b[1..]); assert "" + b[1..] == b[1..]; }
    } else {
      assert (a + b)[1..] == a[1..] + b;
      Utf8LenConcat(a[1..], b);
    }
  }

  /** The pieces of `s` between occurrences of `c`; always at least one. */
  function Split(s: string, c: char): (parts: seq<string>)
    ensures |parts| >= 1
  {
    if s == "" then [""]
    else
      var rest := Split(s[1..], c);
      if s[0] == c then [""] + rest else [[s[0]] + rest[0]] + rest[1..]
  }

  function Join(parts: seq<string>, sep: string): string {
    if |parts| == 0 then ""
    else if |parts| == 1 then parts[0]
    else parts[0] + sep + Join(parts[1..], sep)
  }

  lemma {:induction false} JoinOfSplit(s: string, c: char)
    ensures Join(Split(s, c), [c]) == s
    ensures forall p <- Split(s, c) :: c !in p
  {
    if s != "" {
      JoinOfSplit(s[1..], c);
      var rest := Split(s[1..], c);
      if s[0] == c {
        assert ([""] + rest)[1..] == rest;
      } else if |rest| > 1 {
        assert Split(s, c)[1..] == rest[1..];
      }
    }
  }

  lemma {:induction false} SplitNoSeparator(s: string, c: char)
    requires c !in s
    ensures Split(s, c) == [s]
  {
    if s != "" {
      SplitNoSeparator(s[1..], c);
      assert [s[0]] + s[1..] == s;
    }
  }

  lemma {:induction false} SplitConcat(a: string, c: char, b: string)
    ensures Split(a + [c] + b, c) == Split(a, c) + Split(b, c)
  {
    if a == "" {
      assert (a + [c] + b)[1..] == b;
    } else {
      assert (a + [c] + b)[1..] == a[1..] + [c] + b;
      SplitConcat(a[1..], c, b);
    }
  }

  lemma {:induction false} SplitOfJoin(parts: seq<string>, c: char)
    requires |parts| >= 1
    requires forall p <- parts :: c !in p
    ensures Split(Join(parts, [c]), c) == parts
  {
    SplitNoSeparator(parts[0], c);
    if |parts| > 1 {
      SplitConcat(parts[0], c, Join(parts[1..], [c]));
      SplitOfJoin(parts[1..], c);
    }
  }

  /** A number in decimal. */
  function Digits(n: nat): string {
    if n < 10 then [n as char + '0'] else Digits(n / 10) + [(n % 10) as char + '0']
  }

  lemma {:induction false} DigitsAreDigits(n: nat)
    ensures Digits(n) != "" && forall c <- Digits(n) :: '0' <= c <= '9'
  {
    if n >= 10 { DigitsAreDigits(n / 10); }
  }

  /** What a string of digits says; nothing if there is anything else in it. */
  function DigitsValue(s: string): Option<nat> {
    if s == "" then Some(0)
    else
      match DigitsValue(s[..|s| - 1])
      case None => None
      case Some(n) =>
        var c := s[|s| - 1];
        if '0' <= c <= '9' then Some(10 * n + (c as int - '0' as int)) else None
  }

  lemma {:induction false} DigitsValueOf(n: nat)
    ensures DigitsValue(Digits(n)) == Some(n)
  {
    if n < 10 {
      assert Digits(n)[..0] == "";
    } else {
      DigitsValueOf(n / 10);
      assert Digits(n)[..|Digits(n)| - 1] == Digits(n / 10);
    }
  }

  lemma {:induction false} DigitsValueExactly(s: string)
    ensures DigitsValue(s).Some? <==> forall c <- s :: '0' <= c <= '9'
  {
    if s != "" {
      var front := s[..|s| - 1];
      var last := s[|s| - 1];
      assert s == front + [last];
      assert last in s && forall c <- front :: c in s;
      assert forall c <- s :: c in front || c == last;
      DigitsValueExactly(front);
      assert DigitsValue(s).Some? <==> DigitsValue(front).Some? && '0' <= last <= '9';
    }
  }

  /** The Unicode White_Space property. */
  predicate IsWhitespace(c: char) {
    var n := c as int;
    || 0x09 <= n <= 0x0D || n == 0x20 || n == 0x85 || n == 0xA0 || n == 0x1680 || 0x2000 <= n <= 0x200A
    || n == 0x2028 || n == 0x2029 || n == 0x202F || n == 0x205F || n == 0x3000
  }

  function TrimStart(s: string): string {
    if s != "" && IsWhitespace(s[0]) then TrimStart(s[1..]) else s
  }

  function TrimEnd(s: string): string {
    if s != "" && IsWhitespace(s[|s| - 1]) then TrimEnd(s[..|s| - 1]) else s
  }

  function Trim(s: string): string {
    TrimEnd(TrimStart(s))
  }

  predicate Blank(s: string) {
    forall c <- s :: IsWhitespace(c)
  }

  lemma {:induction false} TrimStartIsSuffix(s: string)
    ensures forall c <- TrimStart(s) :: c in s
  {
    if s != "" { TrimStartIsSuffix(s[1..]); }
  }

  lemma {:induction false} TrimEndSplits(s: string) returns (w: string)
    ensures s == TrimEnd(s) + w && Blank(w)
    ensures TrimEnd(s) != "" ==> !IsWhitespace(TrimEnd(s)[|TrimEnd(s)| - 1])
  {
    if s != "" && IsWhitespace(s[|s| - 1]) {
      var front := s[..|s| - 1];
      var v := TrimEndSplits(front);
      w := v + [s[|s| - 1]];
      assert s == front + [s[|s| - 1]];
    } else {
      w := "";
    }
  }

  lemma TrimCharacters(s: string)
    ensures forall c <- Trim(s) :: c in s
  {
    TrimStartIsSuffix(s);
    var w := TrimEndSplits(TrimStart(s));
  }

  lemma {:induction false} TrimEndAppend(s: string, w: string)
    requires Blank(w)
    ensures TrimEnd(s + w) == TrimEnd(s)
    decreases |w|
  {
    if w == "" {
      assert s + w == s;
    } else {
      assert (s + w)[..|s + w| - 1] == s + w[..|w| - 1];
      assert w[|w| - 1] in w;
      TrimEndAppend(s, w[..|w| - 1]);
    }
  }

  lemma TrimEndOfBlank(w: string)
    requires Blank(w)
    ensures TrimEnd(w) == ""
  {
    TrimEndAppend("", w);
    assert "" + w == w;
  }

  lemma {:induction false} TrimAppend(s: string, w: string)
    requires Blank(w)
    ensures Trim(s + w) == Trim(s)
  {
    if s == "" {
      assert s + w == w;
      TrimStartBlank(w);
    } else {
      assert (s + w)[1..] == s[1..] + w;
      if IsWhitespace(s[0]) {
        TrimAppend(s[1..], w);
      } else {
        TrimEndAppend(s, w);
      }
    }
  }

  lemma {:induction false} TrimStartBlank(w: string)
    requires Blank(w)
    ensures TrimStart(w) == ""
  {
    if w != "" {
      assert w[0] in w;
      TrimStartBlank(w[1..]);
    }
  }

  predicate NoBlankEnds(s: string) {
    s != "" ==> !IsWhitespace(s[0]) && !IsWhitespace(s[|s| - 1])
  }

  lemma {:induction false} TrimStartPadded(a: string, core: string)
    requires Blank(a) && core != "" && !IsWhitespace(core[0])
    ensures TrimStart(a + core) == core
  {
    if a == "" {
      assert a + core == core;
    } else {
      assert a[0] in a && (a + core)[1..] == a[1..] + core;
      TrimStartPadded(a[1..], core);
    }
  }

  /** Trimming takes off the blanks around a text and nothing else. */
  lemma TrimOfPadded(a: string, core: string, b: string)
    requires Blank(a) && Blank(b) && NoBlankEnds(core)
    ensures Trim(a + core + b) == core
  {
    TrimAppend(a + core, b);
    if core == "" {
      assert a + core == a;
      TrimStartBlank(a);
    } else {
      TrimStartPadded(a, core);
    }
  }
}
