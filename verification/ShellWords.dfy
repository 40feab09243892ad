/** Quoting an argument list for `sh -c`, against the shell's own rules for reading it back. */
module ShellWords {
  import opened Text

  // ---------------------------------------------------------------------------
  // The printer
  // ---------------------------------------------------------------------------

  predicate IsLetter(c: char) {
    'a' <= c <= 'z' || 'A' <= c <= 'Z'
  }

  predicate IsDigit(c: char) {
    '0' <= c <= '9'
  }

  predicate IsPlain(c: char) {
    IsLetter(c) || IsDigit(c) || c in "_-./:=,"
  }

  /** Every apostrophe becomes: close the quotes, an escaped apostrophe, reopen. */
  function EscapeApostrophes(arg: string): string {
    if arg == "" then ""
    else (if arg[0] == '\'' then "'\\''" else [arg[0]]) + EscapeApostrophes(arg[1..])
  }

  function ShellQuote(arg: string): string {
    if arg == "" then "''"
    else if forall c <- arg :: IsPlain(c) then arg
    else "'" + EscapeApostrophes(arg) + "'"
  }

  function QuoteAll(args: seq<string>): seq<string> {
    if args == [] then [] else [ShellQuote(args[0])] + QuoteAll(args[1..])
  }

  function ShellCommandLine(args: seq<string>): string {
    if |args| == 1 then args[0] else Join(QuoteAll(args), " ")
  }

  // ---------------------------------------------------------------------------
  // The reader: POSIX.1-2017 Shell Command Language, sections 2.2.1, 2.2.2 and 2.3
  // ---------------------------------------------------------------------------

  /** A word after quote removal, and whether any part of it was quoted. */
  datatype Word = Word(text: string, quoted: bool)

  datatype Mode = Unquoted | Escaped | InSingleQuotes

  /** `current` is the word being collected. `special` is set once an unquoted character is seen that could make the
      shell do anything else than collect words. */
  datatype Reader = Reader(words: seq<Word>, current: Option<Word>, mode: Mode, special: bool)

  /** The characters of section 2.2 that have a meaning when they are not quoted, apart from those handled below, and
      the characters that may have one. */
  predicate IsSpecial(c: char) {
    c in "|&;<>()$`\"*?[#~%!{}\n"
  }

  function Extend(current: Option<Word>, text: string, quoted: bool): Word {
    match current
    case None => Word(text, quoted)
    case Some(w) => Word(w.text + text, w.quoted || quoted)
  }

  function ReadChar(r: Reader, c: char): Reader {
    match r.mode
    case Escaped => r.(current := Some(Extend(r.current, [c], true)), mode := Unquoted)
    case InSingleQuotes =>
      if c == '\'' then r.(mode := Unquoted) else r.(current := Some(Extend(r.current, [c], true)))
    case Unquoted =>
      if c == ' ' || c == '\t' then
        (if r.current.Some? then r.(words := r.words + [r.current.value], current := None) else r)
      else if c == '\'' then r.(current := Some(Extend(r.current, "", true)), mode := InSingleQuotes)
      else if c == '\\' then r.(mode := Escaped)
      else if IsSpecial(c) then r.(special := true, current := Some(Extend(r.current, [c], false)))
      else r.(current := Some(Extend(r.current, [c], false)))
  }

  function Read(r: Reader, s: string): Reader
    decreases |s|
  {
    if s == "" then r else Read(ReadChar(r, s[0]), s[1..])
  }

  /** The words of a command line, or nothing if it is incomplete or holds an unquoted special character. */
  function Tokenize(line: string): Option<seq<Word>> {
    var r := Read(Reader([], None, Unquoted, false), line);
    if r.mode != Unquoted || r.special then None
    else Some(r.words + if r.current.Some? then [r.current.value] else [])
  }

  // ---------------------------------------------------------------------------
  // Round trip
  // ---------------------------------------------------------------------------

  lemma {:induction false} ReadConcat(r: Reader, a: string, b: string)
    ensures Read(r, a + b) == Read(Read(r, a), b)
    decreases |a|
  {
    if a == "" {
      assert a + b == b;
    } else {
      assert (a + b)[1..] == a[1..] + b;
      ReadConcat(ReadChar(r, a[0]), a[1..], b);
    }
  }

  lemma ReadPlainChar(r: Reader, c: char)
    requires r.mode.Unquoted? && IsPlain(c)
    ensures ReadChar(r, c) == r.(current := Some(Extend(r.current, [c], false)))
  {
    assert c in "_-./:=," ==> c == '_' || c == '-' || c == '.' || c == '/' || c == ':' || c == '=' || c == ',';
  }

  lemma {:induction false} ReadPlain(r: Reader, arg: string)
    requires r.mode.Unquoted? && arg != "" && (forall c <- arg :: IsPlain(c))
    ensures Read(r, arg) == r.(current := Some(Extend(r.current, arg, false)))
    decreases |arg|
  {
    ReadPlainChar(r, arg[0]);
    assert [arg[0]] + arg[1..] == arg;
    if arg[1..] != "" {
      var next := r.(current := Some(Extend(r.current, [arg[0]], false)));
      ReadPlain(next, arg[1..]);
      ExtendTwice(r.current, [arg[0]], arg[1..]);
    } else {
      assert arg == [arg[0]];
    }
  }

  lemma ExtendTwice(current: Option<Word>, a: string, b: string)
    ensures Extend(Some(Extend(current, a, false)), b, false) == Extend(current, a + b, false)
  {
    if current.Some? {
      assert current.value.text + a + b == current.value.text + (a + b);
    }
  }

  lemma ReadReopening(r: Reader, w: Word)
    requires r.mode.InSingleQuotes? && r.current == Some(w) && w.quoted
    ensures Read(r, "'\\''") == r.(current := Some(Word(w.text + "'", true)))
  {
    var r1 := r.(mode := Unquoted);
    var r2 := r.(mode := Escaped);
    var r3 := r.(current := Some(Word(w.text + "'", true)), mode := Unquoted);
    var r4 := r3.(mode := InSingleQuotes);
    assert w.text + "'" + "" == w.text + "'";
    assert ReadChar(r, '\'') == r1 && ReadChar(r1, '\\') == r2 && ReadChar(r2, '\'') == r3 && ReadChar(r3, '\'') == r4;
    ReadOne(r3, '\'', "");
    ReadOne(r2, '\'', "'");
    ReadOne(r1, '\\', "''");
    ReadOne(r, '\'', "\\''");
  }

  lemma ReadOne(r: Reader, c: char, rest: string)
    ensures Read(r, [c] + rest) == Read(ReadChar(r, c), rest)
  {
    assert ([c] + rest)[1..] == rest;
  }

  lemma {:induction false} ReadEscaped(r: Reader, w: Word, arg: string)
    requires r.mode.InSingleQuotes? && r.current == Some(w) && w.quoted
    ensures Read(r, EscapeApostrophes(arg)) == r.(current := Some(Word(w.text + arg, true)))
    decreases |arg|
  {
    if arg == "" {
      assert w.text + arg == w.text;
    } else {
      var piece := if arg[0] == '\'' then "'\\''" else [arg[0]];
      var w' := Word(w.text + [arg[0]], true);
      if arg[0] == '\'' {
        ReadReopening(r, w);
      } else {
        assert piece[1..] == "";
      }
      assert Read(r, piece) == r.(current := Some(w'));
      ReadConcat(r, piece, EscapeApostrophes(arg[1..]));
      ReadEscaped(r.(current := Some(w')), w', arg[1..]);
      assert w'.text + arg[1..] == w.text + arg;
    }
  }

  /** Which arguments are printed as they are. */
  predicate PrintedBare(arg: string) {
    arg != "" && forall c <- arg :: IsPlain(c)
  }

  lemma ReadQuoted(r: Reader, arg: string)
    requires r.mode.Unquoted? && r.current.None?
    ensures Read(r, ShellQuote(arg)) == r.(current := Some(Word(arg, !PrintedBare(arg))))
  {
    if PrintedBare(arg) {
      ReadPlain(r, arg);
    } else {
      var body := EscapeApostrophes(arg);
      assert ShellQuote(arg) == "'" + body + "'";
      var inside := r.(current := Some(Word("", true)), mode := InSingleQuotes);
      assert ("'" + body + "'")[1..] == body + "'";
      ReadConcat(inside, body, "'");
      ReadEscaped(inside, Word("", true), arg);
      assert "" + arg == arg;
      assert "'"[1..] == "";
    }
  }

  function WordsOf(args: seq<string>): seq<Word> {
    if args == [] then [] else [Word(args[0], !PrintedBare(args[0]))] + WordsOf(args[1..])
  }

  lemma ReadBlankAfterWord(r: Reader, w: Word, rest: string)
    requires r.mode.Unquoted? && r.current == Some(w)
    ensures Read(r, " " + rest) == Read(r.(words := r.words + [w], current := None), rest)
  {
    ReadOne(r, ' ', rest);
  }

  lemma JoinQuoted(args: seq<string>)
    requires |args| > 1
    ensures Join(QuoteAll(args), " ") == ShellQuote(args[0]) + (" " + Join(QuoteAll(args[1..]), " "))
  {
    assert QuoteAll(args)[1..] == QuoteAll(args[1..]) && QuoteAll(args[1..]) != [];
  }

  lemma {:induction false} ReadJoined(r: Reader, args: seq<string>)
    requires args != [] && r.mode.Unquoted? && r.current.None?
    ensures var r' := Read(r, Join(QuoteAll(args), " "));
            && r'.mode.Unquoted? && r'.special == r.special && r'.current.Some?
            && r'.words + [r'.current.value] == r.words + WordsOf(args)
    decreases |args|
  {
    var w := Word(args[0], !PrintedBare(args[0]));
    ReadQuoted(r, args[0]);
    assert WordsOf(args) == [w] + WordsOf(args[1..]);
    if |args| == 1 {
      assert args[1..] == [];
      assert Join(QuoteAll(args), " ") == ShellQuote(args[0]);
    } else {
      var rest := Join(QuoteAll(args[1..]), " ");
      var read := r.(current := Some(w));
      var next := r.(words := r.words + [w]);
      JoinQuoted(args);
      ReadConcat(r, ShellQuote(args[0]), " " + rest);
      ReadBlankAfterWord(read, w, rest);
      assert read.(words := read.words + [w], current := None) == next;
      ReadJoined(next, args[1..]);
      assert r.words + [w] + WordsOf(args[1..]) == r.words + ([w] + WordsOf(args[1..]));
    }
  }

  lemma {:induction false} WordsOfTexts(args: seq<string>)
    ensures |WordsOf(args)| == |args|
    ensures forall i | 0 <= i < |args| :: WordsOf(args)[i] == Word(args[i], !PrintedBare(args[i]))
  {
    if args != [] { WordsOfTexts(args[1..]); }
  }

  /** The shell reads the line back as exactly the given arguments, whatever characters they hold, and sees nothing
      else in it. A list of one argument is a whole command line and is passed on as it is. */
  lemma ShellReadsBackArguments(args: seq<string>)
    requires |args| != 1
    ensures var words := Tokenize(ShellCommandLine(args));
            && words.Some? && |words.value| == |args|
            && forall i | 0 <= i < |args| :: words.value[i] == Word(args[i], !PrintedBare(args[i]))
  {
    if args != [] {
      ReadJoined(Reader([], None, Unquoted, false), args);
      assert [] + WordsOf(args) == WordsOf(args);
    }
    WordsOfTexts(args);
  }

  // ---------------------------------------------------------------------------
  // The command word
  // ---------------------------------------------------------------------------

  /** The reserved words of section 2.4 that can be printed bare. */
  const RESERVED: set<string> := {
    "case", "do", "done", "elif", "else", "esac", "fi", "for", "if", "in", "then", "until", "while"}

  /** Those that the section leaves to the implementation. */
  const MAYBE_RESERVED: set<string> := {"function", "select"}

  predicate IsName(s: string) {
    && s != "" && !IsDigit(s[0])
    && forall c <- s :: IsLetter(c) || IsDigit(c) || c == '_'
  }

  /** The section also reserves every name followed by a colon, without saying for what. */
  predicate IsNameColon(text: string) {
    text != "" && text[|text| - 1] == ':' && IsName(text[..|text| - 1])
  }

  /** Section 2.10.2, rule 7: an unquoted '=' after a valid name. */
  predicate IsAssignment(text: string) {
    exists i | 0 < i < |text| :: text[i] == '=' && IsName(text[..i])
  }

  /** The same rule leaves open what a word is in which something else stands in front of the first '='. */
  predicate IsUnnamedAssignment(text: string) {
    '=' in text && text[0] != '=' && !IsAssignment(text)
  }

  /** What is run: the first word as a command; a piece of syntax (a reserved word or an assignment); something the
      standard does not determine; or nothing, because `sh -c` takes the whole line for options of its own. */
  datatype CommandWord = Command | Syntax | Unspecified | Options

  /** What the shell takes the first word of a line for. Quoting any part of it makes it a command. */
  function TakenFor(first: Word): CommandWord {
    if first.quoted then Command
    else if first.text in RESERVED || IsAssignment(first.text) then Syntax
    else if first.text in MAYBE_RESERVED || IsNameColon(first.text) || IsUnnamedAssignment(first.text) then Unspecified
    else Command
  }

  /** The line is handed over as the operand after `-c`. One that starts with a hyphen is read as more options, as the
      utility syntax guidelines of the Base Definitions, section 12.2, have it. */
  predicate TakenForOptions(line: string) {
    "-" <= line
  }

  function FirstTakenFor(args: seq<string>): Option<CommandWord> {
    if TakenForOptions(ShellCommandLine(args)) then Some(Options)
    else
      match Tokenize(ShellCommandLine(args))
      case None => None
      case Some(words) => if words == [] then None else Some(TakenFor(words[0]))
  }

  /** A line that is put together begins with a hyphen exactly if its first argument does and is printed bare. */
  lemma OptionsExactly(args: seq<string>)
    requires |args| > 1
    ensures TakenForOptions(ShellCommandLine(args)) <==> PrintedBare(args[0]) && "-" <= args[0]
  {
    JoinQuoted(args);
    var quoted := ShellQuote(args[0]);
    assert quoted != "";
    assert ShellCommandLine(args)[0] == quoted[0];
    assert !PrintedBare(args[0]) ==> quoted[0] == '\'';
  }

  /** The words the standard leaves open. */
  predicate LeftOpen(text: string) {
    text in MAYBE_RESERVED || IsNameColon(text) || IsUnnamedAssignment(text)
  }

  /** Hyphens, letters, digits, colons and equals signs are never quoted. So for each argument printed bare there are
      four ways to go, by its text alone; a quoted one is always the command. */
  lemma FirstArgumentIsRunExactly(args: seq<string>)
    requires |args| > 1
    ensures FirstTakenFor(args).Some?
    ensures FirstTakenFor(args) == Some(Options) <==> PrintedBare(args[0]) && "-" <= args[0]
    ensures FirstTakenFor(args) == Some(Syntax) <==>
            PrintedBare(args[0]) && (args[0] in RESERVED || IsAssignment(args[0]))
    ensures FirstTakenFor(args) == Some(Unspecified) <==>
            PrintedBare(args[0]) && !("-" <= args[0]) && LeftOpen(args[0])
    ensures FirstTakenFor(args) == Some(Command) <==>
            !(PrintedBare(args[0])
              && ("-" <= args[0] || args[0] in RESERVED || IsAssignment(args[0]) || LeftOpen(args[0])))
  {
    OptionsExactly(args);
    ClassesDisjoint(args[0]);
    if !TakenForOptions(ShellCommandLine(args)) {
      ShellReadsBackArguments(args);
    }
  }

  lemma ClassesDisjoint(text: string)
    ensures text in RESERVED || IsAssignment(text) ==> !LeftOpen(text) && !("-" <= text)
  {
    if IsNameColon(text) {
      ColonIsNoOther(text);
    }
    if IsAssignment(text) {
      AssignmentHasEquals(text);
    }
    if text in RESERVED {
      ReservedIsLetters(text);
    }
  }

  lemma ColonIsNoOther(text: string)
    requires IsNameColon(text)
    ensures text !in RESERVED && !IsAssignment(text)
  {
    var name := text[..|text| - 1];
    assert forall i | 0 <= i < |name| :: text[i] == name[i] && name[i] in name;
  }

  lemma AssignmentHasEquals(text: string)
    requires IsAssignment(text)
    ensures '=' in text && !("-" <= text)
  {
    var i :| 0 < i < |text| && text[i] == '=' && IsName(text[..i]);
    assert text[..i][0] == text[0] && text[..i][0] in text[..i];
  }

  lemma ReservedIsLetters(text: string)
    requires text in RESERVED
    ensures '=' !in text && !("-" <= text) && text !in MAYBE_RESERVED
  {
    assert text[0] in "cdefituw" && |text| <= 5;
    assert |"function"| == 8 && |"select"| == 6;
  }

  lemma BareFirst(first: string, arg: string)
    requires PrintedBare(first) && !("-" <= first)
    ensures FirstTakenFor([first, arg]) == Some(TakenFor(Word(first, false)))
  {
    OptionsExactly([first, arg]);
    ShellReadsBackArguments([first, arg]);
  }

  /** Such as `A=b cmd`. */
  lemma AssignmentIsNotRun(assignment: string, arg: string)
    requires assignment == "A=b"
    ensures FirstTakenFor([assignment, arg]) == Some(Syntax)
  {
    assert assignment[..1] == "A" && assignment[1] == '=' && IsName(assignment[..1]);
    BareFirst(assignment, arg);
  }

  /** Such as `build: cmd`. */
  lemma NameColonIsUnspecified(nameColon: string, arg: string)
    requires nameColon == "build:"
    ensures FirstTakenFor([nameColon, arg]) == Some(Unspecified)
  {
    assert nameColon[..5] == "build" && IsName(nameColon[..5]);
    ColonIsNoOther(nameColon);
    BareFirst(nameColon, arg);
  }

  /** Such as `a-b=c cmd`. */
  lemma UnnamedAssignmentIsUnspecified(word: string, arg: string)
    requires word == "a-b=c"
    ensures FirstTakenFor([word, arg]) == Some(Unspecified)
  {
    assert word[3] == '=' && word[3] in word;
    assert forall i | 0 < i < |word| && word[i] == '=' :: i == 3;
    assert word[..3][1] == '-' && word[..3][1] in word[..3];
    assert !IsAssignment(word);
    ClassesDisjoint(word);
    BareFirst(word, arg);
  }

  /** Such as `-x cmd`. */
  lemma HyphenIsOptions(option: string, arg: string)
    requires option == "-x"
    ensures FirstTakenFor([option, arg]) == Some(Options)
  {
    OptionsExactly([option, arg]);
  }
}
