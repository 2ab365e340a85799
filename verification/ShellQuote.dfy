/**
 Quote and the command line of pathTest, against the part of the POSIX shell that reads them: quoting and token
 recognition as in IEEE Std 1003.1-2017, Shell & Utilities, sections 2.2.1, 2.2.2 and 2.3.
 */
module ShellQuote {
  import opened Wrappers

  /** strings.ReplaceAll(s, "'", `'\''`). */
  function EscapeQuotes(s: string): string {
    if s == "" then ""
    else (if s[0] == '\'' then "'\\''" else [s[0]]) + EscapeQuotes(s[1..])
  }

  function Quote(s: string): string { "'" + EscapeQuotes(s) + "'" }

  // ---- the shell ----

  /** Characters that must be quoted to stand for themselves (section 2.2), besides the blanks. */
  predicate IsSpecial(c: char) {
    || c == '|' || c == '&' || c == ';' || c == '<' || c == '>' || c == '(' || c == ')' || c == '$' || c == '`'
    || c == '\\' || c == '"' || c == '\'' || c == '*' || c == '?' || c == '[' || c == ']' || c == '#' || c == '~'
    || c == '=' || c == '%' || c == '{' || c == '}' || c == '!' || c == '\n' || c == '\r'
  }

  predicate IsSeparator(c: char) { c == ' ' || c == '\t' }

  /** Unquoted, inside single quotes, or right after an unquoted backslash. */
  datatype Mode = Unquoted | Single | Escaped

  /** The words recognised so far, the word being read (None between words), and the quoting mode. */
  datatype Lexer = Lexer(words: seq<string>, word: Option<string>, mode: Mode) {
    /** A character joins the word being read, or starts one. */
    function Add(c: string): Lexer {
      Lexer(words, Some((if word.Some? then word.value else "") + c), Unquoted)
    }

    function EndWord(): Lexer {
      Lexer(if word.Some? then words + [word.value] else words, None, Unquoted)
    }
  }

  /**
   One character of input. None: the character would start something else than a plain word (an operator, an
   expansion, a double quote, a comment or a pattern), which this fragment does not read.
   */
  function Read(lx: Lexer, c: char): Option<Lexer> {
    match lx.mode
    case Single =>
      if c == '\'' then Some(lx.(mode := Unquoted)) else Some(lx.Add([c]).(mode := Single))
    case Escaped =>
      if c == '\n' then Some(lx.(mode := Unquoted)) else Some(lx.Add([c]))
    case Unquoted =>
      if IsSeparator(c) then Some(lx.EndWord())
      else if c == '\'' then Some(lx.Add("").(mode := Single))
      else if c == '\\' then Some(lx.(mode := Escaped))
      else if IsSpecial(c) then None
      else Some(lx.Add([c]))
  }

  function ReadAll(lx: Lexer, s: string): Option<Lexer>
    decreases |s|
  {
    if s == "" then Some(lx)
    else
      match Read(lx, s[0])
      case None => None
      case Some(next) => ReadAll(next, s[1..])
  }

  const START := Lexer([], None, Unquoted)

  /** The words of a command line; None if it is outside the fragment or ends inside a quote. */
  function Words(s: string): Option<seq<string>> {
    match ReadAll(START, s)
    case None => None
    case Some(lx) => if lx.mode.Unquoted? then Some(lx.EndWord().words) else None
  }

  lemma {:induction false} ReadAllConcat(lx: Lexer, a: string, b: string)
    ensures ReadAll(lx, a + b) == match ReadAll(lx, a) case None => None case Some(mid) => ReadAll(mid, b)
    decreases |a|
  {
    if a == "" {
      assert a + b == b;
    } else {
      assert (a + b)[1..] == a[1..] + b;
      if Read(lx, a[0]).Some? { ReadAllConcat(Read(lx, a[0]).value, a[1..], b); }
    }
  }

  lemma ReadOne(lx: Lexer, c: char, s: string)
    ensures ReadAll(lx, [c] + s) == match Read(lx, c) case None => None case Some(next) => ReadAll(next, s)
  {
    assert ([c] + s)[1..] == s;
  }

  /** Unquoted operators, expansions, patterns, double quotes, comments and line ends are outside the fragment. */
  lemma UnquotedIsRefused(lx: Lexer, c: char)
    requires lx.mode.Unquoted? && c in "|&;<>()$`\"*?[]#~=%{}!\n\r"
    ensures Read(lx, c) == None
  {}

  /** Section 2.2.1: a backslash preserves the next character, except that with a newline it vanishes. */
  lemma BackslashPreserves(lx: Lexer, c: char)
    requires lx.mode.Unquoted?
    ensures ReadAll(lx, ['\\', c]) == Some(if c == '\n' then lx else lx.Add([c]))
  {
    assert ['\\', c] == ['\\'] + [c] && [c] == [c] + "";
    ReadOne(lx, '\\', [c]);
    ReadOne(lx.(mode := Escaped), c, "");
  }

  /** Section 2.3: unquoted blanks end a word, and several of them do no more than one. */
  lemma BlanksSeparate(lx: Lexer, c: char)
    requires lx.mode.Unquoted? && (c == ' ' || c == '\t')
    ensures Read(lx, c) == Some(lx.EndWord()) && Read(lx.EndWord(), c) == Some(lx.EndWord())
  {}

  // ---- Quote against the shell ----

  /** Leaving the quotes, an escaped quote, and going back into quotes adds one quote to the word. */
  lemma EscapedQuoteReads(words: seq<string>, word: string, rest: string)
    ensures ReadAll(Lexer(words, Some(word), Single), "'\\''" + rest) ==
            ReadAll(Lexer(words, Some(word + ['\'']), Single), rest)
  {
    var inside := Lexer(words, Some(word), Single);
    var s2 := ['\''] + rest;
    var s3 := ['\''] + s2;
    var s4 := ['\\'] + s3;
    assert "'\\''" + rest == ['\''] + s4;
    ReadOne(inside, '\'', s4);
    ReadOne(inside.(mode := Unquoted), '\\', s3);
    ReadOne(inside.(mode := Escaped), '\'', s2);
    ReadOne(Lexer(words, Some(word + ['\'']), Unquoted), '\'', rest);
    assert word + ['\''] + "" == word + ['\''];
  }

  /** Inside single quotes the escaped text adds exactly s to the word and stays inside them. */
  lemma {:induction false} EscapedTextIsLiteral(words: seq<string>, word: string, s: string)
    ensures ReadAll(Lexer(words, Some(word), Single), EscapeQuotes(s)) == Some(Lexer(words, Some(word + s), Single))
    decreases |s|
  {
    if s == "" {
      assert word + s == word;
    } else {
      var rest := EscapeQuotes(s[1..]);
      var inside := Lexer(words, Some(word), Single);
      EscapedTextIsLiteral(words, word + [s[0]], s[1..]);
      assert word + [s[0]] + s[1..] == word + s;
      if s[0] == '\'' {
        EscapedQuoteReads(words, word, rest);
      } else {
        ReadOne(inside, s[0], rest);
      }
    }
  }

  /**
   Wherever an unquoted lexer meets Quote(s), in the middle of a word or between words, it reads s literally and
   comes out unquoted.
   */
  lemma QuoteIsLiteral(lx: Lexer, s: string)
    requires lx.mode.Unquoted?
    ensures ReadAll(lx, Quote(s)) == Some(lx.Add(s))
  {
    var word := if lx.word.Some? then lx.word.value else "";
    var inside := Lexer(lx.words, Some(word + ""), Single);
    assert word + "" == word;
    assert Quote(s) == ['\''] + (EscapeQuotes(s) + "'");
    ReadOne(lx, '\'', EscapeQuotes(s) + "'");
    ReadAllConcat(inside, EscapeQuotes(s), "'");
    EscapedTextIsLiteral(lx.words, word, s);
    ReadOne(Lexer(lx.words, Some(word + s), Single), '\'', "");
    assert ['\''] + "" == "'";
  }

  /** Every string survives: the shell reads Quote(s) as the single word s, the empty string included. */
  lemma QuoteRoundTrip(s: string)
    ensures Words(Quote(s)) == Some([s])
  {
    QuoteIsLiteral(START, s);
    assert "" + s == s;
    assert [] + [s] == [s];
  }

  /** So different strings have different quotes. */
  lemma QuoteIsInjective(a: string, b: string)
    requires Quote(a) == Quote(b)
    ensures a == b
  {
    QuoteRoundTrip(a);
    QuoteRoundTrip(b);
    assert [a][0] == [b][0];
  }

  /** Quoted arguments joined by spaces. */
  function CommandLine(args: seq<string>): string {
    if args == [] then ""
    else if |args| == 1 then Quote(args[0])
    else CommandLine(args[..|args| - 1]) + " " + Quote(args[|args| - 1])
  }

  lemma {:induction false} CommandLineReads(args: seq<string>)
    requires args != []
    ensures ReadAll(START, CommandLine(args)) == Some(Lexer(args[..|args| - 1], Some(args[|args| - 1]), Unquoted))
  {
    var n := |args| - 1;
    var last := args[n];
    assert "" + last == last;
    if n == 0 {
      QuoteIsLiteral(START, last);
    } else {
      var front := args[..n];
      CommandLineReads(front);
      assert front[..n - 1] + [front[n - 1]] == front;
      var lx := Lexer(front[..n - 1], Some(front[n - 1]), Unquoted);
      var line := CommandLine(front);
      ReadAllConcat(START, line + " ", Quote(last));
      ReadAllConcat(START, line, " ");
      assert [' '] + "" == " ";
      ReadOne(lx, ' ', "");
      QuoteIsLiteral(lx.EndWord(), last);
    }
  }

  /** Any list of arguments comes back from the shell as it was. */
  lemma CommandLineRoundTrip(args: seq<string>)
    ensures Words(CommandLine(args)) == Some(args)
  {
    if args != [] {
      CommandLineReads(args);
      assert args[..|args| - 1] + [args[|args| - 1]] == args;
    }
  }

  // ---- pathTest ----

  /** A character the shell reads as itself. */
  predicate IsPlain(c: char) {
    'a' <= c <= 'z' || 'A' <= c <= 'Z' || '0' <= c <= '9' || c == '-' || c == '_' || c == '/' || c == '.'
  }

  lemma PlainRead(lx: Lexer, c: char, rest: string)
    requires lx.mode.Unquoted? && IsPlain(c)
    ensures ReadAll(lx, [c] + rest) == ReadAll(lx.Add([c]), rest)
  {
    ReadOne(lx, c, rest);
  }

  lemma {:induction false} PlainTextIsLiteral(lx: Lexer, s: string)
    requires lx.mode.Unquoted? && lx.word.Some? && forall i :: 0 <= i < |s| ==> IsPlain(s[i])
    ensures ReadAll(lx, s) == Some(lx.Add(s))
    decreases |s|
  {
    if s == "" {
      assert lx.word.value + "" == lx.word.value;
    } else {
      PlainTextIsLiteral(lx.Add([s[0]]), s[1..]);
      PlainRead(lx, s[0], s[1..]);
      assert [s[0]] + s[1..] == s;
      assert lx.word.value + [s[0]] + s[1..] == lx.word.value + s;
    }
  }

  lemma PlainWord(words: seq<string>, s: string)
    requires IsPlainWord(s)
    ensures ReadAll(Lexer(words, None, Unquoted), s + " ") == Some(Lexer(words + [s], None, Unquoted))
  {
    var lx := Lexer(words, None, Unquoted);
    ReadAllConcat(lx, s, " ");
    PlainRead(lx, s[0], s[1..]);
    assert "" + [s[0]] == [s[0]];
    PlainTextIsLiteral(lx.Add([s[0]]), s[1..]);
    assert [s[0]] + s[1..] == s;
    assert [' '] + "" == " ";
    ReadOne(Lexer(words, Some(s), Unquoted), ' ', "");
  }

  function PathTestCommand(flag: string, path: string): string { "test " + flag + " " + Quote(path) }

  predicate IsPlainWord(s: string) { s != "" && forall i :: 0 <= i < |s| ==> IsPlain(s[i]) }

  lemma ThreeWords(cmd: string, flag: string, path: string)
    requires IsPlainWord(cmd) && IsPlainWord(flag)
    ensures Words(cmd + " " + flag + " " + Quote(path)) == Some([cmd, flag, path])
  {
    var line := cmd + " " + flag + " " + Quote(path);
    assert line == (cmd + " ") + ((flag + " ") + Quote(path));
    ReadAllConcat(START, cmd + " ", (flag + " ") + Quote(path));
    PlainWord([], cmd);
    assert [] + [cmd] == [cmd];
    ReadAllConcat(Lexer([cmd], None, Unquoted), flag + " ", Quote(path));
    PlainWord([cmd], flag);
    QuoteIsLiteral(Lexer([cmd] + [flag], None, Unquoted), path);
    assert "" + path == path;
    assert [cmd] + [flag] + [path] == [cmd, flag, path];
  }

  /** FileExists and DirExists run exactly the three words test, the flag and the path, whatever the path holds. */
  lemma PathTestIsThreeWords(flag: string, path: string)
    requires flag == "-f" || flag == "-d"
    ensures Words(PathTestCommand(flag, path)) == Some(["test", flag, path])
  {
    ThreeWords("test", flag, path);
    assert "test" + " " == "test ";
  }

  /** pathTest: how Shell.Apply ended. */
  datatype Ended = Success | ExitStatus(code: int) | Broken(err: nat)

  /** Exit status 1 is the answer no; any other failure is an error. */
  method PathTest(flag: string, path: string, run: string -> Ended) returns (found: bool, err: Option<Ended>)
    requires flag == "-f" || flag == "-d"
    ensures err.None? <==> run(PathTestCommand(flag, path)) in {Success, ExitStatus(1)}
    ensures found <==> run(PathTestCommand(flag, path)) == Success
    ensures err.Some? ==> err.value == run(PathTestCommand(flag, path))
  {
    var ended := run("test " + flag + " " + Quote(path));
    match ended {
      case Success => return true, None;
      case ExitStatus(code) => if code == 1 { return false, None; } else { return false, Some(ended); }
      case Broken(_) => return false, Some(ended);
    }
  }
}
