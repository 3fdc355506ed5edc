/**
 The privileged macOS install script: a shell command line quoted for the POSIX shell and then
 once more for an AppleScript string literal (src-tauri/src/tui_install.rs). The readers on the
 other side are modelled too, so that quoting can be proved to be undone: the AppleScript
 literal, the token recognition of section 2.3 of the POSIX.1-2017 Shell Command Language with
 the quoting of sections 2.2.1 and 2.2.2, and the AND-OR lists of section 2.9.3.
 */
module Quoting {
  import opened Wrappers
  import opened Sequences

  // ----- Printing -----

  /** Every c in s replaced by a string. */
  function Replace(s: string, c: char, sub: string): string {
    if s == "" then "" else (if s[0] == c then sub else [s[0]]) + Replace(s[1..], c, sub)
  }

  function ShQuote(s: string): string {
    "'" + Replace(s, '\'', "'\\''") + "'"
  }

  /** The inside of an AppleScript string literal: backslashes first, then double quotes. */
  function AppleScriptEscape(s: string): string {
    Replace(Replace(s, '\\', "\\\\"), '"', "\\\"")
  }

  function AppleScriptQuote(s: string): string {
    "\"" + AppleScriptEscape(s) + "\""
  }

  const DO_SHELL := "do shell script "
  const AS_ADMIN := " with administrator privileges"

  function AdminScript(shell: string): string {
    DO_SHELL + AppleScriptQuote(shell) + AS_ADMIN
  }

  /** The install command; `dir` is the parent directory of `link`. */
  function SymlinkShell(sidecar: string, link: string, dir: string): string {
    var l := ShQuote(link);
    var d := ShQuote(dir);
    var s := ShQuote(sidecar);
    ("[ ! -e " + l + " ]") + (" || " + (("[ -L " + l + " ]") + (" || " + ("exit 1" + ("; "
    + (("/bin/mkdir -p " + d) + (" && " + ("/bin/ln -sfn " + s + " " + l))))))))
  }

  function UnlinkShell(link: string): string {
    var l := ShQuote(link);
    ("[ -L " + l + " ]") + (" || " + ("exit 0" + ("; " + ("/bin/rm -f " + l))))
  }

  // ----- Reading an AppleScript string literal -----

  /** The text up to the closing double quote, and what follows it. */
  function ReadLiteralBody(s: string): Option<(string, string)> {
    if s == "" then None
    else if s[0] == '"' then Some(("", s[1..]))
    else if s[0] == '\\' then
      if |s| < 2 || EscapedChar(s[1]).None? then None
      else
        var tail := ReadLiteralBody(s[2..]);
        if tail.None? then None else Some(([EscapedChar(s[1]).value] + tail.value.0, tail.value.1))
    else
      var tail := ReadLiteralBody(s[1..]);
      if tail.None? then None else Some(([s[0]] + tail.value.0, tail.value.1))
  }

  function EscapedChar(c: char): Option<char> {
    if c == '\\' || c == '"' then Some(c)
    else if c == 'n' then Some('\n')
    else if c == 'r' then Some('\r')
    else if c == 't' then Some('\t')
    else None
  }

  /** The shell command of a `do shell script … with administrator privileges` statement. */
  function ShellOfScript(script: string): Option<string> {
    if |script| > |DO_SHELL| && script[..|DO_SHELL|] == DO_SHELL && script[|DO_SHELL|] == '"' then
      var r := ReadLiteralBody(script[|DO_SHELL| + 1..]);
      if r.Some? && r.value.1 == AS_ADMIN then Some(r.value.0) else None
    else None
  }

  lemma {:induction false} ReplaceConcat(a: string, b: string, c: char, sub: string)
    ensures Replace(a + b, c, sub) == Replace(a, c, sub) + Replace(b, c, sub)
  {
    if a == "" {
      assert a + b == b;
    } else {
      ReplaceConcat(a[1..], b, c, sub);
      ConcatTail(a, b);
      Assoc(if a[0] == c then sub else [a[0]], Replace(a[1..], c, sub), Replace(b, c, sub));
    }
  }

  /** Two replacements in sequence amount to escaping character by character. */
  lemma EscapeStep(s: string)
    requires s != ""
    ensures AppleScriptEscape(s) ==
      (if s[0] == '\\' then "\\\\" else if s[0] == '"' then "\\\"" else [s[0]]) + AppleScriptEscape(s[1..])
  {
    var piece := if s[0] == '\\' then "\\\\" else [s[0]];
    var rest := Replace(s[1..], '\\', "\\\\");
    ReplaceConcat(piece, rest, '"', "\\\"");
    assert Replace([s[0]], '"', "\\\"") == if s[0] == '"' then "\\\"" else [s[0]];
    assert "\\\\"[1..] == "\\";
    assert Replace("\\\\", '"', "\\\"") == "\\\\";
  }

  /** Reading a literal undoes quoting, whatever follows the literal. */
  lemma {:induction false} LiteralRoundTrip(s: string, rest: string)
    ensures ReadLiteralBody(AppleScriptEscape(s) + "\"" + rest) == Some((s, rest))
  {
    var text := AppleScriptEscape(s) + "\"" + rest;
    if s == "" {
      assert text == "\"" + rest;
    } else {
      EscapeStep(s);
      LiteralRoundTrip(s[1..], rest);
      var tail := AppleScriptEscape(s[1..]) + "\"" + rest;
      if s[0] == '\\' || s[0] == '"' {
        assert text[..2] == ['\\', s[0]] && text[2..] == tail;
      } else {
        assert text == [s[0]] + tail;
      }
      assert [s[0]] + s[1..] == s;
    }
  }

  /** The statement handed to osascript carries exactly the shell command. */
  lemma AdminScriptRoundTrip(shell: string)
    ensures ShellOfScript(AdminScript(shell)) == Some(shell)
  {
    var script := AdminScript(shell);
    LiteralRoundTrip(shell, AS_ADMIN);
    assert script[|DO_SHELL| + 1..] == AppleScriptEscape(shell) + "\"" + AS_ADMIN;
    assert script[..|DO_SHELL|] == DO_SHELL;
  }

  // ----- Shell tokens -----

  datatype Token = Word(text: string) | Operator(text: string)

  predicate IsBlank(c: char) { c == ' ' || c == '\t' }

  predicate IsOperatorChar(c: char) { c == '&' || c == '|' || c == ';' }

  /** Outside quotes these start an expansion, a pattern, a redirection, a comment or a grouping;
      the tokeniser gives up on them, so a result means that none was reached. */
  predicate IsActive(c: char) {
    c == '$' || c == '`' || c == '"' || c == '*' || c == '?' || c == '#' || c == '~'
    || c == '<' || c == '>' || c == '(' || c == ')'
  }

  predicate IsOrdinary(c: char) {
    !IsBlank(c) && !IsOperatorChar(c) && !IsActive(c) && c != '\'' && c != '\\' && c != '\n'
  }

  function Flush(word: Option<string>): seq<Token> {
    if word.Some? then [Word(word.value)] else []
  }

  function Grow(word: Option<string>, more: string): Option<string> {
    Some((if word.Some? then word.value else "") + more)
  }

  lemma GrowTwice(word: Option<string>, a: string, b: string)
    ensures Grow(Grow(word, a), b) == Grow(word, a + b)
  {
    var start := if word.Some? then word.value else "";
    assert start + a + b == start + (a + b);
  }

  /** The text of a single-quoted string up to its closing quote, and what follows. */
  function SingleQuoted(s: string): (r: Option<(string, string)>)
    ensures r.Some? ==> |r.value.1| < |s|
  {
    if s == "" then None
    else if s[0] == '\'' then Some(("", s[1..]))
    else
      var tail := SingleQuoted(s[1..]);
      if tail.None? then None else Some(([s[0]] + tail.value.0, tail.value.1))
  }

  /** Token recognition; `word` is the word under way, if one has begun, `done` the tokens
      already delimited. */
  function Tokens(s: string, word: Option<string>, done: seq<Token>): Option<seq<Token>>
    decreases |s|
  {
    if s == "" then Some(done + Flush(word))
    else if IsBlank(s[0]) then Tokens(s[1..], None, done + Flush(word))
    else if s[0] == '\n' then Tokens(s[1..], None, done + Flush(word) + [Operator("\n")])
    else if IsOperatorChar(s[0]) then
      if |s| > 1 && s[1] == s[0] then Tokens(s[2..], None, done + Flush(word) + [Operator([s[0], s[0]])])
      else Tokens(s[1..], None, done + Flush(word) + [Operator([s[0]])])
    else if s[0] == '\'' then
      var q := SingleQuoted(s[1..]);
      if q.None? then None else Tokens(q.value.1, Grow(word, q.value.0), done)
    else if s[0] == '\\' then
      if |s| < 2 then None
      else if s[1] == '\n' then Tokens(s[2..], word, done)
      else Tokens(s[2..], Grow(word, [s[1]]), done)
    else if IsActive(s[0]) then None
    else Tokens(s[1..], Grow(word, [s[0]]), done)
  }

  function ShellTokens(command: string): Option<seq<Token>> {
    Tokens(command, None, [])
  }

  lemma {:induction false} QuotedRun(run: string, rest: string)
    requires '\'' !in run
    ensures SingleQuoted(run + "'" + rest) == Some((run, rest))
  {
    var text := run + "'" + rest;
    if run == "" {
      assert text == "'" + rest;
    } else {
      QuotedRun(run[1..], rest);
      assert text == [run[0]] + (run[1..] + "'" + rest);
      assert [run[0]] + run[1..] == run;
    }
  }

  /** The characters of s up to its first single quote. */
  function RunLength(s: string): (n: nat)
    ensures n <= |s| && '\'' !in s[..n] && (n < |s| ==> s[n] == '\'')
  {
    if s == "" || s[0] == '\'' then 0 else 1 + RunLength(s[1..])
  }

  lemma {:induction false} ReplaceNothing(s: string, c: char, sub: string)
    requires c !in s
    ensures Replace(s, c, sub) == s
  {
    if s != "" {
      ReplaceNothing(s[1..], c, sub);
      assert [s[0]] + s[1..] == s;
    }
  }

  /** One quoted run. */
  lemma RunReadsBack(run: string, rest: string, word: Option<string>, done: seq<Token>)
    requires '\'' !in run
    ensures Tokens("'" + (run + "'" + rest), word, done) == Tokens(rest, Grow(word, run), done)
  {
    QuotedRun(run, rest);
    assert ("'" + (run + "'" + rest))[1..] == run + "'" + rest;
  }

  lemma EscapedQuoteReadsBack(rest: string, word: Option<string>, done: seq<Token>)
    ensures Tokens("\\'" + rest, word, done) == Tokens(rest, Grow(word, "'"), done)
  {
  }

  /** A quoted string is its first run, an escaped quote, and the quoted remainder. */
  lemma ShQuoteStep(run: string, more: string)
    requires '\'' !in run
    ensures ShQuote(run + "'" + more) == "'" + (run + "'" + ("\\'" + ShQuote(more)))
  {
    var tail := "'" + more;
    assert run + "'" + more == run + tail && tail[1..] == more;
    ReplaceNothing(run, '\'', "'\\''");
    ReplaceConcat(run, tail, '\'', "'\\''");
    assert Replace(tail, '\'', "'\\''") == "'\\''" + Replace(more, '\'', "'\\''");
  }

  /** The tokeniser reads a quoted string back into the word under way, whatever the string. */
  lemma {:induction false} ShQuoteReadsBack(s: string, rest: string, word: Option<string>, done: seq<Token>)
    ensures Tokens(ShQuote(s) + rest, word, done) == Tokens(rest, Grow(word, s), done)
    decreases |s|
  {
    var n := RunLength(s);
    var run := s[..n];
    if n == |s| {
      assert run == s;
      ReplaceNothing(s, '\'', "'\\''");
      assert ShQuote(s) + rest == "'" + (s + "'" + rest);
      RunReadsBack(s, rest, word, done);
    } else {
      var more := s[n + 1..];
      assert s == run + "'" + more;
      ShQuoteStep(run, more);
      var tail := ShQuote(more) + rest;
      assert ShQuote(s) + rest == "'" + (run + "'" + ("\\'" + tail));
      RunReadsBack(run, "\\'" + tail, word, done);
      EscapedQuoteReadsBack(tail, Grow(word, run), done);
      ShQuoteReadsBack(more, rest, Grow(Grow(word, run), "'"), done);
      GrowTwice(word, run, "'");
      GrowTwice(word, run + "'", more);
    }
  }

  // ----- Command lines made of bare and quoted arguments -----

  datatype Arg = Bare(text: string) | Quoted(text: string)

  function Spelling(a: Arg): string {
    if a.Bare? then a.text else ShQuote(a.text)
  }

  /** The arguments separated by single spaces. */
  function Line(args: seq<Arg>): string {
    if args == [] then ""
    else if |args| == 1 then Spelling(args[0])
    else Spelling(args[0]) + " " + Line(args[1..])
  }

  function Words(args: seq<Arg>): seq<Token> {
    seq(|args|, i requires 0 <= i < |args| => Word(args[i].text))
  }

  predicate Plain(a: Arg) {
    a.Bare? ==> a.text != "" && forall i :: 0 <= i < |a.text| ==> IsOrdinary(a.text[i])
  }

  lemma {:induction false} BareReadsBack(w: string, rest: string, word: Option<string>, done: seq<Token>)
    requires w != "" && forall i :: 0 <= i < |w| ==> IsOrdinary(w[i])
    ensures Tokens(w + rest, word, done) == Tokens(rest, Grow(word, w), done)
  {
    var text := w + rest;
    assert text[1..] == w[1..] + rest;
    assert IsOrdinary(text[0]);
    if |w| == 1 {
      assert text[1..] == rest && w == [w[0]];
    } else {
      BareReadsBack(w[1..], rest, Grow(word, [w[0]]), done);
      GrowTwice(word, [w[0]], w[1..]);
      assert [w[0]] + w[1..] == w;
    }
  }

  lemma ArgReadsBack(a: Arg, rest: string, done: seq<Token>)
    requires Plain(a)
    ensures Tokens(Spelling(a) + rest, None, done) == Tokens(rest, Some(a.text), done)
  {
    assert "" + a.text == a.text;
    if a.Bare? { BareReadsBack(a.text, rest, None, done); } else { ShQuoteReadsBack(a.text, rest, None, done); }
  }

  ghost predicate PlainLine(args: seq<Arg>) {
    args != [] && forall i :: 0 <= i < |args| ==> Plain(args[i])
  }

  lemma BlankReadsBack(rest: string, word: Option<string>, done: seq<Token>)
    ensures Tokens(" " + rest, word, done) == Tokens(rest, None, done + Flush(word))
    ensures done + Flush(None) == done
  {
  }

  /** A line reads back as its arguments; the last one is still under way when the line ends. */
  lemma {:induction false} LineReadsBack(args: seq<Arg>, tail: string, done: seq<Token>)
    requires PlainLine(args)
    ensures Tokens(Line(args) + tail, None, done) ==
      Tokens(tail, Some(args[|args| - 1].text), done + Words(args[..|args| - 1]))
    decreases |args|
  {
    var a := args[0];
    if |args| == 1 {
      ArgReadsBack(a, tail, done);
      assert done + Words(args[..0]) == done;
    } else {
      var more := args[1..];
      var n := |more| - 1;
      var rest := Line(more) + tail;
      LineStep(args, tail);
      ArgReadsBack(a, " " + rest, done);
      BlankReadsBack(rest, Some(a.text), done);
      LineReadsBack(more, tail, done + [Word(a.text)]);
      assert args[..n + 1][1..] == more[..n];
      WordsStep(args[..n + 1], done);
    }
  }

  lemma LineStep(args: seq<Arg>, tail: string)
    requires |args| > 1
    ensures Line(args) + tail == Spelling(args[0]) + (" " + (Line(args[1..]) + tail))
  {
  }

  lemma WordsStep(args: seq<Arg>, done: seq<Token>)
    requires args != []
    ensures done + [Word(args[0].text)] + Words(args[1..]) == done + Words(args)
  {
  }

  lemma WordsLast(args: seq<Arg>, done: seq<Token>)
    requires args != []
    ensures done + Words(args[..|args| - 1]) + [Word(args[|args| - 1].text)] == done + Words(args)
  {
  }

  /** An operator as the printers write it: ` || `, ` && ` or `; `. */
  function Spaced(op: string): string {
    if |op| == 2 then " " + op + " " else op + " "
  }

  predicate IsControl(op: string) {
    op == "||" || op == "&&" || op == ";"
  }

  lemma OperatorReadsBack(op: string, rest: string, w: string, done: seq<Token>)
    requires IsControl(op)
    ensures Tokens(Spaced(op) + rest, Some(w), done) == Tokens(rest, None, done + [Word(w), Operator(op)])
  {
    if op == ";" {
      var s := "; " + rest;
      assert s[1..] == " " + rest && [s[0]] == ";" && s[1] == ' ';
      assert done + Flush(Some(w)) + [Operator(op)] == done + [Word(w), Operator(op)];
      BlankReadsBack(rest, None, done + [Word(w), Operator(op)]);
    } else {
      var s := [op[0], op[0], ' '] + rest;
      assert Spaced(op) + rest == " " + s && op == [op[0], op[0]];
      BlankReadsBack(s, Some(w), done);
      assert s[2..] == " " + rest;
      var before := done + Flush(Some(w));
      assert before + Flush(None) + [Operator(op)] == done + [Word(w), Operator(op)];
      BlankReadsBack(rest, None, done + [Word(w), Operator(op)]);
    }
  }

  /** A line and the operator after it. */
  lemma LineAndOperator(args: seq<Arg>, op: string, rest: string, done: seq<Token>)
    requires PlainLine(args) && IsControl(op)
    ensures Tokens(Line(args) + (Spaced(op) + rest), None, done) ==
      Tokens(rest, None, done + Words(args) + [Operator(op)])
  {
    var n := |args| - 1;
    var before, w := done + Words(args[..n]), args[n].text;
    LineReadsBack(args, Spaced(op) + rest, done);
    OperatorReadsBack(op, rest, w, before);
    WordsLast(args, done);
    assert before + [Word(w), Operator(op)] == before + [Word(w)] + [Operator(op)];
  }

  lemma EndReadsBack(w: string, done: seq<Token>)
    ensures Tokens("", Some(w), done) == Some(done + [Word(w)])
  {
  }

  lemma LastLine(args: seq<Arg>, done: seq<Token>)
    requires PlainLine(args)
    ensures Tokens(Line(args), None, done) == Some(done + Words(args))
  {
    var n := |args| - 1;
    var before, w := done + Words(args[..n]), args[n].text;
    var text := Line(args);
    LineReadsBack(args, "", done);
    assert text + "" == text;
    EndReadsBack(w, before);
    WordsLast(args, done);
  }

  // ----- What the two commands are read as -----

  function NotThere(p: string): seq<Arg> { [Bare("["), Bare("!"), Bare("-e"), Quoted(p), Bare("]")] }

  function IsLink(p: string): seq<Arg> { [Bare("["), Bare("-L"), Quoted(p), Bare("]")] }

  function Exit(status: string): seq<Arg> { [Bare("exit"), Bare(status)] }

  function MakeDir(d: string): seq<Arg> { [Bare("/bin/mkdir"), Bare("-p"), Quoted(d)] }

  function MakeLink(s: string, l: string): seq<Arg> { [Bare("/bin/ln"), Bare("-sfn"), Quoted(s), Quoted(l)] }

  function Remove(l: string): seq<Arg> { [Bare("/bin/rm"), Bare("-f"), Quoted(l)] }

  /** Command lines in sequence, each but the last followed by a control operator. */
  datatype Script = Last(args: seq<Arg>) | Then(args: seq<Arg>, op: string, rest: Script)

  function ScriptText(sc: Script): string {
    match sc
    case Last(args) => Line(args)
    case Then(args, op, rest) => Line(args) + (Spaced(op) + ScriptText(rest))
  }

  function ScriptTokens(sc: Script): seq<Token> {
    match sc
    case Last(args) => Words(args)
    case Then(args, op, rest) => Words(args) + [Operator(op)] + ScriptTokens(rest)
  }

  ghost predicate WellFormed(sc: Script) {
    PlainLine(sc.args)
    && (sc.Then? ==> IsControl(sc.op) && WellFormed(sc.rest))
  }

  lemma {:induction false} ScriptReadsBack(sc: Script, done: seq<Token>)
    requires WellFormed(sc)
    ensures Tokens(ScriptText(sc), None, done) == Some(done + ScriptTokens(sc))
  {
    match sc
    case Last(args) => LastLine(args, done);
    case Then(args, op, rest) =>
      LineAndOperator(args, op, ScriptText(rest), done);
      ScriptReadsBack(rest, done + Words(args) + [Operator(op)]);
      assert done + Words(args) + [Operator(op)] + ScriptTokens(rest) == done + ScriptTokens(sc);
  }

  /** The install command: each path is one quoted argument of a fixed skeleton. */
  function InstallScript(sidecar: string, link: string, dir: string): Script {
    Then(NotThere(link), "||", Then(IsLink(link), "||", Then(Exit("1"), ";",
    Then(MakeDir(dir), "&&", Last(MakeLink(sidecar, link))))))
  }

  function UninstallScript(link: string): Script {
    Then(IsLink(link), "||", Then(Exit("0"), ";", Last(Remove(link))))
  }

  lemma SpellNotThere(p: string)
    ensures Line(NotThere(p)) == "[ ! -e " + ShQuote(p) + " ]"
  {
    LineOfFour(Bare("!"), Bare("-e"), Quoted(p), Bare("]"));
    assert NotThere(p)[1..] == [Bare("!"), Bare("-e"), Quoted(p), Bare("]")];
  }

  lemma SpellIsLink(p: string)
    ensures Line(IsLink(p)) == "[ -L " + ShQuote(p) + " ]"
  {
    LineOfFour(Bare("["), Bare("-L"), Quoted(p), Bare("]"));
  }

  lemma SpellExit(status: string)
    ensures Line(Exit(status)) == "exit " + status
  {
  }

  lemma SpellMakeDir(p: string)
    ensures Line(MakeDir(p)) == "/bin/mkdir -p " + ShQuote(p)
  {
    LineOfThree(Bare("/bin/mkdir"), Bare("-p"), Quoted(p));
  }

  lemma SpellRemove(p: string)
    ensures Line(Remove(p)) == "/bin/rm -f " + ShQuote(p)
  {
    LineOfThree(Bare("/bin/rm"), Bare("-f"), Quoted(p));
  }

  lemma SpellMakeLink(p: string, q: string)
    ensures Line(MakeLink(p, q)) == "/bin/ln -sfn " + ShQuote(p) + " " + ShQuote(q)
  {
    LineOfFour(Bare("/bin/ln"), Bare("-sfn"), Quoted(p), Quoted(q));
  }

  lemma LineOfTwo(a: Arg, b: Arg)
    ensures Line([a, b]) == Spelling(a) + " " + Spelling(b)
  {
  }

  lemma LineOfThree(a: Arg, b: Arg, c: Arg)
    ensures Line([a, b, c]) == Spelling(a) + " " + Spelling(b) + " " + Spelling(c)
  {
    LineOfTwo(b, c);
    assert [a, b, c][1..] == [b, c];
    var x := Spelling(a) + " ";
    Assoc(x, Spelling(b), " ");
    Assoc(x, Spelling(b) + " ", Spelling(c));
  }

  lemma LineOfFour(a: Arg, b: Arg, c: Arg, d: Arg)
    ensures Line([a, b, c, d]) == Spelling(a) + " " + Spelling(b) + " " + Spelling(c) + " " + Spelling(d)
  {
    LineOfThree(b, c, d);
    assert [a, b, c, d][1..] == [b, c, d];
    var x := Spelling(a) + " ";
    Assoc(x, Spelling(b), " ");
    Assoc(x, Spelling(b) + " ", Spelling(c));
    Assoc(x, Spelling(b) + " " + Spelling(c), " ");
    Assoc(x, Spelling(b) + " " + Spelling(c) + " ", Spelling(d));
  }

  lemma SpellOperators()
    ensures Spaced("||") == " || " && Spaced("&&") == " && " && Spaced(";") == "; "
  {
  }

  lemma SymlinkShellSpelling(sidecar: string, link: string, dir: string)
    ensures SymlinkShell(sidecar, link, dir) == ScriptText(InstallScript(sidecar, link, dir))
  {
    SpellNotThere(link);
    SpellIsLink(link);
    SpellExit("1");
    SpellMakeDir(dir);
    SpellMakeLink(sidecar, link);
    SpellOperators();
    var e := Last(MakeLink(sidecar, link));
    var d := Then(MakeDir(dir), "&&", e);
    var c := Then(Exit("1"), ";", d);
    var b := Then(IsLink(link), "||", c);
    assert ScriptText(d) == Line(MakeDir(dir)) + (Spaced("&&") + ScriptText(e));
    assert ScriptText(c) == Line(Exit("1")) + (Spaced(";") + ScriptText(d));
    assert ScriptText(b) == Line(IsLink(link)) + (Spaced("||") + ScriptText(c));
    assert "exit " + "1" == "exit 1";
  }

  lemma UnlinkShellSpelling(link: string)
    ensures UnlinkShell(link) == ScriptText(UninstallScript(link))
  {
    SpellIsLink(link);
    SpellExit("0");
    SpellRemove(link);
    SpellOperators();
    var c := Last(Remove(link));
    var b := Then(Exit("0"), ";", c);
    assert ScriptText(b) == Line(Exit("0")) + (Spaced(";") + ScriptText(c));
    assert "exit " + "0" == "exit 0";
  }

  lemma TestsArePlain(p: string)
    ensures PlainLine(NotThere(p)) && PlainLine(IsLink(p))
  {
  }

  lemma ExitIsPlain()
    ensures PlainLine(Exit("0")) && PlainLine(Exit("1"))
  {
  }

  lemma MakeDirIsPlain(p: string)
    ensures PlainLine(MakeDir(p))
  {
  }

  lemma MakeLinkIsPlain(p: string, q: string)
    ensures PlainLine(MakeLink(p, q))
  {
  }

  lemma RemoveIsPlain(p: string)
    ensures PlainLine(Remove(p))
  {
  }

  lemma InstallScriptIsWellFormed(sidecar: string, link: string, dir: string)
    ensures WellFormed(InstallScript(sidecar, link, dir))
  {
    TestsArePlain(link);
    ExitIsPlain();
    MakeDirIsPlain(dir);
    MakeLinkIsPlain(sidecar, link);
    var d := Then(MakeDir(dir), "&&", Last(MakeLink(sidecar, link)));
    assert WellFormed(d);
    assert WellFormed(Then(Exit("1"), ";", d));
  }

  lemma UninstallScriptIsWellFormed(link: string)
    ensures WellFormed(UninstallScript(link))
  {
    TestsArePlain(link);
    ExitIsPlain();
    RemoveIsPlain(link);
  }

  /** For all paths the shell sees the same command skeleton with every path as a single word. */
  lemma NestedQuotingUndoesItself(sidecar: string, link: string, dir: string)
    ensures var shell := ShellOfScript(AdminScript(SymlinkShell(sidecar, link, dir)));
      shell.Some? && ShellTokens(shell.value) == Some(ScriptTokens(InstallScript(sidecar, link, dir)))
  {
    AdminScriptRoundTrip(SymlinkShell(sidecar, link, dir));
    SymlinkShellSpelling(sidecar, link, dir);
    InstallScriptIsWellFormed(sidecar, link, dir);
    TokensOfScript(InstallScript(sidecar, link, dir));
  }

  lemma NestedUnlinkUndoesItself(link: string)
    ensures var shell := ShellOfScript(AdminScript(UnlinkShell(link)));
      shell.Some? && ShellTokens(shell.value) == Some(ScriptTokens(UninstallScript(link)))
  {
    AdminScriptRoundTrip(UnlinkShell(link));
    UnlinkShellSpelling(link);
    UninstallScriptIsWellFormed(link);
    TokensOfScript(UninstallScript(link));
  }

  lemma TokensOfScript(sc: Script)
    requires WellFormed(sc)
    ensures ShellTokens(ScriptText(sc)) == Some(ScriptTokens(sc))
  {
    ScriptReadsBack(sc, []);
    assert [] + ScriptTokens(sc) == ScriptTokens(sc);
  }

  /** What the shell sees of the install command, word by word. */
  lemma InstallTokensAre(s: string, l: string, d: string)
    ensures ScriptTokens(InstallScript(s, l, d)) ==
      [Word("["), Word("!"), Word("-e"), Word(l), Word("]"), Operator("||")]
      + ([Word("["), Word("-L"), Word(l), Word("]"), Operator("||")]
         + ([Word("exit"), Word("1"), Operator(";")]
            + ([Word("/bin/mkdir"), Word("-p"), Word(d), Operator("&&")]
               + [Word("/bin/ln"), Word("-sfn"), Word(s), Word(l)])))
  {
    assert Words(NotThere(l)) + [Operator("||")] == [Word("["), Word("!"), Word("-e"), Word(l), Word("]"), Operator("||")];
    assert Words(IsLink(l)) + [Operator("||")] == [Word("["), Word("-L"), Word(l), Word("]"), Operator("||")];
    assert Words(Exit("1")) + [Operator(";")] == [Word("exit"), Word("1"), Operator(";")];
    assert Words(MakeDir(d)) + [Operator("&&")] == [Word("/bin/mkdir"), Word("-p"), Word(d), Operator("&&")];
    assert Words(MakeLink(s, l)) == [Word("/bin/ln"), Word("-sfn"), Word(s), Word(l)];
    var e := Last(MakeLink(s, l));
    var m := Then(MakeDir(d), "&&", e);
    var c := Then(Exit("1"), ";", m);
    assert ScriptTokens(m) == Words(MakeDir(d)) + [Operator("&&")] + ScriptTokens(e);
    assert ScriptTokens(c) == Words(Exit("1")) + [Operator(";")] + ScriptTokens(m);
  }

  lemma UninstallTokensAre(l: string)
    ensures ScriptTokens(UninstallScript(l)) ==
      [Word("["), Word("-L"), Word(l), Word("]"), Operator("||")]
      + ([Word("exit"), Word("0"), Operator(";")] + [Word("/bin/rm"), Word("-f"), Word(l)])
  {
    assert Words(IsLink(l)) + [Operator("||")] == [Word("["), Word("-L"), Word(l), Word("]"), Operator("||")];
    assert Words(Exit("0")) + [Operator(";")] == [Word("exit"), Word("0"), Operator(";")];
    assert Words(Remove(l)) == [Word("/bin/rm"), Word("-f"), Word(l)];
    var c := Then(Exit("0"), ";", Last(Remove(l)));
    assert ScriptTokens(c) == Words(Exit("0")) + [Operator(";")] + ScriptTokens(Last(Remove(l)));
  }
}
