/**
 What the privileged shell commands do when they finally run, possibly minutes after the
 authorisation dialog opened: they look at the link again before touching it
 (src-tauri/src/tui_install.rs). The AND-OR lists follow section 2.9.3 of the POSIX.1-2017 Shell
 Command Language; paths are texts, and a link leads where a function says.
 */
module PrivilegedScript {
  import opened Wrappers
  import opened Quoting

  datatype Node = Regular(content: string) | Directory | Symlink(target: string)

  type Fs = map<string, Node>

  /** The files, the status of the last command, and whether the shell has exited. */
  datatype Shell = Shell(fs: Fs, status: nat, exited: bool)

  /** Where a symbolic link leads in the end. */
  datatype LinkEnd = ToNothing | ToFile | ToDirectory

  /** Follows a symbolic link: false for one that dangles. */
  predicate Exists(p: string, fs: Fs, ends: string -> LinkEnd) {
    p in fs && (fs[p].Symlink? ==> ends(p) != ToNothing)
  }

  predicate IsSymlink(p: string, fs: Fs) {
    p in fs && fs[p].Symlink?
  }

  function Status(ok: bool): nat {
    if ok then 0 else 1
  }

  // ----- Making a directory and those above it -----

  /** The paths that end at one of the first n characters of d, outermost first. */
  function LevelsUpTo(d: string, n: nat): seq<string>
    requires n <= |d|
  {
    if n == 0 then []
    else
      LevelsUpTo(d, n - 1) + (if d[n - 1] != '/' && (n == |d| || d[n] == '/') then [d[..n]] else [])
  }

  /** A directory below the root, and the directories that it lies in. */
  function Levels(d: string): seq<string> {
    LevelsUpTo(d, |d|)
  }

  /** Nothing there, or a directory, directly or through a link. */
  predicate DirPossible(d: string, fs: Fs, ends: string -> LinkEnd) {
    d in fs ==> fs[d].Directory? || (fs[d].Symlink? && ends(d) == ToDirectory)
  }

  /** Makes the missing directories one after the other, up to one that cannot be. */
  function MakeDirs(levels: seq<string>, fs: Fs, ends: string -> LinkEnd): (Fs, bool) {
    if levels == [] then (fs, true)
    else
      var d := levels[|levels| - 1];
      var (made, ok) := MakeDirs(levels[..|levels| - 1], fs, ends);
      if !ok || !DirPossible(d, made, ends) then (made, false)
      else (if d in made then made else made[d := Directory], true)
  }

  ghost predicate AllPossible(levels: seq<string>, fs: Fs, ends: string -> LinkEnd) {
    forall i :: 0 <= i < |levels| ==> DirPossible(levels[i], fs, ends)
  }

  /** It works exactly if every level may be a directory, and then all are there; what was there
      stays as it was, and everything new is an empty level. */
  lemma {:induction false} MakeDirsIff(levels: seq<string>, fs: Fs, ends: string -> LinkEnd)
    ensures var (made, ok) := MakeDirs(levels, fs, ends);
      && (ok <==> AllPossible(levels, fs, ends))
      && (ok ==> forall i :: 0 <= i < |levels| ==> levels[i] in made)
      && (forall p :: p in fs ==> p in made && made[p] == fs[p])
      && (forall p :: p in made ==> p in fs || (p in levels && made[p] == Directory))
  {
    if levels != [] {
      var n := |levels| - 1;
      MakeDirsIff(levels[..n], fs, ends);
      assert forall p :: p in levels <==> p in levels[..n] || p == levels[n];
      assert AllPossible(levels, fs, ends) <==> AllPossible(levels[..n], fs, ends) && DirPossible(levels[n], fs, ends);
    }
  }

  /** Up to its n-th character the path names a directory: the character is not a slash, and the path
      ends there or a slash follows. */
  ghost predicate EndsAt(d: string, n: nat) {
    0 < n <= |d| && d[n - 1] != '/' && (n == |d| || d[n] == '/')
  }

  lemma {:induction false} LevelsUpToIff(d: string, m: nat, p: string)
    requires m <= |d|
    ensures p in LevelsUpTo(d, m) <==> exists n: nat :: n <= m && EndsAt(d, n) && p == d[..n]
  {
    if m > 0 {
      LevelsUpToIff(d, m - 1, p);
      if EndsAt(d, m) && p == d[..m] { assert p in LevelsUpTo(d, m); }
    }
  }

  /** The levels of a path are exactly the paths of the directories that it goes through. */
  lemma LevelsIff(d: string, p: string)
    ensures p in Levels(d) <==> exists n: nat :: EndsAt(d, n) && p == d[..n]
  {
    LevelsUpToIff(d, |d|, p);
    if n: nat :| EndsAt(d, n) && p == d[..n] { assert n <= |d|; }
  }

  /** The levels of a path are no longer than the path, so what lies in it is none of them. */
  lemma {:induction false} LevelsAreShort(d: string, n: nat, p: string)
    requires n <= |d| && p in LevelsUpTo(d, n)
    ensures |p| <= n
  {
    if n > 0 && p in LevelsUpTo(d, n - 1) { LevelsAreShort(d, n - 1, p); }
  }

  /** One command; None for a command line that is none of those the scripts contain, and for
      `ln` onto a directory, where it would link inside. */
  function Execute(words: seq<string>, sh: Shell, ends: string -> LinkEnd): Option<Shell> {
    if |words| == 5 && words[0] == "[" && words[1] == "!" && words[2] == "-e" && words[4] == "]" then
      Some(sh.(status := Status(!Exists(words[3], sh.fs, ends))))
    else if |words| == 4 && words[0] == "[" && words[1] == "-L" && words[3] == "]" then
      Some(sh.(status := Status(IsSymlink(words[2], sh.fs))))
    else if |words| == 2 && words[0] == "exit" && words[1] == "0" then Some(sh.(status := 0, exited := true))
    else if |words| == 2 && words[0] == "exit" && words[1] == "1" then Some(sh.(status := 1, exited := true))
    else if |words| == 3 && words[0] == "/bin/mkdir" && words[1] == "-p" then
      var (made, ok) := MakeDirs(Levels(words[2]), sh.fs, ends);
      Some(sh.(status := Status(ok), fs := made))
    else if |words| == 4 && words[0] == "/bin/ln" && words[1] == "-sfn" then
      if words[3] in sh.fs && sh.fs[words[3]].Directory? then None
      else Some(sh.(status := 0, fs := sh.fs[words[3] := Symlink(words[2])]))
    else if |words| == 3 && words[0] == "/bin/rm" && words[1] == "-f" then
      if words[2] in sh.fs && sh.fs[words[2]].Directory? then Some(sh.(status := 1))
      else Some(sh.(status := 0, fs := sh.fs - {words[2]}))
    else None
  }

  /** Runs the words collected so far, unless the operator before them said to skip. */
  function Finish(words: seq<string>, runs: bool, sh: Shell, ends: string -> LinkEnd): Option<Shell> {
    if runs && !sh.exited then Execute(words, sh, ends) else Some(sh)
  }

  predicate Proceeds(op: string, status: nat) {
    op == ";" || (op == "&&" && status == 0) || (op == "||" && status != 0)
  }

  /** Evaluates a token list from left to right: `;` always goes on, `&&` after success and `||`
      after failure, a skipped command leaving the status as it was. */
  function Run(tokens: seq<Token>, words: seq<string>, runs: bool, sh: Shell, ends: string -> LinkEnd): Option<Shell> {
    if tokens == [] then Finish(words, runs, sh, ends)
    else
      match tokens[0]
      case Word(w) => Run(tokens[1..], words + [w], runs, sh, ends)
      case Operator(op) =>
        var next := Finish(words, runs, sh, ends);
        if next.None? then None
        else Run(tokens[1..], [], Proceeds(op, next.value.status), next.value, ends)
  }

  function Texts(args: seq<Arg>): seq<string> {
    seq(|args|, i requires 0 <= i < |args| => args[i].text)
  }

  lemma {:induction false} RunWords(
      args: seq<Arg>, tail: seq<Token>, words: seq<string>, runs: bool, sh: Shell, ends: string -> LinkEnd)
    ensures Run(Words(args) + tail, words, runs, sh, ends) ==
      Run(tail, words + Texts(args), runs, sh, ends)
  {
    if args == [] {
      assert Words(args) + tail == tail && words + Texts(args) == words;
    } else {
      var tokens := Words(args) + tail;
      assert tokens[0] == Word(args[0].text) && tokens[1..] == Words(args[1..]) + tail;
      RunWords(args[1..], tail, words + [args[0].text], runs, sh, ends);
      assert words + [args[0].text] + Texts(args[1..]) == words + Texts(args);
    }
  }

  /** A line followed by an operator: run it, then decide about the rest. */
  lemma RunThen(args: seq<Arg>, op: string, rest: Script, runs: bool, sh: Shell, ends: string -> LinkEnd)
    ensures Run(ScriptTokens(Then(args, op, rest)), [], runs, sh, ends) ==
      var next := Finish(Texts(args), runs, sh, ends);
      if next.None? then None
      else Run(ScriptTokens(rest), [], Proceeds(op, next.value.status), next.value, ends)
  {
    var tail := [Operator(op)] + ScriptTokens(rest);
    assert ScriptTokens(Then(args, op, rest)) == Words(args) + tail;
    RunWords(args, tail, [], runs, sh, ends);
    assert [] + Texts(args) == Texts(args);
    assert tail[1..] == ScriptTokens(rest);
  }

  lemma RunLast(args: seq<Arg>, runs: bool, sh: Shell, ends: string -> LinkEnd)
    ensures Run(ScriptTokens(Last(args)), [], runs, sh, ends) == Finish(Texts(args), runs, sh, ends)
  {
    RunWords(args, [], [], runs, sh, ends);
    assert Words(args) + [] == Words(args) && [] + Texts(args) == Texts(args);
  }

  // ----- The commands one by one -----

  lemma DoNotThere(p: string, sh: Shell, ends: string -> LinkEnd)
    ensures Execute(Texts(NotThere(p)), sh, ends) == Some(sh.(status := Status(!Exists(p, sh.fs, ends))))
  {
  }

  lemma DoIsLink(p: string, sh: Shell, ends: string -> LinkEnd)
    ensures Execute(Texts(IsLink(p)), sh, ends) == Some(sh.(status := Status(IsSymlink(p, sh.fs))))
  {
  }

  lemma DoExit(sh: Shell, ends: string -> LinkEnd)
    ensures Execute(Texts(Exit("0")), sh, ends) == Some(sh.(status := 0, exited := true))
    ensures Execute(Texts(Exit("1")), sh, ends) == Some(sh.(status := 1, exited := true))
  {
  }

  lemma DoMakeDir(d: string, sh: Shell, ends: string -> LinkEnd)
    ensures var (made, ok) := MakeDirs(Levels(d), sh.fs, ends);
      Execute(Texts(MakeDir(d)), sh, ends) == Some(sh.(status := Status(ok), fs := made))
  {
  }

  lemma DoMakeLink(s: string, l: string, sh: Shell, ends: string -> LinkEnd)
    requires l in sh.fs ==> !sh.fs[l].Directory?
    ensures Execute(Texts(MakeLink(s, l)), sh, ends) == Some(sh.(status := 0, fs := sh.fs[l := Symlink(s)]))
  {
  }

  lemma DoRemove(l: string, sh: Shell, ends: string -> LinkEnd)
    requires l in sh.fs ==> !sh.fs[l].Directory?
    ensures Execute(Texts(Remove(l)), sh, ends) == Some(sh.(status := 0, fs := sh.fs - {l}))
  {
  }

  // ----- The two scripts as a whole -----

  /** From the text given to osascript to the files: decode, tokenise, run. */
  function RunAdminScript(script: string, fs: Fs, ends: string -> LinkEnd): Option<Shell> {
    var shell := ShellOfScript(script);
    if shell.None? then None
    else
      var tokens := ShellTokens(shell.value);
      if tokens.None? then None else Run(tokens.value, [], true, Shell(fs, 0, false), ends)
  }

  /** An exited shell runs nothing more. */
  lemma {:induction false} ExitedStays(sc: Script, runs: bool, sh: Shell, ends: string -> LinkEnd)
    requires sh.exited
    ensures Run(ScriptTokens(sc), [], runs, sh, ends) == Some(sh)
  {
    match sc
    case Last(args) => RunLast(args, runs, sh, ends);
    case Then(args, op, rest) =>
      RunThen(args, op, rest, runs, sh, ends);
      ExitedStays(rest, Proceeds(op, sh.status), sh, ends);
  }

  /** The part after the guard. */
  lemma RunCreate(sidecar: string, link: string, dir: string, sh: Shell, ends: string -> LinkEnd)
    requires !sh.exited && |dir| < |link| && (link in sh.fs ==> !sh.fs[link].Directory?)
    ensures var (made, ok) := MakeDirs(Levels(dir), sh.fs, ends);
      Run(ScriptTokens(Then(MakeDir(dir), "&&", Last(MakeLink(sidecar, link)))), [], true, sh, ends) ==
      Some(sh.(status := Status(ok), fs := if ok then made[link := Symlink(sidecar)] else made))
  {
    RunThen(MakeDir(dir), "&&", Last(MakeLink(sidecar, link)), true, sh, ends);
    DoMakeDir(dir, sh, ends);
    var next := Execute(Texts(MakeDir(dir)), sh, ends).value;
    RunLast(MakeLink(sidecar, link), next.status == 0, next, ends);
    MakeDirsIff(Levels(dir), sh.fs, ends);
    if link in Levels(dir) { LevelsAreShort(dir, |dir|, link); }
    if next.status == 0 { DoMakeLink(sidecar, link, next, ends); }
  }

  /** The guard: anything but a symbolic link at the link's place stops the script. */
  lemma RunGuard(link: string, rest: Script, fs: Fs, ends: string -> LinkEnd)
    ensures Run(ScriptTokens(Then(NotThere(link), "||", Then(IsLink(link), "||", Then(Exit("1"), ";", rest)))),
                [], true, Shell(fs, 0, false), ends) ==
      if link in fs && !fs[link].Symlink? then Some(Shell(fs, 1, true))
      else Run(ScriptTokens(rest), [], true, Shell(fs, 0, false), ends)
  {
    var sh := Shell(fs, 0, false);
    var c := Then(Exit("1"), ";", rest);
    var b := Then(IsLink(link), "||", c);
    RunThen(NotThere(link), "||", b, true, sh, ends);
    DoNotThere(link, sh, ends);
    var s1 := sh.(status := Status(!Exists(link, fs, ends)));
    RunThen(IsLink(link), "||", c, s1.status != 0, s1, ends);
    DoIsLink(link, s1, ends);
    var s2 := if s1.status != 0 then s1.(status := Status(IsSymlink(link, fs))) else s1;
    RunThen(Exit("1"), ";", rest, s2.status != 0, s2, ends);
    DoExit(s2, ends);
    if s2.status != 0 { ExitedStays(rest, true, s2.(status := 1, exited := true), ends); }
  }

  /** Whatever the link's place holds when the install script runs: a file or directory is left
      alone, and everything else ends up as the link to the sidecar, unless a directory that the
      link is to lie in cannot be made. Nothing but the link and those directories changes. */
  lemma InstallScriptRechecks(sidecar: string, link: string, dir: string, fs: Fs, ends: string -> LinkEnd)
    requires |dir| < |link|
    ensures var (made, ok) := MakeDirs(Levels(dir), fs, ends);
      RunAdminScript(AdminScript(SymlinkShell(sidecar, link, dir)), fs, ends) == Some(
        if link in fs && !fs[link].Symlink? then Shell(fs, 1, true)
        else if !ok then Shell(made, 1, false)
        else Shell(made[link := Symlink(sidecar)], 0, false))
  {
    NestedQuotingUndoesItself(sidecar, link, dir);
    RunGuard(link, Then(MakeDir(dir), "&&", Last(MakeLink(sidecar, link))), fs, ends);
    if !(link in fs && !fs[link].Symlink?) {
      RunCreate(sidecar, link, dir, Shell(fs, 0, false), ends);
    }
  }

  /** After an install that works, the link's directory and every directory it lies in are there, as
      directories or links to one, and the link leads to the sidecar. */
  lemma InstalledDirectoriesAreThere(
      sidecar: string, link: string, dir: string, fs: Fs, ends: string -> LinkEnd, after: Shell, n: nat)
    requires |dir| < |link| && EndsAt(dir, n)
    requires RunAdminScript(AdminScript(SymlinkShell(sidecar, link, dir)), fs, ends) == Some(after) && after.status == 0
    ensures link in after.fs && after.fs[link] == Symlink(sidecar)
    ensures var d := dir[..n];
      d in after.fs && (after.fs[d] == Directory || (after.fs[d].Symlink? && ends(d) == ToDirectory))
  {
    var levels, d := Levels(dir), dir[..n];
    InstallScriptRechecks(sidecar, link, dir, fs, ends);
    MakeDirsIff(levels, fs, ends);
    LevelsIff(dir, d);
    var i :| 0 <= i < |levels| && levels[i] == d;
    assert DirPossible(levels[i], fs, ends);
  }

  /** The command is asked for with administrator privileges, as one AppleScript string. */
  lemma AsksForPrivileges(shell: string) returns (literal: string)
    ensures AdminScript(shell) == "do shell script " + ("\"" + literal + "\"") + " with administrator privileges"
    ensures ReadLiteralBody(literal + "\"") == Some((shell, ""))
  {
    literal := AppleScriptEscape(shell);
    LiteralRoundTrip(shell, "");
    var closed := literal + "\"";
    assert closed + "" == closed;
  }

  /** The uninstall script removes a symbolic link and nothing else. */
  lemma UninstallScriptRechecks(link: string, fs: Fs, ends: string -> LinkEnd)
    ensures RunAdminScript(AdminScript(UnlinkShell(link)), fs, ends) == Some(
      if IsSymlink(link, fs) then Shell(fs - {link}, 0, false) else Shell(fs, 0, true))
  {
    NestedUnlinkUndoesItself(link);
    var sh := Shell(fs, 0, false);
    var b := Then(Exit("0"), ";", Last(Remove(link)));
    RunThen(IsLink(link), "||", b, true, sh, ends);
    DoIsLink(link, sh, ends);
    var s1 := sh.(status := Status(IsSymlink(link, fs)));
    RunThen(Exit("0"), ";", Last(Remove(link)), s1.status != 0, s1, ends);
    DoExit(s1, ends);
    if s1.status != 0 {
      ExitedStays(Last(Remove(link)), true, s1.(status := 0, exited := true), ends);
    } else {
      RunLast(Remove(link), true, s1, ends);
      DoRemove(link, s1, ends);
    }
  }

  ghost predicate AllThere(levels: seq<string>, fs: Fs) {
    forall i :: 0 <= i < |levels| ==> levels[i] in fs
  }

  lemma NothingToMake(levels: seq<string>, fs: Fs, ends: string -> LinkEnd)
    requires AllThere(levels, fs) && AllPossible(levels, fs, ends)
    ensures MakeDirs(levels, fs, ends) == (fs, true)
  {
    MakeDirsIff(levels, fs, ends);
    assert MakeDirs(levels, fs, ends).0 == fs by {
      assert forall i :: 0 <= i < |levels| ==> levels[i] in fs;
    }
  }

  /** Where the directory is there, removing the link right after installing it restores everything. */
  lemma UninstallUndoesInstall(sidecar: string, link: string, dir: string, fs: Fs, ends: string -> LinkEnd)
    requires |dir| < |link| && link !in fs
    requires AllThere(Levels(dir), fs) && AllPossible(Levels(dir), fs, ends)
    ensures var installed := RunAdminScript(AdminScript(SymlinkShell(sidecar, link, dir)), fs, ends);
      installed.Some? && installed.value.status == 0
      && RunAdminScript(AdminScript(UnlinkShell(link)), installed.value.fs, ends) == Some(Shell(fs, 0, false))
  {
    InstallScriptRechecks(sidecar, link, dir, fs, ends);
    NothingToMake(Levels(dir), fs, ends);
    UninstallScriptRechecks(link, fs[link := Symlink(sidecar)], ends);
    assert fs[link := Symlink(sidecar)] - {link} == fs;
  }
}
