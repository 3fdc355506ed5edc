/**
 Editing the Windows user PATH, a list of directories separated by semicolons: only one's own
 entry is added or removed (src-tauri/src/tui_install.rs). Lower-casing is a parameter of every
 function that compares directories, since it is Unicode's; all that is used of it is that it
 neither makes nor destroys a semicolon.
 */
module PathList {
  import opened Wrappers
  import opened Sequences
  import opened Text
  import StableSort

  const SEP: char := ';'

  predicate IsSep(c: char) { c == SEP }

  predicate IsQuote(c: char) { c == '"' }

  predicate IsSlash(c: char) { c == '\\' || c == '/' }

  predicate Blank(e: string) {
    Trim(e, IsRustSpace) == ""
  }

  /** The form in which directories are compared. */
  function NormDir(s: string, lower: string -> string): string {
    lower(TrimEnd(Trim(Trim(s, IsRustSpace), IsQuote), IsSlash))
  }

  ghost predicate KeepsSeparators(lower: string -> string) {
    forall s :: SEP in lower(s) <==> SEP in s
  }

  function NonBlank(parts: seq<string>): seq<string> {
    if parts == [] then [] else (if Blank(parts[0]) then [] else [parts[0]]) + NonBlank(parts[1..])
  }

  function Entries(path: string): seq<string> {
    NonBlank(Split(path, SEP))
  }

  predicate PathContains(path: string, dir: string, lower: string -> string) {
    exists i :: 0 <= i < |Entries(path)| && NormDir(Entries(path)[i], lower) == NormDir(dir, lower)
  }

  function PathWith(path: string, dir: string, lower: string -> string): string {
    if PathContains(path, dir, lower) then path
    else if Entries(path) == [] then dir
    else TrimEnd(path, IsSep) + [SEP] + dir
  }

  /** The entries that differ from `want` once normalised. */
  function Others(entries: seq<string>, want: string, lower: string -> string): seq<string> {
    if entries == [] then []
    else (if NormDir(entries[0], lower) != want then [entries[0]] else []) + Others(entries[1..], want, lower)
  }

  function PathWithout(path: string, dir: string, lower: string -> string): string {
    Join(Others(Entries(path), NormDir(dir, lower), lower), SEP)
  }

  // ----- Spellings and entries -----

  ghost predicate Only(s: string, chars: string) {
    forall i :: 0 <= i < |s| ==> s[i] in chars
  }

  /** Which spellings are equal: blanks around, then double quotes around, then slashes of either kind
      at the end, and then letter case do not matter. */
  lemma SpellingDoesNotMatter(
      before: string, quote: string, core: string, slashes: string, unquote: string, after: string, lower: string -> string)
    requires AllBetween(before, 0, |before|, IsRustSpace) && AllBetween(after, 0, |after|, IsRustSpace)
    requires Only(quote, "\"") && Only(unquote, "\"") && Only(slashes, "\\/")
    requires core != "" && !IsRustSpace(core[0]) && core[0] != '"'
    requires !IsRustSpace(core[|core| - 1]) && core[|core| - 1] !in "\"\\/"
    ensures NormDir(before + (quote + (core + slashes) + unquote) + after, lower) == lower(core)
  {
    var path := core + slashes;
    var quoted := quote + path + unquote;
    assert path[0] == core[0];
    assert path[|path| - 1] == if slashes == "" then core[|core| - 1] else slashes[|slashes| - 1];
    assert quoted[0] == if quote == "" then path[0] else quote[0];
    assert quoted[|quoted| - 1] == if unquote == "" then path[|path| - 1] else unquote[|unquote| - 1];
    TrimAround(before, quoted, after, IsRustSpace);
    TrimAround(quote, path, unquote, IsQuote);
    TrimEndOf(core, slashes, IsSlash);
  }

  ghost predicate HasText(e: string) {
    exists j :: 0 <= j < |e| && !IsRustSpace(e[j])
  }

  lemma BlankIff(e: string)
    ensures Blank(e) <==> !HasText(e)
  {
    TrimEmptyIff(e, IsRustSpace);
  }

  lemma {:induction false} NonBlankTakes(parts: seq<string>) returns (at: seq<nat>)
    ensures StableSort.TakenAt(parts, NonBlank(parts), at)
    ensures forall i :: 0 <= i < |parts| ==> (i in at <==> HasText(parts[i]))
  {
    NonBlankFilters(parts);
    at := StableSort.FilterTakes(parts, e => !Blank(e));
    forall i | 0 <= i < |parts| ensures i in at <==> HasText(parts[i]) { BlankIff(parts[i]); }
  }

  lemma {:induction false} NonBlankFilters(parts: seq<string>)
    ensures NonBlank(parts) == StableSort.Filter(parts, e => !Blank(e))
  {
    if parts != [] {
      NonBlankFilters(parts[1..]);
      HeadTail(parts);
      StableSort.FilterCons(parts[0], parts[1..], e => !Blank(e));
    }
  }

  /** The entries are the parts between semicolons that hold anything but blanks, in order. */
  lemma EntriesAreThePartsWithText(path: string) returns (at: seq<nat>)
    ensures StableSort.TakenAt(Split(path, ';'), Entries(path), at)
    ensures forall i :: 0 <= i < |Split(path, ';')| ==> (i in at <==> HasText(Split(path, ';')[i]))
  {
    at := NonBlankTakes(Split(path, ';'));
  }

  // ----- Entries of composed paths -----

  lemma {:induction false} NonBlankConcat(a: seq<string>, b: seq<string>)
    ensures NonBlank(a + b) == NonBlank(a) + NonBlank(b)
  {
    if a == [] {
      assert a + b == b;
    } else {
      NonBlankConcat(a[1..], b);
      ConcatTail(a, b);
      Assoc(if Blank(a[0]) then [] else [a[0]], NonBlank(a[1..]), NonBlank(b));
    }
  }

  lemma EntriesAcross(a: string, b: string)
    ensures Entries(a + [SEP] + b) == Entries(a) + Entries(b)
  {
    SplitAcross(a, SEP, b);
    NonBlankConcat(Split(a, SEP), Split(b, SEP));
  }

  lemma NoEntriesInBlank(e: string)
    requires Blank(e)
    ensures SEP !in e && Entries(e) == []
  {
    TrimEmptyIff(e, IsRustSpace);
    SplitWithoutSeparator(e, SEP);
    assert NonBlank([e]) == [] + NonBlank([e][1..]);
  }

  lemma OneEntry(dir: string)
    requires !Blank(dir) && SEP !in dir
    ensures Entries(dir) == [dir]
  {
    SplitWithoutSeparator(dir, SEP);
    assert NonBlank([dir]) == [dir] + NonBlank([dir][1..]);
  }

  lemma BlankNothing()
    ensures Blank("")
  {
  }

  lemma {:induction false} EntriesOfTrimmed(path: string)
    ensures Entries(TrimEnd(path, IsSep)) == Entries(path)
  {
    if path != "" && IsSep(path[|path| - 1]) {
      var init := path[..|path| - 1];
      EntriesOfTrimmed(init);
      assert path == init + [SEP] + "";
      EntriesAcross(init, "");
      BlankNothing();
      NoEntriesInBlank("");
    }
  }

  lemma EntriesOfPathWith(path: string, dir: string, lower: string -> string)
    requires !PathContains(path, dir, lower)
    ensures Entries(PathWith(path, dir, lower)) == Entries(path) + Entries(dir)
  {
    if Entries(path) != [] {
      EntriesAcross(TrimEnd(path, IsSep), dir);
      EntriesOfTrimmed(path);
    } else {
      assert [] + Entries(dir) == Entries(dir);
    }
  }

  /** Every entry is a part between separators, and not blank. */
  ghost predicate ProperEntries(entries: seq<string>) {
    forall i :: 0 <= i < |entries| ==> SEP !in entries[i] && !Blank(entries[i])
  }

  lemma {:induction false} NonBlankAreProper(parts: seq<string>)
    requires NoneContains(parts, SEP)
    ensures ProperEntries(NonBlank(parts))
  {
    if parts != [] { NonBlankAreProper(parts[1..]); }
  }

  lemma EntriesAreProper(path: string)
    ensures ProperEntries(Entries(path))
  {
    SplitPartsLackSeparator(path, SEP);
    NonBlankAreProper(Split(path, SEP));
  }

  lemma {:induction false} ProperEntriesStay(entries: seq<string>)
    requires ProperEntries(entries)
    ensures NonBlank(entries) == entries
  {
    if entries != [] {
      ProperEntriesStay(entries[1..]);
      HeadTail(entries);
    }
  }

  /** Joining proper entries and splitting again gives them back. */
  lemma EntriesOfJoin(entries: seq<string>)
    requires ProperEntries(entries)
    ensures Entries(Join(entries, SEP)) == entries
  {
    if entries == [] {
      BlankNothing();
      NoEntriesInBlank("");
    } else {
      SplitJoin(entries, SEP);
      ProperEntriesStay(entries);
    }
  }

  // ----- Adding -----

  /** What install promises for a directory that is not blank and has no semicolon: at most one
      entry is appended, and only if no equal one is there. */
  lemma PathWithAppendsOnce(path: string, dir: string, lower: string -> string)
    requires !Blank(dir) && SEP !in dir
    ensures Entries(PathWith(path, dir, lower)) ==
      if PathContains(path, dir, lower) then Entries(path) else Entries(path) + [dir]
    ensures PathContains(PathWith(path, dir, lower), dir, lower)
  {
    if !PathContains(path, dir, lower) {
      EntriesOfPathWith(path, dir, lower);
      OneEntry(dir);
      assert Entries(PathWith(path, dir, lower))[|Entries(path)|] == dir;
    }
  }

  /** The text that install writes: the old one if the directory is there, the directory alone if
      there is no entry, else the old one, less semicolons at its end, a semicolon and the directory. */
  lemma PathWithText(path: string, dir: string, lower: string -> string) returns (k: nat)
    ensures k <= |path| && Only(path[k..], ";") && (k > 0 ==> path[k - 1] != ';')
    ensures PathWith(path, dir, lower) ==
      if exists i :: 0 <= i < |Entries(path)| && NormDir(Entries(path)[i], lower) == NormDir(dir, lower) then path
      else if Entries(path) == [] then dir
      else path[..k] + ";" + dir
  {
    k := TrimEndIsPrefix(path, IsSep);
    forall i | 0 <= i < |path[k..]| ensures path[k..][i] in ";" {
      assert path[k..][i] == path[k + i] && IsSep(path[k + i]);
    }
  }

  /** A second install under another spelling of the same directory changes nothing. */
  lemma PathWithIsIdempotent(path: string, dir: string, other: string, lower: string -> string)
    requires !Blank(dir) && SEP !in dir && NormDir(other, lower) == NormDir(dir, lower)
    ensures PathWith(PathWith(path, dir, lower), other, lower) == PathWith(path, dir, lower)
  {
    PathWithAppendsOnce(path, dir, lower);
    var next := PathWith(path, dir, lower);
    var i :| 0 <= i < |Entries(next)| && NormDir(Entries(next)[i], lower) == NormDir(dir, lower);
    assert PathContains(next, other, lower);
  }

  lemma SeparatorSurvivesTrim(s: string, p: char -> bool)
    requires !p(SEP)
    ensures SEP in Trim(s, p) <==> SEP in s
    ensures SEP in TrimEnd(s, p) <==> SEP in s
  {
    var a, b := TrimIsSlice(s, p);
    var k := TrimEndIsPrefix(s, p);
    if SEP in s {
      var i :| 0 <= i < |s| && s[i] == SEP;
      assert a <= i < b && s[a..b][i - a] == SEP;
      assert i < k && s[..k][i] == SEP;
    }
  }

  lemma SeparatorSurvivesNorm(s: string, lower: string -> string)
    requires KeepsSeparators(lower)
    ensures SEP in NormDir(s, lower) <==> SEP in s
  {
    var t := Trim(s, IsRustSpace);
    SeparatorSurvivesTrim(s, IsRustSpace);
    SeparatorSurvivesTrim(t, IsQuote);
    SeparatorSurvivesTrim(Trim(t, IsQuote), IsSlash);
  }

  /** Exactly when the directory counts as present after being added: it was there before, or it
      is a directory the list can hold as one entry. */
  lemma AddedIsFoundIff(path: string, dir: string, lower: string -> string)
    requires KeepsSeparators(lower)
    ensures PathContains(PathWith(path, dir, lower), dir, lower) <==>
      PathContains(path, dir, lower) || (!Blank(dir) && SEP !in dir)
  {
    var next := PathWith(path, dir, lower);
    if PathContains(path, dir, lower) {
    } else if Blank(dir) {
      EntriesOfPathWith(path, dir, lower);
      NoEntriesInBlank(dir);
      assert Entries(path) + [] == Entries(path);
    } else if SEP in dir {
      EntriesAreProper(next);
      forall i | 0 <= i < |Entries(next)| ensures NormDir(Entries(next)[i], lower) != NormDir(dir, lower) {
        SeparatorSurvivesNorm(Entries(next)[i], lower);
        SeparatorSurvivesNorm(dir, lower);
      }
    } else {
      PathWithAppendsOnce(path, dir, lower);
    }
  }

  // ----- Removing -----

  lemma {:induction false} OthersSplit(a: seq<string>, b: seq<string>, want: string, lower: string -> string)
    ensures Others(a + b, want, lower) == Others(a, want, lower) + Others(b, want, lower)
  {
    if a == [] {
      assert a + b == b;
    } else {
      OthersSplit(a[1..], b, want, lower);
      ConcatTail(a, b);
      Assoc(if NormDir(a[0], lower) != want then [a[0]] else [], Others(a[1..], want, lower), Others(b, want, lower));
    }
  }

  lemma {:induction false} OthersAreKept(entries: seq<string>, want: string, lower: string -> string)
    ensures ProperEntries(entries) ==> ProperEntries(Others(entries, want, lower))
    ensures forall i :: 0 <= i < |Others(entries, want, lower)| ==>
      NormDir(Others(entries, want, lower)[i], lower) != want
  {
    if entries != [] { OthersAreKept(entries[1..], want, lower); }
  }

  lemma {:induction false} OthersAreAll(entries: seq<string>, want: string, lower: string -> string)
    requires forall i :: 0 <= i < |entries| ==> NormDir(entries[i], lower) != want
    ensures Others(entries, want, lower) == entries
  {
    if entries != [] {
      OthersAreAll(entries[1..], want, lower);
      HeadTail(entries);
    }
  }

  /** Uninstall removes every equal entry, keeps all others verbatim and in order, and leaves
      nothing that counts as the directory. */
  lemma PathWithoutRemovesExactly(path: string, dir: string, lower: string -> string)
    ensures Entries(PathWithout(path, dir, lower)) == Others(Entries(path), NormDir(dir, lower), lower)
    ensures !PathContains(PathWithout(path, dir, lower), dir, lower)
  {
    EntriesAreProper(path);
    OthersAreKept(Entries(path), NormDir(dir, lower), lower);
    EntriesOfJoin(Others(Entries(path), NormDir(dir, lower), lower));
  }

  /** No part between separators is blank, or there is nothing at all. */
  ghost predicate Tidy(path: string) {
    path == "" || forall i :: 0 <= i < |Split(path, SEP)| ==> !Blank(Split(path, SEP)[i])
  }

  lemma {:induction false} NonBlankIsShorter(parts: seq<string>)
    ensures |NonBlank(parts)| <= |parts|
    ensures NonBlank(parts) == parts <==> forall i :: 0 <= i < |parts| ==> !Blank(parts[i])
  {
    if parts != [] {
      NonBlankIsShorter(parts[1..]);
      HeadTail(parts);
      if !Blank(parts[0]) {
        ConsTail(parts[0], NonBlank(parts[1..]));
      }
    }
  }

  /** Rewriting the list from its entries reproduces it exactly when it is tidy. */
  lemma JoinOfEntriesIff(path: string)
    ensures Join(Entries(path), SEP) == path <==> Tidy(path)
  {
    NonBlankIsShorter(Split(path, SEP));
    JoinSplit(path, SEP);
    if Join(Entries(path), SEP) == path && Entries(path) != [] {
      EntriesAreProper(path);
      SplitJoin(Entries(path), SEP);
    }
    if path == "" {
      BlankNothing();
      NoEntriesInBlank("");
    }
  }

  /** Uninstalling what was just installed restores the entries, and the whole text exactly
      when it was tidy. */
  lemma UninstallUndoesInstall(path: string, dir: string, lower: string -> string)
    requires !Blank(dir) && SEP !in dir && !PathContains(path, dir, lower)
    ensures Entries(PathWithout(PathWith(path, dir, lower), dir, lower)) == Entries(path)
    ensures PathWithout(PathWith(path, dir, lower), dir, lower) == path <==> Tidy(path)
  {
    var want := NormDir(dir, lower);
    PathWithAppendsOnce(path, dir, lower);
    PathWithoutRemovesExactly(PathWith(path, dir, lower), dir, lower);
    OthersSplit(Entries(path), [dir], want, lower);
    OthersAreAll(Entries(path), want, lower);
    assert Others([dir], want, lower) == [] + Others([dir][1..], want, lower);
    assert Entries(path) + [] == Entries(path);
    JoinOfEntriesIff(path);
  }

  /** Uninstalling where nothing is installed leaves the text alone exactly when it is tidy. */
  lemma UninstallIsNoOpIff(path: string, dir: string, lower: string -> string)
    requires !PathContains(path, dir, lower)
    ensures PathWithout(path, dir, lower) == path <==> Tidy(path)
  {
    OthersAreAll(Entries(path), NormDir(dir, lower), lower);
    JoinOfEntriesIff(path);
  }

  lemma EntriesOfExample()
    ensures Entries("a;;b") == ["a", "b"]
  {
    OneEntry("a");
    OneEntry("b");
    BlankNothing();
    NoEntriesInBlank("");
    EntriesAcross("a", "");
    EntriesAcross("a;", "b");
    assert "a" + [SEP] + "" == "a;" && "a;" + [SEP] + "b" == "a;;b";
  }

  /** An empty part between two others is lost, although nothing was to be removed. */
  lemma UninstallTidiesUp(dir: string, lower: string -> string)
    requires NormDir(dir, lower) != NormDir("a", lower) && NormDir(dir, lower) != NormDir("b", lower)
    ensures !PathContains("a;;b", dir, lower) && PathWithout("a;;b", dir, lower) == "a;b"
  {
    var entries := ["a", "b"];
    EntriesOfExample();
    OthersAreAll(entries, NormDir(dir, lower), lower);
    assert entries[1..] == ["b"];
    assert "a" + [SEP] + "b" == "a;b";
  }

  // ----- The registry value -----

  /** The user PATH in the registry, and the number of times it was written. */
  class UserPath {
    var value: string
    var writes: nat

    constructor (initial: string)
      ensures value == initial && writes == 0
    {
      value, writes := initial, 0;
    }

    method Install(dir: string, lower: string -> string)
      modifies this
      ensures value == PathWith(old(value), dir, lower)
      ensures writes == old(writes) + (if value == old(value) then 0 else 1)
      ensures !Blank(dir) && SEP !in dir ==> (value == old(value) <==> PathContains(old(value), dir, lower))
    {
      var next := PathWith(value, dir, lower);
      if !Blank(dir) && SEP !in dir { PathWithAppendsOnce(value, dir, lower); }
      if next != value {
        value := next;
        writes := writes + 1;
      }
    }

    method Uninstall(dir: string, lower: string -> string)
      modifies this
      ensures value == PathWithout(old(value), dir, lower)
      ensures writes == old(writes) + (if value == old(value) then 0 else 1)
    {
      var next := PathWithout(value, dir, lower);
      if next != value {
        value := next;
        writes := writes + 1;
      }
    }
  }
}
