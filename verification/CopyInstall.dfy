/**
 The copying installer: a copy of the sidecar at a target path, and beside it a marker that
 records the copy's length and modification time, so that an outdated copy is recognised as
 one's own and a user's file of the same name is left alone (src-tauri/src/tui_install.rs).
 Every file operation may fail; how it fails is an argument.
 */
module CopyInstall {
  import opened Wrappers
  import opened Sequences
  import opened Text

  newtype byte = x: int | 0 <= x < 256

  const U64_LIMIT: nat := 0x1_0000_0000_0000_0000

  // ----- The marker -----

  /** The words of s, separated by runs of blanks; `cur` is the word under way. */
  function Fields(s: string, cur: string): seq<string> {
    if s == "" then (if cur == "" then [] else [cur])
    else if IsRustSpace(s[0]) then (if cur == "" then [] else [cur]) + Fields(s[1..], "")
    else Fields(s[1..], cur + [s[0]])
  }

  /** An unsigned 64-bit numeral: digits, with an optional plus sign. */
  function ParseU64(s: string): Option<nat> {
    var digits := if |s| > 1 && s[0] == '+' then s[1..] else s;
    if digits == "" || !AllDigits(digits) || NumeralValue(digits) >= U64_LIMIT then None
    else Some(NumeralValue(digits))
  }

  function MarkerContent(len: nat, mtime: nat): string {
    Numeral(len) + " " + Numeral(mtime) + "\n"
  }

  function ParseMarker(content: string): Option<(nat, nat)> {
    var parts := Fields(content, "");
    if |parts| != 2 then None
    else
      var (len, mtime) := (ParseU64(parts[0]), ParseU64(parts[1]));
      if len.Some? && mtime.Some? then Some((len.value, mtime.value)) else None
  }

  lemma {:induction false} FieldsOfWord(w: string, rest: string, cur: string)
    requires forall i :: 0 <= i < |w| ==> !IsRustSpace(w[i])
    ensures Fields(w + rest, cur) == Fields(rest, cur + w)
  {
    if w == "" {
      assert w + rest == rest && cur + w == cur;
    } else {
      assert (w + rest)[1..] == w[1..] + rest;
      FieldsOfWord(w[1..], rest, cur + [w[0]]);
      assert cur + [w[0]] + w[1..] == cur + w;
    }
  }

  lemma NumeralIsWord(n: nat)
    ensures forall i :: 0 <= i < |Numeral(n)| ==> !IsRustSpace(Numeral(n)[i])
  {
  }

  lemma NumeralParses(n: nat)
    requires n < U64_LIMIT
    ensures ParseU64(Numeral(n)) == Some(n)
  {
    NumeralRoundTrip(n);
    assert IsDigit(Numeral(n)[0]);
  }

  lemma EndOfFields(w: string)
    requires w != ""
    ensures Fields("\n", w) == [w]
  {
  }

  lemma NextField(rest: string, w: string)
    requires w != ""
    ensures Fields(" " + rest, w) == [w] + Fields(rest, "")
  {
  }

  /** Reading a marker gives back what was recorded. */
  lemma MarkerRoundTrip(len: nat, mtime: nat)
    requires len < U64_LIMIT && mtime < U64_LIMIT
    ensures ParseMarker(MarkerContent(len, mtime)) == Some((len, mtime))
  {
    var a, b := Numeral(len), Numeral(mtime);
    TwoFields(a, b);
    NumeralIsWord(len);
    NumeralIsWord(mtime);
    NumeralParses(len);
    NumeralParses(mtime);
  }

  lemma {:induction false} TwoFields(a: string, b: string)
    requires a != "" && forall i :: 0 <= i < |a| ==> !IsRustSpace(a[i])
    requires b != "" && forall i :: 0 <= i < |b| ==> !IsRustSpace(b[i])
    ensures Fields(a + " " + b + "\n", "") == [a, b]
  {
    Assoc(a + " ", b, "\n");
    Assoc(a, " ", b + "\n");
    FieldsOfWord(a, " " + (b + "\n"), "");
    assert "" + a == a && "" + b == b;
    NextField(b + "\n", a);
    FieldsOfWord(b, "\n", "");
    EndOfFields(b);
  }

  ghost predicate AllBlank(s: string) {
    forall i :: 0 <= i < |s| ==> IsRustSpace(s[i])
  }

  ghost predicate IsWord(s: string) {
    s != "" && forall i :: 0 <= i < |s| ==> !IsRustSpace(s[i])
  }

  /** Digits with an optional plus sign, below 2^64. */
  ghost predicate Spells(w: string, n: nat) {
    exists digits :: (w == digits || w == "+" + digits) && digits != "" && AllDigits(digits)
                     && NumeralValue(digits) == n && n < 0x1_0000_0000_0000_0000
  }

  lemma ParseU64Iff(w: string, n: nat)
    ensures ParseU64(w) == Some(n) <==> Spells(w, n)
  {
    if ParseU64(w) == Some(n) {
      var digits := if |w| > 1 && w[0] == '+' then w[1..] else w;
      assert w == digits || w == "+" + digits;
    }
    if Spells(w, n) {
      var digits :| (w == digits || w == "+" + digits) && digits != "" && AllDigits(digits)
                    && NumeralValue(digits) == n && n < 0x1_0000_0000_0000_0000;
      if w == digits {
        assert IsDigit(w[0]);
      } else {
        assert w[1..] == digits;
      }
    }
  }

  lemma {:induction false} FieldsOfBlanks(s: string, rest: string)
    requires AllBlank(s)
    ensures Fields(s + rest, "") == Fields(rest, "")
  {
    if s == "" {
      assert s + rest == rest;
    } else {
      assert (s + rest)[1..] == s[1..] + rest;
      FieldsOfBlanks(s[1..], rest);
    }
  }

  lemma FieldsAfterWord(w: string, gap: string, rest: string)
    requires IsWord(w) && AllBlank(gap) && gap != ""
    ensures Fields(w + (gap + rest), "") == [w] + Fields(rest, "")
  {
    FieldsOfWord(w, gap + rest, "");
    assert "" + w == w;
    assert (gap + rest)[1..] == gap[1..] + rest;
    FieldsOfBlanks(gap[1..], rest);
  }

  lemma FieldsOfLastWord(w: string, tail: string)
    requires IsWord(w) && AllBlank(tail)
    ensures Fields(w + tail, "") == [w]
  {
    if tail == "" {
      FieldsOfWord(w, "", "");
      assert w + "" == w && "" + w == w;
    } else {
      assert tail + "" == tail;
      FieldsAfterWord(w, tail, "");
    }
  }

  /** Two words with blanks between them, and maybe around them. */
  ghost predicate TwoWords(s: string, a: string, b: string) {
    exists before, gap, after ::
      s == before + (a + (gap + (b + after))) && AllBlank(before) && AllBlank(gap) && gap != "" && AllBlank(after)
      && IsWord(a) && IsWord(b)
  }

  lemma TwoWordsAreFields(s: string, a: string, b: string)
    requires TwoWords(s, a, b)
    ensures Fields(s, "") == [a, b]
  {
    var before, gap, after :|
      s == before + (a + (gap + (b + after))) && AllBlank(before) && AllBlank(gap) && gap != "" && AllBlank(after)
      && IsWord(a) && IsWord(b);
    FieldsOfBlanks(before, a + (gap + (b + after)));
    FieldsAfterWord(a, gap, b + after);
    FieldsOfLastWord(b, after);
  }

  /** Blanks, and then a word up to a blank or the end, or nothing. */
  lemma {:induction false} BlanksFirst(s: string) returns (n: nat)
    ensures n <= |s| && AllBlank(s[..n]) && (n < |s| ==> !IsRustSpace(s[n]))
    ensures Fields(s, "") == Fields(s[n..], "")
  {
    n := 0;
    if s != "" && IsRustSpace(s[0]) {
      var m := BlanksFirst(s[1..]);
      n := m + 1;
      assert s[..n] == [s[0]] + s[1..][..m] && s[n..] == s[1..][m..];
    }
  }

  lemma {:induction false} WordFirst(s: string) returns (n: nat)
    ensures n <= |s| && (forall i :: 0 <= i < n ==> !IsRustSpace(s[i])) && (n < |s| ==> IsRustSpace(s[n]))
    ensures s != "" && !IsRustSpace(s[0]) ==> n > 0
  {
    n := 0;
    if s != "" && !IsRustSpace(s[0]) {
      var m := WordFirst(s[1..]);
      n := m + 1;
      assert forall i :: 0 < i < n ==> s[i] == s[1..][i - 1];
    }
  }

  /** The first field of a text, if it has one, with the blanks around it. */
  lemma FirstField(s: string) returns (before: string, w: string, rest: string)
    ensures s == before + (w + rest) && AllBlank(before) && (rest != "" ==> IsRustSpace(rest[0]))
    ensures w == "" ==> rest == "" && Fields(s, "") == []
    ensures w != "" ==> IsWord(w) && Fields(s, "") == [w] + Fields(rest, "")
  {
    var n := BlanksFirst(s);
    var t := s[n..];
    var m := WordFirst(t);
    before, w, rest := s[..n], t[..m], t[m..];
    assert t == w + rest && s == before + t;
    if w != "" {
      if rest == "" {
        FieldsOfLastWord(w, "");
        assert w + "" == w && [w] + [] == [w];
      } else {
        assert rest == [rest[0]] + rest[1..];
        FieldsAfterWord(w, [rest[0]], rest[1..]);
        FieldsOfBlanks([rest[0]], rest[1..]);
      }
    }
  }

  lemma FieldsAreTwoWords(s: string, a: string, b: string)
    requires Fields(s, "") == [a, b]
    ensures TwoWords(s, a, b)
  {
    var before, w, rest := FirstField(s);
    assert Fields(s, "")[0] == a && Fields(s, "")[1..] == [b];
    assert Fields(rest, "") == [b];
    var gap, v, tail := FirstField(rest);
    assert Fields(rest, "")[0] == b && Fields(rest, "")[1..] == [];
    var more, x, y := FirstField(tail);
    assert tail == more;
    assert gap != "";
    assert s == before + (a + (gap + (b + tail)));
  }

  /** The text is two numerals, blanks between and maybe around, for these numbers. */
  ghost predicate MarkerSpells(content: string, len: nat, mtime: nat) {
    exists a, b :: TwoWords(content, a, b) && Spells(a, len) && Spells(b, mtime)
  }

  lemma ParsedMarkerSpells(content: string, len: nat, mtime: nat)
    requires ParseMarker(content) == Some((len, mtime))
    ensures MarkerSpells(content, len, mtime)
  {
    var parts := Fields(content, "");
    var a, b := parts[0], parts[1];
    assert parts == [a, b];
    FieldsAreTwoWords(content, a, b);
    ParseU64Iff(a, len);
    ParseU64Iff(b, mtime);
  }

  lemma TwoNumerals(content: string, a: string, b: string, len: nat, mtime: nat)
    requires Fields(content, "") == [a, b] && ParseU64(a) == Some(len) && ParseU64(b) == Some(mtime)
    ensures ParseMarker(content) == Some((len, mtime))
  {
  }

  lemma SpelledMarkerParses(content: string, len: nat, mtime: nat)
    requires MarkerSpells(content, len, mtime)
    ensures ParseMarker(content) == Some((len, mtime))
  {
    var a, b :| TwoWords(content, a, b) && Spells(a, len) && Spells(b, mtime);
    TwoWordsAreFields(content, a, b);
    ParseU64Iff(a, len);
    ParseU64Iff(b, mtime);
    TwoNumerals(content, a, b, len, mtime);
  }

  /** Exactly which texts are markers, and of what. */
  lemma ParseMarkerIff(content: string, len: nat, mtime: nat)
    ensures ParseMarker(content) == Some((len, mtime)) <==> MarkerSpells(content, len, mtime)
  {
    if MarkerSpells(content, len, mtime) { SpelledMarkerParses(content, len, mtime); }
    if ParseMarker(content) == Some((len, mtime)) { ParsedMarkerSpells(content, len, mtime); }
  }

  // ----- Whose file is it -----

  /** What is at the target: nothing, a regular file, or a link or directory. A modification time
      before the epoch reads as None. */
  datatype Node = Absent | File(bytes: seq<byte>, mtime: Option<nat>) | Other

  /** The target, the marker beside it and the sidecar; an unreadable marker or sidecar is None. */
  datatype Disk = Disk(target: Node, marker: Option<string>, sidecar: Option<seq<byte>>)

  datatype CopyState = Nothing | Ours | Foreign | StaleOurs

  function LenAndMtime(n: Node): Option<(nat, nat)> {
    if n.File? && n.mtime.Some? then Some((|n.bytes|, n.mtime.value)) else None
  }

  /** The marker records exactly this file's length and modification time. */
  predicate Vouches(marker: Option<string>, n: Node) {
    marker.Some? && LenAndMtime(n).Some? && ParseMarker(marker.value) == LenAndMtime(n)
  }

  function StateOf(d: Disk): CopyState {
    match d.target
    case Absent => Nothing
    case Other => Foreign
    case File(bytes, _) =>
      if d.sidecar == Some(bytes) then Ours
      else if Vouches(d.marker, d.target) then StaleOurs
      else Foreign
  }

  // ----- Installing and uninstalling -----

  /** How the copy ends: complete, not begun, or broken off with some bytes written. */
  datatype CopyEnd = Copied(mtime: Option<nat>) | NotBegun | Partial(bytes: seq<byte>, mtime: Option<nat>)

  /** How writing or removing the marker ends: as asked, or with this left in its place. */
  datatype MarkerEnd = AsAsked | LeftWith(content: Option<string>)

  datatype InstallEnv = InstallEnv(dirOk: bool, removeOk: bool, copy: CopyEnd, modeOk: bool, marker: MarkerEnd)
  datatype UninstallEnv = UninstallEnv(removeOk: bool, marker: MarkerEnd)

  datatype Result = Done | Refused | Failed

  function Marked(end: MarkerEnd, asked: Option<string>): Option<string> {
    if end.AsAsked? then asked else end.content
  }

  /** The target after removal was tried and the copy ended as it did. */
  function TargetAfter(d: Disk, env: InstallEnv): Node {
    var cleared := if env.removeOk then Absent else d.target;
    if d.sidecar.None? || env.copy.NotBegun? then cleared
    else if env.copy.Copied? then File(d.sidecar.value, env.copy.mtime)
    else File(env.copy.bytes, env.copy.mtime)
  }

  predicate CopyWorked(d: Disk, env: InstallEnv) {
    d.sidecar.Some? && env.copy.Copied?
  }

  function AfterInstall(d: Disk, env: InstallEnv): (Disk, Result) {
    if StateOf(d) == Foreign then (d, Refused)
    else if !env.dirOk then (d, Failed)
    else
      var copied := d.(target := TargetAfter(d, env));
      if !CopyWorked(d, env) || !env.modeOk then (copied, Failed)
      else
        var meta := LenAndMtime(copied.target);
        if meta.None? then (copied, Done)
        else (copied.(marker := Marked(env.marker, Some(MarkerContent(meta.value.0, meta.value.1)))), Done)
  }

  function AfterUninstall(d: Disk, env: UninstallEnv): (Disk, Result) {
    if StateOf(d) == Foreign || StateOf(d) == Nothing then (d, Done)
    else if !env.removeOk then (d, Failed)
    else (d.(target := Absent, marker := Marked(env.marker, None)), Done)
  }

  class Installer {
    var target: Node
    var marker: Option<string>
    var sidecar: Option<seq<byte>>

    constructor (d: Disk)
      ensures Contents() == d
    {
      target, marker, sidecar := d.target, d.marker, d.sidecar;
    }

    function Contents(): Disk
      reads this
    {
      Disk(target, marker, sidecar)
    }

    method CopyInstall(env: InstallEnv) returns (r: Result)
      modifies this
      ensures (Contents(), r) == AfterInstall(old(Contents()), env)
    {
      if StateOf(Contents()) == Foreign { return Refused; }
      if !env.dirOk { return Failed; }
      if env.removeOk { target := Absent; }
      if sidecar.None? || env.copy.NotBegun? { return Failed; }
      if env.copy.Partial? {
        target := File(env.copy.bytes, env.copy.mtime);
        return Failed;
      }
      target := File(sidecar.value, env.copy.mtime);
      if !env.modeOk { return Failed; }
      var meta := LenAndMtime(target);
      if meta.Some? {
        marker := Marked(env.marker, Some(MarkerContent(meta.value.0, meta.value.1)));
      }
      return Done;
    }

    method CopyUninstall(env: UninstallEnv) returns (r: Result)
      modifies this
      ensures (Contents(), r) == AfterUninstall(old(Contents()), env)
    {
      match StateOf(Contents())
      case Ours | StaleOurs =>
        if !env.removeOk { return Failed; }
        target := Absent;
        marker := Marked(env.marker, None);
        return Done;
      case Foreign | Nothing =>
        return Done;
    }
  }

  // ----- What the answers mean -----

  /** The marker records the length and time of the regular file at the target. */
  ghost predicate Recorded(d: Disk) {
    d.target.File? && d.target.mtime.Some? && d.marker.Some?
    && ParseMarker(d.marker.value) == Some((|d.target.bytes|, d.target.mtime.value))
  }

  /** Its length and time fit in 64 bits. */
  ghost predicate Recordable(n: Node) {
    n.File? && n.mtime.Some? && |n.bytes| < 0x1_0000_0000_0000_0000 && n.mtime.value < 0x1_0000_0000_0000_0000
  }

  /** A link, a directory, or a file that is neither the sidecar's copy nor recorded. */
  ghost predicate NotOurs(d: Disk) {
    d.target.Other? || (d.target.File? && d.sidecar != Some(d.target.bytes) && !Recorded(d))
  }

  /** Nothing goes wrong up to and including the copying and the mode. */
  ghost predicate InstallWorks(d: Disk, env: InstallEnv) {
    env.dirOk && d.sidecar.Some? && env.copy.Copied? && env.modeOk
  }

  /** Install answers Refused exactly if what is there is not cc-router's, Done exactly if it is and
      everything but the marker works, and Failed otherwise. */
  lemma InstallAnswersIff(d: Disk, env: InstallEnv)
    ensures var r := AfterInstall(d, env).1;
      && (r == Refused <==> NotOurs(d))
      && (r == Done <==> !NotOurs(d) && InstallWorks(d, env))
      && (r == Failed <==> !NotOurs(d) && !InstallWorks(d, env))
  {
  }

  /** What is there after each answer: a fresh copy of the sidecar and, where its time can be read and
      the marker be written, its record; nothing changed after a refusal; after a failure the old
      file, nothing, or what the copying has written, and the marker as it was. */
  lemma InstallLeaves(d: Disk, env: InstallEnv)
    ensures var (after, r) := AfterInstall(d, env);
      && after.sidecar == d.sidecar
      && (r == Done ==>
           && d.sidecar.Some? && env.copy.Copied? && after.target == File(d.sidecar.value, env.copy.mtime)
           && (env.copy.mtime.None? ==> after.marker == d.marker)
           && (env.marker.AsAsked? && Recordable(after.target) ==> Recorded(after))
           && (env.marker.LeftWith? && env.copy.mtime.Some? ==> after.marker == env.marker.content))
      && (r == Refused ==> after == d)
      && (r == Failed ==>
           && after.marker == d.marker
           && (!env.dirOk ==> after.target == d.target)
           && (env.dirOk && d.sidecar.Some? && env.copy.Copied? ==> after.target == File(d.sidecar.value, env.copy.mtime))
           && (env.dirOk && d.sidecar.Some? && env.copy.Partial? ==> after.target == File(env.copy.bytes, env.copy.mtime))
           && (env.dirOk && (d.sidecar.None? || env.copy.NotBegun?) ==>
                after.target == if env.removeOk then Absent else d.target))
  {
    var file := AfterInstall(d, env).0.target;
    if Recordable(file) { MarkerRoundTrip(|file.bytes|, file.mtime.value); }
  }

  /** Uninstall fails exactly if cc-router's own file cannot be removed, and then nothing changes; a
      file that is not cc-router's stays, and the answer is Done. */
  lemma UninstallAnswersIff(d: Disk, env: UninstallEnv)
    ensures var (after, r) := AfterUninstall(d, env);
      && r != Refused && after.sidecar == d.sidecar
      && (r == Failed <==> d.target.File? && !NotOurs(d) && !env.removeOk)
      && (r == Failed ==> after == d)
      && (r == Done && (NotOurs(d) || d.target == Absent) ==> after == d)
      && (r == Done && d.target.File? && !NotOurs(d) ==>
           after.target == Absent && after.marker == if env.marker.AsAsked? then None else env.marker.content)
  {
  }

  // ----- Runs -----

  /** The files, and whether cc-router wrote what is now at the target. */
  datatype World = World(disk: Disk, ours: bool)

  /** The installer's steps, an app update, and what the user may do by hand. */
  datatype Step =
    | Install(install: InstallEnv)
    | Uninstall(uninstall: UninstallEnv)
    | Update(sidecar: Option<seq<byte>>)
    | UserTarget(node: Node)
    | UserMarker(content: Option<string>)

  /** Did this install put bytes of its own at the target? */
  predicate Wrote(d: Disk, env: InstallEnv) {
    StateOf(d) != Foreign && env.dirOk && d.sidecar.Some? && !env.copy.NotBegun?
  }

  function Next(w: World, step: Step): World {
    match step
    case Install(env) => World(AfterInstall(w.disk, env).0, w.ours || Wrote(w.disk, env))
    case Uninstall(env) => World(AfterUninstall(w.disk, env).0, w.ours)
    case Update(sidecar) => World(w.disk.(sidecar := sidecar), w.ours)
    case UserTarget(node) => World(w.disk.(target := node), false)
    case UserMarker(content) => World(w.disk.(marker := content), w.ours)
  }

  /** The one thing asked of the user: no file of theirs matches the recorded length and time. */
  predicate Allowed(w: World, step: Step) {
    match step
    case UserTarget(node) => !Vouches(w.disk.marker, node)
    case UserMarker(content) => w.ours || !Vouches(content, w.disk.target)
    case _ => true
  }

  function Exec(w: World, steps: seq<Step>): World {
    if steps == [] then w else Next(Exec(w, steps[..|steps| - 1]), steps[|steps| - 1])
  }

  predicate AllAllowed(w: World, steps: seq<Step>) {
    forall k :: 0 <= k < |steps| ==> Allowed(Exec(w, steps[..k]), steps[k])
  }

  /** Only a file that cc-router wrote is ever vouched for. */
  predicate Honest(w: World) {
    Vouches(w.disk.marker, w.disk.target) ==> w.ours
  }

  /** cc-router may dispose of the target: its own bytes, or the bytes it would install. */
  predicate Disposable(w: World) {
    w.disk.target.File? && (w.ours || w.disk.sidecar == Some(w.disk.target.bytes))
  }

  /** This step of the installer takes away or overwrites what was at the target. */
  predicate Destroys(w: World, step: Step) {
    (step.Install? || step.Uninstall?)
    && w.disk.target != Absent && Next(w, step).disk.target != w.disk.target
  }

  lemma StepIsSafe(w: World, step: Step)
    requires Honest(w) && Allowed(w, step)
    ensures Honest(Next(w, step))
    ensures Destroys(w, step) ==> Disposable(w)
  {
  }

  lemma {:induction false} RunIsHonest(w: World, steps: seq<Step>)
    requires Honest(w) && AllAllowed(w, steps)
    ensures Honest(Exec(w, steps))
  {
    if steps != [] {
      var n := |steps| - 1;
      forall k | 0 <= k < n ensures Allowed(Exec(w, steps[..n][..k]), steps[..n][k]) {
        assert steps[..n][..k] == steps[..k];
      }
      RunIsHonest(w, steps[..n]);
      StepIsSafe(Exec(w, steps[..n]), steps[n]);
    }
  }

  /** Over every run, through every failure, with updates and user writes in between: whenever
      the installer destroys what is at the target, cc-router wrote it or it equals the sidecar. */
  lemma RunIsSafe(w: World, steps: seq<Step>, k: nat)
    requires Honest(w) && AllAllowed(w, steps) && k < |steps|
    ensures Destroys(Exec(w, steps[..k]), steps[k]) ==> Disposable(Exec(w, steps[..k]))
  {
    forall j | 0 <= j < k ensures Allowed(Exec(w, steps[..k][..j]), steps[..k][j]) {
      assert steps[..k][..j] == steps[..j];
    }
    RunIsHonest(w, steps[..k]);
    StepIsSafe(Exec(w, steps[..k]), steps[k]);
  }

  // ----- Exactly when the promise holds -----

  /** The target is a regular file that cc-router may not dispose of. */
  predicate Precious(w: World) {
    w.disk.target.File? && !Disposable(w)
  }

  /** Uninstalling destroys a file that is not cc-router's to dispose of exactly when the marker
      vouches for it and removing works. */
  lemma UninstallIsSafeIff(w: World, env: UninstallEnv)
    ensures (Destroys(w, Uninstall(env)) ==> Disposable(w)) <==>
      !(Precious(w) && Vouches(w.disk.marker, w.disk.target) && env.removeOk)
  {
  }

  /** Installing does exactly when the marker vouches for it, the directory can be made, and what
      is there afterwards differs. */
  lemma InstallIsSafeIff(w: World, env: InstallEnv)
    ensures (Destroys(w, Install(env)) ==> Disposable(w)) <==>
      !(Precious(w) && Vouches(w.disk.marker, w.disk.target) && env.dirOk && TargetAfter(w.disk, env) != w.disk.target)
  {
  }

  /** A file that the user puts at the target survives an uninstall or install that works exactly
      when it does not match the record, or has the very bytes of the sidecar. */
  lemma UserFileIsSafeIff(w: World, node: Node, uninstall: UninstallEnv, install: InstallEnv)
    requires node.File? && uninstall.removeOk && install.dirOk && install.removeOk
    ensures var seen := Next(w, UserTarget(node));
      var safe := !Vouches(w.disk.marker, node) || w.disk.sidecar == Some(node.bytes);
      && ((Destroys(seen, Uninstall(uninstall)) ==> Disposable(seen)) <==> safe)
      && ((Destroys(seen, Install(install)) ==> Disposable(seen)) <==>
            safe || TargetAfter(seen.disk, install) == node)
  {
    UninstallIsSafeIff(Next(w, UserTarget(node)), uninstall);
    InstallIsSafeIff(Next(w, UserTarget(node)), install);
  }

  /** Whatever a step of this run destroys, cc-router may dispose of. */
  ghost predicate SafeRun(w: World, steps: seq<Step>) {
    forall k :: 0 <= k < |steps| ==>
      (Destroys(Exec(w, steps[..k]), steps[k]) ==> Disposable(Exec(w, steps[..k])))
  }

  /** Every run from here on is safe, as long as the user writes no file that matches the record. */
  ghost predicate SafeFrom(w: World) {
    forall steps :: AllAllowed(w, steps) ==> SafeRun(w, steps)
  }

  lemma ExecTwo(w: World, a: Step, b: Step)
    ensures Exec(w, [a, b][..0]) == w && Exec(w, [a, b][..1]) == Next(w, a)
  {
    assert [a, b][..1] == [a] && [a][..0] == [];
  }

  /** Where the marker vouches for a file that cc-router did not write, an update to other bytes
      and an uninstall delete that file. */
  lemma DishonestIsUnsafe(w: World)
    requires !Honest(w)
    ensures !SafeFrom(w)
  {
    var bytes := w.disk.target.bytes;
    var update, uninstall := Update(Some(bytes + [0])), Uninstall(UninstallEnv(true, AsAsked));
    var steps := [update, uninstall];
    ExecTwo(w, update, uninstall);
    assert bytes + [0] != bytes;
    var seen := Exec(w, steps[..1]);
    assert AllAllowed(w, steps);
    assert Destroys(seen, steps[1]) && !Disposable(seen);
    assert !SafeRun(w, steps);
  }

  /** The promise holds from here on exactly if the marker vouches for nothing but cc-router's own
      file now. */
  lemma SafeFromIffHonest(w: World)
    ensures SafeFrom(w) <==> Honest(w)
  {
    if Honest(w) {
      forall steps, k | AllAllowed(w, steps) && 0 <= k < |steps|
        ensures Destroys(Exec(w, steps[..k]), steps[k]) ==> Disposable(Exec(w, steps[..k]))
      {
        RunIsSafe(w, steps, k);
      }
      assert forall steps :: AllAllowed(w, steps) ==> SafeRun(w, steps);
    } else {
      DishonestIsUnsafe(w);
    }
  }

  /** What is asked of the user is not more than needed: after a write of theirs the promise holds
      exactly if the write was one of those allowed. */
  lemma UserWriteIsSafeIff(w: World, step: Step)
    requires Honest(w) && (step.UserTarget? || step.UserMarker?)
    ensures SafeFrom(Next(w, step)) <==> Allowed(w, step)
  {
    SafeFromIffHonest(Next(w, step));
  }

  /** A user's file with the length and second of the copy that it replaced: it matches the record,
      and uninstalling deletes it. */
  lemma CoincidenceIsFatal()
    ensures
      var start := World(Disk(Absent, None, Some([1])), false);
      var good := InstallEnv(true, true, Copied(Some(7)), true, AsAsked);
      var seen := Next(Next(start, Install(good)), UserTarget(File([2], Some(7))));
      Honest(start) && Destroys(seen, Uninstall(UninstallEnv(true, AsAsked))) && !Disposable(seen)
  {
    MarkerRoundTrip(1, 7);
    var mine, theirs: seq<byte> := [1], [2];
    assert mine[0] != theirs[0];
  }

  // ----- Runs without failures and without user writes -----

  /** Every operation works, and times and sizes fit in 64 bits. */
  predicate Smooth(step: Step) {
    match step
    case Install(env) =>
      env.dirOk && env.removeOk && env.modeOk && env.marker.AsAsked?
      && env.copy.Copied? && env.copy.mtime.Some? && env.copy.mtime.value < U64_LIMIT
    case Uninstall(env) => env.removeOk && env.marker.AsAsked?
    case Update(sidecar) => sidecar.Some? && |sidecar.value| < U64_LIMIT
    case UserTarget(_) => false
    case UserMarker(_) => false
  }

  /** Nothing at the target, or a copy its marker vouches for. */
  predicate WellKept(d: Disk) {
    && d.sidecar.Some? && |d.sidecar.value| < U64_LIMIT
    && (d.target == Absent || Vouches(d.marker, d.target))
  }

  /** A step of the installer does what it is for, and is never refused. */
  lemma SmoothStep(w: World, step: Step)
    requires WellKept(w.disk) && Smooth(step)
    ensures StateOf(w.disk) != Foreign
    ensures WellKept(Next(w, step).disk)
    ensures step.Install? ==>
      AfterInstall(w.disk, step.install).1 == Done && StateOf(Next(w, step).disk) == Ours
    ensures step.Uninstall? ==>
      AfterUninstall(w.disk, step.uninstall).1 == Done && StateOf(Next(w, step).disk) == Nothing
      && (w.disk.target != Absent ==> Next(w, step).disk.marker == None)
  {
    if step.Install? {
      MarkerRoundTrip(|w.disk.sidecar.value|, step.install.copy.mtime.value);
    }
  }

  lemma {:induction false} SmoothRunIsNeverRefused(w: World, steps: seq<Step>)
    requires WellKept(w.disk) && forall k :: 0 <= k < |steps| ==> Smooth(steps[k])
    ensures WellKept(Exec(w, steps).disk) && StateOf(Exec(w, steps).disk) != Foreign
  {
    if steps != [] {
      var n := |steps| - 1;
      SmoothRunIsNeverRefused(w, steps[..n]);
      SmoothStep(Exec(w, steps[..n]), steps[n]);
    }
  }

  /** Where the marker could not be written, the next update makes cc-router refuse its own copy,
      exactly when the update changes the bytes and what was left does not vouch for the copy. */
  lemma RefusedAfterMarkerFailureIff(d: Disk, mtime: Option<nat>, left: Option<string>, newer: seq<byte>)
    requires StateOf(d) != Foreign && d.sidecar.Some?
    ensures var env := InstallEnv(true, true, Copied(mtime), true, LeftWith(left));
      var after := AfterInstall(d, env).0.(sidecar := Some(newer));
      StateOf(after) == Foreign <==>
        newer != d.sidecar.value && !Vouches(if mtime.Some? then left else d.marker, File(d.sidecar.value, mtime))
  {
  }
}
