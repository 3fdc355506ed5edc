/**
 Weekly time rules of a model slot: an ordered list of weekly windows, the first matching one
 with a non-blank model wins, else the slot's default (src/lib/slotSchedule.ts), together with
 the server's own evaluator of the same rules (src-tauri/src/subscription/schedule.rs).
 */
module Schedule {
  import opened Wrappers
  import opened Text

  const MINUTES_PER_DAY: nat := 1440
  const MINUTES_PER_WEEK: nat := 10080
  const MAX_RULES_PER_SLOT: nat := 16
  const HALF_HOURS: nat := 336
  const CELLS_PER_DAY: nat := 48

  /** Weekday 1 (Monday) to 7 (Sunday) and the minute since midnight. */
  datatype WallClock = WallClock(weekday: int, minute: int)

  datatype Rule = Rule(days: seq<int>, start: string, end: string, model: string, effort: Option<string>)

  predicate ValidClock(at: WallClock) {
    1 <= at.weekday <= 7 && 0 <= at.minute < MINUTES_PER_DAY
  }

  // ----- Times of day -----

  /** Strict HH:MM, with 24:00 as the only time past 23:59. */
  function ParseHHMM(s: string): Option<nat> {
    if |s| != 5 || s[2] != ':' || !AllDigits(s[..2]) || !AllDigits(s[3..]) then None
    else
      var h := NumeralValue(s[..2]);
      var min := NumeralValue(s[3..]);
      if min > 59 || h > 24 || (h == 24 && min != 0) then None else Some(h * 60 + min)
  }

  /** A numeral padded with zeros to two digits. */
  function PadTwo(n: nat): string {
    var s := Numeral(n);
    if |s| < 2 then "0" + s else s
  }

  function HHMM(minute: nat): string {
    PadTwo(minute / 60) + ":" + PadTwo(minute % 60)
  }

  lemma PadTwoDigits(n: nat)
    requires n < 100
    ensures PadTwo(n) == [DigitChar(n / 10), DigitChar(n % 10)]
  {
    if n >= 10 {
      assert Numeral(n / 10) == [DigitChar(n / 10)];
    }
  }

  lemma TwoDigitValue(s: string)
    requires |s| == 2 && AllDigits(s)
    ensures NumeralValue(s) == 10 * DigitValue(s[0]) + DigitValue(s[1])
  {
    assert s[..1][..0] == "" && s[..1][0] == s[0];
    assert NumeralValue(s[..1]) == DigitValue(s[0]);
  }

  lemma PrintedTimeParses(m: nat)
    requires m <= MINUTES_PER_DAY
    ensures ParseHHMM(HHMM(m)) == Some(m)
  {
    var t := HHMM(m);
    PadTwoDigits(m / 60);
    PadTwoDigits(m % 60);
    assert |t| == 5 && t[..2] == PadTwo(m / 60) && t[3..] == PadTwo(m % 60);
    TwoDigitValue(t[..2]);
    TwoDigitValue(t[3..]);
  }

  lemma PadTwoUndoesValue(s: string)
    requires |s| == 2 && AllDigits(s)
    ensures NumeralValue(s) < 100 && PadTwo(NumeralValue(s)) == s
  {
    TwoDigitValue(s);
    PadTwoDigits(NumeralValue(s));
  }

  lemma ParsedTimePrints(s: string, m: nat)
    requires ParseHHMM(s) == Some(m)
    ensures m <= MINUTES_PER_DAY && s == HHMM(m)
  {
    var h, min := NumeralValue(s[..2]), NumeralValue(s[3..]);
    PadTwoUndoesValue(s[..2]);
    PadTwoUndoesValue(s[3..]);
    assert m / 60 == h && m % 60 == min;
    assert s == s[..2] + ":" + s[3..];
  }

  /** Printing and parsing a time of day undo each other, so every time has one spelling. */
  lemma TimesHaveOneSpelling(s: string, m: nat)
    ensures ParseHHMM(s) == Some(m) <==> m <= MINUTES_PER_DAY && s == HHMM(m)
  {
    if m <= MINUTES_PER_DAY { PrintedTimeParses(m); }
    if ParseHHMM(s) == Some(m) { ParsedTimePrints(s, m); }
  }

  function PrevWeekday(d: int): int {
    if d <= 1 then 7 else d - 1
  }

  // ----- Evaluation -----

  predicate RuleMatches(rule: Rule, at: WallClock) {
    match (ParseHHMM(rule.start), ParseHHMM(rule.end))
    case (Some(s), Some(e)) =>
      if s >= MINUTES_PER_DAY || s == e then false
      else
        var today := at.weekday in rule.days;
        if s < e then today && s <= at.minute < e
        else (today && at.minute >= s) || (PrevWeekday(at.weekday) in rule.days && at.minute < e)
    case _ => false
  }

  /** A model name without surrounding blanks, absent when blank. */
  function Pick(m: string): Option<string> {
    var t := Trim(m, IsJsSpace);
    if t == "" then None else Some(t)
  }

  /** The rule has something to say at this moment. */
  predicate Live(rule: Rule, at: WallClock) {
    RuleMatches(rule, at) && Pick(rule.model).Some?
  }

  /** The index of the winning rule. */
  function Winner(rules: seq<Rule>, at: WallClock): (w: Option<nat>)
    ensures w.Some? ==> w.value < |rules|
  {
    if rules == [] then None
    else
      var last := |rules| - 1;
      var w := Winner(rules[..last], at);
      if w.Some? then w else if Live(rules[last], at) then Some(last) else None
  }

  /** The winner is the first live rule. */
  lemma {:induction false} WinnerIsFirstLive(rules: seq<Rule>, at: WallClock)
    ensures Winner(rules, at).None? ==> forall j :: 0 <= j < |rules| ==> !Live(rules[j], at)
    ensures Winner(rules, at).Some? ==>
      Live(rules[Winner(rules, at).value], at)
      && forall j :: 0 <= j < Winner(rules, at).value ==> !Live(rules[j], at)
  {
    if rules != [] {
      var init := rules[..|rules| - 1];
      WinnerIsFirstLive(init, at);
      assert forall j :: 0 <= j < |init| ==> init[j] == rules[j];
    }
  }

  /** Rules further down never change the winner among the first n. */
  lemma {:induction false} WinnerOfPrefix(rules: seq<Rule>, n: nat, at: WallClock)
    requires n <= |rules|
    ensures Winner(rules[..n], at) ==
      if Winner(rules, at).Some? && Winner(rules, at).value < n then Winner(rules, at) else None
    decreases |rules| - n
  {
    if n < |rules| {
      WinnerOfPrefix(rules, n + 1, at);
      assert rules[..n + 1][..n] == rules[..n];
    } else {
      assert rules[..n] == rules;
    }
  }

  method WinningRule(rules: seq<Rule>, at: WallClock) returns (w: Option<nat>)
    ensures w == Winner(rules, at)
  {
    for i := 0 to |rules|
      invariant Winner(rules[..i], at).None?
    {
      assert rules[..i + 1][..i] == rules[..i];
      if RuleMatches(rules[i], at) && Pick(rules[i].model).Some? {
        WinnerOfPrefix(rules, i + 1, at);
        return Some(i);
      }
    }
    assert rules[..|rules|] == rules;
    return None;
  }

  function EffectiveModel(def: string, rules: seq<Rule>, at: WallClock): Option<string> {
    var w := Winner(rules, at);
    if w.Some? then Pick(rules[w.value].model) else Pick(def)
  }

  /** Rule i matches and has a name, and no earlier rule does both. */
  ghost predicate FirstNamed(rules: seq<Rule>, at: WallClock, i: nat) {
    && i < |rules| && RuleMatches(rules[i], at) && Trim(rules[i].model, IsJsSpace) != ""
    && forall j :: 0 <= j < i ==> !(RuleMatches(rules[j], at) && Trim(rules[j].model, IsJsSpace) != "")
  }

  /** The model is the trimmed name of that rule; without one it is the trimmed default, if not blank. */
  lemma ModelIsFirstName(def: string, rules: seq<Rule>, at: WallClock, i: nat)
    ensures FirstNamed(rules, at, i) ==> EffectiveModel(def, rules, at) == Some(Trim(rules[i].model, IsJsSpace))
    ensures (forall j: nat :: !FirstNamed(rules, at, j)) ==>
      EffectiveModel(def, rules, at) == if Trim(def, IsJsSpace) == "" then None else Some(Trim(def, IsJsSpace))
  {
    WinnerIsFirstLive(rules, at);
    var w := Winner(rules, at);
    if w.Some? { assert FirstNamed(rules, at, w.value); }
    if FirstNamed(rules, at, i) { assert Live(rules[i], at); }
  }

  /** A printed time is the hour and the minute in two digits each. */
  lemma TimeIsWritten(h: nat, min: nat)
    requires h <= 24 && min < 60
    ensures HHMM(60 * h + min) ==
      [DigitChar(h / 10), DigitChar(h % 10), ':', DigitChar(min / 10), DigitChar(min % 10)]
  {
    var m := 60 * h + min;
    assert m / 60 == h && m % 60 == min;
    PadTwoDigits(h);
    PadTwoDigits(min);
  }

  // ----- Coverage as an interval of the circular week -----

  function WeekMinute(at: WallClock): int {
    (at.weekday - 1) * MINUTES_PER_DAY + at.minute
  }

  /** How long a window lasts; an end before the start belongs to the next day. */
  function Duration(s: nat, e: nat): int {
    if s < e then e - s else MINUTES_PER_DAY - s + e
  }

  /** `at` lies in the window that opens on day d at s, on the week seen as a circle. */
  predicate InWindow(d: int, s: nat, e: nat, at: WallClock) {
    (WeekMinute(at) - ((d - 1) * MINUTES_PER_DAY + s)) % MINUTES_PER_WEEK < Duration(s, e)
  }

  /** A rule that can ever match: both times parse, it starts before midnight and is not empty. */
  predicate WellTimed(rule: Rule) {
    var (s, e) := (ParseHHMM(rule.start), ParseHHMM(rule.end));
    s.Some? && e.Some? && s.value < MINUTES_PER_DAY && s.value != e.value
  }

  lemma ParsedTimesAreBounded(s: string)
    ensures ParseHHMM(s).Some? ==> ParseHHMM(s).value <= MINUTES_PER_DAY
  {
  }

  /** The window of one listed day, reduced to the two days it can touch. */
  lemma WindowTouchesTwoDays(d: int, s: nat, e: nat, at: WallClock)
    requires 1 <= d <= 7 && s < MINUTES_PER_DAY && e <= MINUTES_PER_DAY && s != e && ValidClock(at)
    ensures InWindow(d, s, e, at) <==>
      if s < e then d == at.weekday && s <= at.minute < e
      else (d == at.weekday && s <= at.minute) || (d == PrevWeekday(at.weekday) && at.minute < e)
  {
    var diff := WeekMinute(at) - ((d - 1) * MINUTES_PER_DAY + s);
    var k := at.weekday - d;
    assert diff == k * MINUTES_PER_DAY + at.minute - s;
    assert -6 <= k <= 6;
    assert k * 1440 == if k == 0 then 0 else if k == 1 then 1440 else if k == -6 then -8640 else k * 1440;
    if diff >= 0 {
      assert diff % MINUTES_PER_WEEK == diff;
    } else {
      assert diff % MINUTES_PER_WEEK == diff + MINUTES_PER_WEEK;
    }
  }

  /** A rule covers exactly the union of its listed days' windows on the circular week. */
  lemma RuleCoversCircularIntervals(rule: Rule, at: WallClock)
    requires ValidClock(at)
    ensures RuleMatches(rule, at) <==>
      WellTimed(rule)
      && exists d :: d in rule.days && 1 <= d <= 7
                  && InWindow(d, ParseHHMM(rule.start).value, ParseHHMM(rule.end).value, at)
  {
    if WellTimed(rule) {
      var s, e := ParseHHMM(rule.start).value, ParseHHMM(rule.end).value;
      ParsedTimesAreBounded(rule.end);
      forall d | 1 <= d <= 7
        ensures InWindow(d, s, e, at) <==>
          if s < e then d == at.weekday && s <= at.minute < e
          else (d == at.weekday && s <= at.minute) || (d == PrevWeekday(at.weekday) && at.minute < e)
      {
        WindowTouchesTwoDays(d, s, e, at);
      }
      if RuleMatches(rule, at) {
        var d := if at.weekday in rule.days && s <= at.minute && (s < e ==> at.minute < e) then at.weekday
                 else PrevWeekday(at.weekday);
        assert d in rule.days && InWindow(d, s, e, at);
      }
    }
  }

  // ----- The half-hour grid -----

  function ClockAt(index: nat): WallClock {
    WallClock(index / CELLS_PER_DAY + 1, index % CELLS_PER_DAY * 30)
  }

  /** The grid cell that holds a moment. */
  function CellOf(at: WallClock): (c: nat)
    requires ValidClock(at)
    ensures c < HALF_HOURS
  {
    (at.weekday - 1) * CELLS_PER_DAY + at.minute / 30
  }

  /** Every time of the rule that parses falls on a full or half hour. */
  predicate Aligned(rule: Rule) {
    && (ParseHHMM(rule.start).Some? ==> ParseHHMM(rule.start).value % 30 == 0)
    && (ParseHHMM(rule.end).Some? ==> ParseHHMM(rule.end).value % 30 == 0)
  }

  predicate AllAligned(rules: seq<Rule>) {
    forall i :: 0 <= i < |rules| ==> Aligned(rules[i])
  }

  lemma AlignedComparison(minute: int, t: int)
    requires t % 30 == 0
    ensures minute < t <==> minute / 30 * 30 < t
  {
  }

  lemma AlignedRuleIsConstantOnCell(rule: Rule, at: WallClock)
    requires Aligned(rule) && ValidClock(at)
    ensures RuleMatches(rule, at) == RuleMatches(rule, ClockAt(CellOf(at)))
  {
    var cell := ClockAt(CellOf(at));
    assert cell.weekday == at.weekday && cell.minute == at.minute / 30 * 30;
    if WellTimed(rule) {
      AlignedComparison(at.minute, ParseHHMM(rule.start).value);
      AlignedComparison(at.minute, ParseHHMM(rule.end).value);
    }
  }

  lemma {:induction false} WinnerIsConstantOnCell(rules: seq<Rule>, at: WallClock)
    requires AllAligned(rules) && ValidClock(at)
    ensures Winner(rules, at) == Winner(rules, ClockAt(CellOf(at)))
  {
    if rules != [] {
      WinnerIsConstantOnCell(rules[..|rules| - 1], at);
      AlignedRuleIsConstantOnCell(rules[|rules| - 1], at);
    }
  }

  /** For half-hour rules the 336 cells give the answer at all 10080 minutes. */
  lemma GridIsExact(def: string, rules: seq<Rule>, at: WallClock)
    requires AllAligned(rules) && ValidClock(at)
    ensures EffectiveModel(def, rules, at) == EffectiveModel(def, rules, ClockAt(CellOf(at)))
  {
    WinnerIsConstantOnCell(rules, at);
  }

  // ----- Rules that can serve, and what half-hour times are needed for -----

  /** The rule can win at some moment: its times and one of its days are usable, its model not blank. */
  predicate CanServe(rule: Rule) {
    WellTimed(rule) && (exists d :: d in rule.days && 1 <= d <= 7) && Pick(rule.model).Some?
  }

  lemma CanServeIff(rule: Rule)
    ensures CanServe(rule) <==> exists at :: ValidClock(at) && Live(rule, at)
  {
    if CanServe(rule) {
      var d :| d in rule.days && 1 <= d <= 7;
      ParsedTimesAreBounded(rule.end);
      var at := WallClock(d, ParseHHMM(rule.start).value);
      assert ValidClock(at) && Live(rule, at);
    }
    if exists at :: ValidClock(at) && Live(rule, at) {
      var at :| ValidClock(at) && Live(rule, at);
      assert at.weekday in rule.days || PrevWeekday(at.weekday) in rule.days;
      assert 1 <= PrevWeekday(at.weekday) <= 7;
    }
  }

  /** The grid answers for the rule at this moment. */
  predicate GridSpeaksFor(rule: Rule, at: WallClock)
    requires ValidClock(at)
  {
    RuleMatches(rule, at) == RuleMatches(rule, ClockAt(CellOf(at)))
  }

  /** Two moments of one cell, one covered and one not: the grid is wrong about one of them. */
  lemma CellIsSplit(rule: Rule, a: WallClock, b: WallClock) returns (at: WallClock)
    requires ValidClock(a) && ValidClock(b) && CellOf(a) == CellOf(b)
    requires RuleMatches(rule, a) != RuleMatches(rule, b)
    ensures ValidClock(at) && !GridSpeaksFor(rule, at)
  {
    at := if GridSpeaksFor(rule, a) then b else a;
  }

  /** A start between the half hours: the minute before it is not covered. */
  lemma SplitAtStart(rule: Rule, d: int) returns (at: WallClock)
    requires WellTimed(rule) && d in rule.days && 1 <= d <= 7 && ParseHHMM(rule.start).value % 30 != 0
    ensures ValidClock(at) && !GridSpeaksFor(rule, at)
  {
    var s := ParseHHMM(rule.start).value;
    at := CellIsSplit(rule, WallClock(d, s - 1), WallClock(d, s));
  }

  /** An end between the half hours: the minute before it is covered, the end is not. */
  lemma SplitAtEnd(rule: Rule, d: int) returns (at: WallClock)
    requires WellTimed(rule) && d in rule.days && 1 <= d <= 7 && ParseHHMM(rule.end).value % 30 != 0
    ensures ValidClock(at) && !GridSpeaksFor(rule, at)
  {
    var s, e := ParseHHMM(rule.start).value, ParseHHMM(rule.end).value;
    ParsedTimesAreBounded(rule.end);
    var day := if s < e then d else if d == 7 then 1 else d + 1;
    assert s < e || PrevWeekday(day) == d;
    at := CellIsSplit(rule, WallClock(day, e - 1), WallClock(day, e));
  }

  /** The grid answers for a rule at every minute exactly if its times are half-hour times; only a
      rule that covers nothing is exempt. */
  lemma GridSpeaksIffAligned(rule: Rule)
    requires WellTimed(rule) && exists d :: d in rule.days && 1 <= d <= 7
    ensures (forall at :: ValidClock(at) ==> GridSpeaksFor(rule, at)) <==> Aligned(rule)
  {
    if Aligned(rule) {
      forall at | ValidClock(at) ensures GridSpeaksFor(rule, at) {
        AlignedRuleIsConstantOnCell(rule, at);
      }
    } else {
      var at := SplitCell(rule);
    }
  }

  lemma SplitCell(rule: Rule) returns (at: WallClock)
    requires WellTimed(rule) && !Aligned(rule) && exists d :: d in rule.days && 1 <= d <= 7
    ensures ValidClock(at) && !GridSpeaksFor(rule, at)
  {
    var d :| d in rule.days && 1 <= d <= 7;
    if ParseHHMM(rule.start).value % 30 != 0 {
      at := SplitAtStart(rule, d);
    } else {
      at := SplitAtEnd(rule, d);
    }
  }

  // ----- The server's evaluator -----

  function ServerPick(m: string): Option<string> {
    var t := Trim(m, IsRustSpace);
    if t == "" then None else Some(t)
  }

  /** The rules that match, in order. */
  function Matching(rules: seq<Rule>, at: WallClock): seq<Rule> {
    if rules == [] then []
    else (if RuleMatches(rules[0], at) then [rules[0]] else []) + Matching(rules[1..], at)
  }

  /** The first pick that succeeds, with the effort of its rule. */
  function FindPick(rules: seq<Rule>): Option<(string, Option<string>)> {
    if rules == [] then None
    else
      var m := ServerPick(rules[0].model);
      if m.Some? then
        Some((m.value, if rules[0].effort.Some? then ServerPick(rules[0].effort.value) else None))
      else FindPick(rules[1..])
  }

  function ServerChoice(def: string, rules: seq<Rule>, at: WallClock): Option<(string, Option<string>)> {
    var hit := FindPick(Matching(rules, at));
    if hit.Some? then hit
    else if ServerPick(def).Some? then Some((ServerPick(def).value, None)) else None
  }

  function ServerModel(def: string, rules: seq<Rule>, at: WallClock): Option<string> {
    var choice := ServerChoice(def, rules, at);
    if choice.Some? then Some(choice.value.0) else None
  }

  /** A rule's own effort, trimmed; blank ones count as none. */
  ghost predicate EffortOf(effort: Option<string>, e: Option<string>) {
    match effort
    case None => e == None
    case Some(text) => e == if Trim(text, IsRustSpace) == "" then None else Some(Trim(text, IsRustSpace))
  }

  /** Rule i matches and has a name for the server, and no earlier rule does both. */
  ghost predicate FirstNamedForServer(rules: seq<Rule>, at: WallClock, i: nat) {
    && i < |rules| && RuleMatches(rules[i], at) && Trim(rules[i].model, IsRustSpace) != ""
    && forall j :: 0 <= j < i ==> !(RuleMatches(rules[j], at) && Trim(rules[j].model, IsRustSpace) != "")
  }

  lemma ChoiceFromFront(def: string, rules: seq<Rule>, at: WallClock)
    requires rules != []
    ensures ServerChoice(def, rules, at) ==
      if RuleMatches(rules[0], at) && ServerPick(rules[0].model).Some?
      then Some((ServerPick(rules[0].model).value, if rules[0].effort.Some? then ServerPick(rules[0].effort.value) else None))
      else ServerChoice(def, rules[1..], at)
  {
    var (first, rest) := ([rules[0]], Matching(rules[1..], at));
    if RuleMatches(rules[0], at) {
      assert (first + rest)[0] == rules[0] && (first + rest)[1..] == rest;
    } else {
      assert [] + rest == rest;
    }
  }

  /** The server's choice is that rule's trimmed name with its own effort; without one, the default
      and no effort. */
  lemma {:induction false} ServerChoiceIsFirstName(def: string, rules: seq<Rule>, at: WallClock)
    ensures forall i: nat :: FirstNamedForServer(rules, at, i) ==>
      exists e :: EffortOf(rules[i].effort, e) && ServerChoice(def, rules, at) == Some((Trim(rules[i].model, IsRustSpace), e))
    ensures (forall i: nat :: !FirstNamedForServer(rules, at, i)) ==>
      ServerChoice(def, rules, at) ==
        if Trim(def, IsRustSpace) == "" then None else Some((Trim(def, IsRustSpace), None))
  {
    if rules != [] {
      ServerChoiceIsFirstName(def, rules[1..], at);
      ChoiceFromFront(def, rules, at);
      if RuleMatches(rules[0], at) && ServerPick(rules[0].model).Some? {
        var e := if rules[0].effort.Some? then ServerPick(rules[0].effort.value) else None;
        assert FirstNamedForServer(rules, at, 0) && EffortOf(rules[0].effort, e);
      } else {
        forall i: nat ensures FirstNamedForServer(rules, at, i) <==> i > 0 && FirstNamedForServer(rules[1..], at, i - 1) {
          LaterNamed(rules, at, i);
        }
        if i: nat :| FirstNamedForServer(rules[1..], at, i) { assert FirstNamedForServer(rules, at, i + 1); }
      }
    }
  }

  lemma LaterNamed(rules: seq<Rule>, at: WallClock, i: nat)
    requires rules != [] && !(RuleMatches(rules[0], at) && Trim(rules[0].model, IsRustSpace) != "")
    ensures FirstNamedForServer(rules, at, i) <==> i > 0 && FirstNamedForServer(rules[1..], at, i - 1)
  {
    if i > 0 {
      assert forall j :: 0 < j < |rules| ==> rules[j] == rules[1..][j - 1];
    }
  }

  /** Both languages trim the name to the same string. */
  predicate Portable(m: string) {
    Trim(m, IsJsSpace) == Trim(m, IsRustSpace)
  }

  /** The name that the answer depends on: that of the first matching rule which is not blank to
      both languages, else the default. */
  function Deciding(def: string, rules: seq<Rule>, at: WallClock): string {
    if rules == [] then def
    else if RuleMatches(rules[0], at) && (Pick(rules[0].model).Some? || ServerPick(rules[0].model).Some?) then rules[0].model
    else Deciding(def, rules[1..], at)
  }

  /** Seen from the front of the list, the first rule answers or leaves it to the others. */
  lemma ModelFromFront(def: string, rules: seq<Rule>, at: WallClock)
    requires rules != []
    ensures EffectiveModel(def, rules, at) ==
      if Live(rules[0], at) then Pick(rules[0].model) else EffectiveModel(def, rules[1..], at)
  {
    var rest := rules[1..];
    WinnerIsFirstLive(rules, at);
    WinnerIsFirstLive(rest, at);
    assert forall j :: 0 <= j < |rest| ==> rest[j] == rules[j + 1];
    if !Live(rules[0], at) {
      var (w, v) := (Winner(rules, at), Winner(rest, at));
      if w.Some? { assert Live(rest[w.value - 1], at); }
      if v.Some? { assert Live(rules[v.value + 1], at); }
    }
  }

  lemma ServerFromFront(def: string, rules: seq<Rule>, at: WallClock)
    requires rules != []
    ensures ServerModel(def, rules, at) ==
      if RuleMatches(rules[0], at) && ServerPick(rules[0].model).Some? then ServerPick(rules[0].model)
      else ServerModel(def, rules[1..], at)
  {
    var (first, rest) := ([rules[0]], Matching(rules[1..], at));
    if RuleMatches(rules[0], at) {
      assert first + rest != [] && (first + rest)[0] == rules[0] && (first + rest)[1..] == rest;
    } else {
      assert [] + rest == rest;
    }
  }

  /** A model never begins with a character that its language calls blank. */
  lemma PickIsTrimmed(m: string)
    ensures Pick(m).Some? ==> Pick(m).value != "" && !IsJsSpace(Pick(m).value[0])
    ensures ServerPick(m).Some? ==> ServerPick(m).value != "" && !IsRustSpace(ServerPick(m).value[0])
  {
    var a, b := TrimIsSlice(m, IsJsSpace);
    var c, d := TrimIsSlice(m, IsRustSpace);
  }

  lemma {:induction false} ModelIsTrimmed(def: string, rules: seq<Rule>, at: WallClock)
    ensures var m := EffectiveModel(def, rules, at); m.Some? ==> m.value != "" && !IsJsSpace(m.value[0])
    ensures var m := ServerModel(def, rules, at); m.Some? ==> m.value != "" && !IsRustSpace(m.value[0])
  {
    if rules == [] {
      PickIsTrimmed(def);
    } else {
      PickIsTrimmed(rules[0].model);
      ModelFromFront(def, rules, at);
      ServerFromFront(def, rules, at);
      ModelIsTrimmed(def, rules[1..], at);
    }
  }

  /** A name that only one language calls blank: the other's model would begin with a blank. */
  lemma HalfBlankNamesDisagree(m: string)
    ensures Pick(m).None? && ServerPick(m).Some? ==> IsJsSpace(ServerPick(m).value[0])
    ensures Pick(m).Some? && ServerPick(m).None? ==> IsRustSpace(Pick(m).value[0])
  {
    TrimEmptyIff(m, IsJsSpace);
    TrimEmptyIff(m, IsRustSpace);
    var a, b := TrimIsSlice(m, IsJsSpace);
    var c, d := TrimIsSlice(m, IsRustSpace);
  }

  /** The page's evaluator and the server's give the same model exactly when the deciding name is
      trimmed alike by both languages. */
  lemma {:induction false} EvaluatorsAgreeIff(def: string, rules: seq<Rule>, at: WallClock)
    ensures ServerModel(def, rules, at) == EffectiveModel(def, rules, at) <==> Portable(Deciding(def, rules, at))
  {
    if rules != [] {
      var m := rules[0].model;
      ModelFromFront(def, rules, at);
      ServerFromFront(def, rules, at);
      if RuleMatches(rules[0], at) && (Pick(m).Some? || ServerPick(m).Some?) {
        HalfBlankNamesDisagree(m);
        ModelIsTrimmed(def, rules[1..], at);
      } else {
        EvaluatorsAgreeIff(def, rules[1..], at);
      }
    }
  }

  lemma OneRuleAnswers(rule: Rule, at: WallClock)
    ensures EffectiveModel("", [rule], at) == if RuleMatches(rule, at) then Pick(rule.model) else None
    ensures ServerModel("", [rule], at) == if RuleMatches(rule, at) then ServerPick(rule.model) else None
  {
    ModelFromFront("", [rule], at);
    ServerFromFront("", [rule], at);
    assert [rule][1..] == [];
    assert Trim("", IsJsSpace) == "" && Trim("", IsRustSpace) == "";
  }

  lemma BlankToOneLanguage()
    ensures Pick("\U{FEFF}") == None && ServerPick("\U{FEFF}") == Some("\U{FEFF}")
  {
    TrimEmptyIff("\U{FEFF}", IsJsSpace);
    assert TrimStart("\U{FEFF}", IsRustSpace) == "\U{FEFF}";
  }

  /** A rule whose model is a byte-order mark: the server asks for that model wherever the rule
      matches, the page shows none. */
  lemma EvaluatorsDisagree(days: seq<int>, at: WallClock)
    requires at.weekday in days && ValidClock(at)
    ensures var rules := [Rule(days, "00:00", "24:00", "\U{FEFF}", None)];
      ServerModel("", rules, at) == Some("\U{FEFF}") && EffectiveModel("", rules, at) == None
  {
    var rule := Rule(days, "00:00", "24:00", "\U{FEFF}", None);
    PadTwoDigits(0);
    PadTwoDigits(24);
    assert HHMM(0) == "00:00" && HHMM(1440) == "24:00";
    TimesHaveOneSpelling("00:00", 0);
    TimesHaveOneSpelling("24:00", 1440);
    assert RuleMatches(rule, at);
    OneRuleAnswers(rule, at);
    BlankToOneLanguage();
  }

  /** A name is portable exactly when, once the shared blanks are gone, neither end is
      a byte-order mark or a next-line character. */
  lemma PortableIff(m: string)
    ensures Portable(m) <==>
      var t := Trim(m, IsSharedSpace);
      t == "" || (t[0] as int !in {0x85, 0xFEFF} && t[|t| - 1] as int !in {0x85, 0xFEFF})
  {
    var a, b := TrimIsSlice(m, IsSharedSpace);
    var aj, bj := TrimIsSlice(m, IsJsSpace);
    var ar, br := TrimIsSlice(m, IsRustSpace);
    assert forall c :: IsSharedSpace(c) ==> IsJsSpace(c) && IsRustSpace(c);
    if a == b {
      TrimEmptyIff(m, IsJsSpace);
      TrimEmptyIff(m, IsRustSpace);
    }
  }
}
