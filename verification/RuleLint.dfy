/**
 Checking a rule list: the hints about rules that never take effect, what deleting the hinted
 rules does, and the validation that a saved list has passed (src/lib/slotSchedule.ts).
 */
module RuleLint {
  import opened Wrappers
  import opened Text
  import opened Schedule
  import opened Week
  import StableSort

  // ----- Hints -----

  datatype IssueKind = SameStartEnd | Shadowed
  datatype Issue = Issue(index: nat, kind: IssueKind)

  /** Rule i is the winner in some cell of the week. */
  ghost predicate WinsSomewhere(rules: seq<Rule>, i: nat) {
    exists c :: 0 <= c < HALF_HOURS && Winner(rules, ClockAt(c)) == Some(i)
  }

  ghost predicate Reported(issues: seq<Issue>, i: nat) {
    exists k :: 0 <= k < |issues| && issues[k].index == i
  }

  /** Precisely the rules that win in no cell are reported. */
  ghost predicate ReportsTheDead(rules: seq<Rule>, issues: seq<Issue>) {
    forall i :: 0 <= i < |rules| ==> (Reported(issues, i) <==> !WinsSomewhere(rules, i))
  }

  /** Ascending indices of the list, each with the kind its two time strings call for. */
  ghost predicate WellFormedIssues(rules: seq<Rule>, issues: seq<Issue>) {
    && (forall k :: 0 <= k < |issues| ==>
         issues[k].index < |rules|
         && (issues[k].kind == SameStartEnd <==> rules[issues[k].index].start == rules[issues[k].index].end))
    && (forall j, k :: 0 <= j < k < |issues| ==> issues[j].index < issues[k].index)
  }

  lemma WinsSomewhereInPrefix(rules: seq<Rule>, n: nat, i: nat)
    requires i < n <= |rules|
    ensures WinsSomewhere(rules[..n], i) <==> WinsSomewhere(rules, i)
  {
    forall c | 0 <= c < HALF_HOURS
      ensures Winner(rules[..n], ClockAt(c)) == Some(i) <==> Winner(rules, ClockAt(c)) == Some(i)
    {
      WinnerOfPrefix(rules, n, ClockAt(c));
    }
  }

  /** Adding a last rule changes the answer of a cell exactly where that rule wins. */
  lemma LastRuleChangesCell(rules: seq<Rule>, at: WallClock)
    requires rules != []
    ensures EffectiveModel("", rules, at) != EffectiveModel("", rules[..|rules| - 1], at)
      <==> Winner(rules, at) == Some(|rules| - 1)
  {
  }

  lemma SameTimesNeverMatch(rule: Rule, at: WallClock)
    requires rule.start == rule.end
    ensures !RuleMatches(rule, at)
  {
  }

  /** The comparison of two evaluated weeks finds out whether the last rule wins anywhere. */
  lemma WeeksEqualIffDead(rules: seq<Rule>)
    requires rules != []
    ensures Cells(Evaluator("", rules)) == Cells(Evaluator("", rules[..|rules| - 1]))
      <==> !WinsSomewhere(rules, |rules| - 1)
  {
    var upto, before := Cells(Evaluator("", rules)), Cells(Evaluator("", rules[..|rules| - 1]));
    forall c | 0 <= c < HALF_HOURS
      ensures upto[c] != before[c] <==> Winner(rules, ClockAt(c)) == Some(|rules| - 1)
    {
      LastRuleChangesCell(rules, ClockAt(c));
    }
  }

  lemma PrefixWeeksEqualIffDead(rules: seq<Rule>, index: nat)
    requires index < |rules|
    ensures Cells(Evaluator("", rules[..index + 1])) == Cells(Evaluator("", rules[..index]))
      <==> !WinsSomewhere(rules, index)
  {
    assert rules[..index + 1][..index] == rules[..index];
    WeeksEqualIffDead(rules[..index + 1]);
    WinsSomewhereInPrefix(rules, index + 1, index);
  }

  method RuleIssues(rules: seq<Rule>) returns (out: seq<Issue>)
    ensures WellFormedIssues(rules, out)
    ensures ReportsTheDead(rules, out)
  {
    out := [];
    var before := WeekCells(Evaluator("", []));
    assert rules[..0] == [];
    for index := 0 to |rules|
      invariant before == Cells(Evaluator("", rules[..index]))
      invariant IssuesUpTo(rules, index, out)
    {
      var upto := WeekCells(Evaluator("", rules[..index + 1]));
      PrefixWeeksEqualIffDead(rules, index);
      var r := rules[index];
      if r.start == r.end {
        SameStartEndIsDead(rules, index);
        IssueAdded(rules, index, out, Issue(index, SameStartEnd));
        out := out + [Issue(index, SameStartEnd)];
      } else if upto == before {
        IssueAdded(rules, index, out, Issue(index, Shadowed));
        out := out + [Issue(index, Shadowed)];
      } else {
        NothingAdded(rules, index, out);
      }
      before := upto;
    }
  }

  /** The hints are right about the first n rules. */
  ghost predicate IssuesUpTo(rules: seq<Rule>, n: nat, issues: seq<Issue>) {
    && WellFormedIssues(rules, issues)
    && (forall k :: 0 <= k < |issues| ==> issues[k].index < n)
    && (forall i :: 0 <= i < n ==> (Reported(issues, i) <==> !WinsSomewhere(rules, i)))
  }

  lemma IssueAdded(rules: seq<Rule>, n: nat, issues: seq<Issue>, issue: Issue)
    requires n < |rules| && IssuesUpTo(rules, n, issues) && !WinsSomewhere(rules, n)
    requires issue.index == n && (issue.kind == SameStartEnd <==> rules[n].start == rules[n].end)
    ensures IssuesUpTo(rules, n + 1, issues + [issue])
  {
    var more := issues + [issue];
    assert more[|issues|] == issue && Reported(more, n);
    forall i | 0 <= i < n ensures Reported(more, i) <==> Reported(issues, i) {
      if Reported(issues, i) {
        var k :| 0 <= k < |issues| && issues[k].index == i;
        assert more[k].index == i;
      }
      if Reported(more, i) {
        var k :| 0 <= k < |more| && more[k].index == i;
        assert issues[k].index == i;
      }
    }
  }

  lemma NothingAdded(rules: seq<Rule>, n: nat, issues: seq<Issue>)
    requires n < |rules| && IssuesUpTo(rules, n, issues) && WinsSomewhere(rules, n)
    ensures IssuesUpTo(rules, n + 1, issues)
  {
  }

  lemma SameStartEndIsDead(rules: seq<Rule>, i: nat)
    requires i < |rules| && rules[i].start == rules[i].end
    ensures !WinsSomewhere(rules, i)
  {
    forall c | 0 <= c < HALF_HOURS ensures Winner(rules, ClockAt(c)) != Some(i) {
      WinnerIsFirstLive(rules, ClockAt(c));
      SameTimesNeverMatch(rules[i], ClockAt(c));
    }
  }

  // ----- Deleting the reported rules -----

  /** The list without the reported rules. */
  ghost function Without(rules: seq<Rule>, issues: seq<Issue>): (kept: seq<Rule>)
    ensures |kept| <= |rules|
  {
    if rules == [] then []
    else
      var last := |rules| - 1;
      Without(rules[..last], issues) + (if Reported(issues, last) then [] else [rules[last]])
  }

  /** Deleting keeps exactly the rules that are not reported, in their order. */
  lemma {:induction false} WithoutTakes(rules: seq<Rule>, issues: seq<Issue>) returns (at: seq<nat>)
    ensures StableSort.TakenAt(rules, Without(rules, issues), at)
    ensures forall i :: 0 <= i < |rules| ==> (i in at <==> !Reported(issues, i))
  {
    at := [];
    if rules != [] {
      var n := |rules| - 1;
      var init := rules[..n];
      at := WithoutTakes(init, issues);
      assert rules == init + [rules[n]] && n !in at;
      StableSort.TakenMore(init, Without(init, issues), at, rules[n]);
      assert Without(init, issues) + [] == Without(init, issues);
      if !Reported(issues, n) { at := at + [n]; }
    }
  }

  /** No rule that is dead on the grid wins at this moment. */
  ghost predicate DeadLoseAt(rules: seq<Rule>, at: WallClock) {
    Winner(rules, at).Some? ==> WinsSomewhere(rules, Winner(rules, at).value)
  }

  lemma DeadLoseOnGrid(rules: seq<Rule>, c: nat)
    requires c < HALF_HOURS
    ensures DeadLoseAt(rules, ClockAt(c))
  {
  }

  lemma DeadLoseWhenAligned(rules: seq<Rule>, at: WallClock)
    requires AllAligned(rules) && ValidClock(at)
    ensures DeadLoseAt(rules, at)
  {
    WinnerIsConstantOnCell(rules, at);
    DeadLoseOnGrid(rules, CellOf(at));
  }

  /** What the rules alone say: the model of the winner. */
  function RuleModel(rules: seq<Rule>, at: WallClock): Option<string> {
    var w := Winner(rules, at);
    if w.Some? then Pick(rules[w.value].model) else None
  }

  lemma RuleModelDecides(def: string, rules: seq<Rule>, at: WallClock)
    ensures RuleModel(rules, at).Some? <==> Winner(rules, at).Some?
    ensures EffectiveModel(def, rules, at) == if RuleModel(rules, at).Some? then RuleModel(rules, at) else Pick(def)
  {
    WinnerIsFirstLive(rules, at);
  }

  lemma WinnerAppend(rules: seq<Rule>, last: Rule, at: WallClock)
    ensures Winner(rules + [last], at) ==
      if Winner(rules, at).Some? then Winner(rules, at) else if Live(last, at) then Some(|rules|) else None
  {
  }

  lemma RuleModelAppend(rules: seq<Rule>, last: Rule, at: WallClock)
    ensures RuleModel(rules + [last], at) ==
      if RuleModel(rules, at).Some? then RuleModel(rules, at)
      else if Live(last, at) then Pick(last.model) else None
  {
    WinnerAppend(rules, last, at);
    RuleModelDecides("", rules, at);
  }

  lemma WithoutAppend(init: seq<Rule>, last: Rule, issues: seq<Issue>)
    ensures Without(init + [last], issues) ==
      if Reported(issues, |init|) then Without(init, issues) else Without(init, issues) + [last]
  {
  }

  /** One more rule: dropped where it does not win, kept where it may. */
  lemma WithoutStep(init: seq<Rule>, last: Rule, issues: seq<Issue>, at: WallClock)
    requires RuleModel(Without(init, issues), at) == RuleModel(init, at)
    requires Reported(issues, |init|) ==> Winner(init + [last], at) != Some(|init|)
    ensures RuleModel(Without(init + [last], issues), at) == RuleModel(init + [last], at)
  {
    WithoutAppend(init, last, issues);
    RuleModelAppend(init, last, at);
    if Reported(issues, |init|) {
      WinnerAppend(init, last, at);
      RuleModelDecides("", init, at);
    } else {
      RuleModelAppend(Without(init, issues), last, at);
    }
  }

  lemma {:induction false} WithoutKeepsModel(rules: seq<Rule>, issues: seq<Issue>, at: WallClock)
    requires ReportsTheDead(rules, issues) && DeadLoseAt(rules, at)
    ensures RuleModel(Without(rules, issues), at) == RuleModel(rules, at)
  {
    if rules != [] {
      var n := |rules| - 1;
      PrefixReportsTheDead(rules, issues, at);
      WithoutKeepsModel(rules[..n], issues, at);
      assert rules[..n] + [rules[n]] == rules;
      WithoutStep(rules[..n], rules[n], issues, at);
    }
  }

  lemma PrefixReportsTheDead(rules: seq<Rule>, issues: seq<Issue>, at: WallClock)
    requires rules != [] && ReportsTheDead(rules, issues) && DeadLoseAt(rules, at)
    ensures ReportsTheDead(rules[..|rules| - 1], issues) && DeadLoseAt(rules[..|rules| - 1], at)
  {
  }

  /** Deleting every reported rule at once changes the model at no minute of the week, whatever
      the default. */
  lemma PruningPreservesMeaning(rules: seq<Rule>, issues: seq<Issue>, def: string, at: WallClock)
    requires ReportsTheDead(rules, issues) && AllAligned(rules) && ValidClock(at)
    ensures EffectiveModel(def, Without(rules, issues), at) == EffectiveModel(def, rules, at)
  {
    DeadLoseWhenAligned(rules, at);
    WithoutKeepsModel(rules, issues, at);
    RuleModelDecides(def, rules, at);
    RuleModelDecides(def, Without(rules, issues), at);
  }

  /** A rule that is not reported still wins somewhere once the reported rules before it are gone. */
  lemma UnreportedLastStillWins(init: seq<Rule>, last: Rule, issues: seq<Issue>)
    requires ReportsTheDead(init + [last], issues) && !Reported(issues, |init|)
    ensures WinsSomewhere(Without(init, issues) + [last], |Without(init, issues)|)
  {
    var rules := init + [last];
    assert rules[..|init|] == init && WinsSomewhere(rules, |init|);
    var c :| 0 <= c < HALF_HOURS && Winner(rules, ClockAt(c)) == Some(|init|);
    DeadLoseOnGrid(rules, c);
    PrefixReportsTheDead(rules, issues, ClockAt(c));
    WithoutKeepsModel(init, issues, ClockAt(c));
    LastStillWins(init, Without(init, issues), last, ClockAt(c));
  }

  lemma StillWinsWithMore(rules: seq<Rule>, last: Rule, i: nat)
    requires i < |rules| && WinsSomewhere(rules, i)
    ensures WinsSomewhere(rules + [last], i)
  {
  }

  /** After deleting the reported rules there is nothing left to report. */
  lemma {:induction false} PrunedListHasNoIssues(rules: seq<Rule>, issues: seq<Issue>, i: nat)
    requires ReportsTheDead(rules, issues) && i < |Without(rules, issues)|
    ensures WinsSomewhere(Without(rules, issues), i)
  {
    var n := |rules| - 1;
    var init, last := rules[..n], rules[n];
    assert rules == init + [last];
    WithoutAppend(init, last, issues);
    if i < |Without(init, issues)| {
      DeadLoseOnGrid(rules, 0);
      PrefixReportsTheDead(rules, issues, ClockAt(0));
      PrunedListHasNoIssues(init, issues, i);
      if !Reported(issues, n) { StillWinsWithMore(Without(init, issues), last, i); }
    } else {
      UnreportedLastStillWins(init, last, issues);
    }
  }

  lemma {:induction false} LastStillWins(init: seq<Rule>, kept: seq<Rule>, last: Rule, at: WallClock)
    requires Winner(init + [last], at) == Some(|init|)
    requires RuleModel(kept, at) == RuleModel(init, at)
    ensures Winner(kept + [last], at) == Some(|kept|)
  {
    WinnerAppend(init, last, at);
    WinnerAppend(kept, last, at);
    RuleModelDecides("", init, at);
    RuleModelDecides("", kept, at);
  }

  // ----- Half-hour times are what pruning needs -----

  /** Deleting the reported rules changes nothing, whatever the default. */
  ghost predicate PruningIsSafe(rules: seq<Rule>) {
    forall issues, def, at :: ReportsTheDead(rules, issues) && ValidClock(at) ==>
      EffectiveModel(def, Without(rules, issues), at) == EffectiveModel(def, rules, at)
  }

  /** Every rule of the list is r or has half-hour times. */
  predicate OtherwiseAligned(rules: seq<Rule>, r: Rule) {
    forall i :: 0 <= i < |rules| ==> rules[i] == r || Aligned(rules[i])
  }

  ghost function DeadIssues(rules: seq<Rule>, n: nat): seq<Issue>
    requires n <= |rules|
  {
    if n == 0 then []
    else DeadIssues(rules, n - 1) + (if WinsSomewhere(rules, n - 1) then [] else [Issue(n - 1, Shadowed)])
  }

  lemma {:induction false} DeadAreReported(rules: seq<Rule>, n: nat, i: nat)
    requires n <= |rules|
    ensures Reported(DeadIssues(rules, n), i) <==> i < n && !WinsSomewhere(rules, i)
  {
    if n > 0 {
      var before := DeadIssues(rules, n - 1);
      DeadAreReported(rules, n - 1, i);
      if WinsSomewhere(rules, n - 1) {
        assert before + [] == before;
      } else {
        ReportedMore(before, Issue(n - 1, Shadowed), i);
      }
    }
  }

  lemma ReportedMore(issues: seq<Issue>, issue: Issue, i: nat)
    ensures Reported(issues + [issue], i) <==> Reported(issues, i) || issue.index == i
  {
    var more := issues + [issue];
    if Reported(issues, i) {
      var k :| 0 <= k < |issues| && issues[k].index == i;
      assert more[k].index == i;
    }
    assert more[|issues|] == issue;
  }

  lemma {:induction false} NoWinnerAmongFewer(rules: seq<Rule>, issues: seq<Issue>, at: WallClock)
    requires Winner(rules, at).None?
    ensures Winner(Without(rules, issues), at).None?
  {
    if rules != [] {
      var n := |rules| - 1;
      WinnerIsFirstLive(rules, at);
      NoWinnerAmongFewer(rules[..n], issues, at);
      assert rules[..n] + [rules[n]] == rules;
      WithoutAppend(rules[..n], rules[n], issues);
      WinnerAppend(Without(rules[..n], issues), rules[n], at);
    }
  }

  /** A last rule that wins in no cell and yet decides a minute makes pruning unsafe. */
  lemma {:induction false} DeadLastDecides(init: seq<Rule>, last: Rule, at: WallClock)
    requires ValidClock(at) && Winner(init, at).None? && Live(last, at)
    requires !WinsSomewhere(init + [last], |init|)
    ensures !PruningIsSafe(init + [last])
  {
    var rules := init + [last];
    var issues := DeadIssues(rules, |rules|);
    forall i | 0 <= i < |rules| ensures Reported(issues, i) <==> !WinsSomewhere(rules, i) {
      DeadAreReported(rules, |rules|, i);
    }
    assert ReportsTheDead(rules, issues);
    WithoutAppend(init, last, issues);
    NoWinnerAmongFewer(init, issues, at);
    WinnerAppend(init, last, at);
    assert Pick("") == None;
    assert EffectiveModel("", rules, at) != EffectiveModel("", Without(rules, issues), at);
  }

  /** The rule is live on these days from s to e and has half-hour times. */
  ghost predicate LiveFromTo(rule: Rule, days: seq<int>, s: nat, e: nat) {
    && Aligned(rule)
    && forall at :: ValidClock(at) ==> (Live(rule, at) <==> at.weekday in days && s <= at.minute < e)
  }

  lemma TimesDecide(rule: Rule, s: nat, e: nat)
    requires ParseHHMM(rule.start) == Some(s) && ParseHHMM(rule.end) == Some(e) && Pick(rule.model).Some?
    requires s <= e <= MINUTES_PER_DAY && s % 30 == 0 && e % 30 == 0
    ensures LiveFromTo(rule, rule.days, s, e)
  {
  }

  lemma TimedRule(days: seq<int>, s: nat, e: nat) returns (rule: Rule)
    requires s <= e <= MINUTES_PER_DAY && s % 30 == 0 && e % 30 == 0
    ensures LiveFromTo(rule, days, s, e)
  {
    var from, to := HHMM(s), HHMM(e);
    TimesHaveOneSpelling(from, s);
    TimesHaveOneSpelling(to, e);
    rule := Rule(days, from, to, "m", None);
    assert Trim("m", IsJsSpace) == "m";
    TimesDecide(rule, s, e);
  }

  function OtherDays(d: int): seq<int>
    requires 1 <= d <= 7
  {
    seq(6, i => if i + 1 < d then i + 1 else i + 2)
  }

  lemma OtherDaysAre(d: int, x: int)
    requires 1 <= d <= 7 && 1 <= x <= 7
    ensures x in OtherDays(d) <==> x != d
  {
    if x != d { assert OtherDays(d)[if x < d then x - 1 else x - 2] == x; }
  }

  lemma CellHolds(c: nat, at: WallClock)
    requires c < HALF_HOURS && ValidClock(at)
    ensures var open := ClockAt(c);
      && ValidClock(open) && open.minute % 30 == 0 && open.minute + 30 <= MINUTES_PER_DAY
      && (CellOf(at) == c <==> at.weekday == open.weekday && open.minute <= at.minute < open.minute + 30)
  {
  }

  lemma NobodyWinsIff(rules: seq<Rule>, at: WallClock)
    ensures Winner(rules, at).None? <==> forall j :: 0 <= j < |rules| ==> !Live(rules[j], at)
  {
    WinnerIsFirstLive(rules, at);
  }

  /** Half-hour rules that cover the whole week except for one cell. */
  ghost predicate IsFence(rules: seq<Rule>, c: nat) {
    AllAligned(rules) && forall at :: ValidClock(at) ==> (Winner(rules, at).None? <==> CellOf(at) == c)
  }

  lemma Fence(c: nat) returns (rules: seq<Rule>)
    requires c < HALF_HOURS
    ensures IsFence(rules, c)
  {
    var d, m := ClockAt(c).weekday, ClockAt(c).minute;
    CellHolds(c, ClockAt(0));
    var x := TimedRule(OtherDays(d), 0, MINUTES_PER_DAY);
    var y := TimedRule([d], 0, m);
    var z := TimedRule([d], m + 30, MINUTES_PER_DAY);
    rules := [x, y, z];
    forall at | ValidClock(at) ensures Winner(rules, at).None? <==> CellOf(at) == c {
      CellHolds(c, at);
      OtherDaysAre(d, at.weekday);
      NobodyWinsIff(rules, at);
      assert rules[0] == x && rules[1] == y && rules[2] == z;
    }
  }

  /** Covered, but its cell is not: behind a fence the rule decides this cell alone, and is dead. */
  lemma UncoveredCellIsUnsafe(r: Rule, at: WallClock) returns (rules: seq<Rule>)
    requires Pick(r.model).Some? && ValidClock(at)
    requires RuleMatches(r, at) && !RuleMatches(r, ClockAt(CellOf(at)))
    ensures OtherwiseAligned(rules, r) && !PruningIsSafe(rules)
  {
    var c := CellOf(at);
    var fence := Fence(c);
    rules := fence + [r];
    forall k | 0 <= k < HALF_HOURS ensures Winner(rules, ClockAt(k)) != Some(|fence|) {
      CellHolds(k, ClockAt(k));
      WinnerAppend(fence, r, ClockAt(k));
    }
    DeadLastDecides(fence, r, at);
  }

  lemma WinnerOfOne(r: Rule, at: WallClock)
    ensures Winner([r], at) == if Live(r, at) then Some(0) else None
  {
    WinnerAppend([], r, at);
    assert [] + [r] == [r];
  }

  /** Not covered, but its cell is: a later rule for just this cell is dead, and decides the minute. */
  lemma CoveredCellIsUnsafe(r: Rule, at: WallClock) returns (rules: seq<Rule>)
    requires Pick(r.model).Some? && ValidClock(at)
    requires !RuleMatches(r, at) && RuleMatches(r, ClockAt(CellOf(at)))
    ensures OtherwiseAligned(rules, r) && !PruningIsSafe(rules)
  {
    var c := CellOf(at);
    CellHolds(c, at);
    var later := TimedRule([ClockAt(c).weekday], ClockAt(c).minute, ClockAt(c).minute + 30);
    rules := [r] + [later];
    forall k | 0 <= k < HALF_HOURS ensures Winner(rules, ClockAt(k)) != Some(1) {
      CellHolds(k, ClockAt(k));
      CellHolds(c, ClockAt(k));
      WinnerOfOne(r, ClockAt(k));
      WinnerAppend([r], later, ClockAt(k));
    }
    WinnerOfOne(r, at);
    DeadLastDecides([r], later, at);
  }

  /** Among half-hour rules, a rule that can serve leaves pruning safe in every list exactly if it
      has half-hour times itself. */
  lemma PruningIsSafeIffAligned(r: Rule)
    requires CanServe(r)
    ensures (forall rules :: OtherwiseAligned(rules, r) ==> PruningIsSafe(rules)) <==> Aligned(r)
  {
    if Aligned(r) {
      forall rules, issues, def, at | OtherwiseAligned(rules, r) && ReportsTheDead(rules, issues) && ValidClock(at)
        ensures EffectiveModel(def, Without(rules, issues), at) == EffectiveModel(def, rules, at)
      {
        PruningPreservesMeaning(rules, issues, def, at);
      }
      assert forall rules :: OtherwiseAligned(rules, r) ==> PruningIsSafe(rules);
    } else {
      var at := SplitCell(r);
      var rules;
      if RuleMatches(r, at) { rules := UncoveredCellIsUnsafe(r, at); } else { rules := CoveredCellIsUnsafe(r, at); }
    }
  }

  /** A rule of a quarter of an hour between two half hours, which validation rejects: it is reported
      although it decides that quarter. */
  lemma PruningNeedsAlignment()
    ensures var rules := [Rule([1], "00:05", "00:20", "m", None)];
      && EffectiveModel("", rules, WallClock(1, 10)) == Some("m")
      && !WinsSomewhere(rules, 0)
      && forall issues :: ReportsTheDead(rules, issues) ==>
           EffectiveModel("", Without(rules, issues), WallClock(1, 10)) == None
  {
    var rule := Rule([1], "00:05", "00:20", "m", None);
    var rules := [rule];
    ParsedExamples();
    assert rules[..0] == [];
    forall c | 0 <= c < HALF_HOURS ensures Winner(rules, ClockAt(c)) != Some(0) {
      assert ClockAt(c).minute % 30 == 0;
    }
    assert Trim("m", IsJsSpace) == "m";
    assert Winner(rules, WallClock(1, 10)) == Some(0);
    forall issues | ReportsTheDead(rules, issues)
      ensures EffectiveModel("", Without(rules, issues), WallClock(1, 10)) == None
    {
      assert Reported(issues, 0);
      assert Without(rules, issues) == [];
    }
  }

  lemma ParsedExamples()
    ensures ParseHHMM("00:05") == Some(5) && ParseHHMM("00:20") == Some(20)
  {
    PadTwoDigits(0);
    PadTwoDigits(5);
    PadTwoDigits(20);
    assert HHMM(5) == "00:05" && HHMM(20) == "00:20";
    TimesHaveOneSpelling("00:05", 5);
    TimesHaveOneSpelling("00:20", 20);
  }

  // ----- Validation -----

  const SLOT_EFFORT_LEVELS: seq<string> := ["low", "medium", "high", "xhigh", "max"]

  datatype Fault =
    | TooMany | DaysEmpty | DaysRange | DaysDuplicate | StartFormat | Start24
    | EndFormat | SameTimes | ModelEmpty | BadEffort

  function HalfHour(s: string): Option<nat> {
    var m := ParseHHMM(s);
    if m.Some? && m.value % 30 == 0 then m else None
  }

  /** The text is a time on a full or half hour. */
  predicate OnHalfHour(s: string) {
    ParseHHMM(s).Some? && ParseHHMM(s).value % 30 == 0
  }

  /** What a saved rule satisfies. */
  ghost predicate ValidRule(r: Rule) {
    && r.days != []
    && (forall k :: 0 <= k < |r.days| ==> 1 <= r.days[k] <= 7)
    && (forall j, k :: 0 <= j < k < |r.days| ==> r.days[j] != r.days[k])
    && OnHalfHour(r.start) && ParseHHMM(r.start).value < 1440
    && OnHalfHour(r.end)
    && ParseHHMM(r.start) != ParseHHMM(r.end)
    && Trim(r.model, IsJsSpace) != ""
    && (r.effort.Some? ==> r.effort.value in ["low", "medium", "high", "xhigh", "max"])
  }

  ghost predicate ValidRules(rules: seq<Rule>) {
    |rules| <= 16 && forall i :: 0 <= i < |rules| ==> ValidRule(rules[i])
  }

  /** Day k is the first one out of range or seen before, and this is the fault it causes. */
  ghost predicate FirstBadDay(days: seq<int>, k: nat, fault: Fault) {
    && k < |days|
    && (forall j :: 0 <= j < k ==> 1 <= days[j] <= 7)
    && (forall i, j :: 0 <= i < j < k ==> days[i] != days[j])
    && (if 1 <= days[k] <= 7 then fault == DaysDuplicate && days[k] in days[..k] else fault == DaysRange)
  }

  /** The fault shown for a rule: the earliest check that fails, in the order of the checks. */
  ghost predicate FaultOf(r: Rule, fault: Fault) {
    if r.days == [] then fault == DaysEmpty
    else if exists k, f :: FirstBadDay(r.days, k, f) then exists k :: FirstBadDay(r.days, k, fault)
    else if !OnHalfHour(r.start) then fault == StartFormat
    else if ParseHHMM(r.start).value >= 1440 then fault == Start24
    else if !OnHalfHour(r.end) then fault == EndFormat
    else if ParseHHMM(r.start) == ParseHHMM(r.end) then fault == SameTimes
    else if Trim(r.model, IsJsSpace) == "" then fault == ModelEmpty
    else fault == BadEffort && r.effort.Some? && r.effort.value !in SLOT_EFFORT_LEVELS
  }

  method CheckDays(days: seq<int>) returns (fault: Option<Fault>)
    ensures fault.Some? ==> exists k :: FirstBadDay(days, k, fault.value)
    ensures fault.None? ==> forall k, f :: !FirstBadDay(days, k, f)
    ensures fault.None? <==>
      (forall k :: 0 <= k < |days| ==> 1 <= days[k] <= 7)
      && (forall j, k :: 0 <= j < k < |days| ==> days[j] != days[k])
  {
    var seen: set<int> := {};
    for k := 0 to |days|
      invariant forall j :: 0 <= j < k ==> 1 <= days[j] <= 7
      invariant forall i, j :: 0 <= i < j < k ==> days[i] != days[j]
      invariant seen == set j | 0 <= j < k :: days[j]
    {
      var d := days[k];
      if d < 1 || d > 7 {
        assert FirstBadDay(days, k, DaysRange);
        return Some(DaysRange);
      }
      if d in seen {
        assert d in days[..k];
        assert FirstBadDay(days, k, DaysDuplicate);
        return Some(DaysDuplicate);
      }
      seen := seen + {d};
    }
    return None;
  }

  method CheckRule(r: Rule) returns (fault: Option<Fault>)
    ensures fault.None? <==> ValidRule(r)
    ensures fault.Some? ==> FaultOf(r, fault.value)
  {
    if |r.days| == 0 { return Some(DaysEmpty); }
    var days := CheckDays(r.days);
    if days.Some? { return days; }
    var start := HalfHour(r.start);
    if start.None? { return Some(StartFormat); }
    if start.value >= MINUTES_PER_DAY { return Some(Start24); }
    var end := HalfHour(r.end);
    if end.None? { return Some(EndFormat); }
    if start == end { return Some(SameTimes); }
    if Trim(r.model, IsJsSpace) == "" { return Some(ModelEmpty); }
    if r.effort.Some? && r.effort.value !in SLOT_EFFORT_LEVELS { return Some(BadEffort); }
    return None;
  }

  method ValidateRules(rules: seq<Rule>) returns (fault: Option<Fault>)
    ensures fault.None? <==> ValidRules(rules)
    ensures fault.Some? && |rules| > 16 ==> fault.value == TooMany
    ensures fault.Some? && |rules| <= 16 ==>
      exists i :: 0 <= i < |rules| && !ValidRule(rules[i]) && FaultOf(rules[i], fault.value)
                  && forall j :: 0 <= j < i ==> ValidRule(rules[j])
  {
    if |rules| > MAX_RULES_PER_SLOT { return Some(TooMany); }
    for i := 0 to |rules|
      invariant forall j :: 0 <= j < i ==> ValidRule(rules[j])
    {
      fault := CheckRule(rules[i]);
      if fault.Some? { return; }
    }
    return None;
  }

  /** What validation buys: the grid speaks for every minute. */
  lemma ValidRulesAreAligned(rules: seq<Rule>)
    requires ValidRules(rules)
    ensures AllAligned(rules)
  {
  }

  /** A valid rule is live at the start of its window on each of its days. */
  lemma ValidRuleIsLive(r: Rule)
    requires ValidRule(r)
    ensures exists at :: ValidClock(at) && Live(r, at)
  {
    var at := WallClock(r.days[0], ParseHHMM(r.start).value);
    ParsedTimesAreBounded(r.end);
    assert at.weekday in r.days;
    assert ValidClock(at) && Live(r, at);
  }
}
