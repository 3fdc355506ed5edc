/**
 The half-hour grid of a week: evaluating it cell by cell, counting the hours that have a
 model, compressing it into runs and into groups of equal days (src/lib/slotSchedule.ts).
 */
module Week {
  import opened Wrappers
  import opened Schedule

  ghost function Cells<T>(fn: WallClock -> T): (cells: seq<T>) {
    seq(HALF_HOURS, i requires 0 <= i < HALF_HOURS => fn(ClockAt(i)))
  }

  method WeekCells<T>(fn: WallClock -> T) returns (out: seq<T>)
    ensures out == Cells(fn)
  {
    out := [];
    for i := 0 to HALF_HOURS
      invariant |out| == i && forall j :: 0 <= j < i ==> out[j] == fn(ClockAt(j))
    {
      out := out + [fn(ClockAt(i))];
    }
  }

  /** Entry 48 * (d - 1) + k of the grid is the value at half hour k of day d. */
  lemma CellsByClock<T>(fn: WallClock -> T, d: int, k: nat)
    requires 1 <= d <= 7 && k < 48
    ensures |Cells(fn)| == 336 && Cells(fn)[48 * (d - 1) + k] == fn(WallClock(d, 30 * k))
  {
    var i := 48 * (d - 1) + k;
    assert i / CELLS_PER_DAY == d - 1 && i % CELLS_PER_DAY == k;
    assert ClockAt(i) == WallClock(d, 30 * k);
  }

  /** For half-hour rules the grid has the model of every minute, in the entry of its half hour. */
  lemma GridHoldsEveryMinute(def: string, rules: seq<Rule>, at: WallClock)
    requires AllAligned(rules) && ValidClock(at)
    ensures Cells(Evaluator(def, rules))[48 * (at.weekday - 1) + at.minute / 30] == EffectiveModel(def, rules, at)
  {
    GridIsExact(def, rules, at);
    CellsByClock(Evaluator(def, rules), at.weekday, at.minute / 30);
  }

  // ----- Hours with a model -----

  function Evaluator(def: string, rules: seq<Rule>): WallClock -> Option<string> {
    at => EffectiveModel(def, rules, at)
  }

  /** How many of the first n cells have a model. */
  function CellsServed(def: string, rules: seq<Rule>, n: nat): nat {
    if n == 0 then 0
    else CellsServed(def, rules, n - 1) + (if EffectiveModel(def, rules, ClockAt(n - 1)).Some? then 1 else 0)
  }

  function ClockOfMinute(t: nat): WallClock {
    WallClock(t / MINUTES_PER_DAY + 1, t % MINUTES_PER_DAY)
  }

  /** How many of the first n minutes of the week have a model. */
  function MinutesServed(def: string, rules: seq<Rule>, n: nat): nat {
    if n == 0 then 0
    else MinutesServed(def, rules, n - 1) + (if EffectiveModel(def, rules, ClockOfMinute(n - 1)).Some? then 1 else 0)
  }

  /** Minute 30 * c + j of the week lies in cell c. */
  lemma MinuteInCell(c: nat, j: nat)
    requires c < HALF_HOURS && j < 30
    ensures ValidClock(ClockOfMinute(30 * c + j)) && CellOf(ClockOfMinute(30 * c + j)) == c
  {
  }

  lemma {:induction false} MinutesWithinCell(def: string, rules: seq<Rule>, c: nat, j: nat)
    requires AllAligned(rules) && c < HALF_HOURS && j <= 30
    ensures MinutesServed(def, rules, 30 * c + j) ==
      MinutesServed(def, rules, 30 * c) + (if EffectiveModel(def, rules, ClockAt(c)).Some? then j else 0)
  {
    if j > 0 {
      MinutesWithinCell(def, rules, c, j - 1);
      MinuteInCell(c, j - 1);
      GridIsExact(def, rules, ClockOfMinute(30 * c + j - 1));
    }
  }

  lemma {:induction false} MinutesAreThirtyPerCell(def: string, rules: seq<Rule>, c: nat)
    requires AllAligned(rules) && c <= HALF_HOURS
    ensures MinutesServed(def, rules, 30 * c) == 30 * CellsServed(def, rules, c)
  {
    if c > 0 {
      MinutesAreThirtyPerCell(def, rules, c - 1);
      MinutesWithinCell(def, rules, c - 1, 30);
    }
  }

  /** For half-hour rules, sixty times the weekly hours is the number of minutes served. */
  lemma WeeklyHoursAreExact(def: string, rules: seq<Rule>, hours: real)
    requires AllAligned(rules)
    requires hours == CellsServed(def, rules, HALF_HOURS) as real / 2.0
    ensures 60.0 * hours == MinutesServed(def, rules, MINUTES_PER_WEEK) as real
  {
    MinutesAreThirtyPerCell(def, rules, HALF_HOURS);
  }

  /** The minutes of the week, by number, that have a model. */
  ghost function ServedMinutes(def: string, rules: seq<Rule>, n: nat): set<nat> {
    set t: nat | t < n && EffectiveModel(def, rules, WallClock(t / 1440 + 1, t % 1440)).Some?
  }

  lemma OneMoreMinute(def: string, rules: seq<Rule>, n: nat)
    requires n > 0
    ensures n - 1 !in ServedMinutes(def, rules, n - 1)
    ensures ServedMinutes(def, rules, n) == ServedMinutes(def, rules, n - 1)
      + (if EffectiveModel(def, rules, ClockOfMinute(n - 1)).Some? then {n - 1} else {})
  {
  }

  lemma {:induction false} MinutesServedCounts(def: string, rules: seq<Rule>, n: nat)
    ensures |ServedMinutes(def, rules, n)| == MinutesServed(def, rules, n)
  {
    if n == 0 {
      assert ServedMinutes(def, rules, n) == {};
    } else {
      MinutesServedCounts(def, rules, n - 1);
      OneMoreMinute(def, rules, n);
    }
  }

  /** So for half-hour rules sixty times the weekly hours is the size of the set of minutes with a model. */
  lemma WeeklyHoursCountMinutes(def: string, rules: seq<Rule>, hours: real)
    requires AllAligned(rules)
    requires hours == CellsServed(def, rules, HALF_HOURS) as real / 2.0
    ensures 60.0 * hours == |ServedMinutes(def, rules, 10080)| as real
  {
    WeeklyHoursAreExact(def, rules, hours);
    MinutesServedCounts(def, rules, 10080);
  }

  method WeeklyHours(def: string, rules: seq<Rule>) returns (hours: real)
    ensures hours == CellsServed(def, rules, HALF_HOURS) as real / 2.0
    ensures AllAligned(rules) ==> 60.0 * hours == |ServedMinutes(def, rules, 10080)| as real
  {
    var cells := WeekCells(Evaluator(def, rules));
    var n := 0;
    for i := 0 to HALF_HOURS
      invariant n == CellsServed(def, rules, i)
    {
      if cells[i].Some? { n := n + 1; }
    }
    hours := n as real / 2.0;
    if AllAligned(rules) { WeeklyHoursCountMinutes(def, rules, hours); }
  }

  // ----- Runs of equal cells -----

  /** Cells start to end, end not included, all with the key of `value`. */
  datatype Run<T> = Run(start: nat, end: nat, value: T)

  function Keys<T>(cells: seq<T>, key: T -> string): (keys: seq<string>)
    ensures |keys| == |cells|
  {
    seq(|cells|, i requires 0 <= i < |cells| => key(cells[i]))
  }

  /** Non-empty runs of one key each that lie end to end from 0 to `to`. */
  ghost predicate Tiles<T>(runs: seq<Run<T>>, to: nat, cells: seq<T>, key: T -> string) {
    && to <= |cells|
    && (runs == [] ==> to == 0)
    && (runs != [] ==> runs[0].start == 0 && runs[|runs| - 1].end == to)
    && (forall k :: 0 <= k < |runs| ==> ConstantRun(runs[k], cells, key))
    && (forall k :: 0 < k < |runs| ==> runs[k].start == runs[k - 1].end)
  }

  ghost predicate ConstantRun<T>(r: Run<T>, cells: seq<T>, key: T -> string) {
    r.start < r.end <= |cells| && forall i :: r.start <= i < r.end ==> key(cells[i]) == key(r.value)
  }

  ghost predicate NeighboursDiffer<T>(runs: seq<Run<T>>, key: T -> string) {
    forall k :: 0 < k < |runs| ==> key(runs[k].value) != key(runs[k - 1].value)
  }

  /** The values stand for their first cell. */
  ghost predicate ValuesAreFirstCells<T>(runs: seq<Run<T>>, cells: seq<T>) {
    forall k :: 0 <= k < |runs| ==> runs[k].start < |cells| && runs[k].value == cells[runs[k].start]
  }

  method Runs<T>(cells: seq<T>, key: T -> string) returns (out: seq<Run<T>>)
    ensures Tiles(out, |cells|, cells, key)
    ensures NeighboursDiffer(out, key)
    ensures ValuesAreFirstCells(out, cells)
  {
    out := [];
    var i := 0;
    while i < |cells|
      invariant i <= |cells| && Tiles(out, i, cells, key)
      invariant NeighboursDiffer(out, key) && ValuesAreFirstCells(out, cells)
      invariant out != [] && i < |cells| ==> key(cells[i]) != key(out[|out| - 1].value)
    {
      var k := key(cells[i]);
      var j := i + 1;
      while j < |cells| && key(cells[j]) == k
        invariant i < j <= |cells| && forall x :: i <= x < j ==> key(cells[x]) == k
      {
        j := j + 1;
      }
      ghost var before := out;
      out := out + [Run(i, j, cells[i])];
      assert ConstantRun(out[|before|], cells, key);
      assert forall x :: 0 <= x < |before| ==> out[x] == before[x];
      i := j;
    }
  }

  /** The keys a list of runs stands for. */
  function Expand<T>(runs: seq<Run<T>>, key: T -> string): seq<string> {
    if runs == [] then []
    else
      var r := runs[|runs| - 1];
      Expand(runs[..|runs| - 1], key) + seq(if r.start <= r.end then r.end - r.start else 0, _ => key(r.value))
  }

  lemma TilesPrefix<T>(runs: seq<Run<T>>, to: nat, cells: seq<T>, key: T -> string)
    requires runs != [] && Tiles(runs, to, cells, key)
    ensures Tiles(runs[..|runs| - 1], runs[|runs| - 1].start, cells, key)
  {
  }

  /** Expanding a tiling gives back the keys of the cells. */
  lemma {:induction false} ExpandUndoesRuns<T>(runs: seq<Run<T>>, to: nat, cells: seq<T>, key: T -> string)
    requires Tiles(runs, to, cells, key)
    ensures Expand(runs, key) == Keys(cells, key)[..to]
  {
    if runs != [] {
      var r := runs[|runs| - 1];
      TilesPrefix(runs, to, cells, key);
      ExpandUndoesRuns(runs[..|runs| - 1], r.start, cells, key);
      assert forall i :: r.start <= i < r.end ==> Keys(cells, key)[i] == key(r.value);
    }
  }

  /** A constant run that ends no earlier than a tiling with differing neighbours cannot have
      started before the last run of the tiling: it would span two different keys. */
  lemma LastRunStartsNoLater<T>(runs: seq<Run<T>>, o: Run<T>, to: nat, cells: seq<T>, key: T -> string)
    requires runs != [] && Tiles(runs, to, cells, key) && NeighboursDiffer(runs, key)
    requires ConstantRun(o, cells, key) && o.start < to <= o.end
    ensures runs[|runs| - 1].start <= o.start
  {
    var r := runs[|runs| - 1];
    assert ConstantRun(r, cells, key) && key(cells[r.start]) == key(r.value);
    if |runs| > 1 {
      var before := runs[|runs| - 2];
      assert ConstantRun(before, cells, key) && before.end == r.start;
      assert key(cells[r.start - 1]) == key(before.value);
    }
  }

  /** No tiling by constant runs is shorter than one whose neighbours differ. */
  lemma {:induction false} DifferingRunsAreFewest<T>(
      runs: seq<Run<T>>, other: seq<Run<T>>, to: nat, further: nat, cells: seq<T>, key: T -> string)
    requires Tiles(runs, to, cells, key) && NeighboursDiffer(runs, key)
    requires Tiles(other, further, cells, key) && to <= further
    ensures |runs| <= |other|
    decreases |other|
  {
    if other != [] && runs != [] {
      var r, o := runs[|runs| - 1], other[|other| - 1];
      TilesPrefix(other, further, cells, key);
      if to <= o.start {
        DifferingRunsAreFewest(runs, other[..|other| - 1], to, o.start, cells, key);
      } else {
        TilesPrefix(runs, to, cells, key);
        LastRunStartsNoLater(runs, o, to, cells, key);
        DifferingRunsAreFewest(runs[..|runs| - 1], other[..|other| - 1], r.start, o.start, cells, key);
      }
    }
  }

  // ----- Days with equal cells -----

  datatype DayGroup<T> = DayGroup(days: seq<int>, cells: seq<T>)

  /** The cells of day d, 0 for Monday; shorter when the list of cells is. */
  function DayCells<T>(cells: seq<T>, d: nat): seq<T> {
    var lo := if d * CELLS_PER_DAY <= |cells| then d * CELLS_PER_DAY else |cells|;
    var hi := if (d + 1) * CELLS_PER_DAY <= |cells| then (d + 1) * CELLS_PER_DAY else |cells|;
    cells[lo..hi]
  }

  /** For each of the seven days, the keys of its cells. */
  function Signatures<T>(cells: seq<T>, key: T -> string): (sigs: seq<seq<string>>)
    ensures |sigs| == 7
  {
    seq(7, d requires 0 <= d < 7 => Keys(DayCells(cells, d), key))
  }

  /** Ascending days among the first n: exactly those that look like the first one listed. */
  ghost predicate DaysAlike(days: seq<int>, n: nat, sigs: seq<seq<string>>)
    requires n <= |sigs|
  {
    && days != []
    && (forall k :: 0 <= k < |days| ==> 1 <= days[k] <= n)
    && (forall j, k :: 0 <= j < k < |days| ==> days[j] < days[k])
    && (forall d :: 0 <= d < n ==> (d + 1 in days <==> sigs[d] == sigs[days[0] - 1]))
  }

  ghost predicate HasGroup<T>(groups: seq<DayGroup<T>>, day: int) {
    exists a :: 0 <= a < |groups| && day in groups[a].days
  }

  /** Groups of equal days in order of their first day, one for every day among the first n. */
  ghost predicate Grouped<T>(groups: seq<DayGroup<T>>, n: nat, sigs: seq<seq<string>>)
    requires n <= |sigs|
  {
    && (forall a :: 0 <= a < |groups| ==> DaysAlike(groups[a].days, n, sigs))
    && (forall a, b :: 0 <= a < b < |groups| ==> groups[a].days[0] < groups[b].days[0])
    && (forall d :: 1 <= d <= n ==> HasGroup(groups, d))
  }

  /** Each group carries the cells of its first day. */
  ghost predicate CellsOfFirstDay<T>(groups: seq<DayGroup<T>>, cells: seq<T>) {
    forall a :: 0 <= a < |groups| ==>
      groups[a].days != [] && groups[a].days[0] >= 1 && groups[a].cells == DayCells(cells, groups[a].days[0] - 1)
  }

  /** The map sends every signature seen to the group that has it. */
  ghost predicate Indexed<T>(byKey: map<seq<string>, nat>, groups: seq<DayGroup<T>>, n: nat, sigs: seq<seq<string>>)
    requires n <= |sigs|
  {
    && (forall d :: 0 <= d < n ==> sigs[d] in byKey)
    && (forall sig :: sig in byKey ==> byKey[sig] < |groups| && Carries(groups[byKey[sig]], sig, n, sigs))
  }

  ghost predicate Carries<T>(g: DayGroup<T>, sig: seq<string>, n: nat, sigs: seq<seq<string>>)
    requires n <= |sigs|
  {
    g.days != [] && 1 <= g.days[0] <= n && sigs[g.days[0] - 1] == sig
  }

  method GroupDayTypes<T>(cells: seq<T>, key: T -> string) returns (groups: seq<DayGroup<T>>)
    ensures Grouped(groups, 7, Signatures(cells, key))
    ensures CellsOfFirstDay(groups, cells)
  {
    ghost var sigs := Signatures(cells, key);
    groups := [];
    var byKey: map<seq<string>, nat> := map[];
    for d := 0 to 7
      invariant Grouped(groups, d, sigs) && Indexed(byKey, groups, d, sigs) && CellsOfFirstDay(groups, cells)
    {
      var dayCells := DayCells(cells, d);
      var sig := Keys(dayCells, key);
      assert sig == sigs[d];
      if sig !in byKey {
        StartGroup(groups, DayGroup([d + 1], dayCells), d, sigs);
        StartIndex(byKey, groups, DayGroup([d + 1], dayCells), d, sigs);
        StartCells(groups, DayGroup([d + 1], dayCells), cells);
        byKey := byKey[sig := |groups|];
        groups := groups + [DayGroup([d + 1], dayCells)];
      } else {
        var at := byKey[sig];
        JoinGroup(groups, at, d, sigs);
        KeepIndex(byKey, groups, at, d, sigs);
        KeepCells(groups, at, d + 1, cells);
        groups := groups[at := groups[at].(days := groups[at].days + [d + 1])];
      }
    }
  }

  lemma AlikeUnlessEqual(days: seq<int>, d: nat, sigs: seq<seq<string>>)
    requires d < |sigs| && DaysAlike(days, d, sigs) && sigs[d] != sigs[days[0] - 1]
    ensures DaysAlike(days, d + 1, sigs)
  {
  }

  lemma AlikeWithEqual(days: seq<int>, d: nat, sigs: seq<seq<string>>)
    requires d < |sigs| && DaysAlike(days, d, sigs) && sigs[d] == sigs[days[0] - 1]
    ensures DaysAlike(days + [d + 1], d + 1, sigs)
  {
  }

  lemma StartGroup<T>(groups: seq<DayGroup<T>>, g: DayGroup<T>, d: nat, sigs: seq<seq<string>>)
    requires d < |sigs| && Grouped(groups, d, sigs) && g.days == [d + 1]
    requires forall e :: 0 <= e < d ==> sigs[e] != sigs[d]
    ensures Grouped(groups + [g], d + 1, sigs)
  {
    var next := groups + [g];
    forall a | 0 <= a < |next| ensures DaysAlike(next[a].days, d + 1, sigs) {
      if a < |groups| { AlikeUnlessEqual(groups[a].days, d, sigs); }
    }
    forall e | 1 <= e <= d + 1 ensures HasGroup(next, e) {
      if e <= d {
        assert HasGroup(groups, e);
        var b :| 0 <= b < |groups| && e in groups[b].days;
        assert e in next[b].days;
      } else {
        assert e in next[|groups|].days;
      }
    }
  }

  lemma JoinGroup<T>(groups: seq<DayGroup<T>>, at: nat, d: nat, sigs: seq<seq<string>>)
    requires d < |sigs| && Grouped(groups, d, sigs) && at < |groups| && Carries(groups[at], sigs[d], d, sigs)
    ensures Grouped(groups[at := groups[at].(days := groups[at].days + [d + 1])], d + 1, sigs)
  {
    var next := groups[at := groups[at].(days := groups[at].days + [d + 1])];
    assert forall a :: 0 <= a < |next| ==> next[a].days[0] == groups[a].days[0];
    forall a | 0 <= a < |next| ensures DaysAlike(next[a].days, d + 1, sigs) {
      if a == at {
        AlikeWithEqual(groups[a].days, d, sigs);
      } else {
        GroupsDiffer(groups, a, at, d, sigs);
        AlikeUnlessEqual(groups[a].days, d, sigs);
      }
    }
    forall e | 1 <= e <= d + 1 ensures HasGroup(next, e) {
      if e <= d {
        assert HasGroup(groups, e);
        var b :| 0 <= b < |groups| && e in groups[b].days;
        assert e in next[b].days;
      } else {
        assert e in next[at].days;
      }
    }
  }

  lemma StartIndex<T>(
      byKey: map<seq<string>, nat>, groups: seq<DayGroup<T>>, g: DayGroup<T>, d: nat, sigs: seq<seq<string>>)
    requires d < |sigs| && Indexed(byKey, groups, d, sigs) && g.days == [d + 1]
    ensures Indexed(byKey[sigs[d] := |groups|], groups + [g], d + 1, sigs)
  {
  }

  lemma KeepIndex<T>(byKey: map<seq<string>, nat>, groups: seq<DayGroup<T>>, at: nat, d: nat, sigs: seq<seq<string>>)
    requires d < |sigs| && Indexed(byKey, groups, d, sigs)
    requires sigs[d] in byKey && at == byKey[sigs[d]]
    ensures Indexed(byKey, groups[at := groups[at].(days := groups[at].days + [d + 1])], d + 1, sigs)
  {
  }

  lemma StartCells<T>(groups: seq<DayGroup<T>>, g: DayGroup<T>, cells: seq<T>)
    requires CellsOfFirstDay(groups, cells)
    requires g.days != [] && g.days[0] >= 1 && g.cells == DayCells(cells, g.days[0] - 1)
    ensures CellsOfFirstDay(groups + [g], cells)
  {
  }

  lemma KeepCells<T>(groups: seq<DayGroup<T>>, at: nat, day: int, cells: seq<T>)
    requires CellsOfFirstDay(groups, cells) && at < |groups|
    ensures CellsOfFirstDay(groups[at := groups[at].(days := groups[at].days + [day])], cells)
  {
  }

  /** The first days of two groups look different: otherwise each would list the other. */
  lemma GroupsDiffer<T>(groups: seq<DayGroup<T>>, a: nat, b: nat, n: nat, sigs: seq<seq<string>>)
    requires n <= |sigs| && Grouped(groups, n, sigs) && a < |groups| && b < |groups| && a != b
    ensures sigs[groups[a].days[0] - 1] != sigs[groups[b].days[0] - 1]
  {
  }

  /** Two days share a group exactly when their cells have the same keys, no day is in two
      groups, and a group's cells reproduce the keys of each of its days. */
  lemma GroupsPartitionByKeys<T>(groups: seq<DayGroup<T>>, cells: seq<T>, key: T -> string, a: nat, b: nat, d: nat, e: nat)
    requires Grouped(groups, 7, Signatures(cells, key)) && CellsOfFirstDay(groups, cells)
    requires a < |groups| && b < |groups| && d < 7 && e < 7
    requires d + 1 in groups[a].days && e + 1 in groups[b].days
    ensures a == b <==> Keys(DayCells(cells, d), key) == Keys(DayCells(cells, e), key)
    ensures d == e ==> a == b
    ensures Keys(groups[a].cells, key) == Keys(DayCells(cells, d), key)
  {
    var sigs := Signatures(cells, key);
    assert DaysAlike(groups[a].days, 7, sigs) && DaysAlike(groups[b].days, 7, sigs);
    assert sigs[d] == sigs[groups[a].days[0] - 1] && sigs[e] == sigs[groups[b].days[0] - 1];
    if a != b { GroupsDiffer(groups, a, b, 7, sigs); }
  }

  // ----- Days by the clock -----

  /** The cells of a day are those of its 48 half hours. */
  lemma DayByClock<T>(fn: WallClock -> T, d: int, k: nat)
    requires 1 <= d <= 7 && k < 48
    ensures |DayCells(Cells(fn), d - 1)| == 48 && DayCells(Cells(fn), d - 1)[k] == fn(WallClock(d, 30 * k))
  {
    CellsByClock(fn, d, k);
  }

  /** A function of the clock looks the same on two days. */
  ghost predicate DaysLookAlike<T>(fn: WallClock -> T, key: T -> string, d: int, e: int) {
    forall k :: 0 <= k < 48 ==> key(fn(WallClock(d, 30 * k))) == key(fn(WallClock(e, 30 * k)))
  }

  lemma DayKey<T>(fn: WallClock -> T, key: T -> string, d: int, k: nat)
    requires 1 <= d <= 7 && k < 48
    ensures |Keys(DayCells(Cells(fn), d - 1), key)| == 48
    ensures Keys(DayCells(Cells(fn), d - 1), key)[k] == key(fn(WallClock(d, 30 * k)))
  {
    DayByClock(fn, d, k);
  }

  lemma EqualKeysIff<T>(fn: WallClock -> T, key: T -> string, d: int, e: int)
    requires 1 <= d <= 7 && 1 <= e <= 7
    ensures Keys(DayCells(Cells(fn), d - 1), key) == Keys(DayCells(Cells(fn), e - 1), key) <==> DaysLookAlike(fn, key, d, e)
  {
    var a, b := Keys(DayCells(Cells(fn), d - 1), key), Keys(DayCells(Cells(fn), e - 1), key);
    DayKey(fn, key, d, 0);
    DayKey(fn, key, e, 0);
    forall k | 0 <= k < 48 ensures a[k] == b[k] <==> key(fn(WallClock(d, 30 * k))) == key(fn(WallClock(e, 30 * k))) {
      DayKey(fn, key, d, k);
      DayKey(fn, key, e, k);
    }
  }

  /** Told by the clock: a group's cells are the half hours of its first day and look like those of
      each of its days; two days share a group exactly when all their half hours look alike. */
  lemma GroupsByClock<T>(
      fn: WallClock -> T, groups: seq<DayGroup<T>>, key: T -> string, a: nat, b: nat, d: int, e: int, k: nat)
    requires Grouped(groups, 7, Signatures(Cells(fn), key)) && CellsOfFirstDay(groups, Cells(fn))
    requires a < |groups| && b < |groups| && k < 48 && d in groups[a].days && e in groups[b].days
    ensures 1 <= d <= 7 && 1 <= e <= 7
    ensures a == b <==> DaysLookAlike(fn, key, d, e)
    ensures |groups[a].cells| == 48 && groups[a].cells[k] == fn(WallClock(groups[a].days[0], 30 * k))
    ensures key(groups[a].cells[k]) == key(fn(WallClock(d, 30 * k)))
  {
    assert DaysAlike(groups[a].days, 7, Signatures(Cells(fn), key)) && DaysAlike(groups[b].days, 7, Signatures(Cells(fn), key));
    GroupsPartitionByKeys(groups, Cells(fn), key, a, b, d - 1, e - 1);
    EqualKeysIff(fn, key, d, e);
    DayByClock(fn, groups[a].days[0], k);
    DayKey(fn, key, d, k);
    assert Keys(groups[a].cells, key)[k] == key(groups[a].cells[k]);
  }
}
