/**
 What a slot serves right now (src/lib/slotNow.ts), and the host's wall clock carried forward
 between two readings (src/hooks/useHostClock.ts).
 */
module SlotNow {
  import opened Wrappers
  import opened Text
  import opened Schedule
  import opened RuleLint

  /** One slot of a subscription as it arrives: every part may be missing. */
  datatype SlotConfig = SlotConfig(def: Option<string>, rules: Option<seq<Rule>>, reported: Option<string>)

  datatype SlotNowView = SlotNowView(model: Option<string>, scheduled: bool, neverCalled: bool)

  function DefaultOf(slot: SlotConfig): string {
    if slot.def.Some? then slot.def.value else ""
  }

  function RulesOf(slot: SlotConfig): seq<Rule> {
    if slot.rules.Some? then slot.rules.value else []
  }

  function SlotModelAt(slot: SlotConfig, at: WallClock): Option<string> {
    EffectiveModel(DefaultOf(slot), RulesOf(slot), at)
  }

  function View(slot: SlotConfig, clock: Option<WallClock>): SlotNowView {
    var scheduled := RulesOf(slot) != [];
    SlotNowView(
      if clock.Some? then SlotModelAt(slot, clock.value) else slot.reported,
      scheduled,
      !scheduled && Trim(DefaultOf(slot), IsJsSpace) == "")
  }

  /** What is shown: the model at the host's time, the reported one until that is known; whether
      there are rules; missing parts count as a blank default and no rules. */
  lemma ViewShows(slot: SlotConfig, at: WallClock)
    ensures var def := if slot.def.Some? then slot.def.value else "";
      var rules := if slot.rules.Some? then slot.rules.value else [];
      && View(slot, Some(at)).model == EffectiveModel(def, rules, at)
      && View(slot, None).model == slot.reported
      && forall clock :: View(slot, clock).scheduled == (|rules| > 0)
  {
  }

  /** For validated rules, a slot is marked as never called exactly when it has no model at any
      minute of the week. */
  lemma NeverCalledIsExact(slot: SlotConfig, clock: Option<WallClock>)
    requires ValidRules(RulesOf(slot))
    ensures View(slot, clock).neverCalled <==> forall at :: ValidClock(at) ==> SlotModelAt(slot, at).None?
  {
    NeverCalledIsRightIff(slot, clock);
    ValidRulesCanServe(RulesOf(slot));
    if RulesOf(slot) != [] { assert CanServe(RulesOf(slot)[0]); }
  }

  /** Without validation the mark is right exactly if there are no rules, or the default has a
      model, or some rule can serve. */
  lemma NeverCalledIsRightIff(slot: SlotConfig, clock: Option<WallClock>)
    ensures (View(slot, clock).neverCalled <==> forall at :: ValidClock(at) ==> SlotModelAt(slot, at).None?) <==>
      (RulesOf(slot) == [] || Pick(DefaultOf(slot)).Some?
       || exists i :: 0 <= i < |RulesOf(slot)| && CanServe(RulesOf(slot)[i]))
  {
    var rules, def := RulesOf(slot), DefaultOf(slot);
    var monday := WallClock(1, 0);
    if Pick(def).Some? {
      WinnerIsFirstLive(rules, monday);
      assert ValidClock(monday) && SlotModelAt(slot, monday).Some?;
    } else if exists i :: 0 <= i < |rules| && CanServe(rules[i]) {
      var i :| 0 <= i < |rules| && CanServe(rules[i]);
      CanServeIff(rules[i]);
      var at :| ValidClock(at) && Live(rules[i], at);
      WinnerIsFirstLive(rules, at);
      assert SlotModelAt(slot, at).Some?;
    } else {
      forall at | ValidClock(at) ensures SlotModelAt(slot, at).None? {
        WinnerIsFirstLive(rules, at);
        if Winner(rules, at).Some? { CanServeIff(rules[Winner(rules, at).value]); }
      }
    }
  }

  /** For validated rules that is always so, hence the mark exact. */
  lemma ValidRulesCanServe(rules: seq<Rule>)
    requires ValidRules(rules)
    ensures forall i :: 0 <= i < |rules| ==> CanServe(rules[i])
  {
    forall i | 0 <= i < |rules| ensures CanServe(rules[i]) {
      ValidRuleIsLive(rules[i]);
      CanServeIff(rules[i]);
    }
  }

  /** A rule that validation rejects: the slot is dead although it counts as scheduled. */
  lemma NeverCalledNeedsValidRules(at: WallClock)
    ensures var slot := SlotConfig(None, Some([Rule([1], "8:00", "18:00", "m", None)]), None);
      !View(slot, None).neverCalled && SlotModelAt(slot, at).None?
  {
  }

  // ----- The host clock -----

  /** The clock k minutes after a reading. */
  function Extrapolate(reading: WallClock, k: nat): WallClock
    requires ValidClock(reading)
  {
    var total := reading.minute + k;
    var dayShift := total / MINUTES_PER_DAY;
    WallClock((reading.weekday - 1 + dayShift) % 7 + 1, total % MINUTES_PER_DAY)
  }

  /** Carrying the clock forward is addition on the circular week. */
  lemma ExtrapolationIsCircular(reading: WallClock, k: nat)
    requires ValidClock(reading)
    ensures ValidClock(Extrapolate(reading, k))
    ensures WeekMinute(Extrapolate(reading, k)) == (WeekMinute(reading) + k) % MINUTES_PER_WEEK
  {
  }

  lemma WeekMinuteIsInjective(a: WallClock, b: WallClock)
    requires ValidClock(a) && ValidClock(b) && WeekMinute(a) == WeekMinute(b)
    ensures a == b
  {
  }

  /** Reading again in between makes no difference. */
  lemma ExtrapolationComposes(reading: WallClock, j: nat, k: nat)
    requires ValidClock(reading)
    ensures ValidClock(Extrapolate(reading, j))
    ensures Extrapolate(Extrapolate(reading, j), k) == Extrapolate(reading, j + k)
  {
    ExtrapolationIsCircular(reading, j);
    var there := Extrapolate(reading, j);
    ExtrapolationIsCircular(there, k);
    ExtrapolationIsCircular(reading, j + k);
    AddOnCircle(WeekMinute(reading) + j, k);
    WeekMinuteIsInjective(Extrapolate(there, k), Extrapolate(reading, j + k));
  }

  lemma AddOnCircle(a: int, k: int)
    ensures (a % MINUTES_PER_WEEK + k) % MINUTES_PER_WEEK == (a + k) % MINUTES_PER_WEEK
  {
  }

  /** The model a slot shows repeats every week. */
  lemma ModelIsWeekly(slot: SlotConfig, reading: WallClock, k: nat, weeks: nat)
    requires ValidClock(reading)
    ensures SlotModelAt(slot, Extrapolate(reading, k + weeks * MINUTES_PER_WEEK)) ==
      SlotModelAt(slot, Extrapolate(reading, k))
  {
    var a := WeekMinute(reading) + k;
    assert (a + weeks * 10080) % 10080 == a % 10080;
    ExtrapolationIsCircular(reading, k);
    ExtrapolationIsCircular(reading, k + weeks * MINUTES_PER_WEEK);
    WeekMinuteIsInjective(Extrapolate(reading, k), Extrapolate(reading, k + weeks * MINUTES_PER_WEEK));
  }

  /** Whole minutes in a stretch of milliseconds. */
  function WholeMinutes(ms: real): int {
    (ms / 60000.0).Floor
  }

  /** k whole minutes of 60000 milliseconds have passed, and less than one more. */
  ghost predicate IsWholeMinutes(k: nat, ms: real) {
    60000.0 * k as real <= ms < 60000.0 * (k + 1) as real
  }

  /** The clock shows the reading moved on, around the week, by the whole minutes that have passed. */
  ghost predicate IsAdvanced(reading: WallClock, ms: real, clock: WallClock) {
    exists k: nat :: IsWholeMinutes(k, ms) && WeekMinute(clock) == (WeekMinute(reading) + k) % 10080
  }

  /** A reading, the stamp it arrived with, and the monotonic time in milliseconds at which it
      was noted. */
  datatype Base = Base(stamp: int, data: WallClock, at: real)

  class HostClock {
    var base: Option<Base>

    constructor ()
      ensures base.None?
    {
      base := None;
    }

    /** One rendering: note a reading with a new stamp, then carry the noted one forward. */
    method Render(data: Option<WallClock>, stamp: int, noted: real, now: real) returns (clock: Option<WallClock>)
      requires data.Some? ==> ValidClock(data.value)
      requires base.Some? ==> ValidClock(base.value.data) && base.value.at <= noted
      requires noted <= now
      modifies this
      ensures base == if data.Some? && (old(base).None? || old(base).value.stamp != stamp)
                      then Some(Base(stamp, data.value, noted)) else old(base)
      ensures base.None? <==> clock.None?
      ensures base.Some? ==> ValidClock(base.value.data) && base.value.at <= now
      ensures clock.Some? ==> ValidClock(clock.value) && IsAdvanced(base.value.data, now - base.value.at, clock.value)
    {
      if data.Some? && (base.None? || base.value.stamp != stamp) {
        base := Some(Base(stamp, data.value, noted));
      }
      if base.None? { return None; }
      var b := base.value;
      var elapsedMin := WholeMinutes(now - b.at);
      var total := b.data.minute + elapsedMin;
      var dayShift := total / MINUTES_PER_DAY;
      ExtrapolationIsCircular(b.data, elapsedMin);
      assert IsWholeMinutes(elapsedMin, now - b.at);
      clock := Some(WallClock((b.data.weekday - 1 + dayShift) % 7 + 1, total % MINUTES_PER_DAY));
    }
  }
}
