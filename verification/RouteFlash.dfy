/**
 The store of route flashes: every event lights an entry for 600 ms, with a token so that a late
 timer does not put out a newer flash (src/hooks/useRouteFlash.ts). Events and timers interleave
 arbitrarily.
 */
module RouteFlash {
  import opened Wrappers
  import opened Sequences
  import opened Text

  datatype Kind = Attempt | Success | Error

  datatype Entry = Entry(kind: Kind, token: nat)

  /** A timer waiting to fire, with what it remembers. */
  datatype Timer = Timer(key: string, token: nat)

  /** The live flashes, the token counter, and the timers that have not fired. */
  datatype Store = Store(flashes: map<string, Entry>, counter: nat, timers: set<Timer>)

  const EMPTY: Store := Store(map[], 0, {})

  // ----- Keys -----

  function FlashKey(vm: string, sub: string): string {
    vm + "::" + sub
  }

  /** The part of a key after its first double colon. */
  function SubOfKey(key: string): Option<string> {
    var sep := IndexOf(key, "::", 0);
    if sep.None? then None else Some(key[sep.value + 2..])
  }

  lemma OccursInModel(vm: string, sub: string, j: nat)
    requires j + 2 <= |vm|
    ensures OccursAt(FlashKey(vm, sub), "::", j) <==> OccursAt(vm, "::", j)
  {
  }

  lemma OccursAtSeam(vm: string, sub: string)
    ensures OccursAt(FlashKey(vm, sub), "::", |vm|)
    ensures vm != "" ==> (OccursAt(FlashKey(vm, sub), "::", |vm| - 1) <==> vm[|vm| - 1] == ':')
  {
    var key := FlashKey(vm, sub);
    assert key[|vm|..|vm| + 2] == "::";
    if vm != "" { assert key[|vm| - 1..|vm| + 1] == [vm[|vm| - 1], ':']; }
  }

  /** What a key looks like up to the end of the model name's separator. */
  ghost predicate Seam(key: string, vm: string) {
    && OccursAt(key, "::", |vm|)
    && (forall j :: 0 <= j && j + 2 <= |vm| ==> (OccursAt(key, "::", j) <==> OccursAt(vm, "::", j)))
    && (vm != "" ==> (OccursAt(key, "::", |vm| - 1) <==> vm[|vm| - 1] == ':'))
  }

  lemma KeyHasSeam(vm: string, sub: string)
    ensures Seam(FlashKey(vm, sub), vm)
  {
    OccursAtSeam(vm, sub);
    forall j | 0 <= j && j + 2 <= |vm| ensures OccursAt(FlashKey(vm, sub), "::", j) <==> OccursAt(vm, "::", j) {
      OccursInModel(vm, sub, j);
    }
  }

  lemma {:induction false} EarlySeparator(key: string, vm: string)
    requires Seam(key, vm)
    requires IndexOf(vm, "::", 0).Some? || (vm != "" && vm[|vm| - 1] == ':')
    ensures IndexOf(key, "::", 0).Some? && IndexOf(key, "::", 0).value < |vm|
  {
    var first := IndexOf(vm, "::", 0);
    var k := if first.Some? then first.value else |vm| - 1;
    assert OccursAt(key, "::", k);
    IndexOfFinds(key, "::", 0, k);
  }

  lemma {:induction false} SeparatorAtSeam(key: string, vm: string)
    requires Seam(key, vm)
    requires IndexOf(vm, "::", 0).None? && (vm == "" || vm[|vm| - 1] != ':')
    ensures IndexOf(key, "::", 0) == Some(|vm|)
  {
    forall j | 0 <= j < |vm| ensures !OccursAt(key, "::", j) {
      if j + 2 <= |vm| && OccursAt(vm, "::", j) { IndexOfFinds(vm, "::", 0, j); }
    }
    IndexOfIs(key, "::", 0, |vm|);
  }

  lemma {:induction false} KeyLosesSub(vm: string, sub: string)
    requires IndexOf(vm, "::", 0).Some? || (vm != "" && vm[|vm| - 1] == ':')
    ensures SubOfKey(FlashKey(vm, sub)) != Some(sub)
  {
    var key := FlashKey(vm, sub);
    KeyHasSeam(vm, sub);
    EarlySeparator(key, vm);
    assert |key[IndexOf(key, "::", 0).value + 2..]| > |sub|;
  }

  lemma {:induction false} KeyKeepsSub(vm: string, sub: string)
    requires IndexOf(vm, "::", 0).None? && (vm == "" || vm[|vm| - 1] != ':')
    ensures SubOfKey(FlashKey(vm, sub)) == Some(sub)
  {
    KeyHasSeam(vm, sub);
    SeparatorAtSeam(FlashKey(vm, sub), vm);
    assert FlashKey(vm, sub)[|vm| + 2..] == sub;
  }

  /** A key gives back its subscription exactly when the virtual model neither contains a double
      colon nor ends with a colon. */
  lemma {:induction false} KeyRoundTripIff(vm: string, sub: string)
    ensures SubOfKey(FlashKey(vm, sub)) == Some(sub) <==>
      IndexOf(vm, "::", 0).None? && (vm == "" || vm[|vm| - 1] != ':')
  {
    if IndexOf(vm, "::", 0).Some? || (vm != "" && vm[|vm| - 1] == ':') {
      KeyLosesSub(vm, sub);
    } else {
      KeyKeepsSub(vm, sub);
    }
  }

  /** A name without a colon; no virtual model's name has one. */
  predicate PlainModelName(vm: string) {
    ':' !in vm
  }

  lemma PlainModelNamesRoundTrip(vm: string, sub: string)
    requires PlainModelName(vm)
    ensures SubOfKey(FlashKey(vm, sub)) == Some(sub)
  {
    forall j: nat | j + 2 <= |vm| ensures !OccursAt(vm, "::", j) {
      assert vm[j..j + 2][0] == vm[j];
    }
    KeyRoundTripIff(vm, sub);
  }

  // ----- Steps -----

  datatype Action = SetFlash(key: string, kind: Kind) | Fire(timer: Timer)

  /** A timer fires once, and only if it was set. */
  predicate Enabled(s: Store, a: Action) {
    a.Fire? ==> a.timer in s.timers
  }

  function Apply(s: Store, a: Action): Store {
    match a
    case SetFlash(key, kind) =>
      var token := s.counter + 1;
      Store(s.flashes[key := Entry(kind, token)], token, s.timers + {Timer(key, token)})
    case Fire(t) =>
      Store(if t.key in s.flashes && s.flashes[t.key].token == t.token then s.flashes - {t.key} else s.flashes,
            s.counter, s.timers - {t})
  }

  function Exec(actions: seq<Action>): Store {
    if actions == [] then EMPTY else Apply(Exec(actions[..|actions| - 1]), actions[|actions| - 1])
  }

  /** Every action was possible when it happened. */
  predicate Possible(actions: seq<Action>) {
    forall k :: 0 <= k < |actions| ==> Enabled(Exec(actions[..k]), actions[k])
  }

  class FlashStore {
    var flashes: map<string, Entry>
    var counter: nat
    var timers: set<Timer>

    constructor ()
      ensures Contents() == EMPTY
    {
      flashes, counter, timers := map[], 0, {};
    }

    function Contents(): Store
      reads this
    {
      Store(flashes, counter, timers)
    }

    method SetFlash(key: string, kind: Kind)
      modifies this
      ensures Contents() == Apply(old(Contents()), Action.SetFlash(key, kind))
    {
      counter := counter + 1;
      var myToken := counter;
      flashes := flashes[key := Entry(kind, myToken)];
      timers := timers + {Timer(key, myToken)};
    }

    /** What the timer's callback does. */
    method Fire(t: Timer)
      requires t in timers
      modifies this
      ensures Contents() == Apply(old(Contents()), Action.Fire(t))
    {
      timers := timers - {t};
      if t.key in flashes && flashes[t.key].token == t.token {
        flashes := flashes - {t.key};
      }
    }

    /** The latest flash among these subscriptions; keys are visited in any order. */
    method Latest(subIds: seq<string>) returns (latest: Option<Entry>)
      ensures IsLatest(latest, flashes, WantedSubs(subIds))
    {
      if Join(subIds, '|') == "" { return None; }
      latest := None;
      var wanted := set w | w in Split(Join(subIds, '|'), '|');
      var rest := flashes.Keys;
      while rest != {}
        invariant rest <= flashes.Keys
        invariant IsLatestIn(latest, flashes, wanted, flashes.Keys - rest)
        decreases |rest|
      {
        var key :| key in rest;
        ghost var done := flashes.Keys - rest;
        rest := rest - {key};
        assert flashes.Keys - rest == done + {key};
        var sub := SubOfKey(key);
        if sub.Some? && sub.value in wanted && (latest.None? || flashes[key].token > latest.value.token) {
          latest := Some(flashes[key]);
        }
      }
      assert flashes.Keys - rest == flashes.Keys;
    }
  }

  // ----- The aggregate query -----

  /** The subscriptions asked for, after joining them with bars and splitting again. */
  ghost function WantedSubs(subIds: seq<string>): set<string> {
    if Join(subIds, '|') == "" then {} else set w | w in Split(Join(subIds, '|'), '|')
  }

  ghost predicate Wanted(key: string, wanted: set<string>) {
    SubOfKey(key).Some? && SubOfKey(key).value in wanted
  }

  /** The wanted entry with the largest token among these keys, if any is wanted. */
  ghost predicate IsLatestIn(latest: Option<Entry>, flashes: map<string, Entry>, wanted: set<string>, keys: set<string>)
    requires keys <= flashes.Keys
  {
    && (latest.Some? ==> exists k :: k in keys && Wanted(k, wanted) && flashes[k] == latest.value)
    && (forall k :: k in keys && Wanted(k, wanted) ==> latest.Some? && flashes[k].token <= latest.value.token)
  }

  ghost predicate IsLatest(latest: Option<Entry>, flashes: map<string, Entry>, wanted: set<string>) {
    IsLatestIn(latest, flashes, wanted, flashes.Keys)
  }

  /** The detour through one string is harmless for ids without bars, unless the only id is empty. */
  lemma WantedSubsAreTheIds(subIds: seq<string>)
    requires NoneContains(subIds, '|') && subIds != [""]
    ensures WantedSubs(subIds) == set i | 0 <= i < |subIds| :: subIds[i]
  {
    if subIds != [] {
      SplitJoin(subIds, '|');
      assert Join(subIds, '|') == "" ==> subIds == Split("", '|');
      assert forall w :: w in subIds <==> exists i :: 0 <= i < |subIds| && subIds[i] == w;
    }
  }

  // ----- What every run keeps -----

  ghost predicate Sound(s: Store) {
    && (forall k :: k in s.flashes ==> 1 <= s.flashes[k].token <= s.counter)
    && (forall k :: k in s.flashes ==> Timer(k, s.flashes[k].token) in s.timers)
    && (forall t :: t in s.timers ==> 1 <= t.token <= s.counter)
    && (forall t, u :: t in s.timers && u in s.timers && t.token == u.token ==> t == u)
  }

  lemma StepIsSound(s: Store, a: Action)
    requires Sound(s) && Enabled(s, a)
    ensures Sound(Apply(s, a))
  {
  }

  lemma {:induction false} RunIsSound(actions: seq<Action>)
    requires Possible(actions)
    ensures Sound(Exec(actions))
  {
    if actions != [] {
      var n := |actions| - 1;
      PossiblePrefix(actions, n);
      RunIsSound(actions[..n]);
      StepIsSound(Exec(actions[..n]), actions[n]);
    }
  }

  lemma PossiblePrefix(actions: seq<Action>, n: nat)
    requires Possible(actions) && n <= |actions|
    ensures Possible(actions[..n])
  {
    assert forall k :: 0 <= k < n ==> actions[..n][..k] == actions[..k];
  }

  /** Over every run: live flashes have distinct tokens, each waits for a timer of its own, and
      once no timer is outstanding the store is dark. */
  lemma {:induction false} RunsStayTidy(actions: seq<Action>, j: string, k: string)
    requires Possible(actions)
    ensures var s := Exec(actions);
      && (j in s.flashes && k in s.flashes && s.flashes[j].token == s.flashes[k].token ==> j == k)
      && (k in s.flashes ==> Timer(k, s.flashes[k].token) in s.timers && s.flashes[k].token <= s.counter)
      && (s.timers == {} ==> s.flashes == map[])
  {
    RunIsSound(actions);
    var s := Exec(actions);
    if s.timers == {} { assert forall x :: x in s.flashes ==> Timer(x, s.flashes[x].token) in s.timers; }
  }

  // ----- What the store means, told from the history alone -----

  /** How many flashes were set among the first n actions: the token of the next one, less one. */
  function SetCount(actions: seq<Action>, n: nat): nat
    requires n <= |actions|
  {
    if n == 0 then 0 else SetCount(actions, n - 1) + (if actions[n - 1].SetFlash? then 1 else 0)
  }

  /** The last action that set this key, if any. */
  function LastSet(actions: seq<Action>, key: string): (r: Option<nat>)
    ensures r.Some? ==> r.value < |actions| && actions[r.value].SetFlash? && actions[r.value].key == key
  {
    if actions == [] then None
    else
      var n := |actions| - 1;
      if actions[n].SetFlash? && actions[n].key == key then Some(n) else LastSet(actions[..n], key)
  }

  lemma {:induction false} LastSetIsLast(actions: seq<Action>, key: string)
    ensures forall j :: (if LastSet(actions, key).Some? then LastSet(actions, key).value + 1 else 0) <= j < |actions| ==>
      !(actions[j].SetFlash? && actions[j].key == key)
  {
    if actions != [] {
      var n := |actions| - 1;
      LastSetIsLast(actions[..n], key);
      assert forall j :: 0 <= j < n ==> actions[..n][j] == actions[j];
    }
  }

  /** The timer that the i-th action set. */
  function TimerOf(actions: seq<Action>, i: nat): Timer
    requires i < |actions| && actions[i].SetFlash?
  {
    Timer(actions[i].key, SetCount(actions, i) + 1)
  }

  ghost predicate Fired(actions: seq<Action>, t: Timer) {
    exists j :: 0 <= j < |actions| && actions[j] == Fire(t)
  }

  /** What should be lit: the last flash set for the key, until its own timer has fired. */
  ghost function Lit(actions: seq<Action>, key: string): Option<Entry> {
    var i := LastSet(actions, key);
    if i.None? || Fired(actions, TimerOf(actions, i.value)) then None
    else Some(Entry(actions[i.value].kind, SetCount(actions, i.value) + 1))
  }

  lemma {:induction false} CounterCountsSets(actions: seq<Action>)
    ensures Exec(actions).counter == SetCount(actions, |actions|)
  {
    if actions != [] {
      var n := |actions| - 1;
      CounterCountsSets(actions[..n]);
      SetCountOfPrefix(actions, n, n);
    }
  }

  lemma {:induction false} SetCountOfPrefix(actions: seq<Action>, n: nat, m: nat)
    requires m <= n <= |actions|
    ensures SetCount(actions[..n], m) == SetCount(actions, m)
  {
    if m > 0 { SetCountOfPrefix(actions, n, m - 1); }
  }

  lemma {:induction false} SetCountGrows(actions: seq<Action>, m: nat, n: nat)
    requires m <= n <= |actions|
    ensures SetCount(actions, m) <= SetCount(actions, n)
    decreases n
  {
    if m < n { SetCountGrows(actions, m, n - 1); }
  }

  lemma LastSetMore(actions: seq<Action>, a: Action, key: string)
    ensures LastSet(actions + [a], key) ==
      if a.SetFlash? && a.key == key then Some(|actions|) else LastSet(actions, key)
  {
  }

  lemma FiredMore(actions: seq<Action>, a: Action, t: Timer)
    ensures Fired(actions + [a], t) <==> Fired(actions, t) || a == Fire(t)
  {
    var more := actions + [a];
    if Fired(actions, t) {
      var j :| 0 <= j < |actions| && actions[j] == Fire(t);
      assert more[j] == Fire(t);
    }
    if a == Fire(t) { assert more[|actions|] == Fire(t); }
  }

  lemma TimerOfMore(actions: seq<Action>, a: Action, i: nat)
    requires i < |actions| && actions[i].SetFlash?
    ensures TimerOf(actions + [a], i) == TimerOf(actions, i)
    ensures SetCount(actions + [a], i) == SetCount(actions, i)
  {
    SetCountOfPrefix(actions + [a], |actions|, i);
    assert (actions + [a])[..|actions|] == actions;
  }

  /** Only timers that were set have fired, so none has a token still to be given out. */
  lemma {:induction false} FiredTokensAreOld(actions: seq<Action>, t: Timer)
    requires Possible(actions) && Fired(actions, t)
    ensures t.token <= SetCount(actions, |actions|)
  {
    var j :| 0 <= j < |actions| && actions[j] == Fire(t);
    PossiblePrefix(actions, j);
    RunIsSound(actions[..j]);
    CounterCountsSets(actions[..j]);
    SetCountOfPrefix(actions, j, j);
    SetCountGrows(actions, j, |actions|);
    assert Enabled(Exec(actions[..j]), actions[j]);
  }

  ghost function Looked(flashes: map<string, Entry>, key: string): Option<Entry> {
    if key in flashes then Some(flashes[key]) else None
  }

  lemma LitWhileUnfired(actions: seq<Action>, key: string, i: nat)
    requires LastSet(actions, key) == Some(i) && !Fired(actions, TimerOf(actions, i))
    ensures Lit(actions, key) == Some(Entry(actions[i].kind, SetCount(actions, i) + 1))
  {
  }

  lemma NewTimer(actions: seq<Action>, a: Action)
    requires a.SetFlash?
    ensures SetCount(actions + [a], |actions|) == SetCount(actions, |actions|)
    ensures TimerOf(actions + [a], |actions|) == Timer(a.key, SetCount(actions, |actions|) + 1)
  {
    SetCountOfPrefix(actions + [a], |actions|, |actions|);
    assert (actions + [a])[..|actions|] == actions;
  }

  lemma {:induction false} NewTimerHasNotFired(actions: seq<Action>, a: Action, t: Timer)
    requires Possible(actions) && t.token > SetCount(actions, |actions|) && a.SetFlash?
    ensures !Fired(actions + [a], t)
  {
    FiredMore(actions, a, t);
    if Fired(actions, t) { FiredTokensAreOld(actions, t); }
  }

  lemma {:induction false} LitAfterSet(actions: seq<Action>, key: string, kind: Kind)
    requires !Fired(actions + [SetFlash(key, kind)], Timer(key, SetCount(actions, |actions|) + 1))
    ensures Lit(actions + [SetFlash(key, kind)], key) == Some(Entry(kind, SetCount(actions, |actions|) + 1))
  {
    var a := SetFlash(key, kind);
    var more, n := actions + [a], |actions|;
    LastSetMore(actions, a, key);
    NewTimer(actions, a);
    assert more[n] == a;
    LitWhileUnfired(more, key, n);
  }

  lemma {:induction false} LitAfterOther(actions: seq<Action>, a: Action, key: string)
    requires a.SetFlash? ==> a.key != key
    ensures Lit(actions + [a], key) ==
      var before := Lit(actions, key);
      if before.Some? && a == Fire(Timer(key, before.value.token)) then None else before
  {
    LastSetMore(actions, a, key);
    var i := LastSet(actions, key);
    if i.Some? {
      TimerOfMore(actions, a, i.value);
      FiredMore(actions, a, TimerOf(actions, i.value));
    }
  }

  lemma {:induction false} HistoryStep(actions: seq<Action>, a: Action, key: string)
    requires Possible(actions) && Looked(Exec(actions).flashes, key) == Lit(actions, key)
    ensures Looked(Apply(Exec(actions), a).flashes, key) == Lit(actions + [a], key)
  {
    if a.SetFlash? && a.key == key {
      CounterCountsSets(actions);
      NewTimerHasNotFired(actions, a, Timer(key, SetCount(actions, |actions|) + 1));
      LitAfterSet(actions, key, a.kind);
    } else {
      LitAfterOther(actions, a, key);
    }
  }

  /** The store is a function of the history: a key shows the last flash set for it until that
      flash's own timer has fired, and nothing else lights it or puts it out. */
  lemma {:induction false} StoreIsHistory(actions: seq<Action>, key: string)
    requires Possible(actions)
    ensures Looked(Exec(actions).flashes, key) == Lit(actions, key)
  {
    if actions != [] {
      var n := |actions| - 1;
      PossiblePrefix(actions, n);
      StoreIsHistory(actions[..n], key);
      assert actions == actions[..n] + [actions[n]];
      HistoryStep(actions[..n], actions[n], key);
    }
  }

  /** A late timer leaves a newer flash of the same key alone. */
  lemma {:induction false} StaleTimerIsHarmless(actions: seq<Action>, t: Timer)
    requires Possible(actions) && t in Exec(actions).timers
    requires Lit(actions, t.key).Some? && Lit(actions, t.key).value.token != t.token
    ensures Lit(actions + [Fire(t)], t.key) == Lit(actions, t.key)
  {
    LitAfterOther(actions, Fire(t), t.key);
  }

  /** Larger tokens were set later, so the entry with the largest token is the latest flash. */
  lemma LaterSetsHaveLargerTokens(actions: seq<Action>, i: nat, j: nat)
    requires i < |actions| && j < |actions| && actions[i].SetFlash? && actions[j].SetFlash?
    ensures i < j <==> TimerOf(actions, i).token < TimerOf(actions, j).token
  {
    if i < j { SetCountGrows(actions, i + 1, j); }
    if j < i { SetCountGrows(actions, j + 1, i); }
  }

  /** The i-th action set a flash that is still lit. */
  ghost predicate StillLit(actions: seq<Action>, i: nat) {
    i < |actions| && actions[i].SetFlash?
    && LastSet(actions, actions[i].key) == Some(i) && !Fired(actions, TimerOf(actions, i))
  }

  lemma {:induction false} LitEntryWasSet(actions: seq<Action>, key: string)
    requires Possible(actions) && key in Exec(actions).flashes
    ensures exists j: nat ::
      StillLit(actions, j) && actions[j].key == key
      && Exec(actions).flashes[key] == Entry(actions[j].kind, TimerOf(actions, j).token)
  {
    StoreIsHistory(actions, key);
    var j := LastSet(actions, key).value;
    assert StillLit(actions, j);
  }

  lemma {:induction false} StillLitIsStored(actions: seq<Action>, i: nat)
    requires Possible(actions) && StillLit(actions, i)
    ensures var key := actions[i].key;
      key in Exec(actions).flashes && Exec(actions).flashes[key].token == TimerOf(actions, i).token
  {
    StoreIsHistory(actions, actions[i].key);
  }

  /** The aggregate query over every run: it answers with a wanted flash that is still lit, and no
      wanted flash set later is. */
  lemma {:induction false} LatestIsMostRecent(actions: seq<Action>, wanted: set<string>, latest: Option<Entry>)
    requires Possible(actions) && IsLatest(latest, Exec(actions).flashes, wanted)
    ensures latest.None? ==> forall i: nat :: StillLit(actions, i) ==> !Wanted(actions[i].key, wanted)
    ensures latest.Some? ==>
      exists j: nat ::
        StillLit(actions, j) && Wanted(actions[j].key, wanted)
        && latest.value == Entry(actions[j].kind, TimerOf(actions, j).token)
        && forall i: nat :: StillLit(actions, i) && Wanted(actions[i].key, wanted) ==> i <= j
  {
    forall i: nat | StillLit(actions, i) && Wanted(actions[i].key, wanted)
      ensures latest.Some? && TimerOf(actions, i).token <= latest.value.token
    {
      StillLitIsStored(actions, i);
    }
    if latest.Some? {
      var key :| key in Exec(actions).flashes && Wanted(key, wanted) && Exec(actions).flashes[key] == latest.value;
      LitEntryWasSet(actions, key);
      var j: nat :| StillLit(actions, j) && actions[j].key == key
        && latest.value == Entry(actions[j].kind, TimerOf(actions, j).token);
      forall i: nat | StillLit(actions, i) && Wanted(actions[i].key, wanted) ensures i <= j {
        LaterSetsHaveLargerTokens(actions, j, i);
      }
    }
  }

  // ----- Timers and keys -----

  /** The i-th action set this timer. */
  ghost predicate WasSet(actions: seq<Action>, t: Timer, i: nat) {
    i < |actions| && actions[i].SetFlash? && TimerOf(actions, i) == t
  }

  ghost predicate WasSetOnce(actions: seq<Action>, t: Timer) {
    exists i: nat :: WasSet(actions, t, i)
  }

  lemma WasSetMore(actions: seq<Action>, a: Action, t: Timer)
    ensures WasSetOnce(actions + [a], t) <==>
      WasSetOnce(actions, t) || (a.SetFlash? && t == Timer(a.key, SetCount(actions, |actions|) + 1))
  {
    var more := actions + [a];
    if WasSetOnce(actions, t) {
      var i: nat :| WasSet(actions, t, i);
      TimerOfMore(actions, a, i);
      assert WasSet(more, t, i);
    }
    if a.SetFlash? { NewTimer(actions, a); }
    if a.SetFlash? && t == Timer(a.key, SetCount(actions, |actions|) + 1) { assert WasSet(more, t, |actions|); }
    if WasSetOnce(more, t) {
      var i: nat :| WasSet(more, t, i);
      if i < |actions| {
        TimerOfMore(actions, a, i);
        assert WasSet(actions, t, i);
      }
    }
  }

  /** By the history, the timer was set and has not fired. */
  ghost predicate Outstanding(actions: seq<Action>, t: Timer) {
    WasSetOnce(actions, t) && !Fired(actions, t)
  }

  lemma OutstandingMore(actions: seq<Action>, a: Action, t: Timer)
    requires Possible(actions)
    ensures Outstanding(actions + [a], t) <==>
      if a.SetFlash? then Outstanding(actions, t) || t == Timer(a.key, SetCount(actions, |actions|) + 1)
      else Outstanding(actions, t) && a != Fire(t)
  {
    WasSetMore(actions, a, t);
    FiredMore(actions, a, t);
    if a.SetFlash? && t == Timer(a.key, SetCount(actions, |actions|) + 1) { NewTimerHasNotFired(actions, a, t); }
  }

  lemma TimersMore(actions: seq<Action>, a: Action, t: Timer)
    ensures t in Apply(Exec(actions), a).timers <==>
      if a.SetFlash? then t in Exec(actions).timers || t == Timer(a.key, SetCount(actions, |actions|) + 1)
      else t in Exec(actions).timers && a != Fire(t)
  {
    CounterCountsSets(actions);
  }

  /** The timers outstanding are exactly those that were set and have not fired. */
  lemma {:induction false} TimersAreExactly(actions: seq<Action>, t: Timer)
    requires Possible(actions)
    ensures t in Exec(actions).timers <==> Outstanding(actions, t)
  {
    if actions != [] {
      var n := |actions| - 1;
      PossiblePrefix(actions, n);
      TimersAreExactly(actions[..n], t);
      assert actions == actions[..n] + [actions[n]];
      OutstandingMore(actions[..n], actions[n], t);
      TimersMore(actions[..n], actions[n], t);
    }
  }

  /** Different pairs of a virtual model without a colon and a subscription have different keys. */
  lemma KeysDiffer(vm: string, sub: string, vm': string, sub': string)
    requires ':' !in vm && ':' !in vm'
    ensures FlashKey(vm, sub) == FlashKey(vm', sub') <==> vm == vm' && sub == sub'
  {
    if FlashKey(vm, sub) == FlashKey(vm', sub') {
      PlainModelNamesRoundTrip(vm, sub);
      PlainModelNamesRoundTrip(vm', sub');
      var key := FlashKey(vm, sub);
      assert |vm| == |vm'|;
      assert vm == key[..|vm|] && vm' == key[..|vm|];
    }
  }
}
