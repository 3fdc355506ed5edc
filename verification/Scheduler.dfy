/**
 Choosing the subscriptions that a request may be sent to, in the order in which they are tried,
 and the rotation that spreads requests over them (src-tauri/src/virtual_model/scheduler.rs; the
 position it keeps is written back by src-tauri/src/proxy/pipeline.rs).
 */
module Scheduler {
  import opened Wrappers
  import opened Sequences
  import opened Schedule
  import opened Arithmetic

  datatype Mode = Sequential | RoundRobin | Sticky

  /** What scheduling looks at: state, cooldown and quota in one flag, and the slot's models. */
  datatype Subscription = Subscription(dispatchable: bool, def: string, rules: seq<Rule>)

  /** `hasSlot` is false for the virtual models that have no slot of their own. */
  datatype VirtualModel = VirtualModel(hasSlot: bool, mode: Mode, ids: seq<int>, lastUsed: nat)

  predicate Schedulable(hasSlot: bool, sub: Subscription, clock: WallClock) {
    sub.dispatchable && (hasSlot ==> ServerModel(sub.def, sub.rules, clock).Some?)
  }

  /** What one request finds: the subscriptions that can be scheduled now, and a pinned one. */
  datatype Call = Call(usable: set<int>, pinned: Option<int>)

  function CallAt(vm: VirtualModel, subs: map<int, Subscription>, clock: WallClock, pinned: Option<int>): Call {
    Call((set id | id in subs && Schedulable(vm.hasSlot, subs[id], clock)), pinned)
  }

  predicate PinHolds(vm: VirtualModel, call: Call) {
    vm.mode == Sticky && call.pinned.Some? && call.pinned.value in vm.ids && call.pinned.value in call.usable
  }

  // ----- The scan -----

  /** The place in the list where the scan begins. */
  function Start(vm: VirtualModel): (s: nat)
    requires vm.ids != []
    ensures s < |vm.ids|
  {
    if vm.mode == Sequential then 0 else (vm.lastUsed + 1) % |vm.ids|
  }

  /** The place that the scan visits in its i-th step. */
  function Place(vm: VirtualModel, i: nat): (p: nat)
    requires i < |vm.ids|
    ensures p < |vm.ids|
  {
    if Start(vm) + i < |vm.ids| then Start(vm) + i else Start(vm) + i - |vm.ids|
  }

  /** The step in which the scan visits a place. */
  function StepOf(vm: VirtualModel, p: nat): (i: nat)
    requires p < |vm.ids|
    ensures i < |vm.ids|
  {
    if p >= Start(vm) then p - Start(vm) else p + |vm.ids| - Start(vm)
  }

  lemma WrapOnce(x: nat, n: nat)
    requires n > 0 && x < 2 * n
    ensures x % n == if x < n then x else x - n
  {
  }

  /** Every place is visited in exactly one step. */
  lemma ScanVisitsOnce(vm: VirtualModel, i: nat, p: nat)
    requires i < |vm.ids| && p < |vm.ids|
    ensures Place(vm, i) == p <==> StepOf(vm, p) == i
  {
  }

  /** The scan keeps this step's subscription. */
  predicate Keeps(vm: VirtualModel, call: Call, i: nat)
    requires i < |vm.ids|
  {
    vm.ids[Place(vm, i)] in call.usable && !(PinHolds(vm, call) && vm.ids[Place(vm, i)] == call.pinned.value)
  }

  /** The subscriptions that the first k steps of the scan keep, in order. */
  function Gathered(vm: VirtualModel, call: Call, k: nat): seq<int>
    requires k <= |vm.ids|
  {
    if k == 0 then []
    else
      var before := Gathered(vm, call, k - 1);
      if Keeps(vm, call, k - 1) then before + [vm.ids[Place(vm, k - 1)]] else before
  }

  /** The place of the first subscription kept. */
  function FirstPlace(vm: VirtualModel, call: Call, k: nat): (c: Option<nat>)
    requires k <= |vm.ids|
    ensures c.Some? ==> c.value < |vm.ids|
  {
    if k == 0 then None
    else
      var before := FirstPlace(vm, call, k - 1);
      if before.None? && Keeps(vm, call, k - 1) then Some(Place(vm, k - 1)) else before
  }

  /** The subscriptions to try, in order. */
  function Candidates(vm: VirtualModel, call: Call): seq<int> {
    if PinHolds(vm, call) then [call.pinned.value] + Gathered(vm, call, |vm.ids|)
    else Gathered(vm, call, |vm.ids|)
  }

  /** The place that the rotation moves to; none when nothing is usable or the pin holds. */
  function Chosen(vm: VirtualModel, call: Call): (c: Option<nat>)
    ensures c.Some? ==> c.value < |vm.ids|
  {
    if PinHolds(vm, call) then None else FirstPlace(vm, call, |vm.ids|)
  }

  predicate IsUsable(vm: VirtualModel, subs: map<int, Subscription>, clock: WallClock, id: int) {
    id in subs && Schedulable(vm.hasSlot, subs[id], clock)
  }

  method BuildCandidateOrder(vm: VirtualModel, subs: map<int, Subscription>, clock: WallClock, pinned: Option<int>)
      returns (candidates: seq<int>, chosen: Option<nat>)
    ensures candidates == Candidates(vm, CallAt(vm, subs, clock, pinned))
    ensures chosen == Chosen(vm, CallAt(vm, subs, clock, pinned))
  {
    var n := |vm.ids|;
    if n == 0 { return [], None; }
    if vm.mode == Sticky && pinned.Some? && pinned.value in vm.ids && IsUsable(vm, subs, clock, pinned.value) {
      candidates := ScanBehindPin(vm, subs, clock, pinned.value);
      return candidates, None;
    }
    candidates, chosen := Scan(vm, subs, clock, pinned);
  }

  /** The candidates when the pin holds. */
  method ScanBehindPin(vm: VirtualModel, subs: map<int, Subscription>, clock: WallClock, pin: int)
      returns (candidates: seq<int>)
    requires vm.ids != [] && PinHolds(vm, CallAt(vm, subs, clock, Some(pin)))
    ensures candidates == Candidates(vm, CallAt(vm, subs, clock, Some(pin)))
  {
    ghost var call := CallAt(vm, subs, clock, Some(pin));
    var n := |vm.ids|;
    var start := (vm.lastUsed + 1) % n;
    candidates := [pin];
    for i := 0 to n
      invariant candidates == [pin] + Gathered(vm, call, i)
    {
      WrapOnce(start + i, n);
      var id := vm.ids[(start + i) % n];
      if id != pin && IsUsable(vm, subs, clock, id) {
        Assoc([pin], Gathered(vm, call, i), [id]);
        candidates := candidates + [id];
      }
    }
  }

  /** The candidates when no pin holds. */
  method Scan(vm: VirtualModel, subs: map<int, Subscription>, clock: WallClock, pinned: Option<int>)
      returns (candidates: seq<int>, chosen: Option<nat>)
    requires vm.ids != [] && !PinHolds(vm, CallAt(vm, subs, clock, pinned))
    ensures candidates == Candidates(vm, CallAt(vm, subs, clock, pinned))
    ensures chosen == Chosen(vm, CallAt(vm, subs, clock, pinned))
  {
    ghost var call := CallAt(vm, subs, clock, pinned);
    var n := |vm.ids|;
    var start := (vm.lastUsed + 1) % n;
    candidates, chosen := [], None;
    for i := 0 to n
      invariant candidates == Gathered(vm, call, i)
      invariant chosen == FirstPlace(vm, call, i)
    {
      WrapOnce(start + i, n);
      var place := if vm.mode == Sequential then i else (start + i) % n;
      if IsUsable(vm, subs, clock, vm.ids[place]) {
        if chosen.None? { chosen := Some(place); }
        candidates := candidates + [vm.ids[place]];
      }
    }
  }

  // ----- What the candidates are -----

  lemma {:induction false} GatheredIff(vm: VirtualModel, call: Call, k: nat, id: int)
    requires k <= |vm.ids|
    ensures id in Gathered(vm, call, k) <==> exists i :: 0 <= i < k && Keeps(vm, call, i) && vm.ids[Place(vm, i)] == id
  {
    if k > 0 { GatheredIff(vm, call, k - 1, id); }
  }

  lemma CandidatesAreTheUsable(vm: VirtualModel, call: Call, id: int)
    ensures id in Candidates(vm, call) <==> id in vm.ids && id in call.usable
  {
    GatheredIff(vm, call, |vm.ids|, id);
    if id in vm.ids {
      var p :| 0 <= p < |vm.ids| && vm.ids[p] == id;
      ScanVisitsOnce(vm, StepOf(vm, p), p);
      assert vm.ids[Place(vm, StepOf(vm, p))] == id;
    }
  }

  /** Exactly the listed subscriptions that exist, are dispatchable and have a model for the slot, if
      there is a slot, are tried, with a pin or without. */
  lemma CandidatesAreTheSchedulable(
      vm: VirtualModel, subs: map<int, Subscription>, clock: WallClock, pinned: Option<int>, id: int)
    ensures id in Candidates(vm, CallAt(vm, subs, clock, pinned)) <==>
      id in vm.ids && id in subs && subs[id].dispatchable
      && (vm.hasSlot ==> ServerModel(subs[id].def, subs[id].rules, clock).Some?)
  {
    CandidatesAreTheUsable(vm, CallAt(vm, subs, clock, pinned), id);
  }

  /** A pin matters exactly in sticky mode and if it is listed and usable: then it is tried first, the
      others follow as without it, and the rotation rests. */
  lemma PinMattersIff(vm: VirtualModel, call: Call)
    ensures var free := call.(pinned := None);
      if vm.mode == Sticky && call.pinned.Some? && call.pinned.value in vm.ids && call.pinned.value in call.usable
      then
        && Chosen(vm, call) == None
        && Candidates(vm, call) == [call.pinned.value] + Minus(Candidates(vm, free), call.pinned.value)
      else Chosen(vm, call) == Chosen(vm, free) && Candidates(vm, call) == Candidates(vm, free)
  {
    var free := call.(pinned := None);
    if PinHolds(vm, call) {
      GatheredMinus(vm, call, |vm.ids|);
    } else {
      SameScan(vm, call, free, |vm.ids|);
    }
  }

  /** The ids without this one. */
  function Minus(ids: seq<int>, id: int): seq<int> {
    if ids == [] then []
    else Minus(ids[..|ids| - 1], id) + (if ids[|ids| - 1] == id then [] else [ids[|ids| - 1]])
  }

  lemma {:induction false} GatheredMinus(vm: VirtualModel, call: Call, k: nat)
    requires PinHolds(vm, call) && k <= |vm.ids|
    ensures Gathered(vm, call, k) == Minus(Gathered(vm, call.(pinned := None), k), call.pinned.value)
  {
    if k > 0 {
      var before := Gathered(vm, call.(pinned := None), k - 1);
      var id := vm.ids[Place(vm, k - 1)];
      GatheredMinus(vm, call, k - 1);
      assert (before + [id])[..|before|] == before;
      assert Minus(before, call.pinned.value) + [] == Minus(before, call.pinned.value);
    }
  }

  lemma {:induction false} SameScan(vm: VirtualModel, call: Call, free: Call, k: nat)
    requires !PinHolds(vm, call) && !PinHolds(vm, free) && call.usable == free.usable && k <= |vm.ids|
    ensures Gathered(vm, call, k) == Gathered(vm, free, k) && FirstPlace(vm, call, k) == FirstPlace(vm, free, k)
  {
    if k > 0 { SameScan(vm, call, free, k - 1); }
  }

  /** Step i of the scan visits place i in list order, else place i + 1 after the one used last. */
  lemma StepsGoRound(vm: VirtualModel, p: nat)
    requires p < |vm.ids|
    ensures vm.mode == Sequential ==> StepOf(vm, p) == p
    ensures vm.mode != Sequential ==> (vm.lastUsed + 1 + StepOf(vm, p)) % |vm.ids| == p
  {
    if vm.mode != Sequential {
      var n := |vm.ids|;
      RemainderOfSum(vm.lastUsed + 1, StepOf(vm, p), n);
      WrapOnce(Start(vm) + StepOf(vm, p), n);
    }
  }

  ghost predicate Distinct(ids: seq<int>) {
    forall p, q :: 0 <= p < q < |ids| ==> ids[p] != ids[q]
  }

  /** What is gathered last among distinct subscriptions was listed at the last step kept. */
  lemma {:induction false} GatheredAt(vm: VirtualModel, call: Call, k: nat, a: nat, p: nat)
    requires Distinct(vm.ids) && k <= |vm.ids| && a < |Gathered(vm, call, k)| && p < |vm.ids|
    requires Gathered(vm, call, k)[a] == vm.ids[p]
    ensures StepOf(vm, p) < k && Keeps(vm, call, StepOf(vm, p))
    ensures Keeps(vm, call, k - 1) && a == |Gathered(vm, call, k)| - 1 ==> StepOf(vm, p) == k - 1
  {
    if Keeps(vm, call, k - 1) && a == |Gathered(vm, call, k)| - 1 {
      assert vm.ids[Place(vm, k - 1)] == vm.ids[p];
      ScanVisitsOnce(vm, k - 1, p);
    } else {
      GatheredAt(vm, call, k - 1, a, p);
    }
  }

  lemma {:induction false} GatheredInOrder(vm: VirtualModel, call: Call, k: nat, a: nat, b: nat, p: nat, q: nat)
    requires Distinct(vm.ids) && k <= |vm.ids| && a < b < |Gathered(vm, call, k)| && p < |vm.ids| && q < |vm.ids|
    requires Gathered(vm, call, k)[a] == vm.ids[p] && Gathered(vm, call, k)[b] == vm.ids[q]
    ensures StepOf(vm, p) < StepOf(vm, q)
  {
    if Keeps(vm, call, k - 1) && b == |Gathered(vm, call, k)| - 1 {
      GatheredAt(vm, call, k - 1, a, p);
      GatheredAt(vm, call, k, b, q);
    } else {
      GatheredInOrder(vm, call, k - 1, a, b, p, q);
    }
  }

  /** No subscription is tried twice; a pinned one is tried first, and the others in the order in
      which the scan comes by them. */
  lemma CandidatesAreInOrder(vm: VirtualModel, call: Call, a: nat, b: nat, p: nat, q: nat)
    requires Distinct(vm.ids) && a < b < |Candidates(vm, call)| && p < |vm.ids| && q < |vm.ids|
    requires Candidates(vm, call)[a] == vm.ids[p] && Candidates(vm, call)[b] == vm.ids[q]
    ensures p != q
    ensures if a == 0 && PinHolds(vm, call) then vm.ids[p] == call.pinned.value else StepOf(vm, p) < StepOf(vm, q)
  {
    var n := |vm.ids|;
    if !PinHolds(vm, call) {
      GatheredInOrder(vm, call, n, a, b, p, q);
    } else if a > 0 {
      GatheredInOrder(vm, call, n, a - 1, b - 1, p, q);
    } else {
      GatheredAt(vm, call, n, b - 1, q);
      ScanVisitsOnce(vm, StepOf(vm, q), q);
    }
  }

  /** The listed subscription at this place can be scheduled. */
  predicate Up(vm: VirtualModel, call: Call, p: nat) {
    p < |vm.ids| && vm.ids[p] in call.usable
  }

  lemma {:induction false} FirstPlaceIsFirst(vm: VirtualModel, call: Call, k: nat)
    requires k <= |vm.ids|
    ensures FirstPlace(vm, call, k).None? ==>
      Gathered(vm, call, k) == [] && forall i :: 0 <= i < k ==> !Keeps(vm, call, i)
    ensures FirstPlace(vm, call, k).Some? ==>
      var i := StepOf(vm, FirstPlace(vm, call, k).value);
      && i < k && Keeps(vm, call, i) && (forall j :: 0 <= j < i ==> !Keeps(vm, call, j))
      && Gathered(vm, call, k) != [] && Gathered(vm, call, k)[0] == vm.ids[FirstPlace(vm, call, k).value]
  {
    if k > 0 {
      FirstPlaceIsFirst(vm, call, k - 1);
      ScanVisitsOnce(vm, k - 1, Place(vm, k - 1));
    }
  }

  /** Unless the pin holds, the rotation moves to the usable place that comes first in the scan,
      whose subscription is the first candidate, and stays only if there is none. */
  lemma ChosenIsNearest(vm: VirtualModel, call: Call, p: nat)
    requires !PinHolds(vm, call)
    ensures Chosen(vm, call).None? <==> Candidates(vm, call) == []
    ensures Chosen(vm, call).Some? ==>
      Up(vm, call, Chosen(vm, call).value) && Candidates(vm, call)[0] == vm.ids[Chosen(vm, call).value]
    ensures Up(vm, call, p) ==>
      Chosen(vm, call).Some? && StepOf(vm, Chosen(vm, call).value) <= StepOf(vm, p)
  {
    FirstPlaceIsFirst(vm, call, |vm.ids|);
    if Chosen(vm, call).Some? {
      var c := Chosen(vm, call).value;
      ScanVisitsOnce(vm, StepOf(vm, c), c);
    }
    if Up(vm, call, p) {
      ScanVisitsOnce(vm, StepOf(vm, p), p);
      assert Keeps(vm, call, StepOf(vm, p));
    }
  }

  // ----- Runs of requests -----

  /** A request moves the rotation to the chosen place. */
  function Next(vm: VirtualModel, call: Call): VirtualModel {
    if Chosen(vm, call).Some? then vm.(lastUsed := Chosen(vm, call).value) else vm
  }

  /** The state after the first k requests of a run. */
  function After(vm: VirtualModel, calls: seq<Call>, k: nat): (after: VirtualModel)
    requires k <= |calls|
    ensures after == vm.(lastUsed := after.lastUsed)
  {
    if k == 0 then vm else Next(After(vm, calls, k - 1), calls[k - 1])
  }

  /** The place chosen by the k-th request of a run. */
  function ChosenBy(vm: VirtualModel, calls: seq<Call>, k: nat): (c: Option<nat>)
    requires k < |calls|
    ensures c.Some? ==> c.value < |vm.ids|
  {
    Chosen(After(vm, calls, k), calls[k])
  }

  /** The k-th request could use place p and does not choose it. */
  predicate PassesOver(vm: VirtualModel, calls: seq<Call>, p: nat, k: nat)
    requires k < |calls|
  {
    Up(vm, calls[k], p) && ChosenBy(vm, calls, k) != Some(p)
  }

  /** Throughout the run place p can be scheduled and is never chosen. */
  ghost predicate Waits(vm: VirtualModel, calls: seq<Call>, p: nat) {
    forall k :: 0 <= k < |calls| ==> PassesOver(vm, calls, p, k)
  }

  /** How many of the first k requests moved the rotation. */
  function Moves(vm: VirtualModel, calls: seq<Call>, k: nat): nat
    requires k <= |calls|
  {
    if k == 0 then 0 else Moves(vm, calls, k - 1) + (if ChosenBy(vm, calls, k - 1).Some? then 1 else 0)
  }

  /** Choosing a place brings everything behind it in the scan closer by the same distance, and
      puts the place itself last. */
  lemma ScanMovesUp(vm: VirtualModel, call: Call, p: nat)
    requires vm.mode != Sequential && p < |vm.ids| && Chosen(vm, call).Some?
    ensures var c := Chosen(vm, call).value;
      StepOf(Next(vm, call), p) ==
        if p == c then |vm.ids| - 1
        else if StepOf(vm, p) > StepOf(vm, c) then StepOf(vm, p) - StepOf(vm, c) - 1
        else StepOf(Next(vm, call), p)
  {
    WrapOnce(Chosen(vm, call).value + 1, |vm.ids|);
  }

  /** One request while p waits: either the rotation rests, or what it chose was ahead of p. */
  lemma OneRequest(vm: VirtualModel, call: Call, p: nat)
    requires Up(vm, call, p) && Chosen(vm, call) != Some(p)
    ensures Chosen(vm, call).Some? ==> StepOf(vm, Chosen(vm, call).value) < StepOf(vm, p)
  {
    if Chosen(vm, call).Some? {
      ChosenIsNearest(vm, call, p);
      var c := Chosen(vm, call).value;
      ScanVisitsOnce(vm, StepOf(vm, p), p);
      ScanVisitsOnce(vm, StepOf(vm, p), c);
    }
  }

  /** What is behind p when a request is answered, or is what the request chose, is behind p
      afterwards. */
  lemma StaysBehind(vm: VirtualModel, call: Call, p: nat, c: nat)
    requires vm.mode != Sequential && Up(vm, call, p) && Chosen(vm, call) != Some(p) && c < |vm.ids|
    requires StepOf(vm, p) < StepOf(vm, c) || Chosen(vm, call) == Some(c)
    ensures StepOf(Next(vm, call), p) < StepOf(Next(vm, call), c)
  {
    OneRequest(vm, call, p);
    if Chosen(vm, call).Some? {
      ScanMovesUp(vm, call, p);
      ScanMovesUp(vm, call, c);
    }
  }

  /** While p waits, whatever was chosen stays behind p in the scan. */
  lemma {:induction false} ChosenStaysBehind(vm: VirtualModel, calls: seq<Call>, p: nat, j: nat, k: nat)
    requires vm.mode != Sequential && p < |vm.ids| && Waits(vm, calls, p) && j < k <= |calls|
    requires ChosenBy(vm, calls, j).Some?
    ensures StepOf(After(vm, calls, k), p) < StepOf(After(vm, calls, k), ChosenBy(vm, calls, j).value)
    decreases k
  {
    if k - 1 > j { ChosenStaysBehind(vm, calls, p, j, k - 1); }
    assert PassesOver(vm, calls, p, k - 1);
    StaysBehind(After(vm, calls, k - 1), calls[k - 1], p, ChosenBy(vm, calls, j).value);
  }

  /** Fairness of the rotation, however the other subscriptions come and go and whatever is
      pinned in between: nothing is chosen twice while a usable subscription waits. */
  lemma NothingIsChosenTwice(vm: VirtualModel, calls: seq<Call>, p: nat, j: nat, k: nat)
    requires vm.mode != Sequential && p < |vm.ids| && Waits(vm, calls, p) && j < k < |calls|
    requires ChosenBy(vm, calls, j).Some?
    ensures ChosenBy(vm, calls, k) != ChosenBy(vm, calls, j)
  {
    ChosenStaysBehind(vm, calls, p, j, k);
    assert PassesOver(vm, calls, p, k);
    OneRequest(After(vm, calls, k), calls[k], p);
  }

  /** Every request that moves the rotation brings a waiting p closer. */
  lemma {:induction false} WaitShortens(vm: VirtualModel, calls: seq<Call>, p: nat, k: nat)
    requires vm.mode != Sequential && p < |vm.ids| && Waits(vm, calls, p) && k <= |calls|
    ensures StepOf(After(vm, calls, k), p) + Moves(vm, calls, k) <= StepOf(vm, p)
  {
    if k > 0 {
      WaitShortens(vm, calls, p, k - 1);
      assert PassesOver(vm, calls, p, k - 1);
      var before := After(vm, calls, k - 1);
      OneRequest(before, calls[k - 1], p);
      if Chosen(before, calls[k - 1]).Some? { ScanMovesUp(before, calls[k - 1], p); }
    }
  }

  /** No starvation: a usable subscription waits for fewer moves than there are subscriptions. */
  lemma WaitIsBounded(vm: VirtualModel, calls: seq<Call>, p: nat)
    requires vm.mode != Sequential && p < |vm.ids| && Waits(vm, calls, p)
    ensures Moves(vm, calls, |calls|) < |vm.ids|
  {
    WaitShortens(vm, calls, p, |calls|);
  }

  /** Trying in list order is not fair: the first of two usable subscriptions is chosen always. */
  lemma ListOrderStarves(vm: VirtualModel, call: Call)
    requires vm.mode == Sequential && Up(vm, call, 0)
    ensures Chosen(vm, call) == Some(0)
  {
    ChosenIsNearest(vm, call, 0);
  }
}
