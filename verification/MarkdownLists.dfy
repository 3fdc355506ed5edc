/**
 Nested lists of the Markdown reader: items are appended to arrays that an indent stack keeps
 aliases of (src/lib/updateNotesMarkdown.ts). An array is named by its owner, the list itself or
 the item whose children it holds, and items by their order of appearance.

 The reference says nothing of stacks or arrays: an item belongs to the nearest earlier item that
 is indented less, where nothing counts as indented less than the list's first item.
 */
module MarkdownLists {
  import opened Wrappers
  import opened Sequences

  datatype ArrayRef = Root | ChildrenOf(item: nat)

  /** The list's own array and, for every item, the array of its children. */
  datatype Arena = Arena(root: seq<nat>, children: seq<seq<nat>>)

  datatype Level = Level(indent: nat, items: ArrayRef)

  datatype ListState = ListState(arena: Arena, stack: seq<Level>)

  predicate ValidRef(a: Arena, r: ArrayRef) {
    r.ChildrenOf? ==> r.item < |a.children|
  }

  function ArrayOf(a: Arena, r: ArrayRef): seq<nat>
    requires ValidRef(a, r)
  {
    if r.Root? then a.root else a.children[r.item]
  }

  /** A new item without children, at the end of an array. */
  function Append(a: Arena, r: ArrayRef): Arena
    requires ValidRef(a, r)
  {
    var id := |a.children|;
    if r.Root? then Arena(a.root + [id], a.children + [[]])
    else Arena(a.root, a.children[r.item := a.children[r.item] + [id]] + [[]])
  }

  function Opened(indent: nat): ListState {
    ListState(Arena([], []), [Level(indent, Root)])
  }

  /** Leave the levels that are indented more, but never the outermost. */
  function PopTo(stack: seq<Level>, indent: nat): (rest: seq<Level>)
    requires stack != []
    ensures rest != [] && |rest| <= |stack| && rest == stack[..|rest|]
  {
    if |stack| > 1 && indent < stack[|stack| - 1].indent then PopTo(stack[..|stack| - 1], indent) else stack
  }

  ghost predicate Usable(st: ListState) {
    st.stack != [] && forall k :: 0 <= k < |st.stack| ==> ValidRef(st.arena, st.stack[k].items)
  }

  ghost predicate ValidItems(a: Arena) {
    && (forall i :: 0 <= i < |a.root| ==> a.root[i] < |a.children|)
    && (forall p, i :: 0 <= p < |a.children| && 0 <= i < |a.children[p]| ==> a.children[p][i] < |a.children|)
  }

  function AddItem(st: ListState, indent: nat): ListState
    requires Usable(st) && ValidItems(st.arena)
  {
    var stack := PopTo(st.stack, indent);
    assert stack == st.stack[..|stack|];
    var top := stack[|stack| - 1];
    var items := ArrayOf(st.arena, top.items);
    if indent > top.indent && items != [] then
      var ref := ChildrenOf(items[|items| - 1]);
      ListState(Append(st.arena, ref), stack + [Level(indent, ref)])
    else ListState(Append(st.arena, top.items), stack)
  }

  // ----- The reference -----

  function Eff(inds: seq<nat>, i: nat): nat
    requires i < |inds|
  {
    if inds[i] < inds[0] then inds[0] else inds[i]
  }

  /** The nearest item before j that is indented less than i. */
  function NearestBelow(inds: seq<nat>, i: nat, j: nat): (r: Option<nat>)
    requires j <= i < |inds|
    ensures r.Some? ==> r.value < j
  {
    if j == 0 then None
    else if Eff(inds, j - 1) < Eff(inds, i) then Some(j - 1)
    else NearestBelow(inds, i, j - 1)
  }

  /** p is an earlier item indented less than i, and nothing between them is. */
  ghost predicate NearestIs(inds: seq<nat>, i: nat, p: Option<nat>)
    requires i < |inds|
  {
    && (p.Some? ==> p.value < i && Eff(inds, p.value) < Eff(inds, i))
    && forall x :: (if p.Some? then p.value + 1 else 0) <= x < i ==> Eff(inds, x) >= Eff(inds, i)
  }

  lemma {:induction false} NearestBelowSearches(inds: seq<nat>, i: nat, j: nat)
    requires j <= i < |inds|
    ensures var r := NearestBelow(inds, i, j);
      && (r.Some? ==> Eff(inds, r.value) < Eff(inds, i))
      && forall x :: (if r.Some? then r.value + 1 else 0) <= x < j ==> Eff(inds, x) >= Eff(inds, i)
  {
    if j > 0 { NearestBelowSearches(inds, i, j - 1); }
  }

  /** The parent is what the reference says, and nothing else is. */
  lemma ParentIffNearest(inds: seq<nat>, i: nat, p: Option<nat>)
    requires i < |inds|
    ensures Parent(inds, i) == p <==> NearestIs(inds, i, p)
  {
    NearestBelowSearches(inds, i, i);
  }

  function Parent(inds: seq<nat>, i: nat): Option<nat>
    requires i < |inds|
  {
    NearestBelow(inds, i, i)
  }

  /** The items among the first n with this parent, in order of appearance. */
  function Kids(inds: seq<nat>, n: nat, p: Option<nat>): seq<nat>
    requires n <= |inds|
  {
    if n == 0 then []
    else Kids(inds, n - 1, p) + (if Parent(inds, n - 1) == p then [n - 1] else [])
  }

  lemma {:induction false} KidsAreExactly(inds: seq<nat>, n: nat, p: Option<nat>)
    requires n <= |inds|
    ensures forall k :: 0 <= k < |Kids(inds, n, p)| ==>
      Kids(inds, n, p)[k] < n && (p.Some? ==> p.value < Kids(inds, n, p)[k])
    ensures forall j, k :: 0 <= j < k < |Kids(inds, n, p)| ==> Kids(inds, n, p)[j] < Kids(inds, n, p)[k]
    ensures forall i :: 0 <= i < n ==> (i in Kids(inds, n, p) <==> Parent(inds, i) == p)
  {
    if n > 0 { KidsAreExactly(inds, n - 1, p); }
  }

  function ForestOf(inds: seq<nat>): Arena {
    Arena(Kids(inds, |inds|, None), seq(|inds|, i requires 0 <= i < |inds| => Kids(inds, |inds|, Some(i))))
  }

  function RefOf(p: Option<nat>): ArrayRef {
    if p.None? then Root else ChildrenOf(p.value)
  }

  lemma {:induction false} NearestBelowStable(inds: seq<nat>, d: nat, i: nat, j: nat)
    requires j <= i < |inds|
    ensures NearestBelow(inds + [d], i, j) == NearestBelow(inds, i, j)
  {
    if j > 0 { NearestBelowStable(inds, d, i, j - 1); }
  }

  lemma {:induction false} KidsStable(inds: seq<nat>, d: nat, n: nat, p: Option<nat>)
    requires n <= |inds|
    ensures Kids(inds + [d], n, p) == Kids(inds, n, p)
  {
    if n > 0 {
      KidsStable(inds, d, n - 1, p);
      NearestBelowStable(inds, d, n - 1, n - 1);
    }
  }

  lemma {:induction false} NoKidsYet(inds: seq<nat>, n: nat, p: nat)
    requires n <= |inds| && n <= p + 1
    ensures Kids(inds, n, Some(p)) == []
  {
    if n > 0 { NoKidsYet(inds, n - 1, p); }
  }

  lemma KidsOfMore(inds: seq<nat>, d: nat, p: Option<nat>)
    ensures Kids(inds + [d], |inds| + 1, p) ==
      if Parent(inds + [d], |inds|) == p then Kids(inds, |inds|, p) + [|inds|] else Kids(inds, |inds|, p)
  {
    KidsStable(inds, d, |inds|, p);
    assert Kids(inds, |inds|, p) + [] == Kids(inds, |inds|, p);
  }

  /** One more item goes to the end of its parent's array and changes no other. */
  lemma ForestAppend(inds: seq<nat>, d: nat)
    ensures ValidRef(ForestOf(inds), RefOf(Parent(inds + [d], |inds|)))
    ensures ForestOf(inds + [d]) == Append(ForestOf(inds), RefOf(Parent(inds + [d], |inds|)))
  {
    var n := |inds|;
    var r := RefOf(Parent(inds + [d], n));
    var before, after := ForestOf(inds), ForestOf(inds + [d]);
    KidsOfMore(inds, d, None);
    forall i | 0 <= i < n
      ensures after.children[i] == if r == ChildrenOf(i) then before.children[i] + [n] else before.children[i]
    {
      KidsOfMore(inds, d, Some(i));
    }
    NoKidsYet(inds + [d], n + 1, n);
    ChildrenAfterAppend(before, r, after.children);
  }

  lemma ChildrenAfterAppend(a: Arena, r: ArrayRef, children: seq<seq<nat>>)
    requires ValidRef(a, r) && |children| == |a.children| + 1 && children[|a.children|] == []
    requires forall i :: 0 <= i < |a.children| ==>
      children[i] == if r == ChildrenOf(i) then a.children[i] + [|a.children|] else a.children[i]
    ensures Append(a, r).children == children
  {
  }

  // ----- The stack keeps the path to the last item -----

  /** The level's array ends with `last`, which is indented as the level says. */
  ghost predicate EndsWith(a: Arena, inds: seq<nat>, level: Level, last: nat) {
    && last < |inds| && Eff(inds, last) == level.indent
    && ValidRef(a, level.items)
    && var items := ArrayOf(a, level.items);
       items != [] && items[|items| - 1] == last
  }

  /** The inner level holds the children of `outerLast`, is indented more than the outer one, and
      nothing since `outerLast` is indented less than it. */
  ghost predicate Nested(inds: seq<nat>, outer: Level, outerLast: nat, inner: Level) {
    && inner.items == ChildrenOf(outerLast)
    && outer.indent < inner.indent
    && outerLast < |inds|
    && forall j :: outerLast < j < |inds| ==> Eff(inds, j) >= inner.indent
  }

  /** `chain[k]` is the last item of level k, up to the last item of all. */
  ghost predicate OnSpine(st: ListState, inds: seq<nat>, chain: seq<nat>) {
    && inds != [] && |chain| == |st.stack| && chain != []
    && st.arena == ForestOf(inds)
    && st.stack[0] == Level(inds[0], Root)
    && chain[|chain| - 1] == |inds| - 1
    && Chained(st.arena, st.stack, inds, chain)
  }

  ghost predicate Chained(a: Arena, stack: seq<Level>, inds: seq<nat>, chain: seq<nat>)
    requires |chain| == |stack|
  {
    && (forall k :: 0 <= k < |stack| ==> EndsWith(a, inds, stack[k], chain[k]))
    && (forall k :: 0 < k < |stack| ==> Nested(inds, stack[k - 1], chain[k - 1], stack[k]))
    && (forall j, k :: 0 <= j < k < |stack| ==> chain[j] < chain[k])
  }

  lemma OnSpineIsUsable(st: ListState, inds: seq<nat>, chain: seq<nat>)
    requires OnSpine(st, inds, chain)
    ensures Usable(st) && ValidItems(st.arena)
  {
    KidsAreExactly(inds, |inds|, None);
    forall p | 0 <= p < |inds|
      ensures forall i :: 0 <= i < |st.arena.children[p]| ==> st.arena.children[p][i] < |inds|
    {
      KidsAreExactly(inds, |inds|, Some(p));
    }
    forall k | 0 <= k < |st.stack| ensures ValidRef(st.arena, st.stack[k].items) {
      assert EndsWith(st.arena, inds, st.stack[k], chain[k]);
    }
  }

  lemma {:induction false} PopStops(stack: seq<Level>, indent: nat)
    requires stack != []
    ensures var rest := PopTo(stack, indent);
      && (|rest| > 1 ==> rest[|rest| - 1].indent <= indent)
      && (|rest| < |stack| ==> indent < stack[|rest|].indent)
  {
    if |stack| > 1 && indent < stack[|stack| - 1].indent {
      PopStops(stack[..|stack| - 1], indent);
    }
  }

  lemma EffOfMore(inds: seq<nat>, d: nat)
    requires inds != []
    ensures forall i :: 0 <= i < |inds| ==> Eff(inds + [d], i) == Eff(inds, i)
    ensures Eff(inds + [d], |inds|) == if d < inds[0] then inds[0] else d
  {
  }

  /** Where the new item goes when it is indented more than the level left after popping. */
  lemma ParentBelowLevel(st: ListState, inds: seq<nat>, chain: seq<nat>, d: nat, t: nat)
    requires OnSpine(st, inds, chain) && t == |PopTo(st.stack, d)| - 1 && d > st.stack[t].indent
    ensures chain[t] < |inds| && forall j :: chain[t] < j < |inds| ==> Eff(inds, j) >= d
    ensures d >= inds[0] && Parent(inds + [d], |inds|) == Some(chain[t])
  {
    var n, more := |inds|, inds + [d];
    PopStops(st.stack, d);
    EffOfMore(inds, d);
    assert EndsWith(st.arena, inds, st.stack[t], chain[t]);
    if t + 1 < |chain| { assert Nested(inds, st.stack[t], chain[t], st.stack[t + 1]); }
    ParentIffNearest(more, n, Some(chain[t]));
  }

  /** Where it goes otherwise: beside the last item of that level. */
  lemma ParentOfLevel(st: ListState, inds: seq<nat>, chain: seq<nat>, d: nat, t: nat)
    requires OnSpine(st, inds, chain) && t == |PopTo(st.stack, d)| - 1 && d <= st.stack[t].indent
    ensures Eff(inds + [d], |inds|) == st.stack[t].indent
    ensures RefOf(Parent(inds + [d], |inds|)) == st.stack[t].items
  {
    var n, more := |inds|, inds + [d];
    PopStops(st.stack, d);
    EffOfMore(inds, d);
    assert EndsWith(st.arena, inds, st.stack[t], chain[t]);
    if t == 0 {
      ParentIffNearest(more, n, None);
    } else {
      assert Nested(inds, st.stack[t - 1], chain[t - 1], st.stack[t]);
      assert EndsWith(st.arena, inds, st.stack[t - 1], chain[t - 1]);
      ParentIffNearest(more, n, Some(chain[t - 1]));
    }
  }

  lemma EndsWithAfterOther(a: Arena, r: ArrayRef, inds: seq<nat>, d: nat, level: Level, last: nat)
    requires EndsWith(a, inds, level, last) && ValidRef(a, r) && level.items != r
    ensures EndsWith(Append(a, r), inds + [d], level, last)
  {
  }

  lemma EndsWithNew(a: Arena, r: ArrayRef, inds: seq<nat>, d: nat, indent: nat)
    requires inds != [] && ValidRef(a, r) && |a.children| == |inds| && Eff(inds + [d], |inds|) == indent
    ensures EndsWith(Append(a, r), inds + [d], Level(indent, r), |inds|)
  {
  }

  lemma NestedAfter(inds: seq<nat>, d: nat, outer: Level, outerLast: nat, inner: Level)
    requires inds != [] && Nested(inds, outer, outerLast, inner) && Eff(inds + [d], |inds|) >= inner.indent
    ensures Nested(inds + [d], outer, outerLast, inner)
  {
    EffOfMore(inds, d);
  }

  /** Adding an item to level t of the remaining stack. */
  lemma ChainedAfterAppend(a: Arena, stack: seq<Level>, inds: seq<nat>, chain: seq<nat>, d: nat)
    requires stack != [] && |chain| == |stack| && Chained(a, stack, inds, chain) && |a.children| == |inds|
    requires stack[0].items == Root
    requires Eff(inds + [d], |inds|) == stack[|stack| - 1].indent
    ensures ValidRef(a, stack[|stack| - 1].items)
    ensures Chained(Append(a, stack[|stack| - 1].items), stack, inds + [d], chain[..|chain| - 1] + [|inds|])
  {
    var t := |stack| - 1;
    var r, next := stack[t].items, chain[..t] + [|inds|];
    assert EndsWith(a, inds, stack[t], chain[t]);
    forall k | 0 <= k <= t ensures EndsWith(Append(a, r), inds + [d], stack[k], next[k]) {
      assert EndsWith(a, inds, stack[k], chain[k]);
      if k < t {
        ArraysDiffer(a, stack, inds, chain, k, t);
        EndsWithAfterOther(a, r, inds, d, stack[k], chain[k]);
      } else {
        EndsWithNew(a, r, inds, d, stack[t].indent);
      }
    }
    forall k | 0 < k <= t ensures Nested(inds + [d], stack[k - 1], next[k - 1], stack[k]) {
      assert Nested(inds, stack[k - 1], chain[k - 1], stack[k]);
      IndentsAscend(a, stack, inds, chain, k, t);
      NestedAfter(inds, d, stack[k - 1], chain[k - 1], stack[k]);
    }
    forall j, k | 0 <= j < k <= t ensures next[j] < next[k] {
      assert EndsWith(a, inds, stack[j], chain[j]);
    }
  }

  lemma ArraysDiffer(a: Arena, stack: seq<Level>, inds: seq<nat>, chain: seq<nat>, k: nat, t: nat)
    requires |chain| == |stack| && Chained(a, stack, inds, chain) && k < t < |stack| && stack[0].items == Root
    ensures stack[k].items != stack[t].items
  {
  }

  lemma {:induction false} IndentsAscend(a: Arena, stack: seq<Level>, inds: seq<nat>, chain: seq<nat>, k: nat, t: nat)
    requires |chain| == |stack| && Chained(a, stack, inds, chain) && k <= t < |stack|
    ensures stack[k].indent <= stack[t].indent
    decreases t - k
  {
    if k < t {
      IndentsAscend(a, stack, inds, chain, k, t - 1);
      assert Nested(inds, stack[t - 1], chain[t - 1], stack[t]);
    }
  }

  /** The new level is one more array, not yet on the stack. */
  lemma PushedArrayIsNew(a: Arena, stack: seq<Level>, inds: seq<nat>, chain: seq<nat>, k: nat)
    requires |chain| == |stack| && Chained(a, stack, inds, chain) && k < |stack| && stack[0].items == Root
    ensures stack[k].items != ChildrenOf(chain[|chain| - 1])
  {
    if k > 0 {
      assert Nested(inds, stack[k - 1], chain[k - 1], stack[k]);
      assert chain[k - 1] < chain[|chain| - 1];
    }
  }

  lemma NestedAfterPush(a: Arena, stack: seq<Level>, inds: seq<nat>, chain: seq<nat>, d: nat, k: nat)
    requires |chain| == |stack| && Chained(a, stack, inds, chain) && 0 < k < |stack|
    requires inds != [] && d >= inds[0] && d > stack[|stack| - 1].indent
    ensures Nested(inds + [d], stack[k - 1], chain[k - 1], stack[k])
  {
    assert Nested(inds, stack[k - 1], chain[k - 1], stack[k]);
    IndentsAscend(a, stack, inds, chain, k, |stack| - 1);
    EffOfMore(inds, d);
    NestedAfter(inds, d, stack[k - 1], chain[k - 1], stack[k]);
  }

  /** Adding an item on a new level below the last item of the remaining stack. */
  lemma ChainedAfterPush(a: Arena, stack: seq<Level>, inds: seq<nat>, chain: seq<nat>, d: nat)
    requires stack != [] && |chain| == |stack| && Chained(a, stack, inds, chain) && |a.children| == |inds|
    requires stack[0].items == Root && inds != [] && d >= inds[0]
    requires d > stack[|stack| - 1].indent
    requires forall j :: chain[|chain| - 1] < j < |inds| ==> Eff(inds, j) >= d
    ensures chain[|chain| - 1] < |inds|
    ensures var r := ChildrenOf(chain[|chain| - 1]);
      Chained(Append(a, r), stack + [Level(d, r)], inds + [d], chain + [|inds|])
  {
    var t := |stack| - 1;
    assert EndsWith(a, inds, stack[t], chain[t]);
    var r := ChildrenOf(chain[t]);
    var more, next := stack + [Level(d, r)], chain + [|inds|];
    EffOfMore(inds, d);
    EndsWithNew(a, r, inds, d, d);
    forall k | 0 <= k <= t
      ensures EndsWith(Append(a, r), inds + [d], stack[k], chain[k]) && chain[k] < |inds|
    {
      assert EndsWith(a, inds, stack[k], chain[k]);
      PushedArrayIsNew(a, stack, inds, chain, k);
      EndsWithAfterOther(a, r, inds, d, stack[k], chain[k]);
    }
    forall k | 0 < k <= t + 1 ensures Nested(inds + [d], more[k - 1], next[k - 1], more[k]) {
      if k <= t { NestedAfterPush(a, stack, inds, chain, d, k); }
    }
  }

  lemma ChainedPrefix(a: Arena, stack: seq<Level>, inds: seq<nat>, chain: seq<nat>, m: nat)
    requires |chain| == |stack| && Chained(a, stack, inds, chain) && m <= |stack|
    ensures Chained(a, stack[..m], inds, chain[..m])
  {
  }

  /** With the path on the stack, the level's array is never empty and its last item is known. */
  lemma AddItemOnSpine(st: ListState, inds: seq<nat>, chain: seq<nat>, d: nat, t: nat)
    requires OnSpine(st, inds, chain) && Usable(st) && ValidItems(st.arena) && t == |PopTo(st.stack, d)| - 1
    ensures AddItem(st, d) ==
      if d > st.stack[t].indent then
        ListState(Append(st.arena, ChildrenOf(chain[t])), st.stack[..t + 1] + [Level(d, ChildrenOf(chain[t]))])
      else ListState(Append(st.arena, st.stack[t].items), st.stack[..t + 1])
  {
    assert EndsWith(st.arena, inds, st.stack[t], chain[t]);
  }

  lemma PushIsForest(st: ListState, inds: seq<nat>, chain: seq<nat>, d: nat, t: nat)
    requires OnSpine(st, inds, chain) && t == |PopTo(st.stack, d)| - 1 && d > st.stack[t].indent
    ensures ValidRef(st.arena, ChildrenOf(chain[t]))
    ensures Append(st.arena, ChildrenOf(chain[t])) == ForestOf(inds + [d])
  {
    ForestAppend(inds, d);
    ParentBelowLevel(st, inds, chain, d, t);
  }

  lemma PushKeepsSpine(st: ListState, inds: seq<nat>, chain: seq<nat>, d: nat, t: nat)
    requires OnSpine(st, inds, chain) && t == |PopTo(st.stack, d)| - 1 && d > st.stack[t].indent
    requires ValidRef(st.arena, ChildrenOf(chain[t]))
    ensures var r := ChildrenOf(chain[t]);
      OnSpine(ListState(Append(st.arena, r), st.stack[..t + 1] + [Level(d, r)]), inds + [d], chain[..t + 1] + [|inds|])
  {
    var r, stack, rest := ChildrenOf(chain[t]), st.stack[..t + 1], chain[..t + 1];
    PushIsForest(st, inds, chain, d, t);
    ChainedPrefix(st.arena, st.stack, inds, chain, t + 1);
    ParentBelowLevel(st, inds, chain, d, t);
    assert |st.arena.children| == |inds|;
    ChainedAfterPush(st.arena, stack, inds, rest, d);
    SpineFromParts(Append(st.arena, r), stack + [Level(d, r)], inds, d, rest + [|inds|]);
  }

  lemma SpineFromParts(a: Arena, stack: seq<Level>, inds: seq<nat>, d: nat, chain: seq<nat>)
    requires inds != [] && |chain| == |stack| && stack != []
    requires a == ForestOf(inds + [d]) && stack[0] == Level(inds[0], Root) && chain[|chain| - 1] == |inds|
    requires Chained(a, stack, inds + [d], chain)
    ensures OnSpine(ListState(a, stack), inds + [d], chain)
  {
  }

  lemma AppendIsForest(st: ListState, inds: seq<nat>, chain: seq<nat>, d: nat, t: nat)
    requires OnSpine(st, inds, chain) && t == |PopTo(st.stack, d)| - 1 && d <= st.stack[t].indent
    ensures ValidRef(st.arena, st.stack[t].items)
    ensures Append(st.arena, st.stack[t].items) == ForestOf(inds + [d])
  {
    assert EndsWith(st.arena, inds, st.stack[t], chain[t]);
    ForestAppend(inds, d);
    ParentOfLevel(st, inds, chain, d, t);
  }

  lemma AppendKeepsSpine(st: ListState, inds: seq<nat>, chain: seq<nat>, d: nat, t: nat)
    requires OnSpine(st, inds, chain) && t == |PopTo(st.stack, d)| - 1 && d <= st.stack[t].indent
    requires ValidRef(st.arena, st.stack[t].items)
    ensures OnSpine(ListState(Append(st.arena, st.stack[t].items), st.stack[..t + 1]), inds + [d], chain[..t] + [|inds|])
  {
    var stack, rest := st.stack[..t + 1], chain[..t + 1];
    AppendIsForest(st, inds, chain, d, t);
    ChainedPrefix(st.arena, st.stack, inds, chain, t + 1);
    ParentOfLevel(st, inds, chain, d, t);
    assert |st.arena.children| == |inds|;
    ChainedAfterAppend(st.arena, stack, inds, rest, d);
    assert rest[..t] == chain[..t];
    SpineFromParts(Append(st.arena, st.stack[t].items), stack, inds, d, chain[..t] + [|inds|]);
  }

  /** Adding an item follows the reference, and the stack again keeps the path to it. */
  lemma AddItemKeepsSpine(st: ListState, inds: seq<nat>, chain: seq<nat>, d: nat) returns (next: seq<nat>)
    requires OnSpine(st, inds, chain)
    ensures Usable(st) && ValidItems(st.arena)
    ensures OnSpine(AddItem(st, d), inds + [d], next)
  {
    OnSpineIsUsable(st, inds, chain);
    var t := |PopTo(st.stack, d)| - 1;
    AddItemOnSpine(st, inds, chain, d, t);
    assert EndsWith(st.arena, inds, st.stack[t], chain[t]);
    if d > st.stack[t].indent {
      PushKeepsSpine(st, inds, chain, d, t);
      next := chain[..t + 1] + [|inds|];
    } else {
      AppendKeepsSpine(st, inds, chain, d, t);
      next := chain[..t] + [|inds|];
    }
  }

  /** The first item of a list. */
  lemma FirstItemOnSpine(d: nat)
    ensures Usable(Opened(d)) && ValidItems(Opened(d).arena)
    ensures OnSpine(AddItem(Opened(d), d), [d], [0])
  {
    var st := AddItem(Opened(d), d);
    ForestAppend([], d);
    assert [] + [d] == [d];
    assert ForestOf([]) == Arena([], []);
    ParentIffNearest([d], 0, None);
    assert EndsWith(st.arena, [d], st.stack[0], 0);
  }

  // ----- Pre-order is source order -----

  /** Children come after their parents, and arrays are ascending. */
  ghost predicate Forward(a: Arena) {
    && (forall p, i :: 0 <= p < |a.children| && 0 <= i < |a.children[p]| ==> p < a.children[p][i] < |a.children|)
    && (forall p :: 0 <= p < |a.children| ==> Ascending(a.children[p]))
    && (forall i :: 0 <= i < |a.root| ==> a.root[i] < |a.children|)
    && Ascending(a.root)
  }

  ghost predicate Ascending(ids: seq<nat>) {
    forall j, k :: 0 <= j < k < |ids| ==> ids[j] < ids[k]
  }

  ghost predicate Inside(ids: seq<nat>, n: nat) {
    forall i :: 0 <= i < |ids| ==> ids[i] < n
  }

  lemma ForestIsForward(inds: seq<nat>)
    ensures Forward(ForestOf(inds))
  {
    KidsAreExactly(inds, |inds|, None);
    forall p | 0 <= p < |inds|
      ensures Ascending(ForestOf(inds).children[p])
      ensures forall i :: 0 <= i < |ForestOf(inds).children[p]| ==> p < ForestOf(inds).children[p][i] < |inds|
    {
      KidsAreExactly(inds, |inds|, Some(p));
    }
  }

  /** The items listed and all below them, each before its children. */
  function Preorder(a: Arena, ids: seq<nat>): seq<nat>
    requires Forward(a) && Ascending(ids) && Inside(ids, |a.children|)
    decreases if ids == [] then 0 else |a.children| - ids[0] + 1
  {
    if ids == [] then []
    else [ids[0]] + Preorder(a, a.children[ids[0]]) + Preorder(a, ids[1..])
  }

  /** Where the descendants of p end: the next item at or after j not indented more than p. */
  function EndOf(inds: seq<nat>, p: Option<nat>, j: nat): (e: nat)
    requires j <= |inds| && (p.Some? ==> p.value < j)
    ensures j <= e <= |inds|
    decreases |inds| - j
  {
    if p.None? then |inds|
    else if j == |inds| || Eff(inds, j) <= Eff(inds, p.value) then j
    else EndOf(inds, p, j + 1)
  }

  function After(p: Option<nat>): nat {
    if p.None? then 0 else p.value + 1
  }

  lemma {:induction false} EndOfSearches(inds: seq<nat>, i: nat, j: nat)
    requires i < j <= |inds|
    ensures var e := EndOf(inds, Some(i), j);
      && (forall x :: j <= x < e ==> Eff(inds, x) > Eff(inds, i))
      && (e < |inds| ==> Eff(inds, e) <= Eff(inds, i))
    decreases |inds| - j
  {
    if j < |inds| && Eff(inds, j) > Eff(inds, i) { EndOfSearches(inds, i, j + 1); }
  }

  /** The first child, if any, follows its parent directly. */
  lemma FirstChildFollows(inds: seq<nat>, p: Option<nat>)
    requires p.Some? ==> p.value < |inds|
    ensures After(p) < EndOf(inds, p, After(p)) ==> Parent(inds, After(p)) == p
  {
  }

  /** Children lie before the end of their parent's descendants. */
  lemma ChildrenBeforeEnd(inds: seq<nat>, p: Option<nat>, x: nat)
    requires x < |inds| && Parent(inds, x) == p
    ensures After(p) <= x < EndOf(inds, p, After(p))
  {
    ParentIffNearest(inds, x, p);
    if p.Some? { EndOfSearches(inds, p.value, After(p)); }
  }

  /** The next sibling, if any, stands where the descendants of a child end. */
  lemma NextSiblingFollows(inds: seq<nat>, p: Option<nat>, k: nat)
    requires k < |inds| && Parent(inds, k) == p
    ensures After(p) <= k
    ensures var e := EndOf(inds, Some(k), k + 1);
      && e <= EndOf(inds, p, After(p))
      && (e < EndOf(inds, p, After(p)) ==> Parent(inds, e) == p)
      && forall x :: k < x < e ==> Parent(inds, x) != p
  {
    ChildrenBeforeEnd(inds, p, k);
    ParentIffNearest(inds, k, p);
    EndOfSearches(inds, k, k + 1);
    var e, last := EndOf(inds, Some(k), k + 1), EndOf(inds, p, After(p));
    if p.Some? { EndOfSearches(inds, p.value, After(p)); }
    forall x | k < x < e ensures Parent(inds, x) != p {
      ParentIffNearest(inds, x, p);
    }
    if e < last { ParentIffNearest(inds, e, p); }
  }

  function Range(lo: nat, hi: nat): seq<nat> {
    seq(if lo <= hi then hi - lo else 0, i => lo + i)
  }

  lemma RangeSplit(lo: nat, mid: nat, hi: nat)
    requires lo < mid <= hi
    ensures [lo] + Range(lo + 1, mid) + Range(mid, hi) == Range(lo, hi)
  {
  }

  /** The children of p from some child on. */
  ghost predicate SiblingsFrom(inds: seq<nat>, p: Option<nat>, ids: seq<nat>) {
    && (p.Some? ==> p.value < |inds|)
    && ids != [] && Ascending(ids) && Inside(ids, |inds|)
    && forall x :: ids[0] <= x < |inds| ==> (x in ids <==> Parent(inds, x) == p)
  }

  lemma SiblingsAfterFirst(inds: seq<nat>, p: Option<nat>, ids: seq<nat>)
    requires SiblingsFrom(inds, p, ids)
    ensures var e := EndOf(inds, Some(ids[0]), ids[0] + 1);
      if |ids| == 1 then e == EndOf(inds, p, After(p))
      else ids[1] == e && SiblingsFrom(inds, p, ids[1..])
  {
    var k := ids[0];
    assert k in ids;
    NextSiblingFollows(inds, p, k);
    var e := EndOf(inds, Some(k), k + 1);
    if e < EndOf(inds, p, After(p)) { assert e in ids; }
    if |ids| > 1 {
      assert ids[1] in ids && ids[1] >= e;
      ChildrenBeforeEnd(inds, p, ids[1]);
      assert e in ids;
      var i :| 0 <= i < |ids| && ids[i] == e;
      assert i == 1;
      forall x | ids[1] <= x < |inds| ensures x in ids[1..] <==> Parent(inds, x) == p {
        assert x in ids <==> x == ids[0] || x in ids[1..];
      }
    }
  }

  lemma FirstIs(ids: seq<nat>, x: nat)
    requires Ascending(ids) && x in ids && forall i :: 0 <= i < |ids| ==> x <= ids[i]
    ensures ids[0] == x
  {
  }

  /** All the children of k, in order. */
  lemma AllChildren(inds: seq<nat>, k: nat, ids: seq<nat>)
    requires k < |inds| && Ascending(ids) && Inside(ids, |inds|)
    requires forall i :: 0 <= i < |inds| ==> (i in ids <==> Parent(inds, i) == Some(k))
    ensures var e := EndOf(inds, Some(k), k + 1);
      if ids == [] then e == k + 1 else ids[0] == k + 1 && SiblingsFrom(inds, Some(k), ids)
  {
    FirstChildFollows(inds, Some(k));
    forall i | 0 <= i < |ids| ensures k + 1 <= ids[i] < EndOf(inds, Some(k), k + 1) {
      assert ids[i] in ids;
      ChildrenBeforeEnd(inds, Some(k), ids[i]);
    }
    if ids != [] {
      assert k + 1 < ids[0] + 1 <= EndOf(inds, Some(k), k + 1);
      assert k + 1 in ids;
      FirstIs(ids, k + 1);
    }
  }

  lemma {:induction false} ChildrenOfFirst(inds: seq<nat>, k: nat)
    requires k < |inds|
    ensures var kids, e := Kids(inds, |inds|, Some(k)), EndOf(inds, Some(k), k + 1);
      && Ascending(kids) && Inside(kids, |inds|)
      && if kids == [] then e == k + 1 else kids[0] == k + 1 && SiblingsFrom(inds, Some(k), kids)
  {
    KidsAreExactly(inds, |inds|, Some(k));
    AllChildren(inds, k, Kids(inds, |inds|, Some(k)));
  }

  lemma JoinStretches(a: Arena, ids: seq<nat>, e: nat, last: nat)
    requires Forward(a) && Ascending(ids) && ids != [] && Inside(ids, |a.children|) && ids[0] < e <= last
    requires Preorder(a, a.children[ids[0]]) == Range(ids[0] + 1, e)
    requires Preorder(a, ids[1..]) == Range(e, last)
    ensures Preorder(a, ids) == Range(ids[0], last)
  {
    RangeSplit(ids[0], e, last);
  }

  lemma EmptyStretch(a: Arena, lo: nat)
    requires Forward(a)
    ensures Preorder(a, []) == Range(lo, lo)
  {
  }

  /** What lies below an item is the stretch that follows it. */
  lemma {:induction false} ChildrenCoverStretch(inds: seq<nat>, k: nat)
    requires k < |inds|
    ensures Forward(ForestOf(inds))
    ensures Preorder(ForestOf(inds), ForestOf(inds).children[k]) == Range(k + 1, EndOf(inds, Some(k), k + 1))
    decreases |inds| - k, 0
  {
    ForestIsForward(inds);
    ChildrenOfFirst(inds, k);
    var a := ForestOf(inds);
    var kids := a.children[k];
    assert kids == Kids(inds, |inds|, Some(k));
    if kids != [] { SiblingsCoverStretch(inds, Some(k), kids); } else { EmptyStretch(a, k + 1); }
  }

  /** Walking siblings and all below them visits a stretch of the source without gaps. */
  lemma {:induction false} SiblingsCoverStretch(inds: seq<nat>, p: Option<nat>, ids: seq<nat>)
    requires SiblingsFrom(inds, p, ids)
    ensures Forward(ForestOf(inds))
    ensures ids[0] < EndOf(inds, p, After(p))
    ensures Preorder(ForestOf(inds), ids) == Range(ids[0], EndOf(inds, p, After(p)))
    decreases |inds| - ids[0], 1
  {
    var a := ForestOf(inds);
    var k, last := ids[0], EndOf(inds, p, After(p));
    var e := EndOf(inds, Some(k), k + 1);
    assert k in ids;
    ChildrenBeforeEnd(inds, p, k);
    NextSiblingFollows(inds, p, k);
    SiblingsAfterFirst(inds, p, ids);
    ChildrenCoverStretch(inds, k);
    if |ids| > 1 { SiblingsCoverStretch(inds, p, ids[1..]); } else { EmptyStretch(a, last); }
    JoinStretches(a, ids, e, last);
  }

  /** Reading the nested list from top to bottom visits the items in the order of their lines,
      each exactly once. */
  lemma PreorderIsSourceOrder(inds: seq<nat>)
    ensures Forward(ForestOf(inds))
    ensures Preorder(ForestOf(inds), ForestOf(inds).root) == Range(0, |inds|)
  {
    ForestIsForward(inds);
    if inds != [] {
      KidsAreExactly(inds, |inds|, None);
      FirstChildFollows(inds, None);
      var roots := ForestOf(inds).root;
      assert 0 in roots;
      var i :| 0 <= i < |roots| && roots[i] == 0;
      assert roots[0] == 0;
      SiblingsCoverStretch(inds, None, roots);
    }
  }
}
