/** Sorting from the largest weight down, keeping the order of equal ones, as JavaScript's `sort`
    does with a comparator that subtracts weights. */
module StableSort {
  import opened Sequences

  function Insert<T>(x: T, ys: seq<T>, weight: T -> int): seq<T> {
    if ys == [] || weight(ys[0]) < weight(x) then [x] + ys else [ys[0]] + Insert(x, ys[1..], weight)
  }

  function SortDown<T>(xs: seq<T>, weight: T -> int): seq<T> {
    if xs == [] then []
    else Insert(xs[|xs| - 1], SortDown(xs[..|xs| - 1], weight), weight)
  }

  function Filter<T>(xs: seq<T>, p: T -> bool): seq<T> {
    if xs == [] then []
    else Filter(xs[..|xs| - 1], p) + (if p(xs[|xs| - 1]) then [xs[|xs| - 1]] else [])
  }

  function Map<T, U>(xs: seq<T>, f: T -> U): (ys: seq<U>)
    ensures |ys| == |xs|
  {
    seq(|xs|, i requires 0 <= i < |xs| => f(xs[i]))
  }

  lemma MapMore<T, U>(xs: seq<T>, n: nat, f: T -> U)
    requires n < |xs|
    ensures Map(xs[..n + 1], f) == Map(xs[..n], f) + [f(xs[n])]
  {
  }

  ghost predicate Descending<T>(xs: seq<T>, weight: T -> int) {
    forall j, k :: 0 <= j < k < |xs| ==> weight(xs[j]) >= weight(xs[k])
  }

  lemma {:induction false} InsertPermutes<T>(x: T, ys: seq<T>, weight: T -> int)
    ensures multiset(Insert(x, ys, weight)) == multiset(ys) + multiset{x}
    ensures |Insert(x, ys, weight)| == |ys| + 1
  {
    if !(ys == [] || weight(ys[0]) < weight(x)) {
      InsertPermutes(x, ys[1..], weight);
      HeadTail(ys);
    }
  }

  lemma {:induction false} InsertDescends<T>(x: T, ys: seq<T>, weight: T -> int)
    requires Descending(ys, weight)
    ensures Descending(Insert(x, ys, weight), weight)
  {
    if !(ys == [] || weight(ys[0]) < weight(x)) {
      var rest := Insert(x, ys[1..], weight);
      InsertDescends(x, ys[1..], weight);
      InsertPermutes(x, ys[1..], weight);
      forall k | 0 <= k < |rest| ensures weight(ys[0]) >= weight(rest[k]) {
        assert rest[k] in multiset(rest);
        if rest[k] != x { assert rest[k] in ys[1..]; }
      }
    }
  }

  /** Sorting puts weights in descending order and permutes. */
  lemma {:induction false} SortSorts<T>(xs: seq<T>, weight: T -> int)
    ensures Descending(SortDown(xs, weight), weight)
    ensures multiset(SortDown(xs, weight)) == multiset(xs)
    ensures |SortDown(xs, weight)| == |xs|
  {
    if xs != [] {
      var n := |xs| - 1;
      SortSorts(xs[..n], weight);
      InsertDescends(xs[n], SortDown(xs[..n], weight), weight);
      InsertPermutes(xs[n], SortDown(xs[..n], weight), weight);
      assert xs == xs[..n] + [xs[n]];
    }
  }

  lemma {:induction false} FilterCons<T>(x: T, ys: seq<T>, p: T -> bool)
    ensures Filter([x] + ys, p) == (if p(x) then [x] else []) + Filter(ys, p)
    decreases |ys|
  {
    var s := [x] + ys;
    if ys == [] {
      assert s[..0] == [] && s[|s| - 1] == x;
      assert Filter([], p) == [];
      assert [] + (if p(x) then [x] else []) == (if p(x) then [x] else []) + [];
    } else {
      var n := |ys| - 1;
      assert s[..|s| - 1] == [x] + ys[..n] && s[|s| - 1] == ys[n];
      FilterCons(x, ys[..n], p);
      Assoc(if p(x) then [x] else [], Filter(ys[..n], p), if p(ys[n]) then [ys[n]] else []);
    }
  }

  lemma {:induction false} FilterConcat<T>(a: seq<T>, b: seq<T>, p: T -> bool)
    ensures Filter(a + b, p) == Filter(a, p) + Filter(b, p)
  {
    if b == [] {
      assert a + b == a && Filter(a, p) + [] == Filter(a, p);
    } else {
      var n := |b| - 1;
      FilterConcat(a, b[..n], p);
      assert (a + b)[..|a + b| - 1] == a + b[..n];
      Assoc(Filter(a, p), Filter(b[..n], p), if p(b[n]) then [b[n]] else []);
    }
  }

  lemma {:induction false} FilterNone<T>(xs: seq<T>, p: T -> bool)
    requires forall i :: 0 <= i < |xs| ==> !p(xs[i])
    ensures Filter(xs, p) == []
  {
    if xs != [] { FilterNone(xs[..|xs| - 1], p); }
  }

  /** Where everything weighs less than x, inserting puts x in front. */
  lemma InsertInFront<T>(x: T, ys: seq<T>, weight: T -> int)
    requires forall k :: 0 <= k < |ys| ==> weight(ys[k]) < weight(x)
    ensures Insert(x, ys, weight) == [x] + ys
  {
  }

  lemma {:induction false} FilterMembers<T>(ys: seq<T>, p: T -> bool)
    ensures forall k :: 0 <= k < |Filter(ys, p)| ==> p(Filter(ys, p)[k]) && Filter(ys, p)[k] in ys
    ensures forall y :: y in ys && p(y) ==> y in Filter(ys, p)
  {
    if ys != [] {
      FilterMembers(ys[..|ys| - 1], p);
      assert ys == ys[..|ys| - 1] + [ys[|ys| - 1]];
    }
  }

  /** Filtering before or after inserting is the same. */
  lemma {:induction false} FilterInsert<T>(x: T, ys: seq<T>, weight: T -> int, p: T -> bool)
    requires Descending(ys, weight)
    ensures Filter(Insert(x, ys, weight), p) ==
      if p(x) then Insert(x, Filter(ys, p), weight) else Filter(ys, p)
  {
    if ys == [] || weight(ys[0]) < weight(x) {
      FilterCons(x, ys, p);
      FilterMembers(ys, p);
      forall k | 0 <= k < |Filter(ys, p)| ensures weight(Filter(ys, p)[k]) < weight(x) {
        assert Filter(ys, p)[k] in ys;
      }
      InsertInFront(x, Filter(ys, p), weight);
      assert [] + Filter(ys, p) == Filter(ys, p);
    } else {
      var tail := ys[1..];
      FilterInsert(x, tail, weight, p);
      FilterCons(ys[0], Insert(x, tail, weight), p);
      FilterCons(ys[0], tail, p);
      HeadTail(ys);
      if p(ys[0]) {
        ConsTail(ys[0], Filter(tail, p));
      } else {
        assert [] + Filter(tail, p) == Filter(tail, p);
        var both := Filter(Insert(x, tail, weight), p);
        assert [] + both == both;
      }
    }
  }

  /** A stable sort commutes with filtering. */
  lemma {:induction false} FilterSort<T>(xs: seq<T>, weight: T -> int, p: T -> bool)
    ensures Filter(SortDown(xs, weight), p) == SortDown(Filter(xs, p), weight)
  {
    if xs != [] {
      var n := |xs| - 1;
      FilterSort(xs[..n], weight, p);
      SortSorts(xs[..n], weight);
      FilterInsert(xs[n], SortDown(xs[..n], weight), weight, p);
      var kept := Filter(xs[..n], p);
      assert kept + [] == kept;
      assert (kept + [xs[n]])[..|kept|] == kept;
    }
  }

  lemma {:induction false} MapInsert<T, U>(x: T, ys: seq<T>, weight: T -> int, f: T -> U, weight': U -> int)
    requires forall t :: weight'(f(t)) == weight(t)
    ensures Map(Insert(x, ys, weight), f) == Insert(f(x), Map(ys, f), weight')
  {
    if ys == [] || weight(ys[0]) < weight(x) {
      assert Map([x] + ys, f) == [f(x)] + Map(ys, f);
    } else {
      MapInsert(x, ys[1..], weight, f, weight');
      assert Map(ys, f)[1..] == Map(ys[1..], f);
      var rest := Insert(x, ys[1..], weight);
      assert Map([ys[0]] + rest, f) == [f(ys[0])] + Map(rest, f);
    }
  }

  /** A stable sort commutes with any renaming that keeps weights. */
  lemma {:induction false} MapSort<T, U>(xs: seq<T>, weight: T -> int, f: T -> U, weight': U -> int)
    requires forall t :: weight'(f(t)) == weight(t)
    ensures Map(SortDown(xs, weight), f) == SortDown(Map(xs, f), weight')
  {
    if xs != [] {
      var n := |xs| - 1;
      MapSort(xs[..n], weight, f, weight');
      MapInsert(xs[n], SortDown(xs[..n], weight), weight, f, weight');
      assert Map(xs, f)[..n] == Map(xs[..n], f);
    }
  }

  lemma {:induction false} EqualsStay<T>(xs: seq<T>, weight: T -> int)
    requires forall j, k :: 0 <= j < |xs| && 0 <= k < |xs| ==> weight(xs[j]) == weight(xs[k])
    ensures SortDown(xs, weight) == xs
  {
    if xs != [] {
      var n := |xs| - 1;
      EqualsStay(xs[..n], weight);
      InsertBehindEquals(xs[n], xs[..n], weight);
      assert xs[..n] + [xs[n]] == xs;
    }
  }

  lemma {:induction false} InsertBehindEquals<T>(x: T, ys: seq<T>, weight: T -> int)
    requires forall k :: 0 <= k < |ys| ==> weight(ys[k]) == weight(x)
    ensures Insert(x, ys, weight) == ys + [x]
  {
    if ys == [] {
      assert [] + [x] == [x] + [];
    } else {
      InsertBehindEquals(x, ys[1..], weight);
      Assoc([ys[0]], ys[1..], [x]);
      HeadTail(ys);
    }
  }

  function Weighs<T>(weight: T -> int, w: int): T -> bool {
    t => weight(t) == w
  }

  /** Those of equal weight stay in the order in which they came. */
  lemma TiesKeepOrder<T>(xs: seq<T>, weight: T -> int, w: int)
    ensures Filter(SortDown(xs, weight), Weighs(weight, w)) == Filter(xs, Weighs(weight, w))
  {
    FilterSort(xs, weight, Weighs(weight, w));
    FilterMembers(xs, Weighs(weight, w));
    EqualsStay(Filter(xs, Weighs(weight, w)), weight);
  }

  /** ys are the elements of xs at these ascending places. */
  ghost predicate TakenAt<T>(xs: seq<T>, ys: seq<T>, at: seq<nat>) {
    && |at| == |ys|
    && (forall k :: 0 <= k < |at| ==> at[k] < |xs| && ys[k] == xs[at[k]])
    && forall j, k :: 0 <= j < k < |at| ==> at[j] < at[k]
  }

  /** These places are exactly those of the elements that satisfy p. */
  ghost predicate PlacesOf<T>(xs: seq<T>, at: seq<nat>, p: T -> bool) {
    forall i :: 0 <= i < |xs| ==> (i in at <==> p(xs[i]))
  }

  lemma TakenMore<T>(xs: seq<T>, ys: seq<T>, at: seq<nat>, x: T)
    requires TakenAt(xs, ys, at)
    ensures TakenAt(xs + [x], ys + [x], at + [|xs|]) && TakenAt(xs + [x], ys, at)
  {
  }

  lemma PlacesMore<T>(xs: seq<T>, ys: seq<T>, at: seq<nat>, x: T, p: T -> bool)
    requires PlacesOf(xs, at, p) && TakenAt(xs, ys, at)
    ensures PlacesOf(xs + [x], if p(x) then at + [|xs|] else at, p)
  {
    assert |xs| !in at;
  }

  /** Filtering keeps exactly the elements that satisfy p, in order. */
  lemma {:induction false} FilterTakes<T>(xs: seq<T>, p: T -> bool) returns (at: seq<nat>)
    ensures TakenAt(xs, Filter(xs, p), at) && PlacesOf(xs, at, p)
  {
    at := [];
    if xs != [] {
      var init, x := xs[..|xs| - 1], xs[|xs| - 1];
      at := FilterTakes(init, p);
      assert xs == init + [x];
      TakenMore(init, Filter(init, p), at, x);
      PlacesMore(init, Filter(init, p), at, x, p);
      assert Filter(init, p) + [] == Filter(init, p);
      if p(x) { at := at + [|init|]; }
    }
  }

  /** And keeps them as often as they were there. */
  lemma {:induction false} FilterCounts<T>(xs: seq<T>, p: T -> bool, x: T)
    ensures multiset(Filter(xs, p))[x] == if p(x) then multiset(xs)[x] else 0
  {
    if xs != [] {
      var n := |xs| - 1;
      FilterCounts(xs[..n], p, x);
      assert xs == xs[..n] + [xs[n]];
    }
  }
}
