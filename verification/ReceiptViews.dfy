/**
 What the receipt views show, in plain terms: which sub-items every line counts, field by field, whose
 names a row carries, and the order of groups, lines and rows (src/lib/receipt-aggregations.ts).
 */
module ReceiptViews {
  import opened Wrappers
  import opened Sequences
  import opened StableSort
  import opened Receipts

  // ----- Sums field by field -----

  function SumOf(xs: seq<Sub>, field: Totals -> int): int {
    if xs == [] then 0 else SumOf(xs[..|xs| - 1], field) + field(xs[|xs| - 1].totals)
  }

  /** A sum of totals is the sum of each of its five fields. */
  lemma {:induction false} SumIsFieldwise(xs: seq<Sub>)
    ensures Sum(xs).requests == SumOf(xs, (t: Totals) => t.requests)
    ensures Sum(xs).input == SumOf(xs, (t: Totals) => t.input)
    ensures Sum(xs).output == SumOf(xs, (t: Totals) => t.output)
    ensures Sum(xs).cacheCreation == SumOf(xs, (t: Totals) => t.cacheCreation)
    ensures Sum(xs).cacheRead == SumOf(xs, (t: Totals) => t.cacheRead)
  {
    if xs != [] { SumIsFieldwise(xs[..|xs| - 1]); }
  }

  /** The sub-items of a receipt are those of its virtual models, one after the other. */
  lemma {:induction false} FlattenIs(items: seq<Item>, i: nat, j: nat)
    requires i < |items| && j < |items[i].subItems|
    ensures |Flatten(items[..i])| + j < |Flatten(items)|
    ensures Flatten(items)[|Flatten(items[..i])| + j] == items[i].subItems[j]
    decreases |items|
  {
    var n := |items| - 1;
    if i < n {
      FlattenIs(items[..n], i, j);
      assert items[..n][..i] == items[..i];
    }
  }

  lemma {:induction false} FlattenHasNothingElse(items: seq<Item>)
    ensures |Flatten(items)| == Length(items)
  {
    if items != [] { FlattenHasNothingElse(items[..|items| - 1]); }
  }

  function Length(items: seq<Item>): nat {
    if items == [] then 0 else Length(items[..|items| - 1]) + |items[|items| - 1].subItems|
  }

  // ----- Keys and their sub-items -----

  /** Place p has the first sub-item with this key. */
  ghost predicate FirstAt(xs: seq<Sub>, key: Sub -> string, k: string, p: nat) {
    p < |xs| && key(xs[p]) == k && forall q :: 0 <= q < p ==> key(xs[q]) != k
  }

  /** Keys come in the order of their first appearance. */
  lemma {:induction false} KeysInOrder(xs: seq<Sub>, key: Sub -> string, i: nat, j: nat, p: nat, q: nat)
    requires i < j < |Keys(xs, key)| && FirstAt(xs, key, Keys(xs, key)[i], p) && FirstAt(xs, key, Keys(xs, key)[j], q)
    ensures p < q
  {
    var n := |xs| - 1;
    var before := Keys(xs[..n], key);
    KeysAreExactly(xs[..n], key);
    if i < |before| {
      assert before[i] in before;
      var r :| 0 <= r < n && key(xs[..n][r]) == before[i];
      assert key(xs[r]) == before[i] && p <= r;
    }
    if j < |before| {
      assert before[j] in before;
      var r :| 0 <= r < n && key(xs[..n][r]) == before[j];
      assert key(xs[r]) == before[j] && q <= r;
      assert FirstAt(xs[..n], key, before[i], p) && FirstAt(xs[..n], key, before[j], q);
      KeysInOrder(xs[..n], key, i, j, p, q);
    }
  }

  lemma {:induction false} FilterAgrees<T>(xs: seq<T>, p: T -> bool, q: T -> bool)
    requires forall i :: 0 <= i < |xs| ==> p(xs[i]) == q(xs[i])
    ensures Filter(xs, p) == Filter(xs, q)
  {
    if xs != [] { FilterAgrees(xs[..|xs| - 1], p, q); }
  }

  function Both<T>(p: T -> bool, q: T -> bool): T -> bool {
    t => p(t) && q(t)
  }

  lemma {:induction false} FilterTwice<T>(xs: seq<T>, p: T -> bool, q: T -> bool)
    ensures Filter(Filter(xs, p), q) == Filter(xs, Both(p, q))
  {
    if xs != [] {
      var n := |xs| - 1;
      var kept := Filter(xs[..n], p);
      FilterTwice(xs[..n], p, q);
      assert (kept + [xs[n]])[..|kept|] == kept;
      assert kept + [] == kept && Filter(kept, q) + [] == Filter(kept, q);
    }
  }

  lemma {:induction false} FirstIsKept(xs: seq<Sub>, key: Sub -> string, k: string, p: nat)
    requires FirstAt(xs, key, k, p)
    ensures With(xs, key, k) != [] && With(xs, key, k)[0] == xs[p]
  {
    var n := |xs| - 1;
    WithMore(xs[..n], xs[n], key, k);
    assert xs == xs[..n] + [xs[n]];
    if p < n {
      assert FirstAt(xs[..n], key, k, p);
      FirstIsKept(xs[..n], key, k, p);
    } else {
      NoneKept(xs[..n], key, k);
    }
  }

  lemma {:induction false} NoneKept(xs: seq<Sub>, key: Sub -> string, k: string)
    requires forall i :: 0 <= i < |xs| ==> key(xs[i]) != k
    ensures With(xs, key, k) == []
  {
    if xs != [] { NoneKept(xs[..|xs| - 1], key, k); }
  }

  lemma KeyHasFirst(xs: seq<Sub>, key: Sub -> string, k: string) returns (p: nat)
    requires k in Keys(xs, key)
    ensures FirstAt(xs, key, k, p)
  {
    KeysAreExactly(xs, key);
    var i :| 0 <= i < |xs| && key(xs[i]) == k;
    p := FirstUpTo(xs, key, k, i);
  }

  lemma {:induction false} FirstUpTo(xs: seq<Sub>, key: Sub -> string, k: string, i: nat) returns (p: nat)
    requires i < |xs| && key(xs[i]) == k
    ensures FirstAt(xs, key, k, p)
    decreases i
  {
    if j: int :| 0 <= j < i && key(xs[j]) == k {
      p := FirstUpTo(xs, key, k, j);
    } else {
      p := i;
    }
  }

  // ----- What the views say -----

  function Tokens(t: Totals): int { t.input + t.output + t.cacheCreation + t.cacheRead }

  function OfSubscription(k: string): Sub -> bool {
    (s: Sub) => s.subscription == k
  }

  function OfModel(m: string): Sub -> bool {
    (s: Sub) => s.model == m
  }

  function OfBoth(k: string, m: string): Sub -> bool {
    (s: Sub) => s.subscription == k && s.model == m
  }

  lemma WithSubscription(xs: seq<Sub>, k: string)
    ensures With(xs, SubscriptionOf, k) == Filter(xs, OfSubscription(k))
  {
    FilterAgrees(xs, HasKey(SubscriptionOf, k), OfSubscription(k));
  }

  lemma WithModel(xs: seq<Sub>, m: string)
    ensures With(xs, ModelOf, m) == Filter(xs, OfModel(m))
  {
    FilterAgrees(xs, HasKey(ModelOf, m), OfModel(m));
  }

  lemma WithBoth(xs: seq<Sub>, k: string, m: string)
    ensures With(With(xs, SubscriptionOf, k), ModelOf, m) == Filter(xs, OfBoth(k, m))
  {
    var (p, q) := (HasKey(SubscriptionOf, k), HasKey(ModelOf, m));
    FilterTwice(xs, p, q);
    FilterAgrees(xs, Both(p, q), OfBoth(k, m));
  }

  /** Place p has the first sub-item of the subscription. */
  ghost predicate FirstOf(xs: seq<Sub>, k: string, p: nat) {
    p < |xs| && xs[p].subscription == k && forall q :: 0 <= q < p ==> xs[q].subscription != k
  }

  lemma FirstOfIs(xs: seq<Sub>, k: string) returns (p: nat)
    requires k in Keys(xs, SubscriptionOf)
    ensures FirstOf(xs, k, p)
    ensures With(xs, SubscriptionOf, k) != [] && With(xs, SubscriptionOf, k)[0] == xs[p]
  {
    p := KeyHasFirst(xs, SubscriptionOf, k);
    FirstIsKept(xs, SubscriptionOf, k, p);
    forall q | 0 <= q < p ensures xs[q].subscription != k {
      assert SubscriptionOf(xs[q]) != k;
    }
  }

  lemma {:induction false} SortedAreThere<T>(xs: seq<T>, weight: T -> int, i: nat)
    requires i < |SortDown(xs, weight)|
    ensures SortDown(xs, weight)[i] in xs
  {
    SortSorts(xs, weight);
    assert SortDown(xs, weight)[i] in multiset(SortDown(xs, weight));
    assert SortDown(xs, weight)[i] in multiset(xs);
  }

  lemma MappedFrom<T>(ks: seq<string>, f: string -> T, y: T) returns (j: nat)
    requires y in Map(ks, f)
    ensures j < |ks| && y == f(ks[j]) && ks[j] in ks
  {
    j :| 0 <= j < |ks| && Map(ks, f)[j] == y;
  }

  /** A line counts exactly the sub-items of its subscription and model. */
  ghost predicate LineIsExact(xs: seq<Sub>, k: string, l: Line) {
    l.totals == Sum(Filter(xs, OfBoth(k, l.model)))
  }

  lemma LinesAreExact(xs: seq<Sub>, k: string, i: nat)
    requires i < |Lines(With(xs, SubscriptionOf, k))|
    ensures LineIsExact(xs, k, Lines(With(xs, SubscriptionOf, k))[i])
  {
    var mine := With(xs, SubscriptionOf, k);
    var ms := Keys(mine, ModelOf);
    SortedAreThere(Map(ms, LineOf(mine)), LineTokens, i);
    var m := MappedFrom(ms, LineOf(mine), Lines(mine)[i]);
    WithBoth(xs, k, ms[m]);
  }

  /** A group counts exactly the sub-items of its subscription, by model, and carries the names of
      the first. */
  ghost predicate GroupIsExact(xs: seq<Sub>, g: Group) {
    && g.subtotal == Sum(Filter(xs, OfSubscription(g.subscription)))
    && (forall i :: 0 <= i < |g.models| ==> LineIsExact(xs, g.subscription, g.models[i]))
    && exists p: nat ::
         FirstOf(xs, g.subscription, p)
         && g.name == xs[p].name && g.provider == xs[p].provider && g.providerName == xs[p].providerName
  }

  lemma GroupOfIsExact(xs: seq<Sub>, k: string)
    requires k in Keys(xs, SubscriptionOf)
    ensures GroupIsExact(xs, GroupOf(xs)(k))
  {
    var p := FirstOfIs(xs, k);
    var mine := With(xs, SubscriptionOf, k);
    WithSubscription(xs, k);
    forall m | 0 <= m < |Lines(mine)| ensures LineIsExact(xs, k, Lines(mine)[m]) {
      LinesAreExact(xs, k, m);
    }
    assert GroupOf(xs)(k) == Group(k, xs[p].name, xs[p].provider, xs[p].providerName, Lines(mine), Sum(mine));
  }

  /** Every group of the grouped view is exact. */
  lemma EveryGroupIsExact(xs: seq<Sub>, i: nat)
    requires i < |Groups(xs)|
    ensures GroupIsExact(xs, Groups(xs)[i])
  {
    var ks := Keys(xs, SubscriptionOf);
    SortedAreThere(Map(ks, GroupOf(xs)), GroupTokens, i);
    var j := MappedFrom(ks, GroupOf(xs), Groups(xs)[i]);
    GroupOfIsExact(xs, ks[j]);
  }

  /** A row of the subscription table counts the subscription's sub-items and names the first. */
  ghost predicate RowIsExact(xs: seq<Sub>, r: Row) {
    && r.totals == Sum(Filter(xs, OfSubscription(r.key)))
    && exists p: nat ::
         FirstOf(xs, r.key, p)
         && r.display == xs[p].name && r.provider == Some(xs[p].provider) && r.providerName == Some(xs[p].providerName)
  }

  lemma SubscriptionRowIsExact(xs: seq<Sub>, k: string)
    requires k in Keys(xs, SubscriptionOf)
    ensures RowIsExact(xs, SubscriptionRow(xs)(k))
  {
    var p := FirstOfIs(xs, k);
    WithSubscription(xs, k);
    assert SubscriptionRow(xs)(k) == Row(k, xs[p].name, Some(xs[p].provider), Some(xs[p].providerName),
                                         Sum(With(xs, SubscriptionOf, k)));
  }

  /** Every row of the subscription table is exact. */
  lemma EverySubscriptionRowIsExact(xs: seq<Sub>, i: nat)
    requires i < |SubscriptionRows(xs)|
    ensures RowIsExact(xs, SubscriptionRows(xs)[i])
  {
    var ks := Keys(xs, SubscriptionOf);
    SortedAreThere(Map(ks, SubscriptionRow(xs)), RowTokens, i);
    var j := MappedFrom(ks, SubscriptionRow(xs), SubscriptionRows(xs)[i]);
    SubscriptionRowIsExact(xs, ks[j]);
  }

  /** Every row of the model table counts the model's sub-items, and shows the model's name only. */
  lemma EveryModelRowIsExact(xs: seq<Sub>, i: nat)
    requires i < |ModelRows(xs)|
    ensures var r := ModelRows(xs)[i];
      r == Row(r.key, Some(r.key), None, None, Sum(Filter(xs, OfModel(r.key))))
  {
    var ks := Keys(xs, ModelOf);
    SortedAreThere(Map(ks, ModelRow(xs)), RowTokens, i);
    var j := MappedFrom(ks, ModelRow(xs), ModelRows(xs)[i]);
    WithModel(xs, ks[j]);
  }

  function NameOfRow(r: Row): string { r.key }

  /** The model table lists each model once. */
  lemma EveryModelOnce(xs: seq<Sub>, m: string)
    ensures Distinct(Map(ModelRows(xs), NameOfRow))
    ensures m in Map(ModelRows(xs), NameOfRow) <==> exists i :: 0 <= i < |xs| && xs[i].model == m
  {
    var ks := Keys(xs, ModelOf);
    KeysAreExactly(xs, ModelOf);
    MapKeepsMultiset(Map(ks, ModelRow(xs)), RowTokens, NameOfRow);
    assert Map(Map(ks, ModelRow(xs)), NameOfRow) == ks;
    DistinctBySet(ks, Map(ModelRows(xs), NameOfRow));
    assert (exists i :: 0 <= i < |xs| && ModelOf(xs[i]) == m) <==> exists i :: 0 <= i < |xs| && xs[i].model == m;
  }

  // ----- Order -----

  /** Larger counts of input, output and both kinds of cache tokens come first in the grouped view. */
  lemma GroupsAreInOrder(xs: seq<Sub>, i: nat, j: nat)
    requires i < j < |Groups(xs)|
    ensures Tokens(Groups(xs)[i].subtotal) >= Tokens(Groups(xs)[j].subtotal)
  {
    SortSorts(Map(Keys(xs, SubscriptionOf), GroupOf(xs)), GroupTokens);
    assert GroupTokens(Groups(xs)[i]) >= GroupTokens(Groups(xs)[j]);
  }

  /** And in the model table. */
  lemma ModelRowsAreInOrder(xs: seq<Sub>, i: nat, j: nat)
    requires i < j < |ModelRows(xs)|
    ensures Tokens(ModelRows(xs)[i].totals) >= Tokens(ModelRows(xs)[j].totals)
  {
    SortSorts(Map(Keys(xs, ModelOf), ModelRow(xs)), RowTokens);
    assert RowTokens(ModelRows(xs)[i]) >= RowTokens(ModelRows(xs)[j]);
  }

  /** And among the lines of a group. */
  lemma LinesAreInOrder(xs: seq<Sub>, i: nat, j: nat)
    requires i < j < |Lines(xs)|
    ensures Tokens(Lines(xs)[i].totals) >= Tokens(Lines(xs)[j].totals)
  {
    SortSorts(Map(Keys(xs, ModelOf), LineOf(xs)), LineTokens);
    assert LineTokens(Lines(xs)[i]) >= LineTokens(Lines(xs)[j]);
  }

  lemma WeighedMapOf<T>(ks: seq<string>, f: string -> T, weight: T -> int, i: nat, j: nat)
    requires i < j < |SortDown(Map(ks, f), weight)|
    requires weight(SortDown(Map(ks, f), weight)[i]) == weight(SortDown(Map(ks, f), weight)[j])
    ensures exists a, b :: 0 <= a < b < |ks| && f(ks[a]) == SortDown(Map(ks, f), weight)[i]
                           && f(ks[b]) == SortDown(Map(ks, f), weight)[j]
  {
    var ys, w := SortDown(Map(ks, f), weight), weight(SortDown(Map(ks, f), weight)[i]);
    TiesKeepOrder(Map(ks, f), weight, w);
    var at := FilterTakes(ys, Weighs(weight, w));
    var from := FilterTakes(Map(ks, f), Weighs(weight, w));
    assert i in at && j in at;
    var x :| 0 <= x < |at| && at[x] == i;
    var y :| 0 <= y < |at| && at[y] == j;
    assert x < y;
    assert f(ks[from[x]]) == ys[i] && f(ks[from[y]]) == ys[j];
  }

  lemma KeysFirstOf(xs: seq<Sub>, a: nat, b: nat, p: nat, q: nat)
    requires a < b < |Keys(xs, SubscriptionOf)|
    requires FirstOf(xs, Keys(xs, SubscriptionOf)[a], p) && FirstOf(xs, Keys(xs, SubscriptionOf)[b], q)
    ensures p < q
  {
    KeysInOrder(xs, SubscriptionOf, a, b, p, q);
  }

  lemma GroupOfName(xs: seq<Sub>, k: string)
    ensures GroupOf(xs)(k).subscription == k
  {
  }

  lemma TiedGroupsComeFrom(xs: seq<Sub>, i: nat, j: nat) returns (a: nat, b: nat)
    requires i < j < |Groups(xs)| && GroupTokens(Groups(xs)[i]) == GroupTokens(Groups(xs)[j])
    ensures a < b < |Keys(xs, SubscriptionOf)|
    ensures Groups(xs)[i].subscription == Keys(xs, SubscriptionOf)[a]
    ensures Groups(xs)[j].subscription == Keys(xs, SubscriptionOf)[b]
  {
    var ks := Keys(xs, SubscriptionOf);
    WeighedMapOf(ks, GroupOf(xs), GroupTokens, i, j);
    a, b :| 0 <= a < b < |ks| && GroupOf(xs)(ks[a]) == Groups(xs)[i] && GroupOf(xs)(ks[b]) == Groups(xs)[j];
    GroupOfName(xs, ks[a]);
    GroupOfName(xs, ks[b]);
  }

  /** Of groups with equally many tokens, the one that appeared first comes first. */
  lemma TiedGroupsKeepOrder(xs: seq<Sub>, i: nat, j: nat, p: nat, q: nat)
    requires i < j < |Groups(xs)| && Tokens(Groups(xs)[i].subtotal) == Tokens(Groups(xs)[j].subtotal)
    requires FirstOf(xs, Groups(xs)[i].subscription, p) && FirstOf(xs, Groups(xs)[j].subscription, q)
    ensures p < q
  {
    var a, b := TiedGroupsComeFrom(xs, i, j);
    KeysFirstOf(xs, a, b, p, q);
  }
}
