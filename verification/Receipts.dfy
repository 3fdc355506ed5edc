/**
 Usage receipts: grouping by subscription and by model, totals, and filtering
 (src/lib/receipt-aggregations.ts, src/routes/Receipts.tsx). Counts are integers of any size.
 */
module Receipts {
  import opened Wrappers
  import opened Sequences
  import opened StableSort

  datatype Totals = Totals(requests: int, input: int, output: int, cacheCreation: int, cacheRead: int)

  const ZERO_TOTALS: Totals := Totals(0, 0, 0, 0, 0)

  function AddTotals(a: Totals, b: Totals): Totals {
    Totals(a.requests + b.requests, a.input + b.input, a.output + b.output,
           a.cacheCreation + b.cacheCreation, a.cacheRead + b.cacheRead)
  }

  function TotalTokens(t: Totals): int {
    t.input + t.output + t.cacheCreation + t.cacheRead
  }

  /** One subscription's use of one real model under one virtual model. */
  datatype Sub = Sub(
    subscription: string, name: Option<string>, provider: string, providerName: string,
    model: string, totals: Totals)

  datatype Item = Item(virtualModel: string, subtotal: Totals, subItems: seq<Sub>)

  /** `slip` stands for the fields that are only passed on. */
  datatype Receipt = Receipt(slip: string, items: seq<Item>, grandTotal: Totals)

  function Flatten(items: seq<Item>): seq<Sub> {
    if items == [] then [] else Flatten(items[..|items| - 1]) + items[|items| - 1].subItems
  }

  function Sum(xs: seq<Sub>): Totals {
    if xs == [] then ZERO_TOTALS else AddTotals(Sum(xs[..|xs| - 1]), xs[|xs| - 1].totals)
  }

  lemma {:induction false} SumConcat(a: seq<Sub>, b: seq<Sub>)
    ensures Sum(a + b) == AddTotals(Sum(a), Sum(b))
  {
    if b == [] {
      assert a + b == a;
    } else {
      SumConcat(a, b[..|b| - 1]);
      assert (a + b)[..|a + b| - 1] == a + b[..|b| - 1];
    }
  }

  // ----- Keys in order of first appearance -----

  function SubscriptionOf(s: Sub): string { s.subscription }

  function ModelOf(s: Sub): string { s.model }

  function HasKey(key: Sub -> string, k: string): Sub -> bool {
    s => key(s) == k
  }

  /** The sub-items with this key. */
  function With(xs: seq<Sub>, key: Sub -> string, k: string): seq<Sub> {
    Filter(xs, HasKey(key, k))
  }

  function Keys(xs: seq<Sub>, key: Sub -> string): seq<string> {
    if xs == [] then []
    else
      var before := Keys(xs[..|xs| - 1], key);
      var k := key(xs[|xs| - 1]);
      if k in before then before else before + [k]
  }

  ghost predicate Distinct(ks: seq<string>) {
    forall i, j :: 0 <= i < j < |ks| ==> ks[i] != ks[j]
  }

  lemma {:induction false} KeysAreExactly(xs: seq<Sub>, key: Sub -> string)
    ensures Distinct(Keys(xs, key))
    ensures forall k :: k in Keys(xs, key) <==> exists i :: 0 <= i < |xs| && key(xs[i]) == k
  {
    if xs != [] {
      var n := |xs| - 1;
      KeysAreExactly(xs[..n], key);
      forall k ensures k in Keys(xs, key) <==> exists i :: 0 <= i < |xs| && key(xs[i]) == k {
        if k in Keys(xs[..n], key) {
          var i :| 0 <= i < n && key(xs[..n][i]) == k;
          assert key(xs[i]) == k;
        }
        if exists i :: 0 <= i < |xs| && key(xs[i]) == k {
          var i :| 0 <= i < |xs| && key(xs[i]) == k;
          if i < n { assert key(xs[..n][i]) == k; }
        }
      }
    }
  }

  lemma WithMore(xs: seq<Sub>, s: Sub, key: Sub -> string, k: string)
    ensures With(xs + [s], key, k) == if key(s) == k then With(xs, key, k) + [s] else With(xs, key, k)
  {
  }

  lemma KeysMore(xs: seq<Sub>, s: Sub, key: Sub -> string)
    ensures Keys(xs + [s], key) == if key(s) in Keys(xs, key) then Keys(xs, key) else Keys(xs, key) + [key(s)]
  {
  }

  lemma {:induction false} KeyHasItems(xs: seq<Sub>, key: Sub -> string, k: string)
    ensures k in Keys(xs, key) <==> With(xs, key, k) != []
  {
    if xs != [] {
      var n := |xs| - 1;
      KeyHasItems(xs[..n], key, k);
      assert xs == xs[..n] + [xs[n]];
      WithMore(xs[..n], xs[n], key, k);
      KeysMore(xs[..n], xs[n], key);
    }
  }

  // ----- The three views, as they are meant -----

  datatype Line = Line(model: string, totals: Totals)

  datatype Group = Group(
    subscription: string, name: Option<string>, provider: string, providerName: string,
    models: seq<Line>, subtotal: Totals)

  /** A row of a totals table; provider fields only for subscriptions. */
  datatype Row = Row(
    key: string, display: Option<string>, provider: Option<string>, providerName: Option<string>, totals: Totals)

  function LineTokens(l: Line): int { TotalTokens(l.totals) }

  function GroupTokens(g: Group): int { TotalTokens(g.subtotal) }

  function RowTokens(r: Row): int { TotalTokens(r.totals) }

  function LineOf(xs: seq<Sub>): string -> Line {
    m => Line(m, Sum(With(xs, ModelOf, m)))
  }

  /** The models of these sub-items, merged across virtual models, most tokens first. */
  function Lines(xs: seq<Sub>): seq<Line> {
    SortDown(Map(Keys(xs, ModelOf), LineOf(xs)), LineTokens)
  }

  /** Names and provider come from the first sub-item of the subscription. */
  function GroupOf(xs: seq<Sub>): string -> Group {
    k => var mine := With(xs, SubscriptionOf, k);
         if mine == [] then Group(k, None, "", "", [], ZERO_TOTALS)
         else Group(k, mine[0].name, mine[0].provider, mine[0].providerName, Lines(mine), Sum(mine))
  }

  function Groups(xs: seq<Sub>): seq<Group> {
    SortDown(Map(Keys(xs, SubscriptionOf), GroupOf(xs)), GroupTokens)
  }

  function SubscriptionRow(xs: seq<Sub>): string -> Row {
    k => var mine := With(xs, SubscriptionOf, k);
         if mine == [] then Row(k, None, None, None, ZERO_TOTALS)
         else Row(k, mine[0].name, Some(mine[0].provider), Some(mine[0].providerName), Sum(mine))
  }

  function SubscriptionRows(xs: seq<Sub>): seq<Row> {
    SortDown(Map(Keys(xs, SubscriptionOf), SubscriptionRow(xs)), RowTokens)
  }

  function ModelRow(xs: seq<Sub>): string -> Row {
    m => Row(m, Some(m), None, None, Sum(With(xs, ModelOf, m)))
  }

  function ModelRows(xs: seq<Sub>): seq<Row> {
    SortDown(Map(Keys(xs, ModelOf), ModelRow(xs)), RowTokens)
  }

  // ----- The grouping loops -----

  /** A subscription's bucket: its models in order of insertion, with their totals. */
  datatype Bucket = Bucket(
    name: Option<string>, provider: string, providerName: string,
    modelOrder: seq<string>, modelMap: map<string, Totals>, subtotal: Totals)

  ghost predicate BucketHolds(b: Bucket, mine: seq<Sub>) {
    && mine != []
    && b.name == mine[0].name && b.provider == mine[0].provider && b.providerName == mine[0].providerName
    && b.modelOrder == Keys(mine, ModelOf)
    && (forall m :: m in b.modelMap <==> m in b.modelOrder)
    && (forall m :: m in b.modelMap ==> b.modelMap[m] == Sum(With(mine, ModelOf, m)))
    && b.subtotal == Sum(mine)
  }

  function NewBucket(s: Sub): Bucket {
    Bucket(s.name, s.provider, s.providerName, [], map[], ZERO_TOTALS)
  }

  /** One more sub-item into a bucket. */
  function Fill(b: Bucket, s: Sub): Bucket {
    var prev := if s.model in b.modelMap then b.modelMap[s.model] else ZERO_TOTALS;
    b.(modelOrder := if s.model in b.modelMap then b.modelOrder else b.modelOrder + [s.model],
       modelMap := b.modelMap[s.model := AddTotals(prev, s.totals)],
       subtotal := AddTotals(b.subtotal, s.totals))
  }

  lemma SumMore(xs: seq<Sub>, s: Sub)
    ensures Sum(xs + [s]) == AddTotals(Sum(xs), s.totals)
  {
  }

  lemma NewBucketHolds(s: Sub)
    ensures BucketHolds(Fill(NewBucket(s), s), [s])
  {
    assert [] + [s] == [s];
    KeysMore([], s, ModelOf);
    SumMore([], s);
    WithMore([], s, ModelOf, s.model);
    assert With([], ModelOf, s.model) == [];
  }

  lemma FillHolds(b: Bucket, mine: seq<Sub>, s: Sub)
    requires BucketHolds(b, mine)
    ensures BucketHolds(Fill(b, s), mine + [s])
  {
    KeysMore(mine, s, ModelOf);
    SumMore(mine, s);
    var next := Fill(b, s);
    forall m | m in next.modelMap ensures next.modelMap[m] == Sum(With(mine + [s], ModelOf, m)) {
      WithMore(mine, s, ModelOf, m);
      if m == s.model {
        SumMore(With(mine, ModelOf, m), s);
        KeyHasItems(mine, ModelOf, m);
      }
    }
  }

  ghost predicate BucketsHold(buckets: map<string, Bucket>, order: seq<string>, xs: seq<Sub>) {
    && order == Keys(xs, SubscriptionOf)
    && (forall k :: k in buckets <==> k in order)
    && AllHold(buckets, xs)
  }

  ghost predicate AllHold(buckets: map<string, Bucket>, xs: seq<Sub>) {
    forall k :: k in buckets ==> BucketHolds(buckets[k], With(xs, SubscriptionOf, k))
  }

  lemma BucketsStep(buckets: map<string, Bucket>, order: seq<string>, xs: seq<Sub>, i: nat)
    requires i < |xs| && BucketsHold(buckets, order, xs[..i])
    ensures var s := xs[i];
      var k := s.subscription;
      var b := if k in buckets then buckets[k] else NewBucket(s);
      BucketsHold(buckets[k := Fill(b, s)], if k in buckets then order else order + [k], xs[..i + 1])
  {
    var s := xs[i];
    var before, k := xs[..i], s.subscription;
    assert xs[..i + 1] == before + [s];
    KeysMore(before, s, SubscriptionOf);
    var next := buckets[k := Fill(if k in buckets then buckets[k] else NewBucket(s), s)];
    AllHoldStep(buckets, order, before, s, next);
    SameMembers(buckets, order, k, next, if k in buckets then order else order + [k]);
  }

  lemma AllHoldStep(
      buckets: map<string, Bucket>, order: seq<string>, xs: seq<Sub>, s: Sub, next: map<string, Bucket>)
    requires BucketsHold(buckets, order, xs)
    requires next == buckets[s.subscription :=
      Fill(if s.subscription in buckets then buckets[s.subscription] else NewBucket(s), s)]
    ensures AllHold(next, xs + [s])
  {
    forall j | j in next ensures BucketHolds(next[j], With(xs + [s], SubscriptionOf, j)) {
      OneBucketStep(buckets, order, xs, s, j);
    }
  }

  lemma SameMembers(
      buckets: map<string, Bucket>, order: seq<string>, k: string, next: map<string, Bucket>, nextOrder: seq<string>)
    requires forall j :: j in buckets <==> j in order
    requires forall j :: j in next <==> j == k || j in buckets
    requires nextOrder == if k in buckets then order else order + [k]
    ensures forall j :: j in next <==> j in nextOrder
  {
  }

  /** A bucket after one more sub-item: its own is filled or begun, others stay as they are. */
  lemma OneBucketStep(buckets: map<string, Bucket>, order: seq<string>, xs: seq<Sub>, s: Sub, j: string)
    requires BucketsHold(buckets, order, xs) && (j in buckets || j == s.subscription)
    ensures BucketHolds(
      if j != s.subscription then buckets[j] else Fill(if j in buckets then buckets[j] else NewBucket(s), s),
      With(xs + [s], SubscriptionOf, j))
  {
    WithMore(xs, s, SubscriptionOf, j);
    if j == s.subscription {
      KeyHasItems(xs, SubscriptionOf, j);
      if j in buckets {
        FillHolds(buckets[j], With(xs, SubscriptionOf, j), s);
      } else {
        assert With(xs, SubscriptionOf, j) + [s] == [s];
        NewBucketHolds(s);
      }
    }
  }

  method FillBuckets(xs: seq<Sub>) returns (order: seq<string>, buckets: map<string, Bucket>)
    ensures BucketsHold(buckets, order, xs)
  {
    order, buckets := [], map[];
    for i := 0 to |xs|
      invariant BucketsHold(buckets, order, xs[..i])
    {
      BucketsStep(buckets, order, xs, i);
      var s := xs[i];
      var k := s.subscription;
      var b := if k in buckets then buckets[k] else NewBucket(s);
      if k !in buckets { order := order + [k]; }
      buckets := buckets[k := Fill(b, s)];
    }
    assert xs[..|xs|] == xs;
  }

  /** The group made of a bucket. */
  function GroupFrom(buckets: map<string, Bucket>): string -> Group {
    k => if k !in buckets then Group(k, None, "", "", [], ZERO_TOTALS)
         else
           var b := buckets[k];
           Group(k, b.name, b.provider, b.providerName,
                 SortDown(Map(b.modelOrder, LineIn(b.modelMap)), LineTokens), b.subtotal)
  }

  lemma GroupsFromBuckets(buckets: map<string, Bucket>, order: seq<string>, xs: seq<Sub>)
    requires BucketsHold(buckets, order, xs)
    ensures Map(order, GroupFrom(buckets)) == Map(Keys(xs, SubscriptionOf), GroupOf(xs))
  {
    forall i | 0 <= i < |order| ensures GroupFrom(buckets)(order[i]) == GroupOf(xs)(order[i]) {
      assert order[i] in order;
      BucketGives(buckets[order[i]], With(xs, SubscriptionOf, order[i]));
    }
  }

  method GroupBySubscription(dto: Receipt) returns (out: seq<Group>)
    ensures out == Groups(Flatten(dto.items))
  {
    var xs := Flatten(dto.items);
    var order, buckets := FillBuckets(xs);
    GroupsFromBuckets(buckets, order, xs);
    out := SortDown(Map(order, GroupFrom(buckets)), GroupTokens);
  }

  function LineIn(totals: map<string, Totals>): string -> Line {
    m => Line(m, if m in totals then totals[m] else ZERO_TOTALS)
  }

  lemma BucketGives(b: Bucket, mine: seq<Sub>)
    requires BucketHolds(b, mine)
    ensures Map(b.modelOrder, LineIn(b.modelMap)) == Map(Keys(mine, ModelOf), LineOf(mine))
  {
  }

  /** Rows under way: for every key seen, its row so far. */
  ghost predicate RowsHold(rows: map<string, Row>, order: seq<string>, xs: seq<Sub>, key: Sub -> string, row: string -> Row) {
    && order == Keys(xs, key)
    && (forall k :: k in rows <==> k in order)
    && (forall k :: k in rows ==> rows[k] == row(k))
  }

  method TotalsBySubscription(dto: Receipt) returns (out: seq<Row>)
    ensures out == SubscriptionRows(Flatten(dto.items))
  {
    var xs := Flatten(dto.items);
    var order: seq<string> := [];
    var rows: map<string, Row> := map[];
    for i := 0 to |xs|
      invariant RowsHold(rows, order, xs[..i], SubscriptionOf, SubscriptionRow(xs[..i]))
    {
      var s := xs[i];
      var k := s.subscription;
      SubscriptionRowsStep(rows, order, xs, i);
      var b := RowFor(rows, s);
      if k !in rows { order := order + [k]; }
      rows := rows[k := WithTotals(b, s)];
    }
    assert xs[..|xs|] == xs;
    RowsInOrder(rows, order, xs, SubscriptionOf, SubscriptionRow(xs));
    out := SortDown(Map(order, RowIn(rows)), RowTokens);
  }

  method TotalsByRealModel(dto: Receipt) returns (out: seq<Row>)
    ensures out == ModelRows(Flatten(dto.items))
  {
    var xs := Flatten(dto.items);
    var order: seq<string> := [];
    var rows: map<string, Row> := map[];
    for i := 0 to |xs|
      invariant RowsHold(rows, order, xs[..i], ModelOf, ModelRow(xs[..i]))
    {
      var s := xs[i];
      var m := s.model;
      ModelRowsStep(rows, order, xs, i);
      var b := if m in rows then rows[m] else Row(m, Some(m), None, None, ZERO_TOTALS);
      if m !in rows { order := order + [m]; }
      rows := rows[m := b.(totals := AddTotals(b.totals, s.totals))];
    }
    assert xs[..|xs|] == xs;
    RowsInOrder(rows, order, xs, ModelOf, ModelRow(xs));
    out := SortDown(Map(order, RowIn(rows)), RowTokens);
  }

  function RowIn(rows: map<string, Row>): string -> Row {
    k => if k in rows then rows[k] else Row(k, None, None, None, ZERO_TOTALS)
  }

  lemma RowsInOrder(rows: map<string, Row>, order: seq<string>, xs: seq<Sub>, key: Sub -> string, row: string -> Row)
    requires RowsHold(rows, order, xs, key, row)
    ensures Map(order, RowIn(rows)) == Map(Keys(xs, key), row)
  {
  }

  lemma RowsStep(
      rows: map<string, Row>, order: seq<string>, xs: seq<Sub>, s: Sub, key: Sub -> string,
      row: string -> Row, next: string -> Row, b: Row)
    requires RowsHold(rows, order, xs, key, row)
    requires next(key(s)) == b && forall j :: j in rows && j != key(s) ==> next(j) == row(j)
    ensures RowsHold(rows[key(s) := b], if key(s) in rows then order else order + [key(s)], xs + [s], key, next)
  {
  }

  lemma SubscriptionRowMore(xs: seq<Sub>, s: Sub, k: string)
    ensures var before := SubscriptionRow(xs)(k);
      SubscriptionRow(xs + [s])(k) ==
        if s.subscription != k then before
        else if k in Keys(xs, SubscriptionOf) then before.(totals := AddTotals(before.totals, s.totals))
        else Row(k, s.name, Some(s.provider), Some(s.providerName), AddTotals(ZERO_TOTALS, s.totals))
  {
    WithMore(xs, s, SubscriptionOf, k);
    KeyHasItems(xs, SubscriptionOf, k);
    SumMore(With(xs, SubscriptionOf, k), s);
  }

  /** The row that a sub-item is added to. */
  function RowFor(rows: map<string, Row>, s: Sub): Row {
    if s.subscription in rows then rows[s.subscription]
    else Row(s.subscription, s.name, Some(s.provider), Some(s.providerName), ZERO_TOTALS)
  }

  function WithTotals(b: Row, s: Sub): Row {
    b.(totals := AddTotals(b.totals, s.totals))
  }

  lemma OwnSubscriptionRow(rows: map<string, Row>, order: seq<string>, xs: seq<Sub>, s: Sub)
    requires RowsHold(rows, order, xs, SubscriptionOf, SubscriptionRow(xs))
    ensures SubscriptionRow(xs + [s])(s.subscription) == WithTotals(RowFor(rows, s), s)
  {
    SubscriptionRowMore(xs, s, s.subscription);
  }

  lemma SubscriptionRowsStep(rows: map<string, Row>, order: seq<string>, xs: seq<Sub>, i: nat)
    requires i < |xs| && RowsHold(rows, order, xs[..i], SubscriptionOf, SubscriptionRow(xs[..i]))
    ensures var k := xs[i].subscription;
      RowsHold(rows[k := WithTotals(RowFor(rows, xs[i]), xs[i])], if k in rows then order else order + [k],
               xs[..i + 1], SubscriptionOf, SubscriptionRow(xs[..i + 1]))
  {
    var s, before := xs[i], xs[..i];
    assert xs[..i + 1] == before + [s];
    OwnSubscriptionRow(rows, order, before, s);
    OtherSubscriptionRows(before, s);
    RowsStep(rows, order, before, s, SubscriptionOf, SubscriptionRow(before), SubscriptionRow(before + [s]),
             WithTotals(RowFor(rows, s), s));
  }

  lemma OtherSubscriptionRows(xs: seq<Sub>, s: Sub)
    ensures forall j :: j != s.subscription ==> SubscriptionRow(xs + [s])(j) == SubscriptionRow(xs)(j)
  {
    forall j | j != s.subscription ensures SubscriptionRow(xs + [s])(j) == SubscriptionRow(xs)(j) {
      SubscriptionRowMore(xs, s, j);
    }
  }

  lemma ModelRowMore(xs: seq<Sub>, s: Sub, m: string)
    ensures var before := ModelRow(xs)(m);
      ModelRow(xs + [s])(m) ==
        if s.model != m then before else before.(totals := AddTotals(before.totals, s.totals))
    ensures m !in Keys(xs, ModelOf) ==> ModelRow(xs)(m).totals == ZERO_TOTALS
  {
    WithMore(xs, s, ModelOf, m);
    KeyHasItems(xs, ModelOf, m);
    SumMore(With(xs, ModelOf, m), s);
  }

  lemma ModelRowsStep(rows: map<string, Row>, order: seq<string>, xs: seq<Sub>, i: nat)
    requires i < |xs| && RowsHold(rows, order, xs[..i], ModelOf, ModelRow(xs[..i]))
    ensures var s := xs[i];
      var m := s.model;
      var b := if m in rows then rows[m] else Row(m, Some(m), None, None, ZERO_TOTALS);
      RowsHold(rows[m := b.(totals := AddTotals(b.totals, s.totals))], if m in rows then order else order + [m],
               xs[..i + 1], ModelOf, ModelRow(xs[..i + 1]))
  {
    var s, before := xs[i], xs[..i];
    var m, row, next := s.model, ModelRow(before), ModelRow(before + [s]);
    assert xs[..i + 1] == before + [s];
    ModelRowMore(before, s, m);
    forall j | j in rows && j != m ensures next(j) == row(j) {
      ModelRowMore(before, s, j);
    }
    var b := if m in rows then rows[m] else Row(m, Some(m), None, None, ZERO_TOTALS);
    RowsStep(rows, order, before, s, ModelOf, row, next, b.(totals := AddTotals(b.totals, s.totals)));
  }

  // ----- Filtering -----

  /** What the three filters keep; an empty set filters nothing. */
  predicate Passes(s: Sub, subFilter: set<string>, providerFilter: set<string>, excludeDeleted: bool) {
    && (subFilter == {} || s.subscription in subFilter)
    && (providerFilter == {} || s.provider in providerFilter)
    && (!excludeDeleted || s.name.Some?)
  }

  function Passing(subFilter: set<string>, providerFilter: set<string>, excludeDeleted: bool): Sub -> bool {
    s => Passes(s, subFilter, providerFilter, excludeDeleted)
  }

  predicate FiltersNothing(subFilter: set<string>, providerFilter: set<string>, excludeDeleted: bool) {
    subFilter == {} && providerFilter == {} && !excludeDeleted
  }

  /** Each virtual model keeps its passing sub-items and gets their sum. */
  function FilterItem(p: Sub -> bool): Item -> Item {
    (item: Item) => Item(item.virtualModel, Sum(Filter(item.subItems, p)), Filter(item.subItems, p))
  }

  lemma {:induction false} FlattenFiltered(items: seq<Item>, p: Sub -> bool)
    ensures Flatten(Map(items, FilterItem(p))) == Filter(Flatten(items), p)
  {
    if items != [] {
      var n := |items| - 1;
      FlattenFiltered(items[..n], p);
      assert Map(items, FilterItem(p))[..n] == Map(items[..n], FilterItem(p));
      FilterConcat(Flatten(items[..n]), items[n].subItems, p);
    }
  }

  lemma GrandTotalMore(items: seq<Item>, item: Item)
    ensures Sum(Flatten(items + [item])) == AddTotals(Sum(Flatten(items)), Sum(item.subItems))
  {
    assert (items + [item])[..|items|] == items;
    SumConcat(Flatten(items), item.subItems);
  }

  lemma NoFilterPassesAll(xs: seq<Sub>, subFilter: set<string>, providerFilter: set<string>, excludeDeleted: bool)
    requires FiltersNothing(subFilter, providerFilter, excludeDeleted)
    ensures Filter(xs, Passing(subFilter, providerFilter, excludeDeleted)) == xs
  {
    FilterAll(xs, Passing(subFilter, providerFilter, excludeDeleted));
  }

  /** The loop over virtual models, which adds up the grand total on the way. */
  method FilterItems(all: seq<Item>, p: Sub -> bool) returns (items: seq<Item>, grandTotal: Totals)
    ensures items == Map(all, FilterItem(p)) && grandTotal == Sum(Flatten(items))
  {
    grandTotal, items := ZERO_TOTALS, [];
    for i := 0 to |all|
      invariant items == Map(all[..i], FilterItem(p))
      invariant grandTotal == Sum(Flatten(items))
    {
      var kept := Filter(all[i].subItems, p);
      var item := Item(all[i].virtualModel, Sum(kept), kept);
      MapMore(all, i, FilterItem(p));
      GrandTotalMore(items, item);
      grandTotal := AddTotals(grandTotal, item.subtotal);
      items := items + [item];
    }
    assert all[..|all|] == all;
  }

  /** What the active filters ask of a sub-item. */
  ghost predicate Wanted(s: Sub, subFilter: set<string>, providerFilter: set<string>, excludeDeleted: bool) {
    && (|subFilter| > 0 ==> s.subscription in subFilter)
    && (|providerFilter| > 0 ==> s.provider in providerFilter)
    && (excludeDeleted ==> s.name.Some?)
  }

  /** The wanted sub-items are there as often as before, the others are gone. */
  ghost predicate KeepsTheWanted(
      before: seq<Sub>, after: seq<Sub>, subFilter: set<string>, providerFilter: set<string>, excludeDeleted: bool)
  {
    forall s :: multiset(after)[s] == (if Wanted(s, subFilter, providerFilter, excludeDeleted) then multiset(before)[s] else 0)
  }

  lemma FilteredCounts(xs: seq<Sub>, subFilter: set<string>, providerFilter: set<string>, excludeDeleted: bool)
    ensures KeepsTheWanted(xs, Filter(xs, Passing(subFilter, providerFilter, excludeDeleted)),
                           subFilter, providerFilter, excludeDeleted)
  {
    var p := Passing(subFilter, providerFilter, excludeDeleted);
    forall s
      ensures multiset(Filter(xs, p))[s] == (if Wanted(s, subFilter, providerFilter, excludeDeleted) then multiset(xs)[s] else 0)
    {
      FilterCounts(xs, p, s);
    }
  }

  /** The filtered receipt holds exactly the wanted sub-items, as often as they were there and in
      their order, each virtual model's subtotal and the grand total are the sums of what is kept,
      and everything else is passed on. Without a filter the receipt is returned as it is. */
  method ApplyFilters(dto: Receipt, subFilter: set<string>, providerFilter: set<string>, excludeDeleted: bool)
    returns (out: Receipt)
    ensures |subFilter| == 0 && |providerFilter| == 0 && !excludeDeleted ==> out == dto
    ensures |subFilter| > 0 || |providerFilter| > 0 || excludeDeleted ==>
      && out.slip == dto.slip
      && out.items == Map(dto.items, FilterItem(Passing(subFilter, providerFilter, excludeDeleted)))
      && out.grandTotal == Sum(Flatten(out.items))
      && forall i :: 0 <= i < |out.items| ==> out.items[i].subtotal == Sum(out.items[i].subItems)
    ensures Flatten(out.items) == Filter(Flatten(dto.items), Passing(subFilter, providerFilter, excludeDeleted))
    ensures KeepsTheWanted(Flatten(dto.items), Flatten(out.items), subFilter, providerFilter, excludeDeleted)
    ensures |out.items| == |dto.items| && forall i :: 0 <= i < |out.items| ==>
      && out.items[i].virtualModel == dto.items[i].virtualModel
      && KeepsTheWanted(dto.items[i].subItems, out.items[i].subItems, subFilter, providerFilter, excludeDeleted)
  {
    FilteredCounts(Flatten(dto.items), subFilter, providerFilter, excludeDeleted);
    forall i | 0 <= i < |dto.items|
      ensures KeepsTheWanted(dto.items[i].subItems,
                             Filter(dto.items[i].subItems, Passing(subFilter, providerFilter, excludeDeleted)),
                             subFilter, providerFilter, excludeDeleted)
    {
      FilteredCounts(dto.items[i].subItems, subFilter, providerFilter, excludeDeleted);
    }
    if FiltersNothing(subFilter, providerFilter, excludeDeleted) {
      NoFilterPassesAll(Flatten(dto.items), subFilter, providerFilter, excludeDeleted);
      forall i | 0 <= i < |dto.items|
        ensures Filter(dto.items[i].subItems, Passing(subFilter, providerFilter, excludeDeleted)) == dto.items[i].subItems
      {
        NoFilterPassesAll(dto.items[i].subItems, subFilter, providerFilter, excludeDeleted);
      }
      return dto;
    }
    var p := Passing(subFilter, providerFilter, excludeDeleted);
    var items, grandTotal := FilterItems(dto.items, p);
    FlattenFiltered(dto.items, p);
    out := Receipt(dto.slip, items, grandTotal);
  }

  lemma {:induction false} FilterAll<T>(xs: seq<T>, p: T -> bool)
    requires forall i :: 0 <= i < |xs| ==> p(xs[i])
    ensures Filter(xs, p) == xs
  {
    if xs != [] {
      FilterAll(xs[..|xs| - 1], p);
      assert xs == xs[..|xs| - 1] + [xs[|xs| - 1]];
    }
  }

  // ----- Filtering commutes with grouping -----

  function In(keep: set<string>): string -> bool {
    k => k in keep
  }

  function GroupIn(keep: set<string>): Group -> bool {
    (g: Group) => g.subscription in keep
  }

  /** The filter keeps or drops whole subscriptions. */
  ghost predicate BySubscription(xs: seq<Sub>, p: Sub -> bool, keep: set<string>) {
    forall i :: 0 <= i < |xs| ==> (p(xs[i]) <==> xs[i].subscription in keep)
  }

  lemma {:induction false} KeysOfFiltered(xs: seq<Sub>, p: Sub -> bool, keep: set<string>)
    requires BySubscription(xs, p, keep)
    ensures Keys(Filter(xs, p), SubscriptionOf) == Filter(Keys(xs, SubscriptionOf), In(keep))
  {
    if xs != [] {
      var n := |xs| - 1;
      var k := xs[n].subscription;
      KeysOfFiltered(xs[..n], p, keep);
      var before, kept := Keys(xs[..n], SubscriptionOf), Filter(xs[..n], p);
      FilterMembers(before, In(keep));
      if p(xs[n]) {
        KeysMore(kept, xs[n], SubscriptionOf);
        assert (before + [k])[..|before|] == before;
      } else {
        assert kept + [] == kept;
        assert (before + [k])[..|before|] == before && Filter(before, In(keep)) + [] == Filter(before, In(keep));
      }
    }
  }

  lemma {:induction false} WithOfFiltered(xs: seq<Sub>, p: Sub -> bool, keep: set<string>, k: string)
    requires BySubscription(xs, p, keep) && k in keep
    ensures With(Filter(xs, p), SubscriptionOf, k) == With(xs, SubscriptionOf, k)
  {
    if xs != [] {
      var n := |xs| - 1;
      WithOfFiltered(xs[..n], p, keep, k);
      var kept := Filter(xs[..n], p);
      WithMore(kept, xs[n], SubscriptionOf, k);
      assert kept + [] == kept && With(xs[..n], SubscriptionOf, k) + [] == With(xs[..n], SubscriptionOf, k);
    }
  }

  lemma {:induction false} FilterMap(ks: seq<string>, f: string -> Group, keep: set<string>)
    requires forall k :: f(k).subscription == k
    ensures Filter(Map(ks, f), GroupIn(keep)) == Map(Filter(ks, In(keep)), f)
  {
    if ks != [] {
      var n := |ks| - 1;
      FilterMap(ks[..n], f, keep);
      assert Map(ks, f)[..n] == Map(ks[..n], f);
      var kept := Filter(ks[..n], In(keep));
      assert Map(kept + [ks[n]], f) == Map(kept, f) + [f(ks[n])];
      assert kept + [] == kept && Map(kept, f) + [] == Map(kept, f);
    }
  }

  lemma MapAgrees(ks: seq<string>, f: string -> Group, g: string -> Group)
    requires forall i :: 0 <= i < |ks| ==> f(ks[i]) == g(ks[i])
    ensures Map(ks, f) == Map(ks, g)
  {
  }

  /** A filter by subscription can be applied before or after grouping: the groups, their lines,
      their totals and their order are the same. */
  lemma GroupingCommutesWithFiltering(xs: seq<Sub>, p: Sub -> bool, keep: set<string>)
    requires BySubscription(xs, p, keep)
    ensures Groups(Filter(xs, p)) == Filter(Groups(xs), GroupIn(keep))
  {
    var ks := Keys(xs, SubscriptionOf);
    var kept := Filter(ks, In(keep));
    FilterSort(Map(ks, GroupOf(xs)), GroupTokens, GroupIn(keep));
    FilterMap(ks, GroupOf(xs), keep);
    KeysOfFiltered(xs, p, keep);
    FilterMembers(ks, In(keep));
    forall i | 0 <= i < |kept| ensures GroupOf(Filter(xs, p))(kept[i]) == GroupOf(xs)(kept[i]) {
      WithOfFiltered(xs, p, keep, kept[i]);
    }
    MapAgrees(kept, GroupOf(Filter(xs, p)), GroupOf(xs));
  }

  /** In particular for the subscription filter of the page. */
  lemma SubscriptionFilterCommutes(xs: seq<Sub>, subFilter: set<string>)
    requires subFilter != {}
    ensures Groups(Filter(xs, Passing(subFilter, {}, false))) == Filter(Groups(xs), GroupIn(subFilter))
  {
    GroupingCommutesWithFiltering(xs, Passing(subFilter, {}, false), subFilter);
  }

  // ----- The views agree and conserve -----

  function KeyOfGroup(g: Group): (string, Totals) { (g.subscription, g.subtotal) }

  function KeyOfRow(r: Row): (string, Totals) { (r.key, r.totals) }

  function PairTokens(p: (string, Totals)): int { TotalTokens(p.1) }

  /** The grouped view and the table list the same subscriptions with the same totals in the same
      order. */
  lemma GroupsMatchRows(xs: seq<Sub>)
    ensures Map(Groups(xs), KeyOfGroup) == Map(SubscriptionRows(xs), KeyOfRow)
  {
    var ks := Keys(xs, SubscriptionOf);
    MapSort(Map(ks, GroupOf(xs)), GroupTokens, KeyOfGroup, PairTokens);
    MapSort(Map(ks, SubscriptionRow(xs)), RowTokens, KeyOfRow, PairTokens);
    assert Map(Map(ks, GroupOf(xs)), KeyOfGroup) == Map(Map(ks, SubscriptionRow(xs)), KeyOfRow);
  }

  function SumTotals(ts: seq<Totals>): Totals {
    if ts == [] then ZERO_TOTALS else AddTotals(SumTotals(ts[..|ts| - 1]), ts[|ts| - 1])
  }

  function SumWith(xs: seq<Sub>, key: Sub -> string): string -> Totals {
    k => Sum(With(xs, key, k))
  }

  lemma {:induction false} SumOneChanged(ks: seq<string>, f: string -> Totals, g: string -> Totals, k: string, d: Totals)
    requires Distinct(ks)
    requires forall i :: 0 <= i < |ks| ==> g(ks[i]) == if ks[i] == k then AddTotals(f(ks[i]), d) else f(ks[i])
    ensures SumTotals(Map(ks, g)) ==
      if k in ks then AddTotals(SumTotals(Map(ks, f)), d) else SumTotals(Map(ks, f))
  {
    if ks != [] {
      var n := |ks| - 1;
      SumOneChanged(ks[..n], f, g, k, d);
      assert Map(ks, f)[..n] == Map(ks[..n], f) && Map(ks, g)[..n] == Map(ks[..n], g);
      assert ks == ks[..n] + [ks[n]];
    }
  }

  lemma SumWithMore(xs: seq<Sub>, s: Sub, key: Sub -> string, k: string)
    ensures SumWith(xs + [s], key)(k) ==
      if k == key(s) then AddTotals(SumWith(xs, key)(k), s.totals) else SumWith(xs, key)(k)
  {
    WithMore(xs, s, key, k);
    SumMore(With(xs, key, k), s);
  }

  lemma SumWithNewKey(ks: seq<string>, g: string -> Totals, k: string)
    ensures SumTotals(Map(ks + [k], g)) == AddTotals(SumTotals(Map(ks, g)), g(k))
  {
    assert Map(ks + [k], g) == Map(ks, g) + [g(k)];
    assert (Map(ks, g) + [g(k)])[..|ks|] == Map(ks, g);
  }

  /** Adding d to one part, which may be new, adds d to the sum of the parts. */
  lemma OnePartMore(ks: seq<string>, f: string -> Totals, g: string -> Totals, k: string, d: Totals)
    requires Distinct(ks)
    requires forall i :: 0 <= i < |ks| ==> g(ks[i]) == if ks[i] == k then AddTotals(f(ks[i]), d) else f(ks[i])
    requires k !in ks ==> g(k) == d
    ensures SumTotals(Map(if k in ks then ks else ks + [k], g)) == AddTotals(SumTotals(Map(ks, f)), d)
  {
    SumOneChanged(ks, f, g, k, d);
    if k !in ks { SumWithNewKey(ks, g, k); }
  }

  lemma OneMorePart(xs: seq<Sub>, s: Sub, key: Sub -> string)
    ensures SumTotals(Map(Keys(xs + [s], key), SumWith(xs + [s], key))) ==
      AddTotals(SumTotals(Map(Keys(xs, key), SumWith(xs, key))), s.totals)
  {
    KeysAreExactly(xs, key);
    KeysMore(xs, s, key);
    var f, g := SumWith(xs, key), SumWith(xs + [s], key);
    PartsAfterOneMore(xs, s, key, f, g);
    OnePartMore(Keys(xs, key), f, g, key(s), s.totals);
  }

  lemma {:induction false} PartsAfterOneMore(
      xs: seq<Sub>, s: Sub, key: Sub -> string, f: string -> Totals, g: string -> Totals)
    requires f == SumWith(xs, key) && g == SumWith(xs + [s], key)
    ensures forall k :: g(k) == if k == key(s) then AddTotals(f(k), s.totals) else f(k)
    ensures key(s) !in Keys(xs, key) ==> g(key(s)) == s.totals
  {
    forall k ensures g(k) == if k == key(s) then AddTotals(f(k), s.totals) else f(k) {
      SumWithMore(xs, s, key, k);
    }
    KeyHasItems(xs, key, key(s));
  }

  /** Splitting by key and summing each part loses nothing and counts nothing twice. */
  lemma {:induction false} PartsSumToWhole(xs: seq<Sub>, key: Sub -> string)
    ensures SumTotals(Map(Keys(xs, key), SumWith(xs, key))) == Sum(xs)
  {
    if xs != [] {
      var n := |xs| - 1;
      PartsSumToWhole(xs[..n], key);
      assert xs == xs[..n] + [xs[n]];
      OneMorePart(xs[..n], xs[n], key);
      SumMore(xs[..n], xs[n]);
    }
  }

  lemma {:induction false} InsertKeepsSum<T>(x: T, ys: seq<T>, weight: T -> int, t: T -> Totals)
    ensures SumTotals(Map(StableSort.Insert(x, ys, weight), t)) == AddTotals(SumTotals(Map(ys, t)), t(x))
  {
    if ys == [] || weight(ys[0]) < weight(x) {
      SumCons(t(x), Map(ys, t));
      assert Map([x] + ys, t) == [t(x)] + Map(ys, t);
    } else {
      var rest := StableSort.Insert(x, ys[1..], weight);
      InsertKeepsSum(x, ys[1..], weight, t);
      SumCons(t(ys[0]), Map(rest, t));
      SumCons(t(ys[0]), Map(ys[1..], t));
      assert Map([ys[0]] + rest, t) == [t(ys[0])] + Map(rest, t);
      assert Map(ys, t) == [t(ys[0])] + Map(ys[1..], t);
    }
  }

  lemma {:induction false} SumCons(t: Totals, ts: seq<Totals>)
    ensures SumTotals([t] + ts) == AddTotals(t, SumTotals(ts))
  {
    if ts == [] {
      assert ([t] + ts)[..0] == [];
    } else {
      SumCons(t, ts[..|ts| - 1]);
      assert ([t] + ts)[..|ts|] == [t] + ts[..|ts| - 1];
    }
  }

  lemma {:induction false} SortKeepsSum<T>(xs: seq<T>, weight: T -> int, t: T -> Totals)
    ensures SumTotals(Map(SortDown(xs, weight), t)) == SumTotals(Map(xs, t))
  {
    if xs != [] {
      var n := |xs| - 1;
      SortKeepsSum(xs[..n], weight, t);
      InsertKeepsSum(xs[n], SortDown(xs[..n], weight), weight, t);
      assert Map(xs, t)[..n] == Map(xs[..n], t);
    }
  }

  function GroupTotals(g: Group): Totals { g.subtotal }

  function RowTotals(r: Row): Totals { r.totals }

  function LineTotals(l: Line): Totals { l.totals }

  lemma LinesConserve(xs: seq<Sub>)
    ensures SumTotals(Map(Lines(xs), LineTotals)) == Sum(xs)
  {
    var ks := Keys(xs, ModelOf);
    SortKeepsSum(Map(ks, LineOf(xs)), LineTokens, LineTotals);
    assert Map(Map(ks, LineOf(xs)), LineTotals) == Map(ks, SumWith(xs, ModelOf));
    PartsSumToWhole(xs, ModelOf);
  }

  lemma GroupsConserve(xs: seq<Sub>)
    ensures SumTotals(Map(Groups(xs), GroupTotals)) == Sum(xs)
  {
    var ks := Keys(xs, SubscriptionOf);
    SortKeepsSum(Map(ks, GroupOf(xs)), GroupTokens, GroupTotals);
    forall i | 0 <= i < |ks| ensures GroupOf(xs)(ks[i]).subtotal == SumWith(xs, SubscriptionOf)(ks[i]) {
      KeyHasItems(xs, SubscriptionOf, ks[i]);
    }
    assert Map(Map(ks, GroupOf(xs)), GroupTotals) == Map(ks, SumWith(xs, SubscriptionOf));
    PartsSumToWhole(xs, SubscriptionOf);
  }

  lemma RowsConserve(xs: seq<Sub>)
    ensures SumTotals(Map(SubscriptionRows(xs), RowTotals)) == Sum(xs)
    ensures SumTotals(Map(ModelRows(xs), RowTotals)) == Sum(xs)
  {
    var ks := Keys(xs, SubscriptionOf);
    SortKeepsSum(Map(ks, SubscriptionRow(xs)), RowTokens, RowTotals);
    forall i | 0 <= i < |ks| ensures SubscriptionRow(xs)(ks[i]).totals == SumWith(xs, SubscriptionOf)(ks[i]) {
      KeyHasItems(xs, SubscriptionOf, ks[i]);
    }
    assert Map(Map(ks, SubscriptionRow(xs)), RowTotals) == Map(ks, SumWith(xs, SubscriptionOf));
    PartsSumToWhole(xs, SubscriptionOf);
    var ms := Keys(xs, ModelOf);
    SortKeepsSum(Map(ms, ModelRow(xs)), RowTokens, RowTotals);
    assert Map(Map(ms, ModelRow(xs)), RowTotals) == Map(ms, SumWith(xs, ModelOf));
    PartsSumToWhole(xs, ModelOf);
  }

  /** All three views add up, field by field, to the sum of the sub-items. */
  lemma ViewsConserve(xs: seq<Sub>)
    ensures SumTotals(Map(Groups(xs), GroupTotals)) == Sum(xs)
    ensures SumTotals(Map(SubscriptionRows(xs), RowTotals)) == Sum(xs)
    ensures SumTotals(Map(ModelRows(xs), RowTotals)) == Sum(xs)
  {
    GroupsConserve(xs);
    RowsConserve(xs);
  }

  /** Every subscription appears in exactly one group, its models once each, both in descending
      order of tokens, and a group's subtotal is the sum of its lines. */
  ghost predicate OneGroupEach(groups: seq<Group>, xs: seq<Sub>) {
    && Distinct(Map(groups, NameOfGroup))
    && (forall k :: k in Map(groups, NameOfGroup) <==> k in Keys(xs, SubscriptionOf))
    && Descending(groups, GroupTokens)
  }

  function NameOfGroup(g: Group): string { g.subscription }

  function NameOfLine(l: Line): string { l.model }

  lemma DistinctBySet(a: seq<string>, b: seq<string>)
    requires multiset(a) == multiset(b) && Distinct(a)
    ensures Distinct(b) && forall k :: k in a <==> k in b
  {
    forall k ensures k in a <==> k in b {
      assert k in multiset(a) <==> k in multiset(b);
    }
    forall i, j | 0 <= i < j < |b| ensures b[i] != b[j] {
      if b[i] == b[j] {
        TwiceInMultiset(b, i, j);
        DistinctOnce(a, b[i]);
      }
    }
  }

  lemma TwiceInMultiset(b: seq<string>, i: nat, j: nat)
    requires i < j < |b| && b[i] == b[j]
    ensures multiset(b)[b[i]] >= 2
  {
    assert b == b[..i] + [b[i]] + b[i + 1..j] + [b[j]] + b[j + 1..];
  }

  lemma {:induction false} DistinctOnce(a: seq<string>, k: string)
    requires Distinct(a)
    ensures multiset(a)[k] <= 1
  {
    if a != [] {
      var n := |a| - 1;
      DistinctOnce(a[..n], k);
      assert a == a[..n] + [a[n]];
      assert forall i :: 0 <= i < n ==> a[..n][i] != a[n];
    }
  }

  lemma {:induction false} MapKeepsMultiset<T>(xs: seq<T>, weight: T -> int, f: T -> string)
    ensures multiset(Map(SortDown(xs, weight), f)) == multiset(Map(xs, f))
  {
    if xs != [] {
      var n := |xs| - 1;
      MapKeepsMultiset(xs[..n], weight, f);
      InsertMapsMultiset(xs[n], SortDown(xs[..n], weight), weight, f);
      assert Map(xs, f) == Map(xs[..n], f) + [f(xs[n])];
    }
  }

  lemma {:induction false} InsertMapsMultiset<T>(x: T, ys: seq<T>, weight: T -> int, f: T -> string)
    ensures multiset(Map(StableSort.Insert(x, ys, weight), f)) == multiset(Map(ys, f)) + multiset{f(x)}
  {
    if ys == [] || weight(ys[0]) < weight(x) {
      assert Map([x] + ys, f) == [f(x)] + Map(ys, f);
    } else {
      var rest := StableSort.Insert(x, ys[1..], weight);
      InsertMapsMultiset(x, ys[1..], weight, f);
      assert Map([ys[0]] + rest, f) == [f(ys[0])] + Map(rest, f);
      assert Map(ys, f) == [f(ys[0])] + Map(ys[1..], f);
    }
  }

  lemma EverySubscriptionOnce(xs: seq<Sub>)
    ensures OneGroupEach(Groups(xs), xs)
  {
    var ks := Keys(xs, SubscriptionOf);
    KeysAreExactly(xs, SubscriptionOf);
    SortSorts(Map(ks, GroupOf(xs)), GroupTokens);
    MapKeepsMultiset(Map(ks, GroupOf(xs)), GroupTokens, NameOfGroup);
    assert Map(Map(ks, GroupOf(xs)), NameOfGroup) == ks;
    DistinctBySet(ks, Map(Groups(xs), NameOfGroup));
  }

  /** The lines of a group: its models once each, most tokens first, adding up to its subtotal. */
  lemma GroupLinesAreExact(xs: seq<Sub>, k: string)
    requires k in Keys(xs, SubscriptionOf)
    ensures var g := GroupOf(xs)(k);
      && Descending(g.models, LineTokens)
      && Distinct(Map(g.models, NameOfLine))
      && (forall m :: m in Map(g.models, NameOfLine) <==> m in Keys(With(xs, SubscriptionOf, k), ModelOf))
      && SumTotals(Map(g.models, LineTotals)) == g.subtotal
  {
    KeyHasItems(xs, SubscriptionOf, k);
    var mine := With(xs, SubscriptionOf, k);
    var ms := Keys(mine, ModelOf);
    KeysAreExactly(mine, ModelOf);
    SortSorts(Map(ms, LineOf(mine)), LineTokens);
    MapKeepsMultiset(Map(ms, LineOf(mine)), LineTokens, NameOfLine);
    assert Map(Map(ms, LineOf(mine)), NameOfLine) == ms;
    DistinctBySet(ms, Map(Lines(mine), NameOfLine));
    LinesConserve(mine);
  }
}
