/**
 Fuzzy search in a model list (src/lib/modelSearch.ts): a contiguous hit scores by its position,
 a scattered one by the characters skipped, and the best 200 are shown. Lower-casing is a
 parameter; characters are single units.
 */
module ModelSearch {
  import opened Wrappers
  import opened Sequences
  import opened Text
  import StableSort

  // ----- Normalising -----

  predicate IsSeparator(c: char) {
    IsJsSpace(c) || c == '-' || c == '_' || c == '.' || c == '/' || c == ':' || c == '@'
  }

  function Strip(s: string): string {
    if s == "" then "" else (if IsSeparator(s[0]) then "" else [s[0]]) + Strip(s[1..])
  }

  function Normalize(s: string, lower: string -> string): string {
    Strip(lower(s))
  }

  /** Blanks and these six characters do not count. */
  function Counts(): char -> bool {
    c => !IsJsSpace(c) && c !in "-_./:@"
  }

  /** Normalising keeps exactly the other characters of the lower-cased text, in order. */
  lemma {:induction false} StripFilters(s: string)
    ensures Strip(s) == StableSort.Filter(s, Counts())
  {
    if s != "" {
      StripFilters(s[1..]);
      HeadTail(s);
      StableSort.FilterCons(s[0], s[1..], Counts());
    }
  }

  lemma NormalizeKeeps(s: string, lower: string -> string) returns (at: seq<nat>)
    ensures StableSort.TakenAt(lower(s), Normalize(s, lower), at)
    ensures forall i :: 0 <= i < |lower(s)| ==> (i in at <==> !IsJsSpace(lower(s)[i]) && lower(s)[i] !in "-_./:@")
  {
    StripFilters(lower(s));
    at := StableSort.FilterTakes(lower(s), Counts());
  }

  // ----- Scattered hits -----

  /** Positions in c, ascending from `from` on, that spell q. */
  ghost predicate Embeds(q: string, c: string, from: nat, at: seq<nat>) {
    && |at| == |q|
    && (forall k :: 0 <= k < |q| ==> from <= at[k] < |c| && c[at[k]] == q[k])
    && (forall j, k :: 0 <= j < k < |q| ==> at[j] < at[k])
  }

  /** One past the last position of an embedding; its length less |q| are the skipped characters. */
  function EndOf(at: seq<nat>, from: nat): nat {
    if at == [] then from else at[|at| - 1] + 1
  }

  /** Where taking each next character at its first occurrence ends. */
  function GreedyEnd(q: string, c: string, from: nat): Option<nat> {
    if q == "" then Some(from)
    else
      var found := IndexOf(c, [q[0]], from);
      if found.None? then None else GreedyEnd(q[1..], c, found.value + 1)
  }

  lemma ConsEmbeds(q: string, c: string, from: nat, f: nat, rest: seq<nat>)
    requires q != "" && from <= f < |c| && c[f] == q[0] && Embeds(q[1..], c, f + 1, rest)
    ensures Embeds(q, c, from, [f] + rest)
  {
  }

  /** The greedy walk embeds q whenever it gets to the end. */
  lemma {:induction false} GreedyEmbeds(q: string, c: string, from: nat) returns (at: seq<nat>)
    requires GreedyEnd(q, c, from).Some?
    ensures Embeds(q, c, from, at) && EndOf(at, from) == GreedyEnd(q, c, from).value
  {
    if q == "" {
      at := [];
    } else {
      var f := IndexOf(c, [q[0]], from).value;
      assert c[f..f + 1][0] == q[0];
      var rest := GreedyEmbeds(q[1..], c, f + 1);
      ConsEmbeds(q, c, from, f, rest);
      at := [f] + rest;
    }
  }

  lemma TailEmbeds(q: string, c: string, from: nat, f: nat, at: seq<nat>)
    requires q != "" && Embeds(q, c, from, at) && f <= at[0]
    ensures Embeds(q[1..], c, f + 1, at[1..])
  {
  }

  lemma FirstIsFound(q: string, c: string, from: nat, at: seq<nat>)
    requires q != "" && Embeds(q, c, from, at)
    ensures IndexOf(c, [q[0]], from).Some? && IndexOf(c, [q[0]], from).value <= at[0]
  {
    assert c[at[0]..at[0] + 1] == [q[0]];
    IndexOfFinds(c, [q[0]], from, at[0]);
  }

  lemma EndOfTail(at: seq<nat>, from: nat, f: nat)
    requires at != [] && f <= at[0]
    ensures EndOf(at[1..], f + 1) <= EndOf(at, from)
  {
  }

  /** It gets to the end whenever any embedding exists, and no embedding ends earlier. */
  lemma {:induction false} GreedyIsEarliest(q: string, c: string, from: nat, at: seq<nat>)
    requires Embeds(q, c, from, at)
    ensures GreedyEnd(q, c, from).Some? && GreedyEnd(q, c, from).value <= EndOf(at, from)
    decreases |q|
  {
    if q != "" {
      FirstIsFound(q, c, from, at);
      var f := IndexOf(c, [q[0]], from).value;
      TailEmbeds(q, c, from, f, at);
      GreedyIsEarliest(q[1..], c, f + 1, at[1..]);
      EndOfTail(at, from, f);
    }
  }

  ghost predicate IsSubsequence(q: string, c: string) {
    exists at :: Embeds(q, c, 0, at)
  }

  /** Greedy matching succeeds exactly on subsequences, and the characters it skips are the
      fewest that any embedding skips. */
  lemma GreedyIsOptimal(q: string, c: string)
    ensures GreedyEnd(q, c, 0).Some? <==> IsSubsequence(q, c)
    ensures GreedyEnd(q, c, 0).Some? ==>
      && (exists at :: Embeds(q, c, 0, at) && EndOf(at, 0) == GreedyEnd(q, c, 0).value)
      && (forall at :: Embeds(q, c, 0, at) ==> GreedyEnd(q, c, 0).value <= EndOf(at, 0))
  {
    if GreedyEnd(q, c, 0).Some? {
      var at := GreedyEmbeds(q, c, 0);
    }
    forall at | Embeds(q, c, 0, at)
      ensures GreedyEnd(q, c, 0).Some? && GreedyEnd(q, c, 0).value <= EndOf(at, 0)
    {
      GreedyIsEarliest(q, c, 0, at);
    }
  }

  // ----- The score -----

  const CONTIGUOUS: int := 10000
  const SCATTERED: int := 1000

  /** The score of normalised strings. */
  function Score(q: string, c: string): int {
    if q == "" then 1
    else
      var at := IndexOf(c, q, 0);
      if at.Some? then CONTIGUOUS - at.value
      else
        var end := GreedyEnd(q, c, 0);
        if end.None? then 0
        else if 1 <= SCATTERED - (end.value - |q|) then SCATTERED - (end.value - |q|) else 1
  }

  method ModelMatchScore(query: string, candidate: string, lower: string -> string) returns (score: int)
    ensures score == Score(Normalize(query, lower), Normalize(candidate, lower))
  {
    var q := Normalize(query, lower);
    if q == "" { return 1; }
    var c := Normalize(candidate, lower);
    var at := IndexOf(c, q, 0);
    if at.Some? { return CONTIGUOUS - at.value; }
    var gaps := 0;
    var ci := 0;
    assert q[0..] == q;
    for k := 0 to |q|
      invariant 0 <= ci && gaps == ci - k
      invariant GreedyEnd(q[k..], c, ci) == GreedyEnd(q, c, 0)
    {
      assert q[k..][0] == q[k] && q[k..][1..] == q[k + 1..];
      var found := IndexOf(c, [q[k]], ci);
      if found.None? { return 0; }
      gaps := gaps + (found.value - ci);
      ci := found.value + 1;
    }
    assert q[|q|..] == "";
    score := if 1 <= SCATTERED - gaps then SCATTERED - gaps else 1;
  }

  /** A hit of either kind is a subsequence. */
  lemma ContiguousIsSubsequence(q: string, c: string, at: nat)
    requires OccursAt(c, q, at)
    ensures IsSubsequence(q, c)
  {
    var positions := seq(|q|, k => at + k);
    forall k | 0 <= k < |q| ensures c[positions[k]] == q[k] {
      assert c[at..at + |q|][k] == c[positions[k]];
    }
    assert Embeds(q, c, 0, positions);
  }

  /** A contiguous hit scores 10000 less the least position at which it occurs. */
  lemma ContiguousScore(q: string, c: string, j: nat)
    requires q != "" && OccursAt(c, q, j) && forall i :: 0 <= i < j ==> !OccursAt(c, q, i)
    ensures Score(q, c) == 10000 - j
  {
    IndexOfIs(c, q, 0, j);
  }

  /** Neither a hit nor a query: the one score is 0, the other 1. */
  lemma OtherScores(q: string, c: string)
    ensures q == "" ==> Score(q, c) == 1
    ensures !IsSubsequence(q, c) ==> Score(q, c) == 0
  {
    GreedyIsOptimal(q, c);
    if q == "" { assert Embeds(q, c, 0, []); }
    var at := IndexOf(c, q, 0);
    if at.Some? { ContiguousIsSubsequence(q, c, at.value); }
  }

  /** The characters that an embedding of a query leaves out. */
  function Skipped(q: string, at: seq<nat>): int
    requires |at| == |q| && q != ""
  {
    at[|at| - 1] + 1 - |q|
  }

  /** A scattered hit scores 1000 less the characters skipped, but at least 1, by the embedding that
      skips the fewest. */
  lemma ScatteredScore(q: string, c: string)
    requires q != "" && IsSubsequence(q, c) && forall i: nat :: !OccursAt(c, q, i)
    ensures forall at :: Embeds(q, c, 0, at) ==> Score(q, c) >= 1000 - Skipped(q, at)
    ensures exists at ::
      Embeds(q, c, 0, at) && Score(q, c) == if 1000 - Skipped(q, at) >= 1 then 1000 - Skipped(q, at) else 1
  {
    GreedyIsOptimal(q, c);
    var at := GreedyEmbeds(q, c, 0);
    assert Embeds(q, c, 0, at);
    assert IndexOf(c, q, 0).None?;
  }

  /** Zero or less means no match, except that a contiguous hit 10000 or more characters in is
      lost as well. */
  lemma ScoreIsPositiveIff(q: string, c: string)
    ensures Score(q, c) > 0 <==>
      q == "" || (IsSubsequence(q, c) && (IndexOf(c, q, 0).Some? ==> IndexOf(c, q, 0).value < CONTIGUOUS))
  {
    GreedyIsOptimal(q, c);
    var at := IndexOf(c, q, 0);
    if at.Some? { ContiguousIsSubsequence(q, c, at.value); }
  }

  lemma DeepHit(prefix: string, q: string, x: char)
    requires q != "" && q[0] != x && forall i :: 0 <= i < |prefix| ==> prefix[i] == x
    ensures IndexOf(prefix + q, q, 0) == Some(|prefix|)
  {
    var c := prefix + q;
    assert c[|prefix|..|prefix| + |q|] == q;
    forall j | 0 <= j < |prefix| ensures !OccursAt(c, q, j) {
      if j + |q| <= |c| { assert c[j..j + |q|][0] == x; }
    }
    IndexOfIs(c, q, 0, |prefix|);
  }

  /** A contiguous hit 10000 characters in scores as if there were none, and below a candidate that
      has the characters scattered. */
  lemma DeepHitIsLost()
    ensures var q, c := "ab", seq(CONTIGUOUS, _ => 'x') + "ab";
      IndexOf(c, q, 0) == Some(CONTIGUOUS) && IsSubsequence(q, c) && Score(q, c) == 0
      && IsScattered(q, OneGap(q)) && Score(q, OneGap(q)) > Score(q, c)
  {
    var q, prefix := "ab", seq(CONTIGUOUS, _ => 'x');
    DeepHit(prefix, q, 'x');
    ContiguousIsSubsequence(q, prefix + q, CONTIGUOUS);
    OneGapScores(q);
  }

  /** So for candidates of fewer than 10000 characters a positive score means a subsequence. */
  lemma ScoreDecidesSubsequence(q: string, c: string)
    requires |c| < CONTIGUOUS
    ensures Score(q, c) > 0 <==> IsSubsequence(q, c)
  {
    ScoreIsPositiveIff(q, c);
    if q == "" {
      assert Embeds(q, c, 0, []);
    }
  }

  /** In order somewhere, but nowhere in one piece. */
  ghost predicate IsScattered(q: string, c: string) {
    IsSubsequence(q, c) && IndexOf(c, q, 0).None?
  }

  lemma {:induction false} PositionsSpread(at: seq<nat>, k: nat)
    requires k < |at| && forall i, j :: 0 <= i < j < |at| ==> at[i] < at[j]
    ensures at[k] >= k
  {
    if k > 0 { PositionsSpread(at, k - 1); }
  }

  lemma {:induction false} TightPositions(at: seq<nat>, k: nat)
    requires k < |at| && forall i, j :: 0 <= i < j < |at| ==> at[i] < at[j]
    requires at[|at| - 1] == |at| - 1
    ensures at[k] == k
    decreases |at| - k
  {
    PositionsSpread(at, k);
    if k < |at| - 1 { TightPositions(at, k + 1); }
  }

  lemma TightIsContiguous(q: string, c: string, at: seq<nat>)
    requires q != "" && Embeds(q, c, 0, at) && at[|at| - 1] == |at| - 1
    ensures IndexOf(c, q, 0).Some?
  {
    forall k | 0 <= k < |q| ensures c[k] == q[k] { TightPositions(at, k); }
    assert c[0..|q|] == q;
    IndexOfFinds(c, q, 0, 0);
  }

  lemma NothingOccursEverywhere(c: string)
    ensures IndexOf(c, "", 0).Some?
  {
  }

  /** A scattered hit skips a character, so it scores less than 1000. */
  lemma ScatteredScoresLow(q: string, c: string)
    requires IsScattered(q, c)
    ensures 1 <= Score(q, c) < SCATTERED
  {
    GreedyIsOptimal(q, c);
    NothingOccursEverywhere(c);
    if q != "" {
      var at := GreedyEmbeds(q, c, 0);
      PositionsSpread(at, |at| - 1);
      if at[|at| - 1] == |at| - 1 { TightIsContiguous(q, c, at); }
    }
  }

  /** A scattered candidate that skips just one character. */
  function OneGap(q: string): string
    requires |q| >= 2
  {
    var x := if 'a' != q[0] && 'a' != q[1] then 'a' else if 'b' != q[0] && 'b' != q[1] then 'b' else 'c';
    [q[0], x] + q[1..]
  }

  lemma {:induction false} GreedyAlong(q: string, c: string, from: nat)
    requires from <= |c| && c[from..] == q
    ensures GreedyEnd(q, c, from) == Some(|c|)
  {
    if q != "" {
      assert c[from] == c[from..][0];
      assert c[from..from + 1] == [q[0]];
      assert c[from + 1..] == c[from..][1..];
      GreedyAlong(q[1..], c, from + 1);
    }
  }

  lemma OneGapScores(q: string)
    requires |q| >= 2
    ensures IsScattered(q, OneGap(q)) && Score(q, OneGap(q)) == SCATTERED - 1
  {
    var d := OneGap(q);
    assert d[0] == q[0] && d[1] != q[0] && d[1] != q[1];
    forall i: nat | i + |q| <= |d| ensures !OccursAt(d, q, i) {
      var piece := d[i..i + |q|];
      if i == 0 { assert piece[1] == d[1]; } else { assert piece[0] == d[1]; }
    }
    assert d[0..1] == [q[0]];
    assert d[1..2] == [d[1]] && [d[1]][0] != [q[1]][0];
    assert d[2..] == q[1..];
    assert d[2..3] == [q[1]];
    assert IndexOf(d, [q[1]], 1) == Some(2);
    GreedyAlong(q[1..], d, 2);
    assert d[3..] == q[1..][1..];
    assert GreedyEnd(q[1..], d, 1) == GreedyEnd(q[1..], d, 2);
    GreedyIsOptimal(q, d);
  }

  lemma OneCharacterNeverScatters(q: string, c: string)
    requires |q| == 1
    ensures !IsScattered(q, c)
  {
    if exists at :: Embeds(q, c, 0, at) {
      var at :| Embeds(q, c, 0, at);
      assert c[at[0]..at[0] + 1] == q;
      IndexOfFinds(c, q, 0, at[0]);
    }
  }

  /** A contiguous hit outranks every scattered one exactly when it starts within the first 9001
      characters; a single character cannot be scattered. */
  lemma ContiguousOutranksScatteredIff(q: string, c: string)
    requires q != "" && IndexOf(c, q, 0).Some?
    ensures (forall d :: IsScattered(q, d) ==> Score(q, c) > Score(q, d)) <==>
      |q| == 1 || IndexOf(c, q, 0).value <= CONTIGUOUS - SCATTERED
  {
    forall d | IsScattered(q, d) ensures |q| >= 2 && Score(q, d) < SCATTERED {
      if |q| == 1 { OneCharacterNeverScatters(q, d); }
      ScatteredScoresLow(q, d);
    }
    if |q| >= 2 { OneGapScores(q); }
  }

  // ----- Ranking and showing -----

  const RENDER_LIMIT: nat := 200

  datatype Model = Model(id: string, display: Option<string>)

  /** A model by its place in the list, with its score. */
  datatype Ranked = Ranked(i: nat, score: int)

  function BestScore(m: Model, q: string, lower: string -> string): int {
    var a := Score(q, Normalize(m.id, lower));
    var b := Score(q, Normalize(if m.display.Some? then m.display.value else "", lower));
    if a >= b then a else b
  }

  /** Matches, or is the model to keep. */
  predicate Relevant(m: Model, q: string, keep: string, lower: string -> string) {
    BestScore(m, q, lower) > 0 || m.id == keep
  }

  predicate Outranks(a: Ranked, b: Ranked) {
    a.score > b.score || (a.score == b.score && a.i < b.i)
  }

  function Insert(x: Ranked, sorted: seq<Ranked>): seq<Ranked> {
    if sorted == [] || Outranks(x, sorted[0]) then [x] + sorted else [sorted[0]] + Insert(x, sorted[1..])
  }

  /** The scores of the relevant models, by place. */
  function Scores(models: seq<Model>, q: string, keep: string, lower: string -> string): (scores: seq<Option<int>>)
    ensures |scores| == |models|
  {
    seq(|models|, i requires 0 <= i < |models| =>
      if Relevant(models[i], q, keep, lower) then Some(BestScore(models[i], q, lower)) else None)
  }

  /** The places among the first n that have a score, best first. */
  function Ranking(scores: seq<Option<int>>, n: nat): seq<Ranked>
    requires n <= |scores|
  {
    if n == 0 then []
    else
      var before := Ranking(scores, n - 1);
      if scores[n - 1].Some? then Insert(Ranked(n - 1, scores[n - 1].value), before) else before
  }

  /** Higher scores first, of equal scores the earlier place. */
  ghost predicate Descending(xs: seq<Ranked>) {
    forall j, k :: 0 <= j < k < |xs| ==>
      xs[j].score > xs[k].score || (xs[j].score == xs[k].score && xs[j].i < xs[k].i)
  }

  ghost predicate Fresh(x: Ranked, xs: seq<Ranked>) {
    forall k :: 0 <= k < |xs| ==> xs[k].i != x.i
  }

  /** A model that matches by its id or its display name, or is the one to keep, is ranked by the
      larger of the two scores; no other is. */
  lemma ScoresAre(models: seq<Model>, q: string, keep: string, lower: string -> string, i: nat)
    requires i < |models|
    ensures var m := models[i];
      var byId := Score(q, Normalize(m.id, lower));
      var byName := Score(q, Normalize(if m.display.Some? then m.display.value else "", lower));
      Scores(models, q, keep, lower)[i] ==
        if byId > 0 || byName > 0 || m.id == keep then Some(if byId > byName then byId else byName) else None
  {
  }

  lemma {:induction false} InsertKeepsOrder(x: Ranked, xs: seq<Ranked>)
    requires Descending(xs) && Fresh(x, xs)
    ensures Descending(Insert(x, xs))
    ensures forall y :: y in Insert(x, xs) <==> y == x || y in xs
    ensures |Insert(x, xs)| == |xs| + 1
  {
    if xs == [] || Outranks(x, xs[0]) {
    } else {
      var rest := Insert(x, xs[1..]);
      InsertKeepsOrder(x, xs[1..]);
      forall k | 0 <= k < |rest| ensures Outranks(xs[0], rest[k]) {
        assert rest[k] in rest;
        if rest[k] != x { assert rest[k] in xs[1..]; }
      }
      assert forall y :: y in xs <==> y == xs[0] || y in xs[1..];
    }
  }

  /** The places listed are exactly those with a score among the first n, strictly best first;
      so the list has no duplicates. */
  ghost predicate RanksExactly(xs: seq<Ranked>, scores: seq<Option<int>>, n: nat)
    requires n <= |scores|
  {
    && Descending(xs)
    && (forall i :: 0 <= i < n && scores[i].Some? ==> Ranked(i, scores[i].value) in xs)
    && (forall r :: r in xs ==> r.i < n && scores[r.i] == Some(r.score))
  }

  lemma {:induction false} RankingRanksExactly(scores: seq<Option<int>>, n: nat)
    requires n <= |scores|
    ensures RanksExactly(Ranking(scores, n), scores, n)
  {
    if n > 0 {
      var before := Ranking(scores, n - 1);
      RankingRanksExactly(scores, n - 1);
      if scores[n - 1].Some? {
        var x := Ranked(n - 1, scores[n - 1].value);
        forall k | 0 <= k < |before| ensures before[k].i != x.i {
          assert before[k] in before;
        }
        InsertKeepsOrder(x, before);
      }
    }
  }

  lemma SameFirst(xs: seq<Ranked>, ys: seq<Ranked>)
    requires Descending(xs) && Descending(ys) && xs != []
    requires forall r :: r in xs <==> r in ys
    ensures ys != [] && xs[0] == ys[0]
  {
    assert xs[0] in ys;
    var j :| 0 <= j < |ys| && ys[j] == xs[0];
    assert ys[0] in xs;
    var k :| 0 <= k < |xs| && xs[k] == ys[0];
  }

  lemma TailMembers(xs: seq<Ranked>, r: Ranked)
    requires xs != [] && Descending(xs)
    ensures r in xs[1..] <==> r in xs && r != xs[0]
  {
  }

  /** There is only one such list, so the ranking does not depend on how it was sorted. */
  lemma {:induction false} RankingIsUnique(xs: seq<Ranked>, ys: seq<Ranked>)
    requires Descending(xs) && Descending(ys)
    requires forall r :: r in xs <==> r in ys
    ensures xs == ys
  {
    if xs != [] {
      SameFirst(xs, ys);
      forall r ensures r in xs[1..] <==> r in ys[1..] {
        TailMembers(xs, r);
        TailMembers(ys, r);
      }
      RankingIsUnique(xs[1..], ys[1..]);
      HeadTail(xs);
      HeadTail(ys);
    } else if ys != [] {
      SameFirst(ys, xs);
    }
  }

  /** The position of the first ranked model with this id, or the length. */
  function FindId(xs: seq<Ranked>, models: seq<Model>, keep: string): (k: nat)
    requires forall r :: r in xs ==> r.i < |models|
    ensures k <= |xs|
    ensures forall j :: 0 <= j < k ==> models[xs[j].i].id != keep
    ensures k < |xs| ==> models[xs[k].i].id == keep
  {
    if xs == [] || models[xs[0].i].id == keep then 0 else 1 + FindId(xs[1..], models, keep)
  }

  function Places(xs: seq<Ranked>): seq<nat> {
    seq(|xs|, k requires 0 <= k < |xs| => xs[k].i)
  }

  function Least(a: nat, b: nat): nat {
    if a <= b then a else b
  }

  /** The places of the best 200, then the place of the model to keep unless it is among them. */
  function Shown(ranking: seq<Ranked>, models: seq<Model>, keep: string): seq<nat>
    requires forall r :: r in ranking ==> r.i < |models|
  {
    var best := Places(ranking[..Least(RENDER_LIMIT, |ranking|)]);
    var kept := FindId(ranking, models, keep);
    if kept < |ranking| && ranking[kept].i !in best then best + [ranking[kept].i] else best
  }

  /** Models are shown by their place in the list, which is their identity. */
  method SearchModels(models: seq<Model>, query: string, keep: string, lower: string -> string)
    returns (shown: seq<nat>, total: nat)
    ensures var ranking := Ranking(Scores(models, Normalize(query, lower), keep, lower), |models|);
      && RanksExactly(ranking, Scores(models, Normalize(query, lower), keep, lower), |models|)
      && shown == Shown(ranking, models, keep)
      && total == |ranking|
  {
    var q := Normalize(query, lower);
    var scores := Scores(models, q, keep, lower);
    var ranked := Ranking(scores, |models|);
    RankingRanksExactly(scores, |models|);
    shown := Places(ranked[..Least(RENDER_LIMIT, |ranked|)]);
    var kept := FindId(ranked, models, keep);
    if kept < |ranked| && ranked[kept].i !in shown {
      shown := shown + [ranked[kept].i];
    }
    total := |ranked|;
  }

  /** The first n shown are the first n ranked, none is shown twice, and at most one follows, which
      is the model to keep. */
  ghost predicate TopAndKept(
      shown: seq<nat>, n: nat, ranking: seq<Ranked>, scores: seq<Option<int>>, models: seq<Model>, keep: string)
    requires |scores| == |models| && n <= |ranking|
  {
    && n <= |shown| <= n + 1
    && (forall k :: 0 <= k < |shown| ==> shown[k] < |models| && scores[shown[k]].Some?)
    && (forall k :: 0 <= k < n ==> shown[k] == ranking[k].i)
    && (forall j, k :: 0 <= j < k < |shown| ==> shown[j] != shown[k])
    && (|shown| > n ==> models[shown[n]].id == keep)
  }

  lemma KeptFollows(
      best: seq<nat>, x: nat, n: nat, ranking: seq<Ranked>, scores: seq<Option<int>>, models: seq<Model>, keep: string)
    requires |scores| == |models| && n <= |ranking| && |best| == n && TopAndKept(best, n, ranking, scores, models, keep)
    requires x !in best && x < |models| && scores[x].Some? && models[x].id == keep
    ensures TopAndKept(best + [x], n, ranking, scores, models, keep)
  {
    assert forall k :: 0 <= k < n ==> best[k] in best;
  }

  /** What is shown: the best of the ranking, up to 200, and the model to keep. */
  lemma ShownIsTopAndKept(ranking: seq<Ranked>, scores: seq<Option<int>>, models: seq<Model>, keep: string)
    requires |scores| == |models| && RanksExactly(ranking, scores, |models|)
    ensures TopAndKept(Shown(ranking, models, keep), if |ranking| < 200 then |ranking| else 200,
                       ranking, scores, models, keep)
  {
    var n := if |ranking| < 200 then |ranking| else 200;
    BestAreDistinct(ranking, scores, n);
    var best, kept := Places(ranking[..n]), FindId(ranking, models, keep);
    if kept < |ranking| && ranking[kept].i !in best {
      assert ranking[kept] in ranking;
      KeptFollows(best, ranking[kept].i, n, ranking, scores, models, keep);
    }
  }

  lemma BestAreDistinct(ranking: seq<Ranked>, scores: seq<Option<int>>, n: nat)
    requires n <= |ranking| && RanksExactly(ranking, scores, |scores|)
    ensures var best := Places(ranking[..n]);
      && (forall k :: 0 <= k < n ==> best[k] == ranking[k].i < |scores| && scores[best[k]].Some?)
      && (forall j, k :: 0 <= j < k < n ==> best[j] != best[k])
  {
  }

  /** No model outside the first entries is better than one among them. */
  lemma ShownAreTheBest(ranking: seq<Ranked>, scores: seq<Option<int>>, k: nat, i: nat)
    requires RanksExactly(ranking, scores, |scores|)
    requires k < (if |ranking| < 200 then |ranking| else 200) && i < |scores| && scores[i].Some?
    requires forall j :: 0 <= j < (if |ranking| < 200 then |ranking| else 200) ==> ranking[j].i != i
    ensures Outranks(ranking[k], Ranked(i, scores[i].value))
  {
  }

  lemma RankedKeepIsFound(ranking: seq<Ranked>, models: seq<Model>, keep: string, k: nat)
    requires forall r :: r in ranking ==> r.i < |models|
    requires k < |ranking| && models[ranking[k].i].id == keep
    ensures var kept := FindId(ranking, models, keep);
      kept < |ranking| && models[ranking[kept].i].id == keep && ranking[kept].i in Shown(ranking, models, keep)
  {
  }

  /** A model to keep that is in the list is shown, whatever the query: the best-ranked model with
      its id. */
  lemma {:induction false} KeptIsShown(models: seq<Model>, q: string, keep: string, lower: string -> string, i: nat)
    requires i < |models| && models[i].id == keep
    ensures var scores := Scores(models, q, keep, lower);
      var ranking := Ranking(scores, |models|);
      && RanksExactly(ranking, scores, |models|)
      && exists j :: 0 <= j < |models| && models[j].id == keep && j in Shown(ranking, models, keep)
  {
    var scores := Scores(models, q, keep, lower);
    var ranking := Ranking(scores, |models|);
    RankingRanksExactly(scores, |models|);
    assert scores[i].Some?;
    var r := Ranked(i, scores[i].value);
    assert r in ranking;
    var k :| 0 <= k < |ranking| && ranking[k] == r;
    RankedKeepIsFound(ranking, models, keep, k);
    assert ranking[FindId(ranking, models, keep)] in ranking;
  }
}
