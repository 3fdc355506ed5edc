/**
 What the Markdown reader makes of a text, told without its steps: reading the blocks from top to
 bottom gives exactly what the lines contribute, in order, with the bounds of every paragraph and
 list and the parent of every list item (src/lib/updateNotesMarkdown.ts).
 */
module MarkdownPieces {
  import opened Wrappers
  import opened Sequences
  import opened Text
  import opened MarkdownLists
  import opened Markdown

  datatype Piece =
    | HeadingPiece(level: nat, text: string)
    | RulePiece
    | CodePiece(body: seq<string>)
    | ParaPiece(text: string)
    | ParaEnd
    | ListStart(ordered: bool)
    | ItemPiece(parent: Option<nat>, text: string)
    | MorePiece(text: string)
    | ListEnd

  // ----- What the lines contribute -----

  /** What is under way when a line comes: a paragraph, or a list with the indents of its items. */
  datatype Open = NoneOpen | ParaOpen | ListOpen(inds: seq<nat>)

  function Close(open: Open): seq<Piece> {
    match open
    case NoneOpen => []
    case ParaOpen => [ParaEnd]
    case ListOpen(_) => [ListEnd]
  }

  /** The piece for a list's next item: its parent is the nearest earlier item indented less. */
  function NextItem(inds: seq<nat>, indent: nat, text: string): Piece {
    ItemPiece(Parent(inds + [indent], |inds|), text)
  }

  /** A line outside fences, and what is under way afterwards. A blank line ends a paragraph but no
      list; an indented plain line goes on with a list; any other line ends what it does not continue. */
  function Contribution(line: Line, open: Open): (seq<Piece>, Open) {
    var text := Trim(line.raw, IsJsSpace);
    if text == "" then if open.ParaOpen? then ([ParaEnd], NoneOpen) else ([], open)
    else
      match line.shape
      case FenceLine => ([], open)
      case RuleLine => (Close(open) + [RulePiece], NoneOpen)
      case HeadingLine(level, heading) => (Close(open) + [HeadingPiece(level, heading)], NoneOpen)
      case ItemLine(indent, ordered, item) =>
        if open.ListOpen? then ([NextItem(open.inds, indent, item)], ListOpen(open.inds + [indent]))
        else (Close(open) + [ListStart(ordered)] + [NextItem([], indent, item)], ListOpen([indent]))
      case PlainLine =>
        if open.ListOpen? && line.raw != "" && IsJsSpace(line.raw[0]) then ([MorePiece(text)], open)
        else if open.ParaOpen? then ([ParaPiece(text)], ParaOpen)
        else (Close(open) + [ParaPiece(text)], ParaOpen)
  }

  function RawLines(lines: seq<Line>, n: nat): seq<string>
    requires n <= |lines|
  {
    if n == 0 then [] else RawLines(lines, n - 1) + [lines[n - 1].raw]
  }

  /** The first three characters of a trimmed line. */
  function FenceOf(line: Line): string {
    var text := Trim(line.raw, IsJsSpace);
    if |text| < 3 then text else text[..3]
  }

  /** The lines behind a fenced body and the line that closes it. */
  function Behind(lines: seq<Line>, n: nat): (rest: seq<Line>)
    requires n <= |lines|
    ensures |rest| <= |lines|
  {
    if n < |lines| then lines[n + 1..] else []
  }

  /** The line opens a fence, being one of that shape and not blank. */
  predicate Opens(line: Line) {
    Trim(line.raw, IsJsSpace) != "" && line.shape.FenceLine?
  }

  /** All lines. A fence takes the lines up to one that starts with its first three characters, and
      that one. */
  function PiecesOfLines(lines: seq<Line>, open: Open): seq<Piece>
    decreases |lines|
  {
    if lines == [] then Close(open)
    else if Opens(lines[0]) then
      var rest := lines[1..];
      var n := BodyLength(rest, FenceOf(lines[0]));
      Close(open) + [CodePiece(RawLines(rest, n))] + PiecesOfLines(Behind(rest, n), NoneOpen)
    else
      var (pieces, next) := Contribution(lines[0], open);
      pieces + PiecesOfLines(lines[1..], next)
  }

  // ----- What the blocks hold -----

  function ParaPieces(lines: seq<string>): seq<Piece> {
    seq(|lines|, i requires 0 <= i < |lines| => ParaPiece(lines[i]))
  }

  /** The first piece of text opens the item, the others continue it. */
  function ItemPieces(parent: Option<nat>, texts: seq<string>): seq<Piece> {
    seq(|texts|, i requires 0 <= i < |texts| => if i == 0 then ItemPiece(parent, texts[i]) else MorePiece(texts[i]))
  }

  /** The nested items of an array, each before its children, whose parent it is. */
  function Walk(texts: seq<seq<string>>, a: Arena, ids: seq<nat>, parent: Option<nat>): seq<Piece>
    requires Forward(a) && Ascending(ids) && Inside(ids, |a.children|) && |texts| == |a.children|
    decreases if ids == [] then 0 else |a.children| - ids[0] + 1
  {
    if ids == [] then []
    else
      ItemPieces(parent, texts[ids[0]]) + Walk(texts, a, a.children[ids[0]], Some(ids[0]))
      + Walk(texts, a, ids[1..], parent)
  }

  /** A list's nesting mentions its items only, children after parents. */
  ghost predicate ProperBlock(b: Block) {
    b.List? ==> |b.nesting.children| == |b.texts| && Forward(b.nesting)
  }

  ghost predicate ProperBlocks(blocks: seq<Block>) {
    forall i :: 0 <= i < |blocks| ==> ProperBlock(blocks[i])
  }

  /** A block read from top to bottom. */
  ghost function PiecesOfBlock(b: Block): seq<Piece>
    requires ProperBlock(b)
  {
    match b
    case Heading(level, text) => [HeadingPiece(level, text)]
    case Paragraph(lines) => ParaPieces(lines) + [ParaEnd]
    case Code(body) => [CodePiece(body)]
    case Rule => [RulePiece]
    case List(ordered, texts, nesting) =>
      [ListStart(ordered)] + Walk(texts, nesting, nesting.root, None) + [ListEnd]
  }

  ghost function PiecesOfBlocks(blocks: seq<Block>): seq<Piece>
    requires ProperBlocks(blocks)
  {
    if blocks == [] then []
    else PiecesOfBlocks(blocks[..|blocks| - 1]) + PiecesOfBlock(blocks[|blocks| - 1])
  }

  // ----- A list in the order of its lines -----

  /** What a list under way has gathered so far. */
  ghost function PiecesOfItems(items: seq<Item>): seq<Piece> {
    if items == [] then []
    else
      var n := |items| - 1;
      PiecesOfItems(items[..n]) + ItemPieces(Parent(Indents(items), n), items[n].texts)
  }

  /** The pieces of these items, in this order, each with the parent that the indents give it. */
  function InOrder(texts: seq<seq<string>>, inds: seq<nat>, ids: seq<nat>): seq<Piece>
    requires |texts| == |inds| && Inside(ids, |inds|)
  {
    if ids == [] then []
    else ItemPieces(Parent(inds, ids[0]), texts[ids[0]]) + InOrder(texts, inds, ids[1..])
  }

  lemma {:induction false} InOrderConcat(texts: seq<seq<string>>, inds: seq<nat>, a: seq<nat>, b: seq<nat>)
    requires |texts| == |inds| && Inside(a, |inds|) && Inside(b, |inds|)
    ensures InOrder(texts, inds, a + b) == InOrder(texts, inds, a) + InOrder(texts, inds, b)
  {
    if a == [] {
      assert a + b == b;
    } else {
      InOrderConcat(texts, inds, a[1..], b);
      ConcatTail(a, b);
      Assoc(ItemPieces(Parent(inds, a[0]), texts[a[0]]), InOrder(texts, inds, a[1..]), InOrder(texts, inds, b));
    }
  }

  ghost predicate HaveParent(inds: seq<nat>, ids: seq<nat>, p: Option<nat>) {
    Inside(ids, |inds|) && forall i :: 0 <= i < |ids| ==> Parent(inds, ids[i]) == p
  }

  lemma KidsHaveParent(inds: seq<nat>, p: Option<nat>)
    ensures HaveParent(inds, Kids(inds, |inds|, p), p)
  {
    KidsAreExactly(inds, |inds|, p);
    forall i | 0 <= i < |Kids(inds, |inds|, p)| ensures Parent(inds, Kids(inds, |inds|, p)[i]) == p {
      assert Kids(inds, |inds|, p)[i] in Kids(inds, |inds|, p);
    }
  }

  lemma {:induction false} PreorderStaysInside(a: Arena, ids: seq<nat>)
    requires Forward(a) && Ascending(ids) && Inside(ids, |a.children|)
    ensures Inside(Preorder(a, ids), |a.children|)
    decreases if ids == [] then 0 else |a.children| - ids[0] + 1
  {
    if ids != [] {
      PreorderStaysInside(a, a.children[ids[0]]);
      PreorderStaysInside(a, ids[1..]);
    }
  }

  lemma OneInOrder(texts: seq<seq<string>>, inds: seq<nat>, id: nat)
    requires |texts| == |inds| && id < |inds|
    ensures InOrder(texts, inds, [id]) == ItemPieces(Parent(inds, id), texts[id])
  {
    assert [id][1..] == [];
  }

  lemma JoinInOrder(texts: seq<seq<string>>, inds: seq<nat>, k: nat, below: seq<nat>, after: seq<nat>)
    requires |texts| == |inds| && k < |inds| && Inside(below, |inds|) && Inside(after, |inds|)
    ensures InOrder(texts, inds, [k] + below + after) ==
      ItemPieces(Parent(inds, k), texts[k]) + InOrder(texts, inds, below) + InOrder(texts, inds, after)
  {
    OneInOrder(texts, inds, k);
    InOrderConcat(texts, inds, [k], below);
    InOrderConcat(texts, inds, [k] + below, after);
  }

  /** Walking the nesting visits the items in pre-order, with the parents that the indents give. */
  lemma {:induction false} WalkIsInOrder(texts: seq<seq<string>>, inds: seq<nat>, ids: seq<nat>, p: Option<nat>)
    requires |texts| == |inds| && Ascending(ids) && HaveParent(inds, ids, p)
    ensures Forward(ForestOf(inds))
    ensures Inside(Preorder(ForestOf(inds), ids), |inds|)
    ensures Walk(texts, ForestOf(inds), ids, p) == InOrder(texts, inds, Preorder(ForestOf(inds), ids))
    decreases if ids == [] then 0 else |inds| - ids[0] + 1
  {
    ForestIsForward(inds);
    var a := ForestOf(inds);
    PreorderStaysInside(a, ids);
    if ids != [] {
      var k := ids[0];
      KidsHaveParent(inds, Some(k));
      PreorderStaysInside(a, a.children[k]);
      PreorderStaysInside(a, ids[1..]);
      WalkIsInOrder(texts, inds, a.children[k], Some(k));
      WalkIsInOrder(texts, inds, ids[1..], p);
      JoinInOrder(texts, inds, k, Preorder(a, a.children[k]), Preorder(a, ids[1..]));
    }
  }

  lemma {:induction false} ParentOfPrefix(inds: seq<nat>, i: nat, n: nat)
    requires i < n <= |inds|
    ensures Parent(inds[..n], i) == Parent(inds, i)
    decreases |inds| - n
  {
    if n < |inds| {
      ParentOfPrefix(inds, i, n + 1);
      NearestBelowStable(inds[..n], inds[n], i, i);
      assert inds[..n + 1] == inds[..n] + [inds[n]];
    } else {
      assert inds[..n] == inds;
    }
  }

  lemma {:induction false} RangeInOrder(items: seq<Item>, n: nat)
    requires n <= |items|
    ensures Inside(Range(0, n), |items|)
    ensures InOrder(Texts(items), Indents(items), Range(0, n)) == PiecesOfItems(items[..n])
  {
    if n > 0 {
      var texts, inds := Texts(items), Indents(items);
      RangeInOrder(items, n - 1);
      assert Range(0, n) == Range(0, n - 1) + [n - 1];
      InOrderConcat(texts, inds, Range(0, n - 1), [n - 1]);
      OneInOrder(texts, inds, n - 1);
      ParentOfPrefix(inds, n - 1, n);
      assert Indents(items[..n]) == inds[..n] && items[..n][..n - 1] == items[..n - 1];
    }
  }

  /** Closing a list writes down its items in the order of their lines, each below its parent. */
  lemma ListInSourceOrder(l: OpenList)
    ensures ProperBlock(ListOf(l))
    ensures PiecesOfBlock(ListOf(l)) == [ListStart(l.ordered)] + PiecesOfItems(l.items) + [ListEnd]
  {
    var inds := Indents(l.items);
    PreorderIsSourceOrder(inds);
    KidsHaveParent(inds, None);
    WalkIsInOrder(Texts(l.items), inds, ForestOf(inds).root, None);
    RangeInOrder(l.items, |l.items|);
    assert l.items[..|l.items|] == l.items;
  }

  // ----- The reference adds up to the lines -----

  function OpenOf(r: Reading): Open {
    if r.list.Some? then ListOpen(Indents(r.list.value.items)) else if r.para != [] then ParaOpen else NoneOpen
  }

  /** What is under way, unfinished. */
  ghost function PiecesUnderWay(r: Reading): seq<Piece> {
    if r.list.Some? then [ListStart(r.list.value.ordered)] + PiecesOfItems(r.list.value.items) else ParaPieces(r.para)
  }

  ghost function PiecesSoFar(r: Reading): seq<Piece>
    requires ProperBlocks(r.blocks)
  {
    PiecesOfBlocks(r.blocks) + PiecesUnderWay(r)
  }

  lemma OneMoreBlock(blocks: seq<Block>, b: Block)
    requires ProperBlocks(blocks) && ProperBlock(b)
    ensures ProperBlocks(blocks + [b]) && PiecesOfBlocks(blocks + [b]) == PiecesOfBlocks(blocks) + PiecesOfBlock(b)
  {
    assert (blocks + [b])[..|blocks|] == blocks;
  }

  lemma NothingUnderWay(blocks: seq<Block>)
    requires ProperBlocks(blocks)
    ensures PiecesSoFar(Reading(blocks, [], None)) == PiecesOfBlocks(blocks)
  {
    assert ParaPieces([]) == [];
  }

  lemma EndParaCloses(r: Reading)
    requires Coherent(r) && ProperBlocks(r.blocks)
    ensures Coherent(EndPara(r)) && ProperBlocks(EndPara(r).blocks)
    ensures PiecesSoFar(EndPara(r)) == PiecesSoFar(r) + (if OpenOf(r).ParaOpen? then [ParaEnd] else [])
    ensures OpenOf(EndPara(r)) == if OpenOf(r).ParaOpen? then NoneOpen else OpenOf(r)
  {
    if r.para != [] {
      OneMoreBlock(r.blocks, Paragraph(r.para));
      NothingUnderWay(r.blocks + [Paragraph(r.para)]);
      Assoc(PiecesOfBlocks(r.blocks), ParaPieces(r.para), [ParaEnd]);
    } else {
      assert PiecesSoFar(r) + [] == PiecesSoFar(r);
    }
  }

  lemma EndListCloses(r: Reading)
    requires Coherent(r) && ProperBlocks(r.blocks)
    ensures Coherent(EndList(r)) && ProperBlocks(EndList(r).blocks)
    ensures PiecesSoFar(EndList(r)) == PiecesSoFar(r) + (if OpenOf(r).ListOpen? then [ListEnd] else [])
    ensures OpenOf(EndList(r)) == if OpenOf(r).ListOpen? then NoneOpen else OpenOf(r)
  {
    if r.list.Some? {
      var l := r.list.value;
      ListInSourceOrder(l);
      OneMoreBlock(r.blocks, ListOf(l));
      NothingUnderWay(r.blocks + [ListOf(l)]);
      Assoc(PiecesOfBlocks(r.blocks), [ListStart(l.ordered)] + PiecesOfItems(l.items), [ListEnd]);
    } else {
      assert PiecesSoFar(r) + [] == PiecesSoFar(r);
    }
  }

  /** Ending whatever is under way. */
  lemma BothClose(r: Reading)
    requires Coherent(r) && ProperBlocks(r.blocks)
    ensures var s := EndList(EndPara(r));
      && Coherent(s) && ProperBlocks(s.blocks) && s.para == [] && s.list.None?
      && PiecesSoFar(s) == PiecesSoFar(r) + Close(OpenOf(r)) && PiecesSoFar(s) == PiecesOfBlocks(s.blocks)
  {
    EndParaCloses(r);
    EndListCloses(EndPara(r));
    var s := EndList(EndPara(r));
    NothingUnderWay(s.blocks);
    assert PiecesSoFar(r) + [] == PiecesSoFar(r);
    if OpenOf(r).ParaOpen? { assert PiecesSoFar(s) == PiecesSoFar(EndPara(r)) + []; }
  }

  lemma AddBlockContributes(r: Reading, b: Block)
    requires Coherent(r) && ProperBlocks(r.blocks) && !b.List? && !b.Paragraph?
    ensures var next := AddBlock(r, b);
      && Coherent(next) && ProperBlocks(next.blocks) && OpenOf(next) == NoneOpen
      && PiecesSoFar(next) == PiecesSoFar(r) + (Close(OpenOf(r)) + PiecesOfBlock(b))
  {
    BothClose(r);
    var s := EndList(EndPara(r));
    OneMoreBlock(s.blocks, b);
    NothingUnderWay(s.blocks + [b]);
    Assoc(PiecesSoFar(r), Close(OpenOf(r)), PiecesOfBlock(b));
  }

  lemma PiecesOfMoreItems(items: seq<Item>, indent: nat, text: string)
    ensures PiecesOfItems(items + [Item(indent, [text])]) ==
      PiecesOfItems(items) + [NextItem(Indents(items), indent, text)]
  {
    var more := items + [Item(indent, [text])];
    assert more[..|items|] == items;
    ItemAdded(items, indent, text);
  }

  lemma ItemContributesToList(r: Reading, indent: nat, ordered: bool, text: string)
    requires Coherent(r) && ProperBlocks(r.blocks) && r.list.Some?
    ensures var next := AddListItem(r, indent, ordered, text);
      && Coherent(next) && next.blocks == r.blocks
      && OpenOf(next) == ListOpen(Indents(r.list.value.items) + [indent])
      && PiecesSoFar(next) == PiecesSoFar(r) + [NextItem(Indents(r.list.value.items), indent, text)]
  {
    var items := r.list.value.items;
    CoherentAfterItem(r, indent, ordered, text);
    PiecesOfMoreItems(items, indent, text);
    ItemAdded(items, indent, text);
    var start, piece := [ListStart(r.list.value.ordered)], [NextItem(Indents(items), indent, text)];
    Assoc(start, PiecesOfItems(items), piece);
    Assoc(PiecesOfBlocks(r.blocks), start + PiecesOfItems(items), piece);
  }

  lemma ItemStartsList(r: Reading, indent: nat, ordered: bool, text: string)
    requires Coherent(r) && ProperBlocks(r.blocks) && r.list.None?
    ensures var next := AddListItem(r, indent, ordered, text);
      && Coherent(next) && ProperBlocks(next.blocks) && OpenOf(next) == ListOpen([indent])
      && PiecesSoFar(next) ==
           PiecesSoFar(r) + (Close(OpenOf(r)) + [ListStart(ordered)] + [NextItem([], indent, text)])
  {
    CoherentAfterItem(r, indent, ordered, text);
    EndParaCloses(r);
    var s := EndPara(r);
    NothingUnderWay(s.blocks);
    PiecesOfMoreItems([], indent, text);
    ItemAdded([], indent, text);
    assert [] + [Item(indent, [text])] == [Item(indent, [text])] && [] + [indent] == [indent];
    assert Indents([]) == [];
    var start, piece := [ListStart(ordered)], [NextItem([], indent, text)];
    assert PiecesOfItems([Item(indent, [text])]) == [] + piece;
    Assoc(PiecesSoFar(r), Close(OpenOf(r)), start + piece);
    Assoc(Close(OpenOf(r)), start, piece);
  }

  lemma MoreContributes(r: Reading, text: string)
    requires Coherent(r) && ProperBlocks(r.blocks) && r.list.Some?
    ensures var next := Continue(r, text);
      && Coherent(next) && next.blocks == r.blocks && OpenOf(next) == OpenOf(r)
      && PiecesSoFar(next) == PiecesSoFar(r) + [MorePiece(text)]
  {
    var items := r.list.value.items;
    var n := |items| - 1;
    var next := Continue(r, text).list.value.items;
    ItemContinued(items, text);
    assert next[..n] == items[..n];
    var parent := Parent(Indents(items), n);
    assert ItemPieces(parent, items[n].texts + [text]) == ItemPieces(parent, items[n].texts) + [MorePiece(text)];
    Assoc(PiecesOfItems(items[..n]), ItemPieces(parent, items[n].texts), [MorePiece(text)]);
    Assoc([ListStart(r.list.value.ordered)], PiecesOfItems(items), [MorePiece(text)]);
    Assoc(PiecesOfBlocks(r.blocks), [ListStart(r.list.value.ordered)] + PiecesOfItems(items), [MorePiece(text)]);
  }

  lemma PlainContributes(r: Reading, text: string)
    requires Coherent(r) && ProperBlocks(r.blocks)
    ensures var s := EndList(r);
      var next := s.(para := s.para + [text]);
      && Coherent(next) && ProperBlocks(next.blocks) && OpenOf(next) == ParaOpen
      && PiecesSoFar(next) ==
           PiecesSoFar(r) + (if OpenOf(r).ParaOpen? then [ParaPiece(text)] else Close(OpenOf(r)) + [ParaPiece(text)])
  {
    EndListCloses(r);
    var s := EndList(r);
    assert ParaPieces(s.para + [text]) == ParaPieces(s.para) + [ParaPiece(text)];
    Assoc(PiecesOfBlocks(s.blocks), ParaPieces(s.para), [ParaPiece(text)]);
    if r.list.Some? {
      Assoc(PiecesSoFar(r), [ListEnd], [ParaPiece(text)]);
    } else {
      assert PiecesSoFar(r) + [] == PiecesSoFar(r);
      if r.para == [] { assert Close(OpenOf(r)) + [ParaPiece(text)] == [ParaPiece(text)]; }
    }
  }

  lemma StepContributes(r: Reading, line: Line)
    requires Coherent(r) && ProperBlocks(r.blocks) && !OpensFence(line)
    ensures var next := Step(r, line);
      && ProperBlocks(next.blocks) && OpenOf(next) == Contribution(line, OpenOf(r)).1
      && PiecesSoFar(next) == PiecesSoFar(r) + Contribution(line, OpenOf(r)).0
  {
    if BlankLine(line) {
      EndParaCloses(r);
    } else {
      match line.shape
      case RuleLine => AddBlockContributes(r, Rule);
      case HeadingLine(level, text) => AddBlockContributes(r, Heading(level, text));
      case ItemLine(indent, ordered, text) =>
        if r.list.Some? { ItemContributesToList(r, indent, ordered, text); } else { ItemStartsList(r, indent, ordered, text); }
      case PlainLine =>
        if r.list.Some? && Indented(line) { MoreContributes(r, Trimmed(line)); } else { PlainContributes(r, Trimmed(line)); }
    }
  }

  lemma {:induction false} RawsAre(lines: seq<Line>, n: nat)
    requires n <= |lines|
    ensures Raws(lines[..n]) == RawLines(lines, n)
  {
    if n > 0 {
      RawsAre(lines, n - 1);
      RawsOfMore(lines, n - 1);
    }
  }

  lemma FenceIs(line: Line, rest: seq<Line>, n: nat)
    requires n <= |rest|
    ensures FenceOf(line) == FirstThree(Trimmed(line)) && Opens(line) == OpensFence(line)
    ensures Behind(rest, n) == AfterBody(rest, n)
  {
  }

  lemma {:induction false} ReadAddsUp(r: Reading, lines: seq<Line>)
    requires Coherent(r) && ProperBlocks(r.blocks)
    ensures ProperBlocks(Read(r, lines).blocks)
    ensures PiecesOfBlocks(Read(r, lines).blocks) == PiecesSoFar(r) + PiecesOfLines(lines, OpenOf(r))
    decreases |lines|
  {
    if lines == [] {
      BothClose(r);
    } else if OpensFence(lines[0]) {
      var rest := lines[1..];
      var n := BodyLength(rest, FirstThree(Trimmed(lines[0])));
      var code := Code(Raws(rest[..n]));
      AddBlockContributes(r, code);
      ReadAddsUp(AddBlock(r, code), AfterBody(rest, n));
      FenceIs(lines[0], rest, n);
      RawsAre(rest, n);
      Assoc(PiecesSoFar(r), Close(OpenOf(r)) + PiecesOfBlock(code), PiecesOfLines(AfterBody(rest, n), NoneOpen));
    } else {
      var (pieces, next) := Contribution(lines[0], OpenOf(r));
      FenceIs(lines[0], [], 0);
      StepContributes(r, lines[0]);
      ReadAddsUp(Step(r, lines[0]), lines[1..]);
      Assoc(PiecesSoFar(r), pieces, PiecesOfLines(lines[1..], next));
    }
  }

  lemma NothingBefore(pieces: seq<Piece>)
    ensures PiecesSoFar(NOTHING) + pieces == pieces
  {
    NothingUnderWay([]);
  }

  /** The parsed blocks, read from top to bottom, are what the lines contribute: every text once and
      in order, paragraphs and lists bounded as the lines bound them, items below their parents. */
  lemma BlocksKeepEveryPiece(lines: seq<Line>)
    ensures ProperBlocks(Blocks(lines))
    ensures PiecesOfBlocks(Blocks(lines)) == PiecesOfLines(lines, NoneOpen)
  {
    ReadAddsUp(NOTHING, lines);
    NothingBefore(PiecesOfLines(lines, NoneOpen));
  }

  // ----- Paragraphs as stretches of lines -----

  /** The trimmed texts of consecutive plain lines, from line `from` on, none of them blank. */
  ghost predicate IsStretch(lines: seq<Line>, texts: seq<string>, from: nat) {
    && from + |texts| <= |lines|
    && forall i :: 0 <= i < |texts| ==>
         var line := lines[from + i];
         line.shape.PlainLine? && texts[i] != "" && texts[i] == Trim(line.raw, IsJsSpace)
  }

  ghost predicate ParagraphsAreStretches(lines: seq<Line>, blocks: seq<Block>) {
    forall b :: 0 <= b < |blocks| && blocks[b].Paragraph? ==> exists from :: IsStretch(lines, blocks[b].lines, from)
  }

  /** The paragraph under way is the stretch that ends just before line k. */
  ghost predicate UpTo(lines: seq<Line>, r: Reading, k: nat) {
    && ParagraphsAreStretches(lines, r.blocks)
    && |r.para| <= k <= |lines| && IsStretch(lines, r.para, k - |r.para|)
  }

  lemma StretchEnds(lines: seq<Line>, r: Reading, k: nat)
    requires UpTo(lines, r, k)
    ensures ParagraphsAreStretches(lines, EndPara(r).blocks) && ParagraphsAreStretches(lines, EndList(EndPara(r)).blocks)
    ensures UpTo(lines, EndList(r), k)
  {
    assert IsStretch(lines, r.para, k - |r.para|);
  }

  lemma {:induction false} ReadKeepsStretches(lines: seq<Line>, r: Reading, k: nat)
    requires Coherent(r) && UpTo(lines, r, k)
    ensures ParagraphsAreStretches(lines, Read(r, lines[k..]).blocks)
    decreases |lines| - k
  {
    StretchEnds(lines, r, k);
    if k < |lines| {
      var line, rest := lines[k], lines[k + 1..];
      assert lines[k..][0] == line && lines[k..][1..] == rest;
      if OpensFence(line) {
        var n := BodyLength(rest, FirstThree(Trimmed(line)));
        var next := if n < |rest| then k + 1 + n + 1 else |lines|;
        assert AfterBody(rest, n) == lines[next..];
        ReadKeepsStretches(lines, AddBlock(r, Code(Raws(rest[..n]))), next);
      } else {
        StepKeepsStretches(lines, r, k);
        ReadKeepsStretches(lines, Step(r, line), k + 1);
      }
    }
  }

  lemma StretchGrows(lines: seq<Line>, para: seq<string>, k: nat)
    requires k < |lines| && |para| <= k && IsStretch(lines, para, k - |para|)
    requires lines[k].shape.PlainLine? && Trim(lines[k].raw, IsJsSpace) != ""
    ensures IsStretch(lines, para + [Trim(lines[k].raw, IsJsSpace)], k - |para|)
  {
    var more, from := para + [Trim(lines[k].raw, IsJsSpace)], k - |para|;
    forall i | 0 <= i < |more|
      ensures lines[from + i].shape.PlainLine? && more[i] != "" && more[i] == Trim(lines[from + i].raw, IsJsSpace)
    {
      if i < |para| { assert more[i] == para[i]; }
    }
  }

  lemma NoStretch(lines: seq<Line>, k: nat)
    requires k <= |lines|
    ensures IsStretch(lines, [], k)
  {
  }

  lemma StepKeepsStretches(lines: seq<Line>, r: Reading, k: nat)
    requires Coherent(r) && k < |lines| && UpTo(lines, r, k) && !OpensFence(lines[k])
    ensures UpTo(lines, Step(r, lines[k]), k + 1)
  {
    var line := lines[k];
    StretchEnds(lines, r, k);
    NoStretch(lines, k + 1);
    if !BlankLine(line) && line.shape.PlainLine? && !(r.list.Some? && Indented(line)) {
      var s := EndList(r);
      StretchGrows(lines, s.para, k);
      assert Step(r, line) == s.(para := s.para + [Trim(line.raw, IsJsSpace)]);
    }
  }

  /** Every paragraph is a stretch of consecutive plain lines; so no blank line lies inside one. */
  lemma EveryParagraphIsAStretch(lines: seq<Line>)
    ensures ParagraphsAreStretches(lines, Blocks(lines))
  {
    ReadKeepsStretches(lines, NOTHING, 0);
    assert lines[0..] == lines;
  }
}
