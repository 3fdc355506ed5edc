/**
 The line-by-line Markdown reader for update notes (src/lib/updateNotesMarkdown.ts). What the
 regular expressions say about a line is part of the input; inline markup stays unparsed text.
 */
module Markdown {
  import opened Wrappers
  import opened Sequences
  import opened Text
  import opened MarkdownLists

  /** The first of the line patterns, tried in this order, that a line matches. */
  datatype Shape =
    | FenceLine
    | RuleLine
    | HeadingLine(level: nat, heading: string)
    | ItemLine(indent: nat, ordered: bool, text: string)
    | PlainLine

  datatype Line = Line(raw: string, shape: Shape)

  /** A list carries the pieces of text of each item, by order of appearance, and its nesting. */
  datatype Block =
    | Heading(level: nat, text: string)
    | Paragraph(lines: seq<string>)
    | List(ordered: bool, texts: seq<seq<string>>, nesting: Arena)
    | Code(body: seq<string>)
    | Rule

  function Trimmed(line: Line): string {
    Trim(line.raw, IsJsSpace)
  }

  predicate BlankLine(line: Line) {
    Trimmed(line) == ""
  }

  predicate Indented(line: Line) {
    line.raw != "" && IsJsSpace(line.raw[0])
  }

  function FirstThree(s: string): string {
    if |s| < 3 then s else s[..3]
  }

  predicate StartsWith(s: string, prefix: string) {
    |prefix| <= |s| && s[..|prefix|] == prefix
  }

  // ----- The reference: no stack, no shared arrays -----

  /** An item of the list under way: its indent and its pieces of text. */
  datatype Item = Item(indent: nat, texts: seq<string>)
  datatype OpenList = OpenList(ordered: bool, items: seq<Item>)

  /** Finished blocks, the paragraph under way and the list under way. */
  datatype Reading = Reading(blocks: seq<Block>, para: seq<string>, list: Option<OpenList>)

  function Indents(items: seq<Item>): (inds: seq<nat>)
    ensures |inds| == |items|
  {
    seq(|items|, i requires 0 <= i < |items| => items[i].indent)
  }

  function Texts(items: seq<Item>): (texts: seq<seq<string>>)
    ensures |texts| == |items|
  {
    seq(|items|, i requires 0 <= i < |items| => items[i].texts)
  }

  function ListOf(l: OpenList): Block {
    List(l.ordered, Texts(l.items), ForestOf(Indents(l.items)))
  }

  function EndPara(r: Reading): Reading {
    Reading(if r.para == [] then r.blocks else r.blocks + [Paragraph(r.para)], [], r.list)
  }

  function EndList(r: Reading): Reading {
    Reading(if r.list.None? then r.blocks else r.blocks + [ListOf(r.list.value)], r.para, None)
  }

  function AddBlock(r: Reading, b: Block): Reading {
    var s := EndList(EndPara(r));
    s.(blocks := s.blocks + [b])
  }

  function AddListItem(r: Reading, indent: nat, ordered: bool, text: string): Reading {
    var s := EndPara(r);
    var l := if s.list.Some? then s.list.value else OpenList(ordered, []);
    s.(list := Some(l.(items := l.items + [Item(indent, [text])])))
  }

  /** More text for the item that came last. */
  function Continue(r: Reading, text: string): Reading
    requires r.list.Some? && r.list.value.items != []
  {
    var items := r.list.value.items;
    var n := |items| - 1;
    r.(list := Some(r.list.value.(items := items[n := items[n].(texts := items[n].texts + [text])])))
  }

  /** A list under way has an item, every item has text, and no paragraph is pending meanwhile. */
  ghost predicate Coherent(r: Reading) {
    r.list.Some? ==>
      r.para == [] && r.list.value.items != []
      && forall i :: 0 <= i < |r.list.value.items| ==> r.list.value.items[i].texts != []
  }

  /** How many lines follow before the closing fence, or all of them. */
  function BodyLength(lines: seq<Line>, fence: string): (n: nat)
    ensures n <= |lines|
  {
    if lines == [] || StartsWith(Trimmed(lines[0]), fence) then 0 else 1 + BodyLength(lines[1..], fence)
  }

  /** The body goes on as long as no line, once trimmed, starts with the fence, and stops at one
      that does. */
  lemma {:induction false} BodyEndsAtFence(lines: seq<Line>, fence: string)
    ensures var n := BodyLength(lines, fence);
      && (forall i :: 0 <= i < n ==> !(fence <= Trim(lines[i].raw, IsJsSpace)))
      && (n < |lines| ==> fence <= Trim(lines[n].raw, IsJsSpace))
  {
    if lines != [] && !StartsWith(Trimmed(lines[0]), fence) {
      BodyEndsAtFence(lines[1..], fence);
      assert forall i :: 0 < i < |lines| ==> lines[i] == lines[1..][i - 1];
    }
  }

  function Raws(lines: seq<Line>): seq<string> {
    seq(|lines|, i requires 0 <= i < |lines| => lines[i].raw)
  }

  /** What remains after a fenced body of n lines and its closing fence. */
  function AfterBody(lines: seq<Line>, n: nat): (rest: seq<Line>)
    requires n <= |lines|
    ensures |rest| <= |lines|
  {
    if n < |lines| then lines[n + 1..] else []
  }

  /** One line that does not open a fence. */
  function Step(r: Reading, line: Line): (next: Reading)
    requires Coherent(r) && (BlankLine(line) || !line.shape.FenceLine?)
    ensures Coherent(next)
  {
    if BlankLine(line) then EndPara(r)
    else
      match line.shape
      case RuleLine => AddBlock(r, Rule)
      case HeadingLine(level, text) => AddBlock(r, Heading(level, text))
      case ItemLine(indent, ordered, text) => AddListItem(r, indent, ordered, text)
      case PlainLine =>
        if r.list.Some? && Indented(line) then Continue(r, Trimmed(line))
        else
          var s := EndList(r);
          s.(para := s.para + [Trimmed(line)])
  }

  predicate OpensFence(line: Line) {
    !BlankLine(line) && line.shape.FenceLine?
  }

  function Read(r: Reading, lines: seq<Line>): (out: Reading)
    requires Coherent(r)
    decreases |lines|
  {
    if lines == [] then EndList(EndPara(r))
    else
      var line, rest := lines[0], lines[1..];
      if OpensFence(line) then
        var n := BodyLength(rest, FirstThree(Trimmed(line)));
        Read(AddBlock(r, Code(Raws(rest[..n]))), AfterBody(rest, n))
      else Read(Step(r, line), rest)
  }

  const NOTHING: Reading := Reading([], [], None)

  function Blocks(lines: seq<Line>): seq<Block> {
    Read(NOTHING, lines).blocks
  }

  // ----- The reader -----

  /** Item arrays are mutated through the stack; `arena` keeps them by owner. */
  class Reader {
    var blocks: seq<Block>
    var para: seq<string>
    var open: bool
    var ordered: bool
    var texts: seq<seq<string>>
    var arena: Arena
    var stack: seq<Level>
    ghost var items: seq<Item>
    ghost var chain: seq<nat>

    constructor ()
      ensures Valid() && Abstract() == NOTHING
    {
      blocks, para, open, ordered, texts := [], [], false, false, [];
      arena, stack := Arena([], []), [];
      items, chain := [], [];
    }

    ghost predicate Valid()
      reads this
    {
      && Coherent(Abstract())
      && (open ==>
           && texts == Texts(items)
           && OnSpine(ListState(arena, stack), Indents(items), chain))
    }

    ghost function Abstract(): Reading
      reads this
    {
      Reading(blocks, para, if open then Some(OpenList(ordered, items)) else None)
    }

    method FlushPara()
      requires Valid()
      modifies this`blocks, this`para
      ensures Valid() && Abstract() == EndPara(old(Abstract()))
    {
      if |para| > 0 { blocks := blocks + [Paragraph(para)]; }
      para := [];
    }

    method CloseList()
      requires Valid()
      modifies this`blocks, this`open, this`stack
      ensures Valid() && Abstract() == EndList(old(Abstract()))
    {
      if open {
        blocks := blocks + [List(ordered, texts, arena)];
      }
      open := false;
      stack := [];
    }

    /** Finds the level for an item with this indent and appends to its array. */
    method Place(indent: nat)
      requires Usable(ListState(arena, stack)) && ValidItems(arena)
      modifies this`stack, this`arena
      ensures ListState(arena, stack) == AddItem(old(ListState(arena, stack)), indent)
    {
      ghost var all := stack;
      while |stack| > 1 && indent < stack[|stack| - 1].indent
        invariant stack != [] && |stack| <= |all| && stack == all[..|stack|]
        invariant PopTo(stack, indent) == PopTo(all, indent)
        modifies this`stack
      {
        stack := stack[..|stack| - 1];
      }
      var top := stack[|stack| - 1];
      var siblings := ArrayOf(arena, top.items);
      if indent > top.indent && |siblings| > 0 {
        top := Level(indent, ChildrenOf(siblings[|siblings| - 1]));
        stack := stack + [top];
      }
      arena := Append(arena, top.items);
    }

    /** A list to add to: the one under way, or a new one with this indent as its outermost level. */
    method EnsureOpen(indent: nat, itemOrdered: bool)
      requires Valid()
      modifies this`open, this`ordered, this`texts, this`items, this`arena, this`stack
      ensures open && texts == Texts(items) && Before(ListState(arena, stack), items, chain, indent)
      ensures ordered == (if old(open) then old(ordered) else itemOrdered)
      ensures items == if old(open) then old(items) else []
    {
      if !open {
        open, ordered, texts, items := true, itemOrdered, [], [];
        arena, stack := Arena([], []), [Level(indent, Root)];
      }
    }

    method AppendItem(indent: nat, text: string)
      requires texts == Texts(items) && Before(ListState(arena, stack), items, chain, indent)
      modifies this`texts, this`items, this`chain, this`arena, this`stack
      ensures items == old(items) + [Item(indent, [text])] && texts == Texts(items)
      ensures OnSpine(ListState(arena, stack), Indents(items), chain)
    {
      ghost var next := ItemChain(ListState(arena, stack), items, chain, indent);
      ItemAdded(items, indent, text);
      Place(indent);
      texts := texts + [[text]];
      items := items + [Item(indent, [text])];
      chain := next;
    }

    method ListItem(indent: nat, itemOrdered: bool, text: string)
      requires Valid()
      modifies this
      ensures Valid() && Abstract() == AddListItem(old(Abstract()), indent, itemOrdered, text)
    {
      CoherentAfterItem(Abstract(), indent, itemOrdered, text);
      FlushPara();
      EnsureOpen(indent, itemOrdered);
      AppendItem(indent, text);
    }

    method Push(b: Block)
      requires Valid()
      modifies this`blocks, this`para, this`open, this`stack
      ensures Valid() && Abstract() == AddBlock(old(Abstract()), b)
    {
      FlushPara();
      CloseList();
      blocks := blocks + [b];
    }

    method TakeLine(line: Line)
      requires Valid() && !OpensFence(line)
      modifies this
      ensures Valid() && Abstract() == Step(old(Abstract()), line)
    {
      if BlankLine(line) {
        FlushPara();
        return;
      }
      match line.shape
      case RuleLine => Push(Rule);
      case HeadingLine(level, text) => Push(Heading(level, text));
      case ItemLine(indent, ordered, text) => ListItem(indent, ordered, text);
      case PlainLine =>
        if open && Indented(line) {
          ContinueItem(Trimmed(line));
        } else {
          CloseList();
          para := para + [Trimmed(line)];
        }
    }

    method ContinueItem(text: string)
      requires Valid() && open
      modifies this`texts, this`items
      ensures Valid() && Abstract() == Continue(old(Abstract()), text)
    {
      LastOnSpine(ListState(arena, stack), Indents(items), chain);
      var siblings := ArrayOf(arena, stack[|stack| - 1].items);
      var last := siblings[|siblings| - 1];
      ItemContinued(items, text);
      texts := texts[last := texts[last] + [text]];
      items := items[last := items[last].(texts := items[last].texts + [text])];
    }
  }

  lemma ItemContinued(items: seq<Item>, text: string)
    requires items != []
    ensures var n := |items| - 1;
      var more := items[n := items[n].(texts := items[n].texts + [text])];
      Indents(more) == Indents(items) && Texts(more) == Texts(items)[n := Texts(items)[n] + [text]]
  {
  }

  lemma CoherentAfterItem(r: Reading, indent: nat, ordered: bool, text: string)
    requires Coherent(r)
    ensures Coherent(AddListItem(r, indent, ordered, text))
  {
  }

  /** The stack's top array is not empty and ends with the item that came last. */
  lemma LastOnSpine(st: ListState, inds: seq<nat>, chain: seq<nat>)
    requires OnSpine(st, inds, chain)
    ensures st.stack != [] && ValidRef(st.arena, st.stack[|st.stack| - 1].items)
    ensures var top := ArrayOf(st.arena, st.stack[|st.stack| - 1].items);
      top != [] && top[|top| - 1] == |inds| - 1
  {
  }

  ghost predicate Before(st: ListState, items: seq<Item>, chain: seq<nat>, indent: nat) {
    if items == [] then st == Opened(indent) else OnSpine(st, Indents(items), chain)
  }

  ghost function ItemChain(st: ListState, items: seq<Item>, chain: seq<nat>, indent: nat): (next: seq<nat>)
    requires Before(st, items, chain, indent)
    ensures Usable(st) && ValidItems(st.arena)
    ensures OnSpine(AddItem(st, indent), Indents(items) + [indent], next)
  {
    if items == [] then
      FirstItemOnSpine(indent);
      assert Indents(items) + [indent] == [indent];
      [0]
    else
      SpineAfter(st, Indents(items), chain, indent);
      var next :| OnSpine(AddItem(st, indent), Indents(items) + [indent], next);
      next
  }

  lemma SpineAfter(st: ListState, inds: seq<nat>, chain: seq<nat>, d: nat)
    requires OnSpine(st, inds, chain)
    ensures Usable(st) && ValidItems(st.arena)
    ensures exists next :: OnSpine(AddItem(st, d), inds + [d], next)
  {
    var next := AddItemKeepsSpine(st, inds, chain, d);
  }

  lemma ItemAdded(items: seq<Item>, indent: nat, text: string)
    ensures Indents(items + [Item(indent, [text])]) == Indents(items) + [indent]
    ensures Texts(items + [Item(indent, [text])]) == Texts(items) + [[text]]
  {
  }

  lemma RawsOfMore(lines: seq<Line>, k: nat)
    requires k < |lines|
    ensures Raws(lines[..k + 1]) == Raws(lines[..k]) + [lines[k].raw]
  {
  }

  /** The lines of a fenced body from `from` on, and the index after the closing fence. */
  method FencedBody(lines: seq<Line>, from: nat, fence: string) returns (body: seq<string>, next: nat)
    requires from <= |lines|
    ensures var n := BodyLength(lines[from..], fence);
      body == Raws(lines[from..][..n]) && next <= |lines| && lines[next..] == AfterBody(lines[from..], n)
    ensures from <= next
  {
    body := [];
    var i := from;
    ghost var rest := lines[from..];
    while i < |lines| && !StartsWith(Trimmed(lines[i]), fence)
      invariant from <= i <= |lines|
      invariant body == Raws(rest[..i - from])
      invariant BodyLength(rest, fence) == i - from + BodyLength(lines[i..], fence)
    {
      assert lines[i..][1..] == lines[i + 1..];
      RawsOfMore(rest, i - from);
      body := body + [lines[i].raw];
      i := i + 1;
    }
    next := if i < |lines| then i + 1 else i;
  }

  method ParseMarkdown(lines: seq<Line>) returns (out: seq<Block>)
    ensures out == Blocks(lines)
  {
    var reader := new Reader();
    var i := 0;
    assert lines[0..] == lines;
    while i < |lines|
      invariant i <= |lines| && reader.Valid()
      invariant Read(reader.Abstract(), lines[i..]) == Read(NOTHING, lines)
    {
      var line := lines[i];
      assert lines[i..][0] == line && lines[i..][1..] == lines[i + 1..];
      if !BlankLine(line) && line.shape.FenceLine? {
        var body, next := FencedBody(lines, i + 1, FirstThree(Trimmed(line)));
        reader.Push(Code(body));
        i := next;
      } else {
        reader.TakeLine(line);
        i := i + 1;
      }
    }
    assert lines[i..] == [];
    reader.FlushPara();
    reader.CloseList();
    out := reader.blocks;
  }
}
