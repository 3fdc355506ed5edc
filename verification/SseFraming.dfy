/**
 Cutting a stream of server-sent events into frames while it arrives
 (src-tauri/examples/chatgpt_smoke.rs): however the stream is chunked, the frames are those of the
 whole text. A chunk that is not valid UTF-8 counts as empty, as in the source.
 */
module SseFraming {
  import opened Wrappers
  import opened Sequences
  import opened Text

  const SEPARATOR := "\n\n"

  // ----- Batch -----

  /** The frames of a text, each ended by a blank line. */
  function Frames(s: string): seq<string>
    decreases |s|
  {
    var at := IndexOf(s, SEPARATOR, 0);
    if at.None? then [] else [s[..at.value]] + Frames(s[at.value + 2..])
  }

  /** What remains after the last blank line. */
  function Leftover(s: string): string
    decreases |s|
  {
    var at := IndexOf(s, SEPARATOR, 0);
    if at.None? then s else Leftover(s[at.value + 2..])
  }

  /** Frames put together again, each with its separator. */
  function Unframe(frames: seq<string>): string {
    if frames == [] then "" else frames[0] + "\n\n" + Unframe(frames[1..])
  }

  lemma SplitAtFirst(s: string, at: nat)
    requires OccursAt(s, SEPARATOR, at)
    ensures s == s[..at] + SEPARATOR + s[at + 2..]
  {
  }

  /** Nothing is lost: the frames, each followed by a blank line, and the leftover are the text. */
  lemma {:induction false} FramesAndLeftoverAreTheText(s: string)
    ensures Unframe(Frames(s)) + Leftover(s) == s
    decreases |s|
  {
    var at := IndexOf(s, SEPARATOR, 0);
    if at.Some? {
      var rest := s[at.value + 2..];
      FramesAndLeftoverAreTheText(rest);
      SplitAtFirst(s, at.value);
      ConsTail(s[..at.value], Frames(rest));
      Assoc(s[..at.value] + SEPARATOR, Unframe(Frames(rest)), Leftover(rest));
    }
  }

  /** The leftover holds no blank line. */
  lemma {:induction false} LeftoverHasNoSeparator(s: string, j: nat)
    ensures !OccursAt(Leftover(s), "\n\n", j)
    decreases |s|
  {
    var at := IndexOf(s, SEPARATOR, 0);
    if at.Some? {
      LeftoverHasNoSeparator(s[at.value + 2..], j);
    } else if OccursAt(s, SEPARATOR, j) {
      IndexOfFinds(s, SEPARATOR, 0, j);
    }
  }

  /** No frame holds one either. */
  lemma {:induction false} FramesHaveNoSeparator(s: string, i: nat, j: nat)
    requires i < |Frames(s)|
    ensures !OccursAt(Frames(s)[i], "\n\n", j)
    decreases |s|
  {
    var at := IndexOf(s, SEPARATOR, 0).value;
    if i > 0 {
      FramesHaveNoSeparator(s[at + 2..], i - 1, j);
    } else if OccursAt(s[..at], SEPARATOR, j) {
      assert s[..at][j..j + 2] == s[j..j + 2];
      IndexOfFinds(s, SEPARATOR, 0, j);
    }
  }

  /** The first blank line stays the first when more text arrives. */
  lemma FirstSeparatorStays(s: string, more: string)
    requires IndexOf(s, SEPARATOR, 0).Some?
    ensures IndexOf(s + more, SEPARATOR, 0) == IndexOf(s, SEPARATOR, 0)
  {
    var at := IndexOf(s, SEPARATOR, 0).value;
    assert (s + more)[at..at + 2] == s[at..at + 2];
    forall j | 0 <= j < at ensures !OccursAt(s + more, SEPARATOR, j) {
      if OccursAt(s + more, SEPARATOR, j) {
        assert (s + more)[j..j + 2] == s[j..j + 2];
        IndexOfFinds(s, SEPARATOR, 0, j);
      }
    }
    IndexOfIs(s + more, SEPARATOR, 0, at);
  }

  /** Framing what has arrived, keeping the leftover, and framing it together with what arrives
      next is framing everything. */
  lemma {:induction false} FramesOfMore(s: string, more: string)
    ensures Frames(s + more) == Frames(s) + Frames(Leftover(s) + more)
    ensures Leftover(s + more) == Leftover(Leftover(s) + more)
    decreases |s|
  {
    var at := IndexOf(s, SEPARATOR, 0);
    if at.Some? {
      var rest := s[at.value + 2..];
      FirstSeparatorStays(s, more);
      assert (s + more)[..at.value] == s[..at.value] && (s + more)[at.value + 2..] == rest + more;
      FramesOfMore(rest, more);
      Assoc([s[..at.value]], Frames(rest), Frames(Leftover(rest) + more));
    } else {
      assert [] + Frames(s + more) == Frames(s + more);
    }
  }

  // ----- The event in a frame -----

  /** The lines of the parts between line feeds. */
  function LinesOf(parts: seq<string>): seq<string>
    requires parts != []
  {
    var n := |parts| - 1;
    seq(n, i requires 0 <= i < n => DropReturn(parts[i])) + (if parts[n] == "" then [] else [parts[n]])
  }

  /** Lines end at a line feed, with a carriage return before it dropped; an empty last line is none. */
  function Lines(frame: string): seq<string> {
    LinesOf(Split(frame, '\n'))
  }

  function DropReturn(line: string): string {
    if line != "" && line[|line| - 1] == '\r' then line[..|line| - 1] else line
  }

  predicate HasPrefix(s: string, prefix: string) {
    |prefix| <= |s| && s[..|prefix|] == prefix
  }

  datatype Event = Event(name: string, data: string)

  const EVENT := "event: "
  const DATA := "data: "

  function TakeLine(e: Event, line: string): Event {
    if HasPrefix(line, EVENT) then e.(name := line[|EVENT|..])
    else if HasPrefix(line, DATA) then
      e.(data := e.data + (if e.data == "" then "" else "\n") + line[|DATA|..])
    else e
  }

  function EventOfLines(lines: seq<string>): Event {
    if lines == [] then Event("", "") else TakeLine(EventOfLines(lines[..|lines| - 1]), lines[|lines| - 1])
  }

  function EventOf(frame: string): Event {
    EventOfLines(Lines(frame))
  }

  /** The data lines of a frame, without their prefix. */
  function DataLines(lines: seq<string>): seq<string> {
    if lines == [] then []
    else
      var last := lines[|lines| - 1];
      DataLines(lines[..|lines| - 1]) + (if "data: " <= last && !("event: " <= last) then [last[6..]] else [])
  }

  /** Without the empty strings in front. */
  function DropEmpty(parts: seq<string>): (rest: seq<string>)
    ensures rest != [] ==> rest[0] != ""
  {
    if parts != [] && parts[0] == "" then DropEmpty(parts[1..]) else parts
  }

  method ParseFrame(frame: string) returns (e: Event)
    ensures e == EventOf(frame)
    ensures e.data == Join(DropEmpty(DataLines(Lines(frame))), '\n')
    ensures IsLastName(Lines(frame), e.name)
  {
    var lines := Lines(frame);
    var name, data := "", "";
    for i := 0 to |lines|
      invariant Event(name, data) == EventOfLines(lines[..i])
    {
      assert lines[..i + 1][..i] == lines[..i];
      var line := lines[i];
      if HasPrefix(line, EVENT) {
        name := line[|EVENT|..];
      } else if HasPrefix(line, DATA) {
        if data != "" { data := data + "\n"; }
        data := data + line[|DATA|..];
      }
    }
    assert lines[..|lines|] == lines;
    e := Event(name, data);
    NameIsLast(lines);
    DataIsJoined(lines);
  }

  // ----- What the event says -----

  /** Line i is an event line and no later line is one. */
  ghost predicate LastEventLine(lines: seq<string>, i: nat) {
    i < |lines| && "event: " <= lines[i] && forall j :: i < j < |lines| ==> !("event: " <= lines[j])
  }

  /** The name on the last event line; none without an event line. */
  ghost predicate IsLastName(lines: seq<string>, name: string) {
    || (name == "" && forall i :: 0 <= i < |lines| ==> !("event: " <= lines[i]))
    || exists i: nat :: LastEventLine(lines, i) && name == lines[i][7..]
  }

  lemma {:induction false} NameIsLast(lines: seq<string>)
    ensures IsLastName(lines, EventOfLines(lines).name)
  {
    if lines != [] {
      var n := |lines| - 1;
      NameIsLast(lines[..n]);
      if HasPrefix(lines[n], EVENT) {
        assert LastEventLine(lines, n);
      } else if exists i: nat :: LastEventLine(lines[..n], i) && EventOfLines(lines[..n]).name == lines[..n][i][7..] {
        var i: nat :| LastEventLine(lines[..n], i) && EventOfLines(lines[..n]).name == lines[..n][i][7..];
        assert forall j :: 0 <= j < n ==> lines[j] == lines[..n][j];
        assert LastEventLine(lines, i);
      }
    }
  }

  lemma {:induction false} JoinMore(parts: seq<string>, x: string)
    ensures Join(parts + [x], '\n') == if parts == [] then x else Join(parts, '\n') + "\n" + x
  {
    if |parts| > 1 {
      JoinMore(parts[1..], x);
      ConcatTail(parts, [x]);
      Assoc(parts[0] + "\n", Join(parts[1..], '\n') + "\n", x);
      Assoc(parts[0] + "\n", Join(parts[1..], '\n'), "\n");
    } else if |parts| == 1 {
      assert (parts + [x])[1..] == [x];
    }
  }

  lemma {:induction false} DropEmptyMore(parts: seq<string>, x: string)
    ensures DropEmpty(parts + [x]) ==
      if DropEmpty(parts) != [] then DropEmpty(parts) + [x] else if x == "" then [] else [x]
  {
    if parts == [] {
      assert parts + [x] == [x] && [x][1..] == [];
    } else if parts[0] == "" {
      DropEmptyMore(parts[1..], x);
      ConcatTail(parts, [x]);
    }
  }

  lemma JoinIsEmpty(parts: seq<string>)
    requires parts != [] ==> parts[0] != ""
    ensures Join(parts, '\n') == "" <==> parts == []
  {
  }

  /** The data is the data lines joined by line feeds, from the first one that is not empty on. */
  lemma {:induction false} DataIsJoined(lines: seq<string>)
    ensures EventOfLines(lines).data == Join(DropEmpty(DataLines(lines)), '\n')
  {
    if lines != [] {
      var n := |lines| - 1;
      var before := DataLines(lines[..n]);
      DataIsJoined(lines[..n]);
      if HasPrefix(lines[n], DATA) && !HasPrefix(lines[n], EVENT) {
        var x := lines[n][|DATA|..];
        DropEmptyMore(before, x);
        JoinMore(DropEmpty(before), x);
        JoinIsEmpty(DropEmpty(before));
      } else {
        assert before + [] == before;
      }
    }
  }

  lemma {:induction false} DroppingShortens(parts: seq<string>)
    ensures |Join(DropEmpty(parts), '\n')| <= |Join(parts, '\n')|
  {
    if parts != [] && parts[0] == "" { DroppingShortens(parts[1..]); }
  }

  /** So it is the join of all data lines exactly when there is at most one of them or the first is
      not empty; otherwise the line feed after an empty first line is lost. */
  lemma DataIsJoinOfAllIff(frame: string)
    ensures var parts := DataLines(Lines(frame));
      EventOf(frame).data == Join(parts, '\n') <==> |parts| <= 1 || parts[0] != ""
  {
    var parts := DataLines(Lines(frame));
    DataIsJoined(Lines(frame));
    if parts != [] && parts[0] == "" {
      DroppingShortens(parts[1..]);
      if |parts| == 1 { assert DropEmpty(parts[1..]) == []; }
    }
  }

  lemma LinesOfTwo(a: string, b: string)
    requires '\n' !in a && '\n' !in b && b != ""
    requires a != "" ==> a[|a| - 1] != '\r'
    ensures Lines(a + "\n" + b) == [a, b]
  {
    SplitAcross(a, '\n', b);
    SplitWithoutSeparator(a, '\n');
    SplitWithoutSeparator(b, '\n');
    assert [a] + [b] == [a, b];
  }

  lemma DataLinesOfTwo(a: string, b: string)
    requires "data: " <= a && "data: " <= b
    ensures DataLines([a, b]) == [a[6..], b[6..]]
  {
    assert a[0] == 'd' && b[0] == 'd';
    assert [a, b][..1] == [a] && [a][..0] == [];
    assert DataLines([a]) == [] + [a[6..]];
  }

  /** Two data lines, the first of them empty: the event's data lacks the line feed between them. */
  lemma LeadingEmptyDataIsLost()
    ensures var frame := "data: " + "\n" + ("data: " + "x");
      EventOf(frame).data == "x" && Join(DataLines(Lines(frame)), '\n') == "\nx"
  {
    var a, b := DATA, DATA + "x";
    LinesOfTwo(a, b);
    DataLinesOfTwo(a, b);
    DataIsJoined([a, b]);
    assert a[|DATA|..] == "" && b[|DATA|..] == "x";
    assert ["", "x"][1..] == ["x"];
  }

  lemma OneMoreLine(line: string, parts: seq<string>)
    requires parts != []
    ensures LinesOf([line] + parts) == [DropReturn(line)] + LinesOf(parts)
  {
    var (all, n) := ([line] + parts, |parts| - 1);
    assert all[n + 1] == parts[n];
    assert seq(n + 1, i requires 0 <= i < n + 1 => DropReturn(all[i])) ==
      [DropReturn(line)] + seq(n, i requires 0 <= i < n => DropReturn(parts[i]));
  }

  /** Lines end at line feeds, of which a carriage return before it is part; an empty rest is no line. */
  lemma LinesAre(line: string, rest: string)
    requires '\n' !in line
    ensures Lines(line) == if line == "" then [] else [line]
    ensures Lines(line + "\n" + rest) ==
      [if line != "" && line[|line| - 1] == '\r' then line[..|line| - 1] else line] + Lines(rest)
  {
    SplitWithoutSeparator(line, '\n');
    SplitAcross(line, '\n', rest);
    OneMoreLine(line, Split(rest, '\n'));
  }

  // ----- The tally -----

  function FirstChars(s: string, n: nat): string {
    if |s| <= n then s else s[..n]
  }

  /** How many frames name this event. */
  function CountOf(frames: seq<string>, name: string): nat {
    if frames == [] then 0
    else CountOf(frames[..|frames| - 1], name) + (if EventOf(frames[|frames| - 1]).name == name then 1 else 0)
  }

  /** The beginning of the data of the first frame that names this event. */
  function SampleOf(frames: seq<string>, name: string, limit: nat): Option<string> {
    if frames == [] then None
    else if EventOf(frames[0]).name == name then Some(FirstChars(EventOf(frames[0]).data, limit))
    else SampleOf(frames[1..], name, limit)
  }

  /** The frames that name this event. */
  ghost function Naming(frames: seq<string>, name: string): set<nat> {
    set i: nat | i < |frames| && EventOf(frames[i]).name == name
  }

  lemma NamingMore(frames: seq<string>, frame: string, name: string)
    ensures Naming(frames + [frame], name) ==
      if EventOf(frame).name == name then Naming(frames, name) + {|frames|} else Naming(frames, name)
    ensures |frames| !in Naming(frames, name)
  {
  }

  /** A count is the size of the set of those frames. */
  lemma {:induction false} CountIsSize(frames: seq<string>, name: string)
    ensures CountOf(frames, name) == |Naming(frames, name)|
  {
    if frames == [] {
      assert Naming(frames, name) == {};
    } else {
      var before, frame := frames[..|frames| - 1], frames[|frames| - 1];
      CountIsSize(before, name);
      assert before + [frame] == frames;
      CountOfMore(before, frame, name);
      NamingMore(before, frame, name);
    }
  }

  /** A sample is the first characters, up to the limit, of the data of the first such frame. */
  lemma {:induction false} SampleIsOfFirst(frames: seq<string>, name: string, limit: nat, i: nat)
    requires i < |frames| && EventOf(frames[i]).name == name && forall j :: 0 <= j < i ==> EventOf(frames[j]).name != name
    ensures var data := EventOf(frames[i]).data;
      SampleOf(frames, name, limit) == Some(if |data| <= limit then data else data[..limit])
  {
    if i > 0 {
      assert frames[1..][i - 1] == frames[i];
      assert forall j :: 0 <= j < i - 1 ==> frames[1..][j] == frames[j + 1];
      SampleIsOfFirst(frames[1..], name, limit, i - 1);
    }
  }

  /** Counts and samples by event name. */
  datatype Tally = Tally(counts: map<string, nat>, samples: map<string, string>)

  /** A name that occurs has its count and its sample, any other has neither. */
  ghost predicate RightAbout(t: Tally, frames: seq<string>, limit: nat, name: string) {
    && (name in t.counts <==> name in t.samples)
    && (name in t.counts ==>
         t.counts[name] == CountOf(frames, name) && Some(t.samples[name]) == SampleOf(frames, name, limit))
    && (name !in t.counts ==> CountOf(frames, name) == 0 && SampleOf(frames, name, limit) == None)
  }

  /** Frames without an event name are skipped; about every other name the tally is right. */
  ghost predicate Tallies(t: Tally, frames: seq<string>, limit: nat) {
    && "" !in t.counts && "" !in t.samples
    && forall name :: name != "" ==> RightAbout(t, frames, limit, name)
  }

  /** One more event. */
  function Noted(t: Tally, e: Event, limit: nat): Tally {
    if e.name == "" then t
    else
      Tally(t.counts[e.name := (if e.name in t.counts then t.counts[e.name] else 0) + 1],
            if e.name in t.samples then t.samples else t.samples[e.name := FirstChars(e.data, limit)])
  }

  lemma {:induction false} SampleOfMore(frames: seq<string>, frame: string, name: string, limit: nat)
    ensures SampleOf(frames + [frame], name, limit) ==
      if SampleOf(frames, name, limit).Some? then SampleOf(frames, name, limit)
      else if EventOf(frame).name == name then Some(FirstChars(EventOf(frame).data, limit)) else None
    decreases |frames|
  {
    if frames == [] {
      assert [] + [frame] == [frame] && [frame][1..] == [];
    } else {
      SampleOfMore(frames[1..], frame, name, limit);
      ConcatTail(frames, [frame]);
    }
  }

  lemma CountOfMore(frames: seq<string>, frame: string, name: string)
    ensures CountOf(frames + [frame], name) ==
      CountOf(frames, name) + (if EventOf(frame).name == name then 1 else 0)
  {
  }

  lemma TalliesMore(t: Tally, frames: seq<string>, frame: string, limit: nat)
    requires Tallies(t, frames, limit)
    ensures Tallies(Noted(t, EventOf(frame), limit), frames + [frame], limit)
  {
    var next := Noted(t, EventOf(frame), limit);
    forall name | name != "" ensures RightAbout(next, frames + [frame], limit, name) {
      assert RightAbout(t, frames, limit, name);
      CountOfMore(frames, frame, name);
      SampleOfMore(frames, frame, name, limit);
    }
  }

  // ----- The reading loop -----

  /** What a chunk adds to the buffer. */
  function Decoded(chunk: Option<string>): string {
    if chunk.Some? then chunk.value else ""
  }

  function Received(chunks: seq<Option<string>>): string {
    if chunks == [] then "" else Received(chunks[..|chunks| - 1]) + Decoded(chunks[|chunks| - 1])
  }

  class StreamReader {
    const limit: nat
    var buf: string
    var counts: map<string, nat>
    var samples: map<string, string>
    ghost var frames: seq<string>

    constructor (limit: nat)
      ensures this.limit == limit && buf == "" && frames == [] && Tallied()
    {
      this.limit := limit;
      buf, counts, samples, frames := "", map[], map[], [];
    }

    ghost predicate Tallied()
      reads this
    {
      Tallies(Tally(counts, samples), frames, limit)
    }

    method Count(frame: string)
      requires Tallied()
      modifies this`counts, this`samples, this`frames
      ensures frames == old(frames) + [frame] && Tallied()
    {
      TalliesMore(Tally(counts, samples), frames, frame, limit);
      var e := ParseFrame(frame);
      frames := frames + [frame];
      if e.name == "" { return; }
      counts := counts[e.name := (if e.name in counts then counts[e.name] else 0) + 1];
      if e.name !in samples { samples := samples[e.name := FirstChars(e.data, limit)]; }
    }

    /** One chunk: append it and take out the frames that are complete. */
    method Feed(chunk: Option<string>)
      requires Tallied()
      modifies this
      ensures Tallied()
      ensures frames == old(frames) + Frames(old(buf) + Decoded(chunk))
      ensures buf == Leftover(old(buf) + Decoded(chunk))
    {
      buf := buf + Decoded(chunk);
      ghost var all, before := buf, frames;
      assert before + Frames(all) == frames + Frames(buf);
      while IndexOf(buf, SEPARATOR, 0).Some?
        invariant Tallied()
        invariant before + Frames(all) == frames + Frames(buf) && Leftover(all) == Leftover(buf)
        decreases |buf|
      {
        var idx := IndexOf(buf, SEPARATOR, 0).value;
        var frame := buf[..idx];
        Assoc(frames, [frame], Frames(buf[idx + 2..]));
        buf := buf[idx + 2..];
        Count(frame);
      }
      assert frames + [] == frames;
    }
  }

  /** The reader has been fed exactly these chunks, as far as its state can tell. */
  ghost predicate HasRead(reader: StreamReader, chunks: seq<Option<string>>)
    reads reader
  {
    && reader.Tallied()
    && reader.frames == Frames(Received(chunks)) && reader.buf == Leftover(Received(chunks))
  }

  /** For every way of chunking the stream, the frames, the tally and the leftover are those of the
      text received as a whole. */
  method ReadStream(chunks: seq<Option<string>>, limit: nat) returns (reader: StreamReader)
    ensures HasRead(reader, chunks) && reader.limit == limit
    ensures Tallies(Tally(reader.counts, reader.samples), Frames(Received(chunks)), limit)
  {
    reader := new StreamReader(limit);
    assert Frames("") == [] && Leftover("") == "";
    for i := 0 to |chunks|
      invariant fresh(reader) && reader.limit == limit && HasRead(reader, chunks[..i])
    {
      assert chunks[..i + 1][..i] == chunks[..i];
      FramesOfMore(Received(chunks[..i]), Decoded(chunks[i]));
      reader.Feed(chunks[i]);
    }
    assert chunks[..|chunks|] == chunks;
  }

  lemma {:induction false} ReceivedMore(chunks: seq<Option<string>>, more: seq<Option<string>>)
    ensures Received(chunks + more) == Received(chunks) + Received(more)
  {
    if more == [] {
      assert chunks + more == chunks;
    } else {
      var n := |more| - 1;
      ReceivedMore(chunks, more[..n]);
      assert (chunks + more)[..|chunks| + n] == chunks + more[..n];
      Assoc(Received(chunks), Received(more[..n]), Decoded(more[n]));
    }
  }

  /** A list of frames has one tally only. */
  lemma TallyIsUnique(t: Tally, u: Tally, frames: seq<string>, limit: nat)
    requires Tallies(t, frames, limit) && Tallies(u, frames, limit)
    ensures t == u
  {
    forall name | name != ""
      ensures name in t.counts <==> name in u.counts
      ensures name in t.samples <==> name in u.samples
      ensures name in t.counts ==> t.counts[name] == u.counts[name]
      ensures name in t.samples ==> t.samples[name] == u.samples[name]
    {
      assert RightAbout(t, frames, limit, name) && RightAbout(u, frames, limit, name);
    }
    assert t.counts == u.counts && t.samples == u.samples;
  }

  /** Two readers that were fed the same text in different chunks, and the same chunks since, have
      the same frames, leftover and tally. */
  lemma {:induction false} ChunkingDoesNotMatter(
      x: StreamReader, y: StreamReader, a: seq<Option<string>>, b: seq<Option<string>>, more: seq<Option<string>>)
    requires Received(a) == Received(b) && x.limit == y.limit
    requires HasRead(x, a + more) && HasRead(y, b + more)
    ensures x.frames == y.frames && x.buf == y.buf
    ensures x.counts == y.counts && x.samples == y.samples
  {
    ReceivedMore(a, more);
    ReceivedMore(b, more);
    TallyIsUnique(Tally(x.counts, x.samples), Tally(y.counts, y.samples), x.frames, x.limit);
  }
}
