/** The byte-at-a-time decoder of a leaf's notification stream, against a declarative reading of
    the stream: lines, groups of lines, events. The rules are this program's own variant of section
    9.2.6 of the WHATWG HTML Living Standard. */
module EventStream {
  import opened Common
  import opened Utf8

  type Line = seq<byte>
  type Payload = seq<byte>

  const LF: byte := 10
  const CR: byte := 13
  const SPACE: byte := 32
  const COLON: byte := 58
  const DATA: seq<byte> := [100, 97, 116, 97, 58]

  // ---------- Lines ----------

  datatype Split = Split(lines: seq<Line>, rest: Line)

  /** The lines that a stream has terminated with LF, and the unterminated rest. */
  function SplitLines(bytes: seq<byte>): Split {
    if bytes == [] then Split([], [])
    else
      var s, b := SplitLines(bytes[..|bytes| - 1]), bytes[|bytes| - 1];
      if b == LF then Split(s.lines + [s.rest], []) else Split(s.lines, s.rest + [b])
  }

  function Unlines(lines: seq<Line>): seq<byte> {
    if lines == [] then [] else Unlines(lines[..|lines| - 1]) + lines[|lines| - 1] + [LF]
  }

  ghost predicate NoLf(lines: seq<Line>) {
    forall l :: l in lines ==> LF !in l
  }

  /** The lines with their terminators and the rest make up the stream, and none holds an LF. */
  lemma {:induction false} SplitMakesUpStream(bytes: seq<byte>)
    ensures var s := SplitLines(bytes); bytes == Unlines(s.lines) + s.rest && NoLf(s.lines) && LF !in s.rest
    decreases |bytes|
  {
    if bytes != [] {
      var front, b := bytes[..|bytes| - 1], bytes[|bytes| - 1];
      SplitMakesUpStream(front);
      assert bytes == front + [b];
      AppendMakesUp(SplitLines(front).lines, SplitLines(front).rest, b, front);
    }
  }

  lemma AppendMakesUp(lines: seq<Line>, rest: Line, b: byte, bytes: seq<byte>)
    requires bytes == Unlines(lines) + rest && NoLf(lines) && LF !in rest
    ensures bytes + [b] == Unlines(lines) + (rest + [b])
    ensures bytes + [LF] == Unlines(lines + [rest]) && NoLf(lines + [rest])
    ensures b != LF ==> LF !in rest + [b]
  {
    assert (lines + [rest])[..|lines|] == lines;
    assert bytes + [LF] == Unlines(lines) + rest + [LF];
  }

  lemma Associate<T>(a: seq<T>, b: seq<T>, last: T)
    ensures a + (b + [last]) == (a + b) + [last]
  {
  }

  lemma UnlinesAppend(lines: seq<Line>, line: Line)
    ensures Unlines(lines + [line]) == Unlines(lines) + line + [LF]
  {
    assert (lines + [line])[..|lines|] == lines;
  }

  /** There is only one way to cut a stream into lines. */
  lemma {:induction false} SplitIsUnique(lines: seq<Line>, rest: Line)
    requires NoLf(lines) && LF !in rest
    ensures SplitLines(Unlines(lines) + rest) == Split(lines, rest)
    decreases |lines|, |rest|
  {
    if rest != [] {
      var front, b := rest[..|rest| - 1], rest[|rest| - 1];
      assert rest == front + [b];
      SplitIsUnique(lines, front);
      Associate(Unlines(lines), front, b);
      SplitAppend(Unlines(lines) + front, b);
    } else if lines != [] {
      var front, last := lines[..|lines| - 1], lines[|lines| - 1];
      assert lines == front + [last];
      SplitIsUnique(front, last);
      UnlinesAppend(front, last);
      SplitAppend(Unlines(front) + last, LF);
      assert Unlines(lines) + [] == Unlines(lines);
    } else {
      assert Unlines(lines) + rest == [];
    }
  }

  // ---------- One line ----------

  function StripCr(line: Line): Line {
    if line != [] && line[|line| - 1] == CR then line[..|line| - 1] else line
  }

  /** Bytes as a string: the empty string when they are not well-formed UTF-8. */
  function Text(line: Line): Line {
    if ValidUtf8(line) then line else []
  }

  /** A terminated line, as the decoder reads it. */
  function Cooked(line: Line): Line {
    Text(StripCr(line))
  }

  function CookedAll(lines: seq<Line>): seq<Line> {
    if lines == [] then [] else CookedAll(lines[..|lines| - 1]) + [Cooked(lines[|lines| - 1])]
  }

  /** The payload of a `data:` line, one leading space removed. */
  function PayloadOf(line: Line): Option<Payload> {
    if DATA <= line then
      var p := line[|DATA|..];
      Some(if p != [] && p[0] == SPACE then p[1..] else p)
    else None
  }

  // ---------- Groups and events ----------

  function Payloads(lines: seq<Line>): seq<Payload> {
    if lines == [] then []
    else
      var ps := Payloads(lines[..|lines| - 1]);
      match PayloadOf(lines[|lines| - 1])
      case Some(p) => ps + [p]
      case None => ps
  }

  /** Lines grouped at blank lines: the groups a blank line has closed, and the open one. */
  datatype Grouping = Grouping(closed: seq<seq<Line>>, open: seq<Line>)

  function GroupLines(lines: seq<Line>): Grouping {
    if lines == [] then Grouping([], [])
    else
      var g, l := GroupLines(lines[..|lines| - 1]), lines[|lines| - 1];
      if l == [] then Grouping(g.closed + [g.open], []) else Grouping(g.closed, g.open + [l])
  }

  function JoinLf(ps: seq<Payload>): seq<byte> {
    if ps == [] then [] else if |ps| == 1 then ps[0] else ps[0] + [LF] + JoinLf(ps[1..])
  }

  function DropLeadingEmpty(ps: seq<Payload>): seq<Payload> {
    if ps != [] && ps[0] == [] then DropLeadingEmpty(ps[1..]) else ps
  }

  /** The event a group carries: its data payloads joined with LF, where leading empty payloads
      leave no trace. */
  function EventText(ps: seq<Payload>): seq<byte> {
    JoinLf(DropLeadingEmpty(ps))
  }

  /** The events of a sequence of groups. An empty event is not dispatched. */
  function Events(groups: seq<seq<Line>>): seq<Payload> {
    if groups == [] then []
    else
      var e := EventText(Payloads(groups[|groups| - 1]));
      Events(groups[..|groups| - 1]) + (if e == [] then [] else [e])
  }

  function TerminatedGroups(bytes: seq<byte>): Grouping {
    GroupLines(CookedAll(SplitLines(bytes).lines))
  }

  /** Events completed by a blank line so far. */
  function CompletedEvents(bytes: seq<byte>): seq<Payload> {
    Events(TerminatedGroups(bytes).closed)
  }

  /** The lines of a whole stream. The unterminated last line keeps its CR. */
  function StreamLines(bytes: seq<byte>): seq<Line> {
    var s := SplitLines(bytes);
    CookedAll(s.lines) + (if s.rest == [] then [] else [Text(s.rest)])
  }

  /** The events of a whole stream that ended: the unterminated last event counts. */
  function AllEvents(bytes: seq<byte>): seq<Payload> {
    var g := GroupLines(StreamLines(bytes));
    Events(g.closed + [g.open])
  }

  // ---------- How the pieces grow ----------

  lemma {:induction false} JoinAppend(ps: seq<Payload>, p: Payload)
    requires ps != []
    ensures JoinLf(ps + [p]) == JoinLf(ps) + [LF] + p
    decreases |ps|
  {
    if |ps| > 1 {
      assert (ps + [p])[1..] == ps[1..] + [p];
      JoinAppend(ps[1..], p);
    } else {
      assert (ps + [p])[1..] == [p];
    }
  }

  lemma {:induction false} DropAppend(ps: seq<Payload>, p: Payload)
    ensures DropLeadingEmpty(ps + [p])
            == if DropLeadingEmpty(ps) == [] then DropLeadingEmpty([p]) else DropLeadingEmpty(ps) + [p]
    decreases |ps|
  {
    if ps == [] {
      assert ps + [p] == [p];
    } else if ps[0] == [] {
      assert (ps + [p])[1..] == ps[1..] + [p];
      DropAppend(ps[1..], p);
    }
  }

  lemma {:induction false} DropStartsFull(ps: seq<Payload>)
    ensures var d := DropLeadingEmpty(ps); d == [] || d[0] != []
    ensures EventText(ps) == [] <==> DropLeadingEmpty(ps) == []
    decreases |ps|
  {
    if ps != [] && ps[0] == [] { DropStartsFull(ps[1..]); }
  }

  /** One more payload, by the decoder's rule: an LF first unless the buffer is still empty. */
  lemma EventTextAppend(ps: seq<Payload>, p: Payload)
    ensures EventText(ps + [p]) == if EventText(ps) == [] then p else EventText(ps) + [LF] + p
  {
    DropAppend(ps, p);
    DropStartsFull(ps);
    if EventText(ps) != [] { JoinAppend(DropLeadingEmpty(ps), p); }
  }

  /** The decoder's buffer for the lines of the open group. */
  function DataOf(lines: seq<Line>): seq<byte> {
    EventText(Payloads(lines))
  }

  lemma DataAppend(lines: seq<Line>, line: Line)
    ensures DataOf(lines + [line]) ==
            match PayloadOf(line)
            case None => DataOf(lines)
            case Some(p) => if DataOf(lines) == [] then p else DataOf(lines) + [LF] + p
  {
    assert (lines + [line])[..|lines|] == lines;
    if PayloadOf(line).Some? { EventTextAppend(Payloads(lines), PayloadOf(line).value); }
  }

  lemma EventsAppend(groups: seq<seq<Line>>, g: seq<Line>)
    ensures Events(groups + [g]) == Events(groups) + (if DataOf(g) == [] then [] else [DataOf(g)])
  {
    assert (groups + [g])[..|groups|] == groups;
  }

  lemma GroupAppend(lines: seq<Line>, line: Line)
    ensures var g := GroupLines(lines);
            GroupLines(lines + [line]) ==
            if line == [] then Grouping(g.closed + [g.open], []) else Grouping(g.closed, g.open + [line])
  {
    assert (lines + [line])[..|lines|] == lines;
  }

  lemma SplitAppend(bytes: seq<byte>, b: byte)
    ensures var s := SplitLines(bytes);
            SplitLines(bytes + [b]) == if b == LF then Split(s.lines + [s.rest], []) else Split(s.lines, s.rest + [b])
  {
    assert (bytes + [b])[..|bytes|] == bytes;
  }

  lemma CookedAppend(lines: seq<Line>, line: Line)
    ensures CookedAll(lines + [line]) == CookedAll(lines) + [Cooked(line)]
  {
    assert (lines + [line])[..|lines|] == lines;
  }

  // ---------- The decoder ----------

  /** The decoder's memory of the lines it has handled: the open event's data, and what it has
      handed on to be parsed and published. */
  datatype Progress = Progress(data: seq<byte>, dispatched: seq<Payload>)

  function ProgressOf(lines: seq<Line>): Progress {
    var g := GroupLines(lines);
    Progress(DataOf(g.open), Events(g.closed))
  }

  /** What the decoder does with one line. */
  function AfterLine(p: Progress, line: Line): Progress {
    if line == [] then
      if p.data != [] then Progress([], p.dispatched + [p.data]) else p
    else match PayloadOf(line)
      case None => p
      case Some(payload) => p.(data := (if p.data == [] then [] else p.data + [LF]) + payload)
  }

  lemma AfterLineGroups(lines: seq<Line>, line: Line)
    ensures ProgressOf(lines + [line]) == AfterLine(ProgressOf(lines), line)
  {
    var g := GroupLines(lines);
    GroupAppend(lines, line);
    EventsAppend(g.closed, g.open);
    DataAppend(g.open, line);
  }

  /** Everything the decoder holds after some bytes. */
  datatype Memory = Memory(line: Line, progress: Progress)

  function AfterByte(m: Memory, b: byte): Memory {
    if b == LF then Memory([], AfterLine(m.progress, Cooked(m.line))) else m.(line := m.line + [b])
  }

  function MemoryOf(bytes: seq<byte>): Memory {
    if bytes == [] then Memory([], Progress([], []))
    else AfterByte(MemoryOf(bytes[..|bytes| - 1]), bytes[|bytes| - 1])
  }

  lemma MemoryAppend(bytes: seq<byte>, b: byte)
    ensures MemoryOf(bytes + [b]) == AfterByte(MemoryOf(bytes), b)
  {
    assert (bytes + [b])[..|bytes|] == bytes;
  }

  /** The decoder's memory is the unterminated line and the progress over the terminated ones. */
  lemma {:induction false} MemoryReadsStream(bytes: seq<byte>)
    ensures var s := SplitLines(bytes); MemoryOf(bytes) == Memory(s.rest, ProgressOf(CookedAll(s.lines)))
    decreases |bytes|
  {
    if bytes != [] {
      var front, b := bytes[..|bytes| - 1], bytes[|bytes| - 1];
      MemoryReadsStream(front);
      var s := SplitLines(front);
      if b == LF {
        CookedAppend(s.lines, s.rest);
        AfterLineGroups(CookedAll(s.lines), Cooked(s.rest));
      }
    }
  }

  lemma MemoryGivesCompleted(bytes: seq<byte>)
    ensures MemoryOf(bytes).progress.dispatched == CompletedEvents(bytes)
  {
    MemoryReadsStream(bytes);
  }

  /** What the end of the stream adds to the memory of all its bytes. */
  lemma EndOfStream(bytes: seq<byte>)
    ensures var m := MemoryOf(bytes);
            var p := if m.line == [] then m.progress else AfterLine(m.progress, Text(m.line));
            AllEvents(bytes) == p.dispatched + (if p.data == [] then [] else [p.data])
  {
    MemoryReadsStream(bytes);
    var s := SplitLines(bytes);
    var lines := CookedAll(s.lines);
    if s.rest != [] { AfterLineGroups(lines, Text(s.rest)); }
    assert StreamLines(bytes) == if s.rest == [] then lines else lines + [Text(s.rest)];
    var g := GroupLines(StreamLines(bytes));
    EventsAppend(g.closed, g.open);
  }

  datatype Chunk = Bytes(bytes: seq<byte>) | StreamError

  /** The bytes that arrive from chunk `i` on, up to the first error. */
  function Received(chunks: seq<Chunk>, i: nat := 0): seq<byte>
    requires i <= |chunks|
    decreases |chunks| - i
  {
    if i == |chunks| || chunks[i].StreamError? then [] else chunks[i].bytes + Received(chunks, i + 1)
  }

  lemma NextChunk(chunks: seq<Chunk>, i: nat, before: seq<byte>)
    requires i < |chunks| && chunks[i].Bytes?
    ensures before + Received(chunks, i) == (before + chunks[i].bytes) + Received(chunks, i + 1)
  {
  }

  /** The chunks are the pieces of the bytes between ascending cut positions. */
  ghost predicate IsCutting(bytes: seq<byte>, cuts: seq<nat>, chunks: seq<Chunk>) {
    && |cuts| == |chunks| + 1 && cuts[0] == 0 && cuts[|chunks|] == |bytes|
    && forall k :: 0 <= k < |chunks| ==> CutPiece(bytes, cuts, chunks, k)
  }

  ghost predicate CutPiece(bytes: seq<byte>, cuts: seq<nat>, chunks: seq<Chunk>, k: nat)
    requires k < |chunks| && k + 1 < |cuts|
  {
    cuts[k] <= cuts[k + 1] <= |bytes| && chunks[k] == Bytes(bytes[cuts[k]..cuts[k + 1]])
  }

  /** The chunks hold the bytes, whatever follows after an error. */
  lemma {:induction false} ReceivedFromCut(bytes: seq<byte>, cuts: seq<nat>, chunks: seq<Chunk>, rest: seq<Chunk>,
                                           i: nat)
    requires IsCutting(bytes, cuts, chunks) && i <= |chunks|
    requires rest != [] ==> rest[0].StreamError?
    ensures cuts[i] <= |bytes| && Received(chunks + rest, i) == bytes[cuts[i]..]
    decreases |chunks| - i
  {
    if i < |chunks| {
      assert CutPiece(bytes, cuts, chunks, i);
      ReceivedFromCut(bytes, cuts, chunks, rest, i + 1);
      assert bytes[cuts[i]..] == bytes[cuts[i]..cuts[i + 1]] + bytes[cuts[i + 1]..];
    } else {
      assert bytes[cuts[i]..] == [];
    }
  }

  /** What arrives of a cutting is the bytes. */
  lemma CuttingsArrive(chunks: seq<Chunk>)
    ensures forall bytes, cuts :: IsCutting(bytes, cuts, chunks) ==> StreamError !in chunks && Received(chunks) == bytes
    ensures forall bytes, cuts, n: nat ::
              n < |chunks| && chunks[n] == StreamError && IsCutting(bytes, cuts, chunks[..n]) ==>
                StreamError in chunks && Received(chunks) == bytes
  {
    forall bytes, cuts | IsCutting(bytes, cuts, chunks)
      ensures StreamError !in chunks && Received(chunks) == bytes
    {
      ReceivedFromCut(bytes, cuts, chunks, [], 0);
      assert chunks + [] == chunks;
      forall k | 0 <= k < |chunks|
        ensures chunks[k] != StreamError
      {
        assert CutPiece(bytes, cuts, chunks, k);
      }
    }
    forall bytes, cuts, n: nat | n < |chunks| && chunks[n] == StreamError && IsCutting(bytes, cuts, chunks[..n])
      ensures StreamError in chunks && Received(chunks) == bytes
    {
      ReceivedFromCut(bytes, cuts, chunks[..n], chunks[n..], 0);
      assert chunks[..n] + chunks[n..] == chunks;
    }
  }

  class NotificationReader {
    var lineBuf: seq<byte>
    var dataBuf: seq<byte>
    var dispatched: seq<Payload>
    ghost var input: seq<byte>

    ghost predicate Valid()
      reads this
    {
      Memory(lineBuf, Progress(dataBuf, dispatched)) == MemoryOf(input)
    }

    constructor ()
      ensures Valid() && input == [] && dispatched == []
    {
      lineBuf, dataBuf, dispatched, input := [], [], [], [];
    }

    method DispatchEvent()
      modifies this`dispatched
      ensures dispatched == old(dispatched) + [dataBuf]
    {
      dispatched := dispatched + [dataBuf];
    }

    method HandleSseLine(line: Line)
      modifies this`dataBuf, this`dispatched
      ensures Progress(dataBuf, dispatched) == AfterLine(old(Progress(dataBuf, dispatched)), line)
    {
      if line == [] {
        if dataBuf != [] {
          DispatchEvent();
          dataBuf := [];
        }
        return;
      }
      if line[0] == COLON {
        return;
      }
      if DATA <= line {
        var payload := line[|DATA|..];
        if payload != [] && payload[0] == SPACE {
          payload := payload[1..];
        }
        if dataBuf != [] {
          dataBuf := dataBuf + [LF];
        }
        dataBuf := dataBuf + payload;
      }
    }

    method PushByte(b: byte)
      requires Valid()
      modifies this
      ensures Valid() && input == old(input) + [b]
    {
      MemoryAppend(input, b);
      if b == LF {
        if lineBuf != [] && lineBuf[|lineBuf| - 1] == CR {
          lineBuf := lineBuf[..|lineBuf| - 1];
        }
        HandleSseLine(if ValidUtf8(lineBuf) then lineBuf else []);
        lineBuf := [];
      } else {
        lineBuf := lineBuf + [b];
      }
      input := input + [b];
    }

    method Feed(bytes: seq<byte>)
      requires Valid()
      modifies this
      ensures Valid() && input == old(input) + bytes
    {
      for i := 0 to |bytes|
        invariant Valid() && input == old(input) + bytes[..i]
      {
        Associate(old(input), bytes[..i], bytes[i]);
        assert bytes[..i + 1] == bytes[..i] + [bytes[i]];
        PushByte(bytes[i]);
      }
      assert bytes[..|bytes|] == bytes;
    }

    /** End of stream: the unterminated line and the unterminated event still count. */
    method Finish()
      requires Valid()
      modifies this
      ensures dispatched == AllEvents(old(input))
    {
      EndOfStream(input);
      if lineBuf != [] {
        HandleSseLine(if ValidUtf8(lineBuf) then lineBuf else []);
      }
      if dataBuf != [] {
        DispatchEvent();
      }
    }

    /** Feeds the chunks up to the first stream error, if there is one. */
    method FeedChunks(chunks: seq<Chunk>) returns (failed: bool)
      requires Valid() && input == []
      modifies this
      ensures failed <==> StreamError in chunks
      ensures Valid() && input == Received(chunks)
    {
      for i := 0 to |chunks|
        invariant Valid() && Received(chunks) == input + Received(chunks, i)
        invariant forall k :: 0 <= k < i ==> chunks[k] != StreamError
      {
        if chunks[i].StreamError? {
          assert Received(chunks, i) == [];
          return true;
        }
        NextChunk(chunks, i, input);
        Feed(chunks[i].bytes);
      }
      assert Received(chunks, |chunks|) == [];
      return false;
    }

    /** Theorem: however the bytes of a stream are cut into chunks, its events are dispatched; and if a stream error
        comes after some bytes, exactly the events they complete. */
    method Run(chunks: seq<Chunk>) returns (result: Result<(), Chunk>)
      requires Valid() && input == []
      modifies this
      ensures result.Ok? <==> StreamError !in chunks
      ensures result.Ok? ==> dispatched == AllEvents(Received(chunks))
      ensures result.Err? ==> dispatched == CompletedEvents(Received(chunks))
      ensures forall bytes, cuts :: IsCutting(bytes, cuts, chunks) ==> result.Ok? && dispatched == AllEvents(bytes)
      ensures forall bytes, cuts, n: nat ::
                n < |chunks| && chunks[n] == StreamError && IsCutting(bytes, cuts, chunks[..n]) ==>
                  result.Err? && dispatched == CompletedEvents(bytes)
    {
      CuttingsArrive(chunks);
      var failed := FeedChunks(chunks);
      if failed {
        MemoryGivesCompleted(input);
        return Err(StreamError);
      }
      Finish();
      return Ok(());
    }
  }
}
