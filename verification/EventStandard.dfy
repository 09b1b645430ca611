/** Section 9.2.6 of the WHATWG HTML Living Standard ("Interpreting an event stream"), on UTF-8 text, and exactly when
    the streaming decoder reads a stream as it says. */
module EventStandard {
  import opened Common
  import opened Utf8
  import opened EventStream
  import opened EventRoundTrip

  // ---------- The standard's reading ----------

  const BOM: seq<byte> := [0xEF, 0xBB, 0xBF]

  /** One leading byte order mark is not part of the stream. */
  function WithoutBom(bytes: seq<byte>): seq<byte> {
    if BOM <= bytes then bytes[|BOM|..] else bytes
  }

  /** Lines end at LF, at CR, or at CR LF. `afterCr` tells that the last byte was a CR. */
  datatype Cut = Cut(lines: seq<Line>, rest: Line, afterCr: bool)

  function CutLines(bytes: seq<byte>): Cut {
    if bytes == [] then Cut([], [], false)
    else
      var c, b := CutLines(bytes[..|bytes| - 1]), bytes[|bytes| - 1];
      if b == CR then Cut(c.lines + [c.rest], [], true)
      else if b == LF && c.afterCr then c.(afterCr := false)
      else if b == LF then Cut(c.lines + [c.rest], [], false)
      else Cut(c.lines, c.rest + [b], false)
  }

  /** Position of the first colon, or the length of the line. */
  function ColonAt(line: Line): (at: nat)
    ensures at <= |line| && (at < |line| ==> line[at] == COLON)
    ensures forall i :: 0 <= i < at ==> line[i] != COLON
  {
    if line == [] || line[0] == COLON then 0 else ColonAt(line[1..]) + 1
  }

  datatype Field = Field(name: seq<byte>, value: seq<byte>)

  /** A line up to its first colon names the field; what follows, less one space, is its value. A line without a colon
      is a field with an empty value. A comment has an empty name. */
  function FieldOf(line: Line): Field {
    var at := ColonAt(line);
    if at == |line| then Field(line, [])
    else
      var value := line[at + 1..];
      Field(line[..at], if value != [] && value[0] == SPACE then value[1..] else value)
  }

  const DATA_NAME: Line := [100, 97, 116, 97]

  /** The values of the data fields. Other fields leave the data alone. */
  function DataValues(lines: seq<Line>): seq<Payload> {
    if lines == [] then []
    else
      var front, field := DataValues(lines[..|lines| - 1]), FieldOf(lines[|lines| - 1]);
      if field.name == DATA_NAME then front + [field.value] else front
  }

  /** The data buffer: each value is appended with an LF. */
  function Buffer(values: seq<Payload>): seq<byte> {
    if values == [] then [] else Buffer(values[..|values| - 1]) + values[|values| - 1] + [LF]
  }

  /** A blank line dispatches the buffer without its last LF, unless it is empty. */
  function Dispatched(groups: seq<seq<Line>>): seq<Payload> {
    if groups == [] then []
    else
      var buffer := Buffer(DataValues(groups[|groups| - 1]));
      Dispatched(groups[..|groups| - 1]) + (if buffer == [] then [] else [buffer[..|buffer| - 1]])
  }

  /** The data of all events. What no blank line has closed is discarded. */
  function StandardEvents(bytes: seq<byte>): seq<Payload> {
    Dispatched(GroupLines(CutLines(WithoutBom(bytes)).lines).closed)
  }

  // ---------- One line and one group ----------

  lemma ColonIsAt(line: Line, at: nat)
    requires at <= |line| && (at < |line| ==> line[at] == COLON)
    requires forall i :: 0 <= i < at ==> line[i] != COLON
    ensures ColonAt(line) == at
  {
  }

  /** A data field is what the decoder takes for one, or the bare word. */
  lemma DataField(line: Line)
    ensures PayloadOf(line).Some? ==> FieldOf(line) == Field(DATA_NAME, PayloadOf(line).value)
    ensures line == DATA_NAME ==> FieldOf(line) == Field(DATA_NAME, [])
    ensures FieldOf(line).name == DATA_NAME <==> PayloadOf(line).Some? || line == DATA_NAME
    ensures line == DATA_NAME ==> PayloadOf(line).None?
  {
    if DATA <= line {
      assert DATA[..4] == DATA_NAME && line[..4] == DATA_NAME;
      assert forall i :: 0 <= i < 5 ==> line[i] == DATA[i];
      ColonIsAt(line, 4);
    } else if line == DATA_NAME {
      ColonIsAt(line, 4);
    } else if FieldOf(line).name == DATA_NAME {
      DataName(line);
    }
  }

  lemma DataName(line: Line)
    requires FieldOf(line).name == DATA_NAME
    ensures DATA <= line || line == DATA_NAME
  {
    var at := ColonAt(line);
    assert line[..at] == DATA_NAME;
    if at < |line| { assert line[..5] == DATA_NAME + [COLON] == DATA; }
  }

  /** With the bare word left out, the values are the decoder's payloads. */
  lemma {:induction false} ValuesArePayloads(lines: seq<Line>)
    ensures |Payloads(lines)| <= |DataValues(lines)|
    ensures DATA_NAME !in lines ==> DataValues(lines) == Payloads(lines)
    decreases |lines|
  {
    if lines != [] {
      var front, last := lines[..|lines| - 1], lines[|lines| - 1];
      assert lines == front + [last];
      ValuesArePayloads(front);
      DataField(last);
    }
  }

  /** Total length of some payloads. */
  function Weight(ps: seq<Payload>): nat {
    if ps == [] then 0 else Weight(ps[..|ps| - 1]) + |ps[|ps| - 1]|
  }

  /** The bare word adds an empty value: the weight is the same, the number is not. */
  lemma {:induction false} BareWordAddsValue(lines: seq<Line>)
    ensures Weight(DataValues(lines)) == Weight(Payloads(lines))
    ensures DATA_NAME in lines ==> |Payloads(lines)| < |DataValues(lines)|
    decreases |lines|
  {
    if lines != [] {
      var front, last := lines[..|lines| - 1], lines[|lines| - 1];
      assert lines == front + [last];
      BareWordAddsValue(front);
      ValuesArePayloads(front);
      DataField(last);
    }
  }

  lemma {:induction false} JoinedLength(ps: seq<Payload>)
    requires ps != []
    ensures |JoinLf(ps)| == Weight(ps) + |ps| - 1
    decreases |ps|
  {
    var front, last := ps[..|ps| - 1], ps[|ps| - 1];
    assert ps == front + [last];
    if front != [] {
      JoinAppend(front, last);
      JoinedLength(front);
    }
  }

  /** The buffer less its last LF is the values joined. */
  lemma {:induction false} BufferIsJoin(values: seq<Payload>)
    ensures Buffer(values) == if values == [] then [] else JoinLf(values) + [LF]
    decreases |values|
  {
    if values != [] {
      var front, last := values[..|values| - 1], values[|values| - 1];
      assert values == front + [last];
      BufferIsJoin(front);
      if front != [] {
        JoinAppend(front, last);
        assert Buffer(values) == JoinLf(front) + [LF] + last + [LF];
      } else {
        assert values == [last] && [] + last == last;
      }
    }
  }

  /** A group that both read alike: without data, or with a non-empty first value and without the bare word. */
  predicate PlainGroup(lines: seq<Line>) {
    DataValues(lines) != [] ==> DataValues(lines)[0] != [] && DATA_NAME !in lines
  }

  lemma GroupsAlikeIff(lines: seq<Line>)
    requires DataValues(lines) != []
    ensures DataOf(lines) != [] && DataOf(lines) == JoinLf(DataValues(lines)) <==> PlainGroup(lines)
  {
    var ps, values := Payloads(lines), DataValues(lines);
    ValuesArePayloads(lines);
    BareWordAddsValue(lines);
    JoinedLength(values);
    DroppingShortens(ps);
    JoinsPlainlyIff(ps);
    if DATA_NAME in lines {
      if ps != [] { JoinedLength(ps); }
    } else if values[0] == [] && |values| == 1 {
      assert values == [[]];
    }
  }

  // ---------- All groups ----------

  /** What the decoder dispatches is not empty and does not start with LF. */
  predicate IsEvent(e: Payload) {
    e != [] && e[0] != LF
  }

  predicate WithoutLf(lines: seq<Line>) {
    forall i :: 0 <= i < |lines| ==> LF !in lines[i]
  }

  lemma {:induction false} PayloadsWithoutLf(lines: seq<Line>)
    requires WithoutLf(lines)
    ensures WithoutLf(Payloads(lines))
    decreases |lines|
  {
    if lines != [] {
      PayloadsWithoutLf(lines[..|lines| - 1]);
      assert LF !in lines[|lines| - 1];
    }
  }

  lemma {:induction false} EventStarts(ps: seq<Payload>)
    requires WithoutLf(ps) && EventText(ps) != []
    ensures IsEvent(EventText(ps))
    decreases |ps|
  {
    assert LF !in ps[0];
    if ps[0] == [] {
      forall i | 0 <= i < |ps| - 1
        ensures LF !in ps[1..][i]
      {
        assert ps[1..][i] == ps[i + 1];
      }
      EventStarts(ps[1..]);
    } else {
      assert EventText(ps)[0] == ps[0][0];
    }
  }

  /** A group whose payloads are all empty dispatches by the standard only what the decoder never does. */
  lemma {:induction false} EmptyPayloadsJoin(values: seq<Payload>)
    requires values != [] && Weight(values) == 0
    ensures !IsEvent(JoinLf(values))
    decreases |values|
  {
    JoinedLength(values);
    if |values| > 1 {
      FirstIsEmpty(values);
    }
  }

  lemma {:induction false} FirstIsEmpty(values: seq<Payload>)
    requires values != [] && Weight(values) == 0
    ensures values[0] == []
    decreases |values|
  {
    if |values| > 1 { FirstIsEmpty(values[..|values| - 1]); }
  }

  lemma {:induction false} NoTextNoWeight(ps: seq<Payload>)
    requires EventText(ps) == []
    ensures Weight(ps) == 0
    decreases |ps|
  {
    if ps != [] {
      var front, last := ps[..|ps| - 1], ps[|ps| - 1];
      assert ps == front + [last];
      EventTextAppend(front, last);
      NoTextNoWeight(front);
    }
  }

  ghost predicate AllPlain(groups: seq<seq<Line>>) {
    forall i :: 0 <= i < |groups| ==> PlainGroup(groups[i])
  }

  /** Both sides for one more group: what is dispatched, if anything. */
  lemma OneMore(groups: seq<seq<Line>>, g: seq<Line>)
    ensures Dispatched(groups + [g])
            == Dispatched(groups) + (if DataValues(g) == [] then [] else [JoinLf(DataValues(g))])
    ensures AllPlain(groups + [g]) <==> AllPlain(groups) && PlainGroup(g)
  {
    var more := groups + [g];
    assert more[..|groups|] == groups;
    BufferIsJoin(DataValues(g));
    if DataValues(g) != [] {
      assert (JoinLf(DataValues(g)) + [LF])[..|JoinLf(DataValues(g))|] == JoinLf(DataValues(g));
    }
    if AllPlain(more) {
      assert more[|groups|] == g;
      forall i | 0 <= i < |groups|
        ensures PlainGroup(groups[i])
      {
        assert more[i] == groups[i];
      }
    }
  }

  lemma SameLast<T>(a: seq<T>, x: T, b: seq<T>, y: T)
    ensures a + [x] == b + [y] <==> a == b && x == y
  {
    if a + [x] == b + [y] {
      assert (a + [x])[..|a|] == a && (b + [y])[..|b|] == b;
      assert (a + [x])[|a|] == x && (b + [y])[|b|] == y;
    }
  }

  lemma {:induction false} DispatchedIsNoFewer(groups: seq<seq<Line>>)
    ensures |Events(groups)| <= |Dispatched(groups)|
    decreases |groups|
  {
    if groups != [] {
      var front, g := groups[..|groups| - 1], groups[|groups| - 1];
      DispatchedIsNoFewer(front);
      assert groups == front + [g];
      OneMore(front, g);
      EventsAppend(front, g);
      ValuesArePayloads(g);
    }
  }

  /** The decoder's events of closed groups, with at most one event more, against the standard's. */
  lemma {:induction false} GroupsAgree(groups: seq<seq<Line>>, tail: seq<Payload>)
    requires forall i :: 0 <= i < |groups| ==> WithoutLf(groups[i])
    requires |tail| <= 1 && (tail != [] ==> IsEvent(tail[0]))
    ensures Events(groups) + tail == Dispatched(groups) <==> tail == [] && AllPlain(groups)
    decreases |groups|
  {
    if groups != [] {
      var front, g := groups[..|groups| - 1], groups[|groups| - 1];
      assert groups == front + [g];
      OneMore(front, g);
      EventsAppend(front, g);
      ValuesArePayloads(g);
      PayloadsWithoutLf(g);
      var values, e := DataValues(g), DataOf(g);
      if values == [] {
        GroupsAgree(front, tail);
        assert Payloads(g) == [];
        assert Events(groups) == Events(front) && Dispatched(groups) == Dispatched(front);
      } else if e == [] {
        SilentGroup(front, g, tail);
        assert Events(groups) == Events(front);
      } else {
        EventStarts(Payloads(g));
        GroupsAgree(front, []);
        GroupsAgree(front, [e]);
        assert Events(front) + [] == Events(front);
        SpeakingGroup(front, g, tail);
      }
    }
  }

  /** A group that the standard dispatches and the decoder does not. */
  lemma SilentGroup(front: seq<seq<Line>>, g: seq<Line>, tail: seq<Payload>)
    requires |tail| <= 1 && (tail != [] ==> IsEvent(tail[0]))
    requires DataValues(g) != [] && DataOf(g) == []
    ensures Events(front) + tail != Dispatched(front) + [JoinLf(DataValues(g))] && !PlainGroup(g)
  {
    GroupsAlikeIff(g);
    NoTextNoWeight(Payloads(g));
    BareWordAddsValue(g);
    EmptyPayloadsJoin(DataValues(g));
    DispatchedIsNoFewer(front);
    if tail != [] {
      assert tail == [tail[0]];
      SameLast(Events(front), tail[0], Dispatched(front), JoinLf(DataValues(g)));
    }
  }

  /** A group that both dispatch. */
  lemma SpeakingGroup(front: seq<seq<Line>>, g: seq<Line>, tail: seq<Payload>)
    requires |tail| <= 1 && DataValues(g) != [] && DataOf(g) != []
    requires Events(front) == Dispatched(front) <==> AllPlain(front)
    requires Events(front) + [DataOf(g)] != Dispatched(front)
    ensures Events(front) + [DataOf(g)] + tail == Dispatched(front) + [JoinLf(DataValues(g))]
            <==> tail == [] && AllPlain(front) && PlainGroup(g)
  {
    GroupsAlikeIff(g);
    ThreeLists(Events(front), DataOf(g), tail, Dispatched(front), JoinLf(DataValues(g)));
  }

  lemma ThreeLists<T>(a: seq<T>, x: T, tail: seq<T>, b: seq<T>, y: T)
    requires |tail| <= 1 && a + [x] != b
    ensures a + [x] + tail == b + [y] <==> tail == [] && a == b && x == y
  {
    if tail == [] {
      assert a + [x] + tail == a + [x];
      SameLast(a, x, b, y);
    } else {
      assert tail == [tail[0]];
      SameLast(a + [x], tail[0], b, y);
    }
  }

  // ---------- The same lines ----------

  /** Every CR stands directly before an LF. */
  predicate OnlyLineEnds(bytes: seq<byte>) {
    forall i :: 0 <= i < |bytes| && bytes[i] == CR ==> i < |bytes| - 1 && bytes[i + 1] == LF
  }

  /** The same, but that the last byte may be a CR. */
  predicate LineEndsSoFar(bytes: seq<byte>) {
    forall i :: 0 <= i < |bytes| - 1 && bytes[i] == CR ==> bytes[i + 1] == LF
  }

  lemma {:induction false} CutsAgree(bytes: seq<byte>)
    requires LineEndsSoFar(bytes)
    ensures var s, c := SplitLines(bytes), CutLines(bytes);
            if EndsInCr(bytes) then c == Cut(StripAll(s.lines) + [StripCr(s.rest)], [], true) && EndsInCr(s.rest)
            else c == Cut(StripAll(s.lines), s.rest, false) && !EndsInCr(s.rest)
    decreases |bytes|
  {
    if bytes != [] {
      var front, b := bytes[..|bytes| - 1], bytes[|bytes| - 1];
      assert LineEndsSoFar(front) by {
        forall i | 0 <= i < |front| - 1 && front[i] == CR
          ensures front[i + 1] == LF
        {
          assert bytes[i] == CR && bytes[i + 1] == front[i + 1];
        }
      }
      CutsAgree(front);
      var s := SplitLines(front);
      assert (s.lines + [s.rest])[..|s.lines|] == s.lines;
      if EndsInCr(front) { assert bytes[|front| - 1] == CR; }
    }
  }

  lemma LinesAgree(bytes: seq<byte>)
    requires ValidUtf8(bytes) && OnlyLineEnds(bytes)
    ensures GroupLines(StreamLines(bytes)).closed == GroupLines(CutLines(bytes).lines).closed
  {
    var s := SplitLines(bytes);
    SplitMakesUpStream(bytes);
    UnlinesAreValid(s.lines, s.rest);
    forall l | l in s.lines
      ensures ValidUtf8(StripCr(l))
    {
      StripKeepsValid(l);
    }
    CookedIsStripped(s.lines);
    CutsAgree(bytes);
    if s.rest == [] {
      assert StreamLines(bytes) == CookedAll(s.lines);
    } else {
      GroupAppend(CookedAll(s.lines), s.rest);
    }
  }

  lemma {:induction false} CookedWithoutLf(lines: seq<Line>)
    requires NoLf(lines)
    ensures WithoutLf(CookedAll(lines))
    decreases |lines|
  {
    if lines != [] {
      CookedWithoutLf(lines[..|lines| - 1]);
      assert LF !in lines[|lines| - 1];
    }
  }

  lemma {:induction false} GroupsWithoutLf(lines: seq<Line>)
    requires WithoutLf(lines)
    ensures var g := GroupLines(lines);
            WithoutLf(g.open) && forall i :: 0 <= i < |g.closed| ==> WithoutLf(g.closed[i])
    decreases |lines|
  {
    if lines != [] {
      GroupsWithoutLf(lines[..|lines| - 1]);
      assert LF !in lines[|lines| - 1];
    }
  }

  lemma StreamLinesWithoutLf(bytes: seq<byte>)
    ensures WithoutLf(StreamLines(bytes))
  {
    SplitMakesUpStream(bytes);
    CookedWithoutLf(SplitLines(bytes).lines);
  }

  /** Theorem: on such text the events completed so far, which are what a stream error leaves dispatched, are what the
      standard says exactly when every closed group reads alike. */
  lemma CompletedReadAsStandardIff(bytes: seq<byte>)
    requires ValidUtf8(bytes) && OnlyLineEnds(bytes) && !(BOM <= bytes)
    ensures CompletedEvents(bytes) == StandardEvents(bytes) <==> AllPlain(GroupLines(StreamLines(bytes)).closed)
  {
    var g := GroupLines(StreamLines(bytes));
    LinesAgree(bytes);
    StreamLinesWithoutLf(bytes);
    GroupsWithoutLf(StreamLines(bytes));
    GroupsAgree(g.closed, []);
    assert Events(g.closed) + [] == Events(g.closed);
    ClosedAreTerminated(bytes);
  }

  lemma ClosedAreTerminated(bytes: seq<byte>)
    requires ValidUtf8(bytes)
    ensures CompletedEvents(bytes) == Events(GroupLines(StreamLines(bytes)).closed)
  {
    var s := SplitLines(bytes);
    SplitMakesUpStream(bytes);
    UnlinesAreValid(s.lines, s.rest);
    if s.rest == [] {
      assert StreamLines(bytes) == CookedAll(s.lines);
    } else {
      GroupAppend(CookedAll(s.lines), s.rest);
    }
  }

  /** Theorem: on text whose lines end in LF or CR LF and that has no byte order mark, the decoder dispatches what the
      standard says exactly when no data is left open at the end, and every closed group with data starts with a
      non-empty value and does not hold the bare word `data`. */
  lemma ReadsAsStandardIff(bytes: seq<byte>)
    requires ValidUtf8(bytes) && OnlyLineEnds(bytes) && !(BOM <= bytes)
    ensures var g := GroupLines(StreamLines(bytes));
            AllEvents(bytes) == StandardEvents(bytes) <==> DataOf(g.open) == [] && AllPlain(g.closed)
  {
    var g := GroupLines(StreamLines(bytes));
    LinesAgree(bytes);
    StreamLinesWithoutLf(bytes);
    GroupsWithoutLf(StreamLines(bytes));
    EventsAppend(g.closed, g.open);
    PayloadsWithoutLf(g.open);
    if DataOf(g.open) != [] { EventStarts(Payloads(g.open)); }
    GroupsAgree(g.closed, if DataOf(g.open) == [] then [] else [DataOf(g.open)]);
  }
}
