/** The second decoder: a whole event-stream body read at once, compared with the streaming decoder. */
module EventBody {
  import opened Common
  import opened Utf8
  import opened EventStream
  import opened EventRoundTrip

  // ---------- What the body's text is ----------

  /** The lines of a body: a terminated line loses one CR with its LF, the last one keeps it. */
  function BodyLines(body: seq<byte>): seq<Line> {
    var s := SplitLines(body);
    StripAll(s.lines) + (if s.rest == [] then [] else [s.rest])
  }

  /** All data payloads of a body, with no regard to blank lines. */
  function BodyPayloads(body: seq<byte>): seq<Payload> {
    Payloads(StripAll(BodyLines(body)))
  }

  /** What one line makes of the data so far. */
  function WithLine(data: seq<byte>, line: Line): seq<byte> {
    match PayloadOf(line)
    case None => data
    case Some(p) => if data == [] then p else data + [LF] + p
  }

  method TakeLine(data: seq<byte>, line: Line) returns (more: seq<byte>)
    ensures more == WithLine(data, line)
  {
    more := data;
    if line == [] || line[0] == COLON {
      return;
    }
    if DATA <= line {
      var payload := line[|DATA|..];
      if payload != [] && payload[0] == SPACE {
        payload := payload[1..];
      }
      if more != [] {
        more := more + [LF];
      }
      more := more + payload;
    }
  }

  /** Reads a whole body: the text handed to the JSON parser, or None when there is none. */
  method ParseSseBody(body: seq<byte>) returns (text: Option<seq<byte>>)
    ensures text == if EventText(BodyPayloads(body)) == [] then None else Some(EventText(BodyPayloads(body)))
  {
    var lines := BodyLines(body);
    ghost var stripped := StripAll(lines);
    var data: seq<byte> := [];
    for i := 0 to |lines|
      invariant data == DataOf(stripped[..i])
    {
      StripAllAt(lines, i);
      NextLine(stripped, i);
      data := TakeLine(data, StripCr(lines[i]));
    }
    assert stripped[..|lines|] == stripped;
    return if data == [] then None else Some(data);
  }

  lemma NextLine(lines: seq<Line>, i: nat)
    requires i < |lines|
    ensures DataOf(lines[..i + 1]) == WithLine(DataOf(lines[..i]), lines[i])
  {
    assert lines[..i + 1] == lines[..i] + [lines[i]];
    DataAppend(lines[..i], lines[i]);
  }

  lemma {:induction false} StripAllAt(lines: seq<Line>, i: nat)
    requires i < |lines|
    ensures StripAll(lines)[i] == StripCr(lines[i])
    decreases |lines|
  {
    if i < |lines| - 1 { StripAllAt(lines[..|lines| - 1], i); }
  }

  lemma StripAllAppend(lines: seq<Line>, line: Line)
    ensures StripAll(lines + [line]) == StripAll(lines) + [StripCr(line)]
  {
    assert (lines + [line])[..|lines|] == lines;
  }

  // ---------- Groups and the flat list of payloads ----------

  function AllPayloads(groups: seq<seq<Line>>): seq<Payload> {
    if groups == [] then [] else AllPayloads(groups[..|groups| - 1]) + Payloads(groups[|groups| - 1])
  }

  lemma AllPayloadsAppend(groups: seq<seq<Line>>, g: seq<Line>)
    ensures AllPayloads(groups + [g]) == AllPayloads(groups) + Payloads(g)
  {
    assert (groups + [g])[..|groups|] == groups;
  }

  /** Grouping the lines at blank lines loses no payload. */
  lemma {:induction false} GroupsHoldAllPayloads(lines: seq<Line>)
    ensures var g := GroupLines(lines); AllPayloads(g.closed + [g.open]) == Payloads(lines)
    decreases |lines|
  {
    if lines == [] {
      AllPayloadsAppend([], []);
    } else {
      var front, last := lines[..|lines| - 1], lines[|lines| - 1];
      var g := GroupLines(front);
      GroupsHoldAllPayloads(front);
      AllPayloadsAppend(g.closed, g.open);
      if last == [] {
        AllPayloadsAppend(g.closed + [g.open], []);
      } else {
        AllPayloadsAppend(g.closed, g.open + [last]);
        assert (g.open + [last])[..|g.open|] == g.open;
      }
    }
  }

  // ---------- One text against the events joined ----------

  lemma {:induction false} JoinConcat(ps: seq<Payload>, more: seq<Payload>)
    requires ps != [] && more != []
    ensures JoinLf(ps + more) == JoinLf(ps) + [LF] + JoinLf(more)
    decreases |ps|
  {
    if |ps| == 1 {
      assert (ps + more)[1..] == more;
    } else {
      assert (ps + more)[1..] == ps[1..] + more;
      JoinConcat(ps[1..], more);
    }
  }

  lemma {:induction false} DropConcat(ps: seq<Payload>, more: seq<Payload>)
    ensures DropLeadingEmpty(ps + more)
            == if DropLeadingEmpty(ps) == [] then DropLeadingEmpty(more) else DropLeadingEmpty(ps) + more
    decreases |ps|
  {
    if ps == [] {
      assert ps + more == more;
    } else if ps[0] == [] {
      assert (ps + more)[1..] == ps[1..] + more;
      DropConcat(ps[1..], more);
    }
  }

  lemma EventTextConcat(ps: seq<Payload>, more: seq<Payload>)
    ensures EventText(ps + more)
            == if EventText(ps) == [] then EventText(more)
               else if more == [] then EventText(ps)
               else EventText(ps) + [LF] + JoinLf(more)
  {
    DropConcat(ps, more);
    DropStartsFull(ps);
    if EventText(ps) != [] && more != [] {
      JoinConcat(DropLeadingEmpty(ps), more);
    } else if more == [] {
      assert ps + more == ps;
    }
  }

  /** Every group with data that comes after an event starts with a non-empty payload. */
  predicate LaterGroupsStartFull(groups: seq<seq<Line>>) {
    groups != [] ==>
      var front, ps := groups[..|groups| - 1], Payloads(groups[|groups| - 1]);
      LaterGroupsStartFull(front) && (Events(front) != [] && ps != [] ==> ps[0] != [])
  }

  /** Both texts grown by one group: the flat one by all payloads, the other by the event. */
  lemma TextStep(flat: seq<byte>, joined: seq<byte>, ps: seq<Payload>)
    requires |joined| <= |flat|
    ensures var flatter := if ps == [] then flat else flat + [LF] + JoinLf(ps);
            var longer := if EventText(ps) == [] then joined else joined + [LF] + EventText(ps);
            && |longer| <= |flatter|
            && (flatter == longer <==> flat == joined && (ps != [] ==> ps[0] != []))
  {
    DroppingShortens(ps);
    JoinsPlainlyIff(ps);
    if ps != [] && ps[0] != [] {
      var tail := [LF] + JoinLf(ps);
      assert EventText(ps) == JoinLf(ps) && |JoinLf(ps)| > 0;
      assert flat + [LF] + JoinLf(ps) == flat + tail;
      assert joined + [LF] + JoinLf(ps) == joined + tail;
      SameTail(flat, joined, tail);
    }
  }

  lemma GroupStep(groups: seq<seq<Line>>, g: seq<Line>)
    requires EventText(AllPayloads(groups)) != [] && Events(groups) != []
    requires |JoinLf(Events(groups))| <= |EventText(AllPayloads(groups))|
    ensures |JoinLf(Events(groups + [g]))| <= |EventText(AllPayloads(groups + [g]))|
    ensures EventText(AllPayloads(groups + [g])) == JoinLf(Events(groups + [g])) <==>
            && EventText(AllPayloads(groups)) == JoinLf(Events(groups))
            && (Payloads(g) != [] ==> Payloads(g)[0] != [])
  {
    var ps := Payloads(g);
    AllPayloadsAppend(groups, g);
    EventTextConcat(AllPayloads(groups), ps);
    EventsAppend(groups, g);
    JoinAppend(Events(groups), EventText(ps));
    TextStep(EventText(AllPayloads(groups)), JoinLf(Events(groups)), ps);
    assert EventText(ps) == [] ==> Events(groups + [g]) == Events(groups);
  }

  lemma SameTail(a: seq<byte>, b: seq<byte>, tail: seq<byte>)
    ensures a + tail == b + tail <==> a == b
  {
    if a + tail == b + tail {
      assert (a + tail)[..|a|] == a && (b + tail)[..|b|] == b;
    }
  }

  lemma {:induction false} FlatAgainstEvents(groups: seq<seq<Line>>)
    ensures EventText(AllPayloads(groups)) == [] <==> Events(groups) == []
    ensures |JoinLf(Events(groups))| <= |EventText(AllPayloads(groups))|
    ensures EventText(AllPayloads(groups)) == JoinLf(Events(groups)) <==> LaterGroupsStartFull(groups)
    decreases |groups|
  {
    if groups != [] {
      var front, g := groups[..|groups| - 1], groups[|groups| - 1];
      assert groups == front + [g];
      FlatAgainstEvents(front);
      if Events(front) == [] {
        AllPayloadsAppend(front, g);
        EventTextConcat(AllPayloads(front), Payloads(g));
        EventsAppend(front, g);
      } else {
        AllPayloadsAppend(front, g);
        EventTextConcat(AllPayloads(front), Payloads(g));
        EventsAppend(front, g);
        GroupStep(front, g);
      }
    }
  }

  // ---------- CRs that only one decoder strips ----------

  function CountCr(s: seq<byte>): nat {
    if s == [] then 0 else CountCr(s[..|s| - 1]) + (if s[|s| - 1] == CR then 1 else 0)
  }

  function SumCr(ps: seq<Payload>): nat {
    if ps == [] then 0 else SumCr(ps[..|ps| - 1]) + CountCr(ps[|ps| - 1])
  }

  lemma {:induction false} CountConcat(a: seq<byte>, b: seq<byte>)
    ensures CountCr(a + b) == CountCr(a) + CountCr(b)
    decreases |b|
  {
    if b == [] {
      assert a + b == a;
    } else {
      assert (a + b)[..|a + b| - 1] == a + b[..|b| - 1];
      CountConcat(a, b[..|b| - 1]);
    }
  }

  lemma {:induction false} SumConcat(a: seq<Payload>, b: seq<Payload>)
    ensures SumCr(a + b) == SumCr(a) + SumCr(b)
    decreases |b|
  {
    if b == [] {
      assert a + b == a;
    } else {
      assert (a + b)[..|a + b| - 1] == a + b[..|b| - 1];
      SumConcat(a, b[..|b| - 1]);
    }
  }

  lemma SumAppend(ps: seq<Payload>, p: Payload)
    ensures SumCr(ps + [p]) == SumCr(ps) + CountCr(p)
  {
    assert (ps + [p])[..|ps|] == ps;
  }

  lemma {:induction false} JoinedCount(ps: seq<Payload>)
    ensures CountCr(JoinLf(ps)) == SumCr(ps)
    decreases |ps|
  {
    if ps != [] {
      var front, last := ps[..|ps| - 1], ps[|ps| - 1];
      assert ps == front + [last];
      SumAppend(front, last);
      if front != [] {
        JoinedCount(front);
        JoinAppend(front, last);
        CountConcat(JoinLf(front) + [LF], last);
        CountConcat(JoinLf(front), [LF]);
      } else {
        assert JoinLf(ps) == last;
      }
    }
  }

  /** Joining and leaving out leading empty payloads keeps all CRs. */
  lemma {:induction false} EventCount(ps: seq<Payload>)
    ensures CountCr(EventText(ps)) == SumCr(ps)
    decreases |ps|
  {
    if ps != [] && ps[0] == [] {
      EventCount(ps[1..]);
      assert ps == [[]] + ps[1..];
      SumConcat([[]], ps[1..]);
      SumAppend([], []);
    } else {
      JoinedCount(ps);
    }
  }

  lemma {:induction false} EventsCount(groups: seq<seq<Line>>)
    ensures CountCr(JoinLf(Events(groups))) == SumCr(AllPayloads(groups))
    decreases |groups|
  {
    JoinedCount(Events(groups));
    if groups != [] {
      var front, g := groups[..|groups| - 1], groups[|groups| - 1];
      assert groups == front + [g];
      EventsCount(front);
      JoinedCount(Events(front));
      EventsAppend(front, g);
      EventCount(Payloads(g));
      SumConcat(AllPayloads(front), Payloads(g));
      if DataOf(g) == [] {
        assert Events(groups) == Events(front);
      } else {
        SumAppend(Events(front), DataOf(g));
      }
    }
  }

  lemma StripCount(p: Payload)
    ensures CountCr(StripCr(p)) == CountCr(p) - (if EndsInCr(p) then 1 else 0)
  {
  }

  lemma {:induction false} StripAllCount(ps: seq<Payload>)
    ensures SumCr(StripAll(ps)) <= SumCr(ps)
    ensures SumCr(StripAll(ps)) == SumCr(ps) <==> NoneEndsInCr(ps)
    decreases |ps|
  {
    if ps != [] {
      var front, last := ps[..|ps| - 1], ps[|ps| - 1];
      assert ps == front + [last];
      StripAllCount(front);
      StripCount(last);
      SumAppend(StripAll(front), StripCr(last));
      NoneEndsAppend(front, last);
    }
  }

  lemma StripSpace(rest: seq<byte>)
    requires rest != [] && rest[0] == SPACE
    ensures StripCr(rest) != [] && StripCr(rest)[0] == SPACE && StripCr(rest)[1..] == StripCr(rest[1..])
  {
  }

  lemma StripAfterData(rest: seq<byte>)
    ensures StripCr(DATA + rest) == DATA + StripCr(rest)
  {
    if rest == [] {
      assert DATA + rest == DATA && DATA[4] == COLON;
    }
  }

  /** Stripping a line strips its payload. */
  lemma StripPayload(line: Line)
    ensures PayloadOf(StripCr(line))
            == match PayloadOf(line) { case Some(p) => Some(StripCr(p)) case None => None }
  {
    if DATA <= line {
      var rest := line[|DATA|..];
      assert line == DATA + rest;
      StripAfterData(rest);
      assert (DATA + StripCr(rest))[|DATA|..] == StripCr(rest);
      if rest != [] && rest[0] == SPACE { StripSpace(rest); }
    }
  }

  lemma {:induction false} StripPayloads(lines: seq<Line>)
    ensures Payloads(StripAll(lines)) == StripAll(Payloads(lines))
    decreases |lines|
  {
    if lines != [] {
      var front, last := lines[..|lines| - 1], lines[|lines| - 1];
      StripPayloads(front);
      StripPayload(last);
      assert StripAll(lines)[..|front|] == StripAll(front);
      if PayloadOf(last).Some? { StripAllAppend(Payloads(front), PayloadOf(last).value); }
    }
  }

  // ---------- Both decoders on one body ----------

  /** On UTF-8 text both decoders take the same lines, but the second strips each of them once more. */
  lemma BodyLinesAreStreamLines(body: seq<byte>)
    requires ValidUtf8(body)
    ensures BodyLines(body) == StreamLines(body)
    ensures BodyPayloads(body) == StripAll(Payloads(StreamLines(body)))
  {
    var s := SplitLines(body);
    SplitMakesUpStream(body);
    UnlinesAreValid(s.lines, s.rest);
    forall l | l in s.lines
      ensures ValidUtf8(StripCr(l))
    {
      StripKeepsValid(l);
    }
    CookedIsStripped(s.lines);
    StripPayloads(StreamLines(body));
  }

  function BodyGroups(body: seq<byte>): seq<seq<Line>> {
    var g := GroupLines(StreamLines(body));
    g.closed + [g.open]
  }

  /** Theorem: the text read from a whole body is the streaming decoder's events joined with LF exactly when no payload
      that is streamed ends in CR and no group after the first event starts with an empty payload. */
  lemma BodyMatchesStreamIff(body: seq<byte>)
    requires ValidUtf8(body)
    ensures EventText(BodyPayloads(body)) == JoinLf(AllEvents(body))
            <==> NoneEndsInCr(Payloads(StreamLines(body))) && LaterGroupsStartFull(BodyGroups(body))
    ensures NoneEndsInCr(Payloads(StreamLines(body))) ==> BodyPayloads(body) == Payloads(StreamLines(body))
  {
    var ps := Payloads(StreamLines(body));
    BodyLinesAreStreamLines(body);
    GroupsHoldAllPayloads(StreamLines(body));
    FlatAgainstEvents(BodyGroups(body));
    EventsCount(BodyGroups(body));
    EventCount(StripAll(ps));
    StripAllCount(ps);
    StrippingShortens(ps);
  }

  lemma {:induction false} FullPayloadsStartFull(groups: seq<seq<Line>>)
    requires [] !in AllPayloads(groups)
    ensures LaterGroupsStartFull(groups)
    decreases |groups|
  {
    if groups != [] {
      var front, ps := groups[..|groups| - 1], Payloads(groups[|groups| - 1]);
      assert AllPayloads(groups) == AllPayloads(front) + ps;
      FullPayloadsStartFull(front);
      if ps != [] { assert ps[0] in AllPayloads(groups); }
    }
  }

  /** A body whose payloads are neither empty nor end in CR reads the same both ways; one event is its own text. */
  lemma PlainBodyReadsTheSame(body: seq<byte>)
    requires ValidUtf8(body)
    requires var ps := Payloads(StreamLines(body)); [] !in ps && NoneEndsInCr(ps)
    ensures EventText(BodyPayloads(body)) == JoinLf(AllEvents(body))
    ensures |AllEvents(body)| == 1 ==> AllEvents(body) == [EventText(BodyPayloads(body))]
  {
    GroupsHoldAllPayloads(StreamLines(body));
    FullPayloadsStartFull(BodyGroups(body));
    BodyMatchesStreamIff(body);
    var events := AllEvents(body);
    if |events| == 1 { assert events == [events[0]]; }
  }

  lemma {:induction false} NoCrInSplit(body: seq<byte>)
    requires CR !in body
    ensures CR !in SplitLines(body).rest && forall l :: l in SplitLines(body).lines ==> CR !in l
    decreases |body|
  {
    if body != [] { NoCrInSplit(body[..|body| - 1]); }
  }

  lemma {:induction false} NoCrInCooked(lines: seq<Line>)
    requires forall l :: l in lines ==> CR !in l
    ensures forall l :: l in CookedAll(lines) ==> CR !in l
    decreases |lines|
  {
    if lines != [] {
      NoCrInCooked(lines[..|lines| - 1]);
      assert CR !in lines[|lines| - 1];
    }
  }

  lemma {:induction false} NoCrInPayloads(lines: seq<Line>)
    requires forall l :: l in lines ==> CR !in l
    ensures NoneEndsInCr(Payloads(lines))
    decreases |lines|
  {
    if lines != [] {
      var front, last := lines[..|lines| - 1], lines[|lines| - 1];
      NoCrInPayloads(front);
      assert CR !in last;
      if PayloadOf(last).Some? { NoneEndsAppend(Payloads(front), PayloadOf(last).value); }
    }
  }

  /** In particular, one without any CR and without empty payloads. */
  lemma CrFreeBodyReadsTheSame(body: seq<byte>)
    requires ValidUtf8(body) && CR !in body && [] !in BodyPayloads(body)
    ensures EventText(BodyPayloads(body)) == JoinLf(AllEvents(body))
    ensures |AllEvents(body)| == 1 ==> AllEvents(body) == [EventText(BodyPayloads(body))]
  {
    NoCrInSplit(body);
    NoCrInCooked(SplitLines(body).lines);
    NoCrInPayloads(StreamLines(body));
    BodyMatchesStreamIff(body);
    PlainBodyReadsTheSame(body);
  }
}
