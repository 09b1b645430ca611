/** Writing payloads as an event stream and reading them back. */
module EventRoundTrip {
  import opened Common
  import opened Utf8
  import opened EventStream

  /** ASCII text as bytes. */
  function Ascii(text: string): seq<byte>
    requires forall i :: 0 <= i < |text| ==> text[i] < 128 as char
  {
    seq(|text|, i requires 0 <= i < |text| => text[i] as int)
  }

  /** The characters that frame an event. */
  lemma FramingCharacters()
    ensures [LF] == Ascii("\n") && [CR] == Ascii("\r") && [SPACE] == Ascii(" ") && [COLON] == Ascii(":")
    ensures DATA == Ascii("data:")
  {
  }

  // ---------- The writing side ----------

  /** The LF-separated pieces of a payload: always at least one. */
  function Pieces(p: Payload): (pieces: seq<Line>)
    ensures |pieces| > 0
  {
    SplitLines(p).lines + [SplitLines(p).rest]
  }

  function DataLine(piece: Line): Line {
    DATA + [SPACE] + piece
  }

  /** One `data:` line per piece. */
  function DataLines(pieces: seq<Line>): seq<Line> {
    if pieces == [] then [] else DataLines(pieces[..|pieces| - 1]) + [DataLine(pieces[|pieces| - 1])]
  }

  /** The lines of a stream of events: each payload's data lines, then a blank line. */
  function EventLines(ps: seq<Payload>): seq<Line> {
    if ps == [] then [] else EventLines(ps[..|ps| - 1]) + DataLines(Pieces(ps[|ps| - 1])) + [[]]
  }

  function Encode(ps: seq<Payload>): seq<byte> {
    Unlines(EventLines(ps))
  }

  // ---------- What comes back ----------

  function StripAll(pieces: seq<Line>): (stripped: seq<Line>)
    ensures |stripped| == |pieces|
  {
    if pieces == [] then [] else StripAll(pieces[..|pieces| - 1]) + [StripCr(pieces[|pieces| - 1])]
  }

  /** What the decoder makes of the event written for `p`. */
  function Recovered(p: Payload): Payload {
    EventText(StripAll(Pieces(p)))
  }

  function Decoded(ps: seq<Payload>): seq<Payload> {
    if ps == [] then []
    else
      var e := Recovered(ps[|ps| - 1]);
      Decoded(ps[..|ps| - 1]) + (if e == [] then [] else [e])
  }

  /** A payload that survives: not empty, not starting with LF, and no line of it ends in CR. */
  predicate Survives(p: Payload) {
    p != [] && p[0] != LF && NoCrBeforeLf(p) && p[|p| - 1] != CR
  }

  /** No CR stands directly before an LF. */
  predicate NoCrBeforeLf(p: Payload) {
    forall j :: 0 < j < |p| && p[j] == LF ==> p[j - 1] != CR
  }

  ghost predicate AllValid(ps: seq<Payload>) {
    forall p :: p in ps ==> ValidUtf8(p)
  }

  // ---------- Reading the written lines ----------

  lemma {:induction false} PiecesAreValid(p: Payload)
    requires ValidUtf8(p)
    ensures forall l :: l in Pieces(p) ==> ValidUtf8(l)
    decreases |p|
  {
    SplitMakesUpStream(p);
    var s := SplitLines(p);
    UnlinesAreValid(s.lines, s.rest);
  }

  lemma {:induction false} UnlinesAreValid(lines: seq<Line>, rest: Line)
    requires ValidUtf8(Unlines(lines) + rest)
    ensures ValidUtf8(rest) && forall l :: l in lines ==> ValidUtf8(l)
    decreases |lines|
  {
    if lines != [] {
      var front, last := lines[..|lines| - 1], lines[|lines| - 1];
      assert Unlines(lines) + rest == (Unlines(front) + last) + [LF] + rest;
      ValidAroundAscii(Unlines(front) + last, LF, rest);
      UnlinesAreValid(front, last);
      assert lines == front + [last];
    } else {
      assert Unlines(lines) + rest == rest;
    }
  }

  lemma StripKeepsValid(line: Line)
    requires ValidUtf8(line)
    ensures ValidUtf8(StripCr(line))
  {
    if line != [] && line[|line| - 1] == CR {
      var front := line[..|line| - 1];
      assert line == front + [CR] + [];
      ValidAroundAscii(front, CR, []);
    }
  }

  lemma {:induction false} CookedIsStripped(lines: seq<Line>)
    requires forall l :: l in lines ==> ValidUtf8(StripCr(l))
    ensures CookedAll(lines) == StripAll(lines)
    decreases |lines|
  {
    if lines != [] { CookedIsStripped(lines[..|lines| - 1]); }
  }

  /** A run of ASCII bytes is well-formed. */
  lemma {:induction false} AsciiIsValid(s: seq<byte>)
    requires forall i :: 0 <= i < |s| ==> s[i] < 0x80
    ensures ValidUtf8(s)
    decreases |s|
  {
    if s != [] {
      AsciiIsValid(s[1..]);
      assert CharLength(s) == 1;
    }
  }

  lemma DataLineIsValid(piece: Line)
    requires ValidUtf8(piece)
    ensures ValidUtf8(DataLine(piece))
  {
    AsciiIsValid(DATA + [SPACE]);
    ValidAfterPrefix(DATA + [SPACE], piece);
  }

  lemma DataLinePayload(piece: Line)
    ensures PayloadOf(DataLine(piece)) == Some(piece)
  {
    var line := DataLine(piece);
    assert line == DATA + ([SPACE] + piece);
    assert line[|DATA|..] == [SPACE] + piece;
  }

  /** A trailing CR is stripped whatever stands before the piece. */
  lemma StripAfterPrefix(prefix: Line, piece: Line)
    requires prefix != [] && !EndsInCr(prefix)
    ensures StripCr(prefix + piece) == prefix + StripCr(piece)
  {
    if piece == [] { assert prefix + piece == prefix; }
  }

  /** A written data line is read as the data line of its piece without a trailing CR. */
  lemma DataLineReadsBack(piece: Line)
    requires ValidUtf8(piece)
    ensures Cooked(DataLine(piece)) == DataLine(StripCr(piece)) != []
  {
    StripKeepsValid(piece);
    DataLineIsValid(StripCr(piece));
    StripAfterPrefix(DATA + [SPACE], piece);
  }

  lemma {:induction false} CookedConcat(lines: seq<Line>, more: seq<Line>)
    ensures CookedAll(lines + more) == CookedAll(lines) + CookedAll(more)
    decreases |more|
  {
    if more == [] {
      assert lines + more == lines;
    } else {
      var front, last := more[..|more| - 1], more[|more| - 1];
      assert more == front + [last];
      Associate(lines, front, last);
      CookedConcat(lines, front);
      CookedAppend(lines + front, last);
      CookedAppend(front, last);
      Associate(CookedAll(lines), CookedAll(front), Cooked(last));
    }
  }

  lemma {:induction false} DataLinesCook(pieces: seq<Line>)
    requires forall l :: l in pieces ==> ValidUtf8(l)
    ensures CookedAll(DataLines(pieces)) == DataLines(StripAll(pieces))
    decreases |pieces|
  {
    if pieces != [] {
      var front, last := pieces[..|pieces| - 1], pieces[|pieces| - 1];
      DataLinesCook(front);
      DataLineReadsBack(last);
      CookedAppend(DataLines(front), DataLine(last));
      DataLinesAppend(StripAll(front), StripCr(last));
    }
  }

  /** Data lines join the open group. */
  lemma {:induction false} DataLinesGroup(lines: seq<Line>, pieces: seq<Line>)
    ensures GroupLines(lines + DataLines(pieces))
            == Grouping(GroupLines(lines).closed, GroupLines(lines).open + DataLines(pieces))
    decreases |pieces|
  {
    if pieces == [] {
      assert lines + DataLines(pieces) == lines;
    } else {
      var front, last := pieces[..|pieces| - 1], pieces[|pieces| - 1];
      assert pieces == front + [last];
      DataLinesAppend(front, last);
      Associate(lines, DataLines(front), DataLine(last));
      DataLinesGroup(lines, front);
      GroupAppend(lines + DataLines(front), DataLine(last));
      Associate(GroupLines(lines).open, DataLines(front), DataLine(last));
    }
  }

  lemma {:induction false} DataLinesPayloads(pieces: seq<Line>)
    ensures Payloads(DataLines(pieces)) == pieces
    decreases |pieces|
  {
    if pieces != [] {
      var front, last := pieces[..|pieces| - 1], pieces[|pieces| - 1];
      DataLinesPayloads(front);
      DataLinePayload(last);
      var lines := DataLines(front);
      assert (lines + [DataLine(last)])[..|lines|] == lines;
    }
  }

  lemma DataLinesAppend(pieces: seq<Line>, piece: Line)
    ensures DataLines(pieces + [piece]) == DataLines(pieces) + [DataLine(piece)]
  {
    assert (pieces + [piece])[..|pieces|] == pieces;
  }

  lemma EventLinesCook(lines: seq<Line>, pieces: seq<Line>)
    requires forall l :: l in pieces ==> ValidUtf8(l)
    ensures CookedAll(lines + DataLines(pieces) + [[]]) == CookedAll(lines) + DataLines(StripAll(pieces)) + [[]]
  {
    CookedAppend(lines + DataLines(pieces), []);
    CookedConcat(lines, DataLines(pieces));
    DataLinesCook(pieces);
  }

  lemma EventGroup(lines: seq<Line>, payloads: seq<Payload>)
    requires GroupLines(lines).open == []
    ensures GroupLines(lines + DataLines(payloads) + [[]])
            == Grouping(GroupLines(lines).closed + [DataLines(payloads)], [])
  {
    DataLinesGroup(lines, payloads);
    GroupAppend(lines + DataLines(payloads), []);
    assert [] + DataLines(payloads) == DataLines(payloads);
  }

  /** The lines of one event, read after a blank line: one closed group with the stripped pieces. */
  lemma EventReadsBack(lines: seq<Line>, pieces: seq<Line>)
    requires forall l :: l in pieces ==> ValidUtf8(l)
    requires GroupLines(CookedAll(lines)).open == []
    ensures GroupLines(CookedAll(lines + DataLines(pieces) + [[]]))
            == Grouping(GroupLines(CookedAll(lines)).closed + [DataLines(StripAll(pieces))], [])
  {
    EventLinesCook(lines, pieces);
    EventGroup(CookedAll(lines), StripAll(pieces));
  }

  lemma {:induction false} EventLinesReadBack(ps: seq<Payload>)
    requires AllValid(ps)
    ensures var g := GroupLines(CookedAll(EventLines(ps))); g.open == [] && Events(g.closed) == Decoded(ps)
    decreases |ps|
  {
    if ps != [] {
      var front, last := ps[..|ps| - 1], ps[|ps| - 1];
      EventLinesReadBack(front);
      PiecesAreValid(last);
      EventReadsBack(EventLines(front), Pieces(last));
      DataLinesPayloads(StripAll(Pieces(last)));
      EventsAppend(GroupLines(CookedAll(EventLines(front))).closed, DataLines(StripAll(Pieces(last))));
    }
  }

  lemma {:induction false} DataLinesHaveNoLf(pieces: seq<Line>)
    requires NoLf(pieces)
    ensures NoLf(DataLines(pieces))
    decreases |pieces|
  {
    if pieces != [] { DataLinesHaveNoLf(pieces[..|pieces| - 1]); }
  }

  lemma {:induction false} EventLinesHaveNoLf(ps: seq<Payload>)
    ensures NoLf(EventLines(ps))
    decreases |ps|
  {
    if ps != [] {
      EventLinesHaveNoLf(ps[..|ps| - 1]);
      SplitMakesUpStream(ps[|ps| - 1]);
      DataLinesHaveNoLf(Pieces(ps[|ps| - 1]));
    }
  }

  /** Reading a written stream recovers, payload by payload, what Recovered says. */
  lemma StreamDecodes(ps: seq<Payload>)
    requires AllValid(ps)
    ensures AllEvents(Encode(ps)) == Decoded(ps)
  {
    EventLinesHaveNoLf(ps);
    SplitIsUnique(EventLines(ps), []);
    assert Encode(ps) == Unlines(EventLines(ps)) + [];
    EventLinesReadBack(ps);
    var g := GroupLines(CookedAll(EventLines(ps)));
    assert StreamLines(Encode(ps)) == CookedAll(EventLines(ps));
    EventsAppend(g.closed, g.open);
  }

  // ---------- Bad lines, and the last line ----------

  lemma SameReading(before: seq<Line>, line: Line, after: seq<Line>, rest: Line)
    requires NoLf(before) && LF !in line && NoLf(after) && LF !in rest && Cooked(line) == []
    ensures var bytes := Unlines(before + [line] + after) + rest;
            && SplitLines(bytes).rest == rest
            && CookedAll(SplitLines(bytes).lines) == CookedAll(before) + [[]] + CookedAll(after)
  {
    var lines := before + [line] + after;
    assert NoLf(lines);
    SplitIsUnique(lines, rest);
    CookedConcat(before + [line], after);
    CookedAppend(before, line);
  }

  /** Theorem: a terminated line that is no UTF-8 is read as a blank line. */
  lemma BadLineActsBlank(before: seq<Line>, line: Line, after: seq<Line>, rest: Line)
    requires NoLf(before) && LF !in line && NoLf(after) && LF !in rest
    requires forall text :: EncodeText(text) != StripCr(line)
    ensures var bad, blank := Unlines(before + [line] + after) + rest, Unlines(before + [[]] + after) + rest;
            AllEvents(bad) == AllEvents(blank) && CompletedEvents(bad) == CompletedEvents(blank)
  {
    ValidIffEncoded(StripCr(line));
    SameReading(before, line, after, rest);
    SameReading(before, [], after, rest);
  }

  /** Theorem: a data line that the end of the stream cuts off is dispatched all the same, and keeps its CR. */
  lemma LastLineIsDispatched(lines: seq<Line>, p: Payload)
    requires NoLf(lines) && LF !in p && ValidUtf8(p) && DataOf(GroupLines(CookedAll(lines)).open) == []
    ensures AllEvents(Unlines(lines) + (Ascii("data: ") + p))
            == CompletedEvents(Unlines(lines)) + (if p == [] then [] else [p])
  {
    var rest := DataLine(p);
    assert Ascii("data: ") + p == rest;
    SplitIsUnique(lines, rest);
    SplitIsUnique(lines, []);
    assert Unlines(lines) + [] == Unlines(lines);
    DataLineIsValid(p);
    LastGroup(CookedAll(lines), p);
  }

  lemma LastGroup(lines: seq<Line>, p: Payload)
    requires DataOf(GroupLines(lines).open) == []
    ensures var g, all := GroupLines(lines), GroupLines(lines + [DataLine(p)]);
            Events(all.closed + [all.open]) == Events(g.closed) + (if p == [] then [] else [p])
  {
    var g := GroupLines(lines);
    GroupAppend(lines, DataLine(p));
    DataLinePayload(p);
    DataAppend(g.open, DataLine(p));
    EventsAppend(g.closed, g.open + [DataLine(p)]);
  }

  // ---------- When a payload survives ----------

  lemma {:induction false} JoinedPieces(lines: seq<Line>, rest: Line)
    ensures JoinLf(lines + [rest]) == Unlines(lines) + rest
    decreases |lines|
  {
    if lines != [] {
      var front, last := lines[..|lines| - 1], lines[|lines| - 1];
      JoinedPieces(front, last);
      assert lines == front + [last];
      JoinAppend(lines, rest);
    }
  }

  /** The pieces of a payload, joined, are the payload. */
  lemma PiecesMakeUpPayload(p: Payload)
    ensures JoinLf(Pieces(p)) == p
  {
    SplitMakesUpStream(p);
    JoinedPieces(SplitLines(p).lines, SplitLines(p).rest);
  }

  predicate EndsInCr(line: Line) {
    line != [] && line[|line| - 1] == CR
  }

  /** CRs before LFs are exactly the CRs that end terminated lines. */
  lemma {:induction false} CrsByLines(p: Payload)
    ensures NoCrBeforeLf(p) <==> forall l :: l in SplitLines(p).lines ==> !EndsInCr(l)
    ensures EndsInCr(SplitLines(p).rest) <==> EndsInCr(p)
    decreases |p|
  {
    if p != [] {
      var front, b := p[..|p| - 1], p[|p| - 1];
      CrsByLines(front);
      assert p == front + [b];
      assert NoCrBeforeLf(p) <==> NoCrBeforeLf(front) && !(b == LF && EndsInCr(front));
    }
  }

  predicate NoneEndsInCr(pieces: seq<Line>) {
    forall l :: l in pieces ==> !EndsInCr(l)
  }

  lemma NoneEndsAppend(pieces: seq<Line>, piece: Line)
    ensures NoneEndsInCr(pieces + [piece]) <==> NoneEndsInCr(pieces) && !EndsInCr(piece)
  {
    assert forall l :: l in pieces ==> l in pieces + [piece];
    assert piece in pieces + [piece];
  }

  /** Stripping CRs can only shorten the joined text, and leaves its length alone only if no piece ends in CR. */
  lemma {:induction false} StrippingShortens(pieces: seq<Line>)
    ensures |JoinLf(StripAll(pieces))| <= |JoinLf(pieces)|
    ensures |JoinLf(StripAll(pieces))| == |JoinLf(pieces)| <==> NoneEndsInCr(pieces)
    ensures NoneEndsInCr(pieces) ==> StripAll(pieces) == pieces
    decreases |pieces|
  {
    if pieces != [] {
      var front, last := pieces[..|pieces| - 1], pieces[|pieces| - 1];
      assert pieces == front + [last];
      StrippingShortens(front);
      NoneEndsAppend(front, last);
      if front != [] {
        JoinAppend(front, last);
        JoinAppend(StripAll(front), StripCr(last));
      } else {
        assert StripAll(pieces) == [StripCr(last)];
      }
    }
  }

  lemma {:induction false} DroppingShortens(ps: seq<Payload>)
    ensures |EventText(ps)| <= |JoinLf(ps)|
    decreases |ps|
  {
    if ps != [] && ps[0] == [] { DroppingShortens(ps[1..]); }
  }

  /** The decoder's rule for joining payloads differs from plain joining exactly when the first of
      several payloads is empty. */
  lemma JoinsPlainlyIff(ps: seq<Payload>)
    ensures EventText(ps) == JoinLf(ps) <==> |ps| <= 1 || ps[0] != []
  {
    if ps == [[]] {
      assert ps[1..] == [];
    } else if ps != [] && ps[0] == [] {
      DroppingShortens(ps[1..]);
      assert |JoinLf(ps)| == 1 + |JoinLf(ps[1..])|;
    }
  }

  lemma FirstPieceEmptyIff(p: Payload)
    ensures |Pieces(p)| > 1 && Pieces(p)[0] == [] <==> p != [] && p[0] == LF
  {
    PiecesMakeUpPayload(p);
    SplitMakesUpStream(p);
    var pieces := Pieces(p);
    assert LF !in pieces[0];
    if |pieces| == 1 {
      assert p == pieces[0];
    } else if pieces[0] != [] {
      assert p[0] == pieces[0][0];
    }
  }

  /** A payload comes back as itself, as an event of its own, exactly when it survives. */
  lemma RecoveredIffSurvives(p: Payload)
    ensures Recovered(p) == p && p != [] <==> Survives(p)
    ensures |Recovered(p)| <= |p|
  {
    var pieces := Pieces(p);
    PiecesMakeUpPayload(p);
    StrippingShortens(pieces);
    DroppingShortens(StripAll(pieces));
    CrsByLines(p);
    assert NoneEndsInCr(pieces) <==> NoCrBeforeLf(p) && !EndsInCr(p);
    JoinsPlainlyIff(pieces);
    FirstPieceEmptyIff(p);
  }

  lemma {:induction false} DecodedIsNoLonger(ps: seq<Payload>)
    ensures |Decoded(ps)| <= |ps|
    decreases |ps|
  {
    if ps != [] { DecodedIsNoLonger(ps[..|ps| - 1]); }
  }

  lemma DecodedAppend(ps: seq<Payload>, p: Payload)
    ensures Decoded(ps + [p]) == ps + [p] <==> Decoded(ps) == ps && Recovered(p) == p && p != []
  {
    assert (ps + [p])[..|ps|] == ps;
    DecodedIsNoLonger(ps);
    var d := Decoded(ps + [p]);
    if d == ps + [p] {
      assert d[..|ps|] == ps && d[|ps|] == p;
    }
  }

  lemma {:induction false} DecodedIffSurvive(ps: seq<Payload>)
    ensures Decoded(ps) == ps <==> forall p :: p in ps ==> Survives(p)
    decreases |ps|
  {
    if ps != [] {
      var front, last := ps[..|ps| - 1], ps[|ps| - 1];
      assert ps == front + [last];
      DecodedIffSurvive(front);
      DecodedAppend(front, last);
      RecoveredIffSurvives(last);
    }
  }

  /** Theorem: writing payloads and reading the stream back yields the same payloads exactly when each
      of them is non-empty, does not start with LF and has no line that ends in CR. */
  lemma RoundTripIff(ps: seq<Payload>)
    requires AllValid(ps)
    ensures AllEvents(Encode(ps)) == ps <==> forall p :: p in ps ==> Survives(p)
  {
    StreamDecodes(ps);
    DecodedIffSurvive(ps);
  }
}
