/** Exactly when all cuttings of a stream have one and the same outcome. */
module MultipartOutcomes {
  import opened Wrappers
  import opened ByteSearch
  import opened Multipart
  import opened MultipartLaws
  import opened MultipartCuts

  // ----- streams refused in every cutting

  /** The parts announced before a header block that is refused however it arrives: it is the first
      to hold a long line, and that is its first line, with more than the limit before its end. */
  ghost function Doomed(p: Parser): Option<seq<Part>>
    decreases |p.window|, if p.state == 1 then 1 else 0
  {
    if p.window == [] || p.valid then None
    else if p.state == 2 && !LinesShort(p.window) then
      if Find(p.window, CRLF) > HEADER_MAX then Some(p.parts) else None
    else if OneTurn(true, p).Again? then Doomed(OneTurn(true, p).p)
    else None
  }

  ghost predicate Hopeless(p: Parser) { Doomed(p).Some? }

  /** Refused among the header lines of a block, with these parts. */
  predicate RefusedWith(r: Parsed, parts: seq<Part>) {
    !r.ok && r.p.state == 2 && !r.p.valid && r.p.parts == parts
  }

  /** A turn before the first long line is the same with and without the limit. */
  lemma ShortTurn(p: Parser)
    requires !p.valid && p.window != [] && !(p.state == 2 && !LinesShort(p.window))
    ensures OneTurn(false, p) == OneTurn(true, p)
  {
    hide Headers, Find;
  }

  lemma {:induction false} DoomedIsRefused(p: Parser)
    requires Started(p) && !p.valid && Hopeless(p)
    ensures RefusedWith(Drain(false, p), Doomed(p).value)
    decreases |p.window|, if p.state == 1 then 1 else 0
  {
    if p.state == 2 && !LinesShort(p.window) {
      hide LinesShort, Headers, Find;
    } else {
      ShortTurn(p);
      KeepsGoing(p);
      hide OneTurn, LinesShort;
      DoomedIsRefused(OneTurn(true, p).p);
    }
  }

  /** What has arrived of a hopeless stream is hopeless as well, or short so far and hopeless together
      with the rest. */
  ghost predicate SplitsDoom(p: Parser, b: string) {
    || Doomed(p) == Doomed(Fed(p, b))
    || (&& HeadersShort(p) && !Drain(true, p).p.valid
        && Doomed(Fed(Drain(true, p).p, b)) == Doomed(Fed(p, b)))
  }

  lemma {:induction false} DoomSplits(p: Parser, b: string)
    requires Started(p) && !p.valid && Hopeless(Fed(p, b))
    ensures SplitsDoom(p, b)
    decreases |p.window|, if p.state == 1 then 1 else 0
  {
    if p.window != [] {
      KeepsGoing(p);
      if p.state == 2 && !LinesShort(p.window + b) {
        LongFirstLine(p, b);
      } else if OneTurn(true, p).Again? {
        DoomGoesOn(p, b);
        DoomSplits(OneTurn(true, p).p, b);
        SplitsEarlier(p, b);
      } else {
        DoomWaits(p, b);
      }
    }
  }

  /** The block with the long line is being read: too much of it has arrived, or it is waited for. */
  lemma LongFirstLine(p: Parser, b: string)
    requires p.state == 2 && !p.valid && p.window != [] && !LinesShort(p.window + b) && Hopeless(Fed(p, b))
    ensures SplitsDoom(p, b)
  {
    var w := p.window;
    var pos := Find(w, CRLF);
    if pos < |w| {
      FindAppend(w, b, CRLF);
    }
    assert Find(w + b, CRLF) > HEADER_MAX;
    if pos == |w| && |w| <= HEADER_MAX {
      assert LinesShort(w);
      HeadersStep(w, p.file);
      hide Find, Headers, LinesShort;
      assert OneTurn(true, p) == Return(p);
    } else {
      assert !LinesShort(w);
      hide Find, Headers, LinesShort;
    }
  }

  /** A turn that goes round again leads to the same doom on the longer window. */
  lemma DoomGoesOn(p: Parser, b: string)
    requires Started(p) && !p.valid && p.window != [] && OneTurn(true, p).Again? && Hopeless(Fed(p, b))
    requires !(p.state == 2 && !LinesShort(p.window + b))
    ensures
      var t := OneTurn(true, p).p;
      Started(t) && !t.valid && Doomed(Fed(p, b)) == Doomed(Fed(t, b))
  {
    KeepsGoing(p);
    AgainAppend(p, b);
    hide OneTurn, LinesShort;
    var t := OneTurn(true, p).p;
    assert Fed(p, b).window != [] && !Fed(p, b).valid;
    assert Doomed(Fed(p, b)) == Doomed(OneTurn(true, Fed(p, b)).p);
    ClosedIsNotDoomed(Closed(t, b));
  }

  lemma ClosedIsNotDoomed(p: Parser)
    ensures p.valid ==> Doomed(p) == None
  {
  }

  lemma SplitsEarlier(p: Parser, b: string)
    requires Started(p) && !p.valid && p.window != [] && OneTurn(true, p).Again?
    requires !(p.state == 2 && !LinesShort(p.window + b))
    requires SplitsDoom(OneTurn(true, p).p, b) && Doomed(Fed(p, b)) == Doomed(Fed(OneTurn(true, p).p, b))
    ensures SplitsDoom(p, b)
  {
    if p.state == 2 {
      LinesShortPrefix(p.window, b);
    }
    hide OneTurn, LinesShort;
  }

  /** A turn that returns leaves a state from which the rest leads to the same doom. */
  lemma DoomWaits(p: Parser, b: string)
    requires Started(p) && !p.valid && p.window != [] && OneTurn(true, p).Return?
    requires !(p.state == 2 && !LinesShort(p.window + b))
    ensures SplitsDoom(p, b)
  {
    ReturnsUnclosed(p);
    if p.state == 2 {
      LinesShortPrefix(p.window, b);
      HeaderDoom(p, b);
    } else if p.state == 3 {
      BodyDoom(p, b);
    } else {
      assert OneTurn(true, p).p == p by { hide BodyTurn, HeaderTurn; }
    }
    hide OneTurn, LinesShort;
  }

  lemma ReturnsUnclosed(p: Parser)
    requires Started(p) && !p.valid && p.window != [] && OneTurn(true, p).Return?
    ensures Drain(true, p) == Parsed(OneTurn(true, p).p, true) && !OneTurn(true, p).p.valid
    ensures OneTurn(true, p).p.state == p.state
  {
    hide Headers, Find, Delivered;
  }

  lemma BodyDoom(p: Parser, b: string)
    requires p.state == 3 && !p.valid && p.window != [] && BodyTurn(p).Return?
    ensures Doomed(Fed(BodyTurn(p).p, b)) == Doomed(Fed(p, b))
  {
    BodyAppend(p, b);
    BodyReturns(p);
    hide BodyTurn, LinesShort;
  }

  lemma BodyReturns(p: Parser)
    requires p.state == 3 && !p.valid && p.window != [] && BodyTurn(p).Return?
    ensures
      var q := BodyTurn(p).p;
      q.window != [] && q.state == 3 && !q.valid
  {
    hide Find, Delivered;
  }

  lemma HeaderDoom(p: Parser, b: string)
    requires p.state == 2 && !p.valid && p.window != [] && HeaderTurn(true, p).Return? && LinesShort(p.window + b)
    ensures Doomed(Fed(HeaderTurn(true, p).p, b)) == Doomed(Fed(p, b))
  {
    var q := HeaderTurn(true, p).p;
    LinesShortRest(p.window, b, p.file);
    HeadersAppend(p.window, b, p.file);
    hide Headers, LinesShort;
    assert HeaderTurn(true, Fed(p, b)) == HeaderTurn(true, Fed(q, b));
    if q.window + b == [] {
      EmptyHeaders(q.file);
    }
  }

  /** A hopeless stream is refused in every cutting, and with the same parts. */
  lemma {:induction false} DoomedInChunks(p: Parser, chunks: seq<string>)
    requires Started(p) && !p.valid && p.epilogue == 0 && Hopeless(Fed(p, Concat(chunks)))
    ensures RefusedWith(ParseChunks(false, p, chunks), Doomed(Fed(p, Concat(chunks))).value)
    decreases |chunks|
  {
    hide Drain, Doomed, HeadersShort, RefusedWith;
    if chunks == [] {
      assert Fed(p, "") == p;
      DoomedIsRefused(p);
    } else {
      var front, last := chunks[..|chunks| - 1], chunks[|chunks| - 1];
      var f := Fed(p, Concat(front));
      FedTwice(p, Concat(front), last);
      DoomSplits(f, last);
      if Doomed(f) == Doomed(Fed(f, last)) {
        DoomedInChunks(p, front);
        RefusedIsNotOk(ParseChunks(false, p, front), Doomed(f).value);
      } else {
        EpilogueFits(f);
        ChunkIndependence(p, front);
        DrainAppend(f, "");
        DoomedIsRefused(Fed(Drain(true, f).p, last));
      }
    }
  }

  lemma RefusedIsNotOk(r: Parsed, parts: seq<Part>)
    requires RefusedWith(r, parts)
    ensures !r.ok
  {
  }

  // ----- streams that pass in one piece and not in another

  /** In one piece a stream whose first long line is not hopeless passes the block that holds it: it
      is refused, if at all, with that part announced. */
  lemma {:induction false} RefusedLater(p: Parser)
    requires Started(p) && !p.valid && !HeadersShort(p) && !Hopeless(p)
    ensures !Drain(false, p).ok ==> |Drain(false, p).p.parts| > BlockParts(p)
    decreases |p.window|, if p.state == 1 then 1 else 0
  {
    if p.state == 2 && !LinesShort(p.window) {
      LongBlockPasses(p);
    } else {
      GoesOn(p);
      ShortTurn(p);
      hide OneTurn, LinesShort;
      RefusedLater(OneTurn(true, p).p);
    }
  }

  lemma LongBlockPasses(p: Parser)
    requires p.state == 2 && !p.valid && p.window != [] && Find(p.window, CRLF) <= HEADER_MAX
    ensures !Drain(false, p).ok ==> |Drain(false, p).p.parts| > |p.parts|
  {
    hide Headers, Find;
    var t := HeaderTurn(false, p);
    assert OneTurn(false, p) == t && !t.Fail?;
    assert t.Again? ==> |t.p.parts| == |p.parts| + 1;
    hide OneTurn, HeaderTurn;
    if t.Again? {
      PartsGrow(false, t.p);
    }
  }

  /** From the opening delimiter on, every cutting of the stream has the outcome of the program on one
      piece if and only if every header line is under the limit and no CRLF occurs after the closing
      delimiter, or the stream is refused at the first line of a block however it arrives. */
  lemma CuttingsAgree(p: Parser, s: string)
    requires Started(p) && !p.valid && p.window == [] && p.epilogue == 0
    ensures
      (forall chunks | Concat(chunks) == s :: SameOutcome(ParseChunks(false, p, chunks), Drain(false, Fed(p, s))))
      <==> (HeadersShort(Fed(p, s)) && !HasCrlf(Epilogue(p, s))) || Hopeless(Fed(p, s))
  {
    hide *;
    if HeadersShort(Fed(p, s)) {
      CuttingsAreIdeal(p, s);
      ShortIsIdeal(p, s);
      ShortIsNotHopeless(Fed(p, s));
    } else if Hopeless(Fed(p, s)) {
      forall chunks | Concat(chunks) == s
        ensures SameOutcome(ParseChunks(false, p, chunks), Drain(false, Fed(p, s)))
      {
        HopelessAgrees(p, s, chunks);
      }
    } else {
      var chunks := LongLinesRefused(p, s);
      LongLineDiffers(p, s, ParseChunks(false, p, chunks));
    }
  }

  lemma ShortIsIdeal(p: Parser, s: string)
    requires Started(p) && !p.valid && HeadersShort(Fed(p, s))
    ensures Drain(false, Fed(p, s)) == Drain(true, Fed(p, s))
  {
    hide Drain, HeadersShort;
    ProgramIsIdeal(Fed(p, s));
  }

  lemma {:induction false} ShortIsNotHopeless(p: Parser)
    requires HeadersShort(p)
    ensures !Hopeless(p)
    decreases |p.window|, if p.state == 1 then 1 else 0
  {
    hide LinesShort, OneTurn;
    if p.window != [] && !p.valid && OneTurn(true, p).Again? {
      ShortIsNotHopeless(OneTurn(true, p).p);
    }
  }

  lemma HopelessAgrees(p: Parser, s: string, chunks: seq<string>)
    requires Started(p) && !p.valid && p.epilogue == 0 && Hopeless(Fed(p, s)) && Concat(chunks) == s
    ensures SameOutcome(ParseChunks(false, p, chunks), Drain(false, Fed(p, s)))
  {
    hide Drain, Doomed, ParseChunks, Concat;
    DoomedInChunks(p, chunks);
    DoomedIsRefused(Fed(p, s));
  }

  lemma LongLineDiffers(p: Parser, s: string, r: Parsed)
    requires Started(p) && !p.valid && !HeadersShort(Fed(p, s)) && !Hopeless(Fed(p, s))
    requires !r.ok && |r.p.parts| <= BlockParts(Fed(p, s))
    ensures !SameOutcome(r, Drain(false, Fed(p, s)))
  {
    hide Drain, Doomed, HeadersShort, BlockParts;
    RefusedLater(Fed(p, s));
  }

  // ----- from the start of the stream

  /** The stream byte by byte. */
  function Bytes(s: string): seq<string> {
    if s == "" then [] else Bytes(s[..|s| - 1]) + [[s[|s| - 1]]]
  }

  lemma {:induction false} BytesAreTheStream(s: string)
    ensures Concat(Bytes(s)) == s
  {
    if s != "" {
      var front, last := s[..|s| - 1], s[|s| - 1];
      BytesAreTheStream(front);
      assert Bytes(s)[..|Bytes(s)| - 1] == Bytes(front);
      assert s == front + [last];
    }
  }

  /** A chunk without the opening delimiter leaves no trace. */
  lemma NothingOpened(boundary: string, chunk: string)
    requires Find(chunk, OpenDelimiter(boundary)) == |chunk|
    ensures Drain(false, Fed(Begin(boundary), chunk)) == Parsed(Begin(boundary), true)
  {
    hide Drain, Find, OpenDelimiter;
    OpeningNeedsOneChunk(boundary, chunk);
  }

  lemma {:induction false} ChunksOpenNothing(boundary: string, chunks: seq<string>)
    requires forall c <- chunks :: Find(c, OpenDelimiter(boundary)) == |c|
    ensures ParseChunks(false, Begin(boundary), chunks) == Parsed(Begin(boundary), true)
    decreases |chunks|
  {
    hide Drain, Find, OpenDelimiter;
    if chunks == [] {
      NothingToDo(Begin(boundary));
    } else {
      var front, last := chunks[..|chunks| - 1], chunks[|chunks| - 1];
      ChunksOpenNothing(boundary, front);
      assert last in chunks;
      NothingOpened(boundary, last);
    }
  }

  /** No chunk holds what the whole does not. */
  lemma {:induction false} ChunksHoldNoMore(chunks: seq<string>, d: string)
    requires d != [] && Find(Concat(chunks), d) == |Concat(chunks)|
    ensures forall c <- chunks :: Find(c, d) == |c|
    decreases |chunks|
  {
    if chunks != [] {
      var front, last := chunks[..|chunks| - 1], chunks[|chunks| - 1];
      PartsHoldNoMore(Concat(front), last, d);
      hide Find;
      ChunksHoldNoMore(front, d);
      assert chunks == front + [last];
    }
  }

  lemma PartsHoldNoMore(a: string, b: string, d: string)
    requires d != [] && Find(a + b, d) == |a + b|
    ensures Find(a, d) == |a| && Find(b, d) == |b|
  {
    if Find(a, d) < |a| {
      FindAppend(a, b, d);
    }
    var i := Find(b, d);
    assert (a + b)[|a|..] == b;
    StartsAtShift(a + b, |a|, d, i);
  }

  lemma {:induction false} BytesAreShort(s: string, d: string)
    requires |d| > 1
    ensures forall c <- Bytes(s) :: Find(c, d) == |c|
  {
    if s != "" {
      BytesAreShort(s[..|s| - 1], d);
    }
  }

  lemma {:induction false} StaysStarted(p: Parser)
    requires Started(p)
    ensures Started(Drain(false, p).p)
    decreases |p.window|, if p.state == 1 then 1 else 0
  {
    if p.window != [] {
      TurnStaysStarted(p);
      hide OneTurn;
      if OneTurn(false, p).Again? {
        StaysStarted(OneTurn(false, p).p);
      }
    }
  }

  lemma TurnStaysStarted(p: Parser)
    requires Started(p) && p.window != []
    ensures Started(OneTurn(false, p).p)
  {
    hide Headers, Find;
  }

  /** A stream that holds the opening delimiter is not parsed at all when it comes byte by byte. */
  lemma OpeningIsLost(boundary: string, s: string)
    requires Find(s, OpenDelimiter(boundary)) < |s|
    ensures
      !SameOutcome(ParseChunks(false, Begin(boundary), Bytes(s)), Drain(false, Fed(Begin(boundary), s)))
  {
    hide Drain, ParseChunks, Find, OpenDelimiter, Bytes;
    var open := OpenDelimiter(boundary);
    var i := Find(s, open);
    BytesAreShort(s, open);
    ChunksOpenNothing(boundary, Bytes(s));
    OpeningNeedsOneChunk(boundary, s);
    StaysStarted(Begin(boundary).(state := 1, window := s[i + |open|..]));
  }

  /** From its start, every cutting of a stream has the outcome of one piece if and only if the opening
      delimiter does not occur in it. */
  lemma FromTheStart(boundary: string, s: string)
    ensures
      (forall chunks | Concat(chunks) == s ::
         SameOutcome(ParseChunks(false, Begin(boundary), chunks), Drain(false, Fed(Begin(boundary), s))))
      <==> Find(s, OpenDelimiter(boundary)) == |s|
  {
    hide Drain, ParseChunks, Concat, Find, OpenDelimiter, Bytes;
    if Find(s, OpenDelimiter(boundary)) == |s| {
      NothingOpened(boundary, s);
      forall chunks | Concat(chunks) == s
        ensures SameOutcome(ParseChunks(false, Begin(boundary), chunks), Drain(false, Fed(Begin(boundary), s)))
      {
        ChunksHoldNoMore(chunks, OpenDelimiter(boundary));
        ChunksOpenNothing(boundary, chunks);
      }
    } else {
      BytesAreTheStream(s);
      OpeningIsLost(boundary, s);
    }
  }
}
