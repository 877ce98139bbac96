/** Laws of the multipart parser: how it depends on the way a stream is cut into chunks,
    and what it makes of a serialized form. */
module MultipartLaws {
  import opened ByteSearch
  import opened Multipart

  // ----- header lines arriving in pieces

  /** Reading what has arrived and then the rest is reading it all. */
  lemma {:induction false} HeadersAppend(w: string, b: string, file: FileInfo)
    ensures
      match Headers(w, file)
      case EndOfHeaders(rest, f) => Headers(w + b, file) == EndOfHeaders(rest + b, f)
      case More(rest, f) => Headers(w + b, file) == Headers(rest + b, f)
    decreases |w|
  {
    hide ReadHeader, Find, StartsAt;
    var pos := Find(w, CRLF);
    if pos < |w| {
      FindAppend(w, b, CRLF);
      if pos == 0 {
        assert (w + b)[2..] == w[2..] + b;
      } else {
        assert (w + b)[pos + 2..] == w[pos + 2..] + b;
        assert (w + b)[..pos] == w[..pos];
        HeadersAppend(w[pos + 2..], b, ReadHeader(w[..pos], file));
      }
    }
  }

  // ----- content arriving in pieces

  lemma DeliveredTwice(parts: seq<Part>, x: string, y: string)
    ensures Delivered(Delivered(parts, x), y) == Delivered(parts, x + y)
  {
    if parts != [] {
      var last := parts[|parts| - 1];
      assert last.content + x + y == last.content + (x + y);
    }
  }

  /** With no delimiter in the window, delivering all but its last bytes now and going on
      with the rest later comes to the same. */
  lemma BodyAppend(p: Parser, b: string)
    requires BodyTurn(p).Return?
    ensures BodyTurn(Fed(p, b)) == BodyTurn(Fed(BodyTurn(p).p, b))
  {
    hide Find, Delimiter, Delivered;
    var w, d := p.window, Delimiter(p.boundary);
    if |d| <= |w| {
      var len := |w| - |d|;
      var q := BodyTurn(p).p;
      assert q == p.(window := w[len..], parts := Delivered(p.parts, w[..len]));
      assert Find(w, d) == |w|;
      hide BodyTurn;
      FindKeepsTail(w, b, d);
      BodyAppendAt(p, q, w, b, d, len, Find(q.window + b, d));
    }
  }

  lemma BodyAppendAt(p: Parser, q: Parser, w: string, b: string, d: string, len: nat, pos: nat)
    requires d == Delimiter(p.boundary) && w == p.window && len == |w| - |d|
    requires q == p.(window := w[len..], parts := Delivered(p.parts, w[..len]))
    requires Find(q.window + b, d) == pos && Find(w + b, d) == len + pos
    ensures BodyTurn(Fed(p, b)) == BodyTurn(Fed(q, b))
  {
    hide Find, Delimiter, Delivered;
    var tail := w[len..] + b;
    if pos < |tail| {
      SplitDelivery(p.parts, w, b, len, pos, |d|);
    } else {
      SplitDelivery(p.parts, w, b, len, |tail| - |d|, 0);
    }
  }

  /** Delivering in two pieces, cut at `len`, and going on after `skip` more bytes. */
  lemma SplitDelivery(parts: seq<Part>, w: string, b: string, len: nat, pos: nat, skip: nat)
    requires len <= |w| && pos + skip <= |w[len..] + b|
    ensures
      var all, tail := w + b, w[len..] + b;
      && Delivered(Delivered(parts, w[..len]), tail[..pos]) == Delivered(parts, all[..len + pos])
      && tail[pos + skip..] == all[len + pos + skip..]
  {
    hide Delivered;
    var all, tail := w + b, w[len..] + b;
    assert w[..len] + tail[..pos] == all[..len + pos];
    DeliveredTwice(parts, w[..len], tail[..pos]);
  }

  lemma BodyFoundAppend(p: Parser, b: string)
    requires BodyTurn(p).Again?
    ensures BodyTurn(Fed(p, b)) == Again(Fed(BodyTurn(p).p, b))
  {
    hide Delimiter, Delivered;
    var w, d := p.window, Delimiter(p.boundary);
    var pos := Find(w, d);
    FindAppend(w, b, d);
    assert (w + b)[..pos] == w[..pos];
    assert (w + b)[pos + |d|..] == w[pos + |d|..] + b;
  }

  // ----- one turn on a longer window

  ghost predicate Started(p: Parser) { 1 <= p.state }

  /** A closed parser that has thrown away some more bytes. */
  function Closed(p: Parser, b: string): Parser { p.(epilogue := p.epilogue + |b|) }

  /** A turn that goes round again does the same on a longer window. */
  lemma AgainAppend(p: Parser, b: string)
    requires Started(p) && !p.valid && p.window != [] && OneTurn(true, p).Again?
    ensures !OneTurn(true, p).p.valid ==> OneTurn(true, Fed(p, b)) == Again(Fed(OneTurn(true, p).p, b))
    ensures OneTurn(true, p).p.valid ==> OneTurn(true, Fed(p, b)) == Again(Closed(OneTurn(true, p).p, b))
  {
    var w := p.window;
    if p.state == 2 {
      HeadersAppend(w, b, p.file);
    } else if p.state == 3 {
      BodyFoundAppend(p, b);
    } else if p.state != 1 {
      BoundaryAppend(p, b);
    }
  }

  lemma BoundaryAppend(p: Parser, b: string)
    requires !p.valid && BoundaryTurn(p).Again?
    ensures !BoundaryTurn(p).p.valid ==> BoundaryTurn(Fed(p, b)) == Again(Fed(BoundaryTurn(p).p, b))
    ensures BoundaryTurn(p).p.valid ==> BoundaryTurn(Fed(p, b)) == Again(Closed(BoundaryTurn(p).p, b))
  {
    var w := p.window;
    StartsAtAppend(w, b, CRLF, 0);
    assert (w + b)[2..] == w[2..] + b;
    if |w| >= 4 {
      StartsAtAppend(w, b, DASH_CRLF, 0);
    }
  }

  /** A turn that returns has left a state from which more bytes lead to the same place. */
  lemma ReturnAppend(p: Parser, b: string)
    requires Started(p) && p.window != [] && OneTurn(true, p).Return?
    ensures Drain(true, Fed(OneTurn(true, p).p, b)) == Drain(true, Fed(p, b))
  {
    var q := OneTurn(true, p).p;
    if p.valid {
      assert Fed(q, b).window == b;
    } else if p.state == 2 {
      HeaderReturnAppend(p, b);
    } else if p.state == 3 {
      BodyReturnAppend(p, b);
    } else {
      assert q == p;
    }
  }

  lemma HeaderReturnAppend(p: Parser, b: string)
    requires p.state == 2 && !p.valid && p.window != [] && HeaderTurn(true, p).Return?
    ensures Drain(true, Fed(HeaderTurn(true, p).p, b)) == Drain(true, Fed(p, b))
  {
    hide Headers;
    var q := HeaderTurn(true, p).p;
    HeadersAppend(p.window, b, p.file);
    assert HeaderTurn(true, Fed(p, b)) == HeaderTurn(true, Fed(q, b));
    if q.window + b == [] {
      EmptyHeaders(q.file);
      assert p.window + b == p.window;
    }
  }

  lemma EmptyHeaders(file: FileInfo)
    ensures Headers("", file) == More("", file)
  {
  }

  lemma BodyReturnAppend(p: Parser, b: string)
    requires p.state == 3 && !p.valid && p.window != [] && BodyTurn(p).Return?
    ensures Drain(true, Fed(BodyTurn(p).p, b)) == Drain(true, Fed(p, b))
  {
    var q := BodyTurn(p).p;
    BodyAppend(p, b);
    assert q.window != [];
    hide BodyTurn;
  }

  // ----- chunk independence of the ideal parser

  /** Draining what has arrived, then the rest, is draining it all. */
  lemma {:induction false} DrainAppend(p: Parser, b: string)
    requires Started(p)
    ensures Drain(true, p).ok && Started(Drain(true, p).p)
    ensures Drain(true, Fed(Drain(true, p).p, b)) == Drain(true, Fed(p, b))
    decreases |p.window|, if p.state == 1 then 1 else 0
  {
    hide HeaderTurn, BodyTurn, BoundaryTurn, OpeningTurn;
    if p.window != [] {
      KeepsGoing(p);
      var t := OneTurn(true, p);
      if t.Again? {
        DrainAppend(t.p, b);
        AgainAppend(p, b);
        if t.p.valid {
          ClosedAppend(p, b);
        }
      } else {
        ReturnAppend(p, b);
      }
    }
  }

  lemma KeepsGoing(p: Parser)
    requires Started(p) && p.window != []
    ensures !OneTurn(true, p).Fail? && Started(OneTurn(true, p).p)
    ensures OneTurn(true, p).Again? ==> !p.valid
    ensures OneTurn(true, p).Again? && OneTurn(true, p).p.valid ==> OneTurn(true, p).p.window == []
  {
    hide Headers, Find, Delivered;
  }

  lemma ClosedAppend(p: Parser, b: string)
    requires Started(p) && !p.valid && p.window != [] && OneTurn(true, p).Again? && OneTurn(true, p).p.valid
    ensures Drain(true, Fed(Drain(true, p).p, b)) == Drain(true, Fed(p, b))
  {
    KeepsGoing(p);
    AgainAppend(p, b);
    hide OneTurn;
    var q := OneTurn(true, p).p;
    assert Drain(true, p).p == q;
    Absorbs(q, b);
    var r := OneTurn(true, Fed(p, b)).p;
    assert Drain(true, Fed(p, b)) == Drain(true, r);
  }

  lemma Absorbs(q: Parser, b: string)
    requires q.valid && q.window == []
    ensures Drain(true, Fed(q, b)) == Parsed(Closed(q, b), true)
  {
  }

  // ----- the program's parser against the ideal one

  /** Every header line up to the empty one is under the limit, and so is a line still
      incomplete. */
  predicate LinesShort(w: string)
    decreases |w|
  {
    var pos := Find(w, CRLF);
    if pos == |w| then |w| <= HEADER_MAX
    else pos < HEADER_MAX && (pos == 0 || LinesShort(w[pos + 2..]))
  }

  /** The same for all the header lines the ideal parser comes across. */
  ghost predicate HeadersShort(p: Parser)
    decreases |p.window|, if p.state == 1 then 1 else 0
  {
    p.window == [] || p.valid ||
    (&& (p.state == 2 ==> LinesShort(p.window))
     && (OneTurn(true, p).Again? ==> HeadersShort(OneTurn(true, p).p)))
  }

  /** On short headers and before the closing delimiter, the program is ideal. */
  lemma {:induction false} ProgramIsIdeal(p: Parser)
    requires Started(p) && !p.valid && HeadersShort(p)
    ensures Drain(false, p) == Drain(true, p)
    decreases |p.window|, if p.state == 1 then 1 else 0
  {
    if p.window != [] {
      KeepsGoing(p);
      assert OneTurn(false, p) == OneTurn(true, p) by { hide Headers, Find; }
      var t := OneTurn(true, p);
      hide OneTurn;
      if t.Again? && !t.p.valid {
        ProgramIsIdeal(t.p);
      }
    }
  }

  lemma {:induction false} LinesShortPrefix(w: string, b: string)
    requires LinesShort(w + b)
    ensures LinesShort(w)
    decreases |w|
  {
    var pos := Find(w, CRLF);
    if pos < |w| {
      FindAppend(w, b, CRLF);
      if pos > 0 {
        assert (w + b)[pos + 2..] == w[pos + 2..] + b;
        LinesShortPrefix(w[pos + 2..], b);
      }
    } else {
      var at := Find(w + b, CRLF);
      if at + 2 <= |w| {
        StartsAtAppend(w, b, CRLF, at);
      }
    }
  }

  /** What is left of the header lines after reading some is short as well. */
  lemma {:induction false} LinesShortRest(w: string, b: string, file: FileInfo)
    requires LinesShort(w + b) && Headers(w, file).More?
    ensures LinesShort(Headers(w, file).window + b)
    decreases |w|
  {
    hide ReadHeader, StartsAt;
    var pos := Find(w, CRLF);
    if pos < |w| {
      FindAppend(w, b, CRLF);
      if pos > 0 {
        assert (w + b)[pos + 2..] == w[pos + 2..] + b;
        LinesShortRest(w[pos + 2..], b, ReadHeader(w[..pos], file));
      }
    }
  }

  /** Short headers in the whole stream: short in what has arrived, and in what is left
      of it together with the rest. */
  lemma {:induction false} HeadersShortSplit(p: Parser, b: string)
    requires Started(p) && !p.valid && HeadersShort(Fed(p, b))
    ensures HeadersShort(p)
    ensures HeadersShort(Fed(Drain(true, p).p, b))
    decreases |p.window|, if p.state == 1 then 1 else 0
  {
    if p.window != [] {
      KeepsGoing(p);
      if p.state == 2 {
        LinesShortPrefix(p.window, b);
      }
      var t := OneTurn(true, p);
      if t.Again? {
        AgainAppend(p, b);
        hide OneTurn;
        if !t.p.valid {
          HeadersShortSplit(t.p, b);
        }
      } else {
        HeadersShortReturn(p, b);
      }
    }
  }

  lemma HeadersShortReturn(p: Parser, b: string)
    requires Started(p) && !p.valid && p.window != [] && HeadersShort(Fed(p, b)) && OneTurn(true, p).Return?
    ensures HeadersShort(Fed(OneTurn(true, p).p, b))
  {
    var q := OneTurn(true, p).p;
    if p.state == 2 {
      HeadersAppend(p.window, b, p.file);
      LinesShortRest(p.window, b, p.file);
      hide Headers, LinesShort;
      assert q.window + b != [] ==> OneTurn(true, Fed(q, b)) == OneTurn(true, Fed(p, b));
    } else if p.state == 3 {
      BodyAppend(p, b);
      hide BodyTurn;
    } else {
      assert q == p by { hide BodyTurn, HeaderTurn; }
    }
  }

  // ----- streams cut into chunks

  function Concat(chunks: seq<string>): string {
    if chunks == [] then "" else Concat(chunks[..|chunks| - 1]) + chunks[|chunks| - 1]
  }

  /** Feeding the chunks one after the other; a failed parse ends it. */
  function ParseChunks(ideal: bool, p: Parser, chunks: seq<string>): Parsed
    decreases |chunks|
  {
    if chunks == [] then Drain(ideal, p)
    else
      var r := ParseChunks(ideal, p, chunks[..|chunks| - 1]);
      if r.ok then Drain(ideal, Fed(r.p, chunks[|chunks| - 1])) else r
  }

  lemma FedTwice(p: Parser, a: string, b: string)
    ensures Fed(Fed(p, a), b) == Fed(p, a + b)
  {
    assert p.window + a + b == p.window + (a + b);
  }

  /** However the stream is cut, the ideal parser ends where one piece would take it. */
  lemma {:induction false} IdealChunks(p: Parser, chunks: seq<string>)
    requires Started(p)
    ensures ParseChunks(true, p, chunks) == Drain(true, Fed(p, Concat(chunks)))
    ensures ParseChunks(true, p, chunks).ok
    decreases |chunks|
  {
    if chunks == [] {
      assert Fed(p, "") == p;
      DrainAppend(p, "");
    } else {
      var front, last := chunks[..|chunks| - 1], chunks[|chunks| - 1];
      IdealChunks(p, front);
      DrainAppend(Fed(p, Concat(front)), last);
      FedTwice(p, Concat(front), last);
      DrainAppend(Fed(p, Concat(chunks)), "");
    }
  }

  lemma {:induction false} EpilogueGrows(p: Parser)
    ensures p.epilogue <= Drain(true, p).p.epilogue
    ensures p.valid ==> Drain(true, p).p.valid && Drain(true, p).p.epilogue == p.epilogue + |p.window|
    ensures p.valid ==> Drain(true, p).p.window == []
    decreases |p.window|, if p.state == 1 then 1 else 0
  {
    if p.window != [] {
      var t := OneTurn(true, p);
      assert p.epilogue <= t.p.epilogue by { hide Headers, Find, Delivered; }
      hide OneTurn;
      if t.Again? {
        EpilogueGrows(t.p);
      }
    }
  }

  /** The chunks after the closing delimiter, if any, carry nothing. */
  lemma EarlyCloseHasEpilogue(p: Parser, front: string, last: string)
    requires Started(p) && Drain(true, Fed(p, front)).p.valid
    requires Drain(true, Fed(p, front + last)).p.epilogue == 0
    ensures last == ""
  {
    hide Drain;
    DrainAppend(Fed(p, front), last);
    FedTwice(p, front, last);
    var q := Drain(true, Fed(p, front)).p;
    EpilogueGrows(Fed(q, last));
  }

  lemma {:induction false} DrainedWindow(p: Parser)
    ensures Drain(true, p).p.valid ==> p.valid || Drain(true, p).p.window == []
    decreases |p.window|, if p.state == 1 then 1 else 0
  {
    if p.window != [] {
      var t := OneTurn(true, p);
      assert t.Again? && t.p.valid ==> p.valid || t.p.window == [] by { hide Headers, Find, Delivered; }
      assert !t.Again? && t.p.valid ==> p.valid by { hide Headers, Find, Delivered; }
      hide OneTurn;
      if t.Again? {
        DrainedWindow(t.p);
      }
    }
  }

  /** Chunk independence: if the header lines of the stream are short and nothing follows
      its closing delimiter, then however the bytes are cut into chunks the program ends
      in the state, and with the parts, that one piece would give. */
  lemma {:induction false} ChunkIndependence(p: Parser, chunks: seq<string>)
    requires Started(p) && !p.valid
    requires HeadersShort(Fed(p, Concat(chunks)))
    requires Drain(true, Fed(p, Concat(chunks))).p.epilogue == 0
    ensures ParseChunks(false, p, chunks) == Drain(true, Fed(p, Concat(chunks)))
    decreases |chunks|
  {
    hide Drain, HeadersShort;
    if chunks == [] {
      assert Fed(p, "") == p;
      ProgramIsIdeal(p);
    } else {
      var front, last := chunks[..|chunks| - 1], chunks[|chunks| - 1];
      var q := Drain(true, Fed(p, Concat(front))).p;
      FedTwice(p, Concat(front), last);
      DrainAppend(Fed(p, Concat(front)), last);
      EpilogueGrows(Fed(q, last));
      HeadersShortSplit(Fed(p, Concat(front)), last);
      ChunkIndependence(p, front);
      if q.valid {
        EarlyCloseHasEpilogue(p, Concat(front), last);
        DrainedWindow(Fed(p, Concat(front)));
        NothingToDo(Fed(q, last));
      } else {
        ProgramIsIdeal(Fed(q, last));
      }
    }
  }

  lemma NothingToDo(p: Parser)
    requires p.window == []
    ensures Drain(false, p) == Parsed(p, true) && Drain(true, p) == Parsed(p, true)
  {
  }

  // ----- the content of one part, whatever the rest of the stream

  lemma DrainBody(p: Parser)
    requires p.state == 3
    ensures Drain(false, p) == if BodyTurn(p).Again? then Drain(false, BodyTurn(p).p) else Parsed(BodyTurn(p).p, true)
    ensures BodyTurn(p).p.state == if BodyTurn(p).Again? then 4 else 3
  {
    hide Find, Delivered;
  }

  /** Until the delimiter is complete, the program is where one piece would have taken it. */
  lemma {:induction false} BodySoFar(p: Parser, chunks: seq<string>)
    requires p.state == 3 && BodyTurn(Fed(p, Concat(chunks))).Return?
    ensures ParseChunks(false, p, chunks) == Parsed(BodyTurn(Fed(p, Concat(chunks))).p, true)
    decreases |chunks|
  {
    hide BodyTurn, Drain;
    if chunks == [] {
      assert Fed(p, "") == p;
      DrainBody(p);
    } else {
      var front, last := chunks[..|chunks| - 1], chunks[|chunks| - 1];
      var t := Fed(p, Concat(front));
      FedTwice(p, Concat(front), last);
      NotYet(t, last);
      BodySoFar(p, front);
      BodyAppend(t, last);
      DrainBody(t);
      DrainBody(Fed(BodyTurn(t).p, last));
    }
  }

  lemma NotYet(p: Parser, b: string)
    requires BodyTurn(Fed(p, b)).Return?
    ensures BodyTurn(p).Return?
  {
    if BodyTurn(p).Again? {
      BodyFoundAppend(p, b);
    }
  }

  /** Once it is, the program goes on after the delimiter with the bytes that follow it. */
  lemma {:induction false} BodyDone(p: Parser, chunks: seq<string>) returns (rest: string, later: seq<string>)
    requires p.state == 3 && BodyTurn(Fed(p, Concat(chunks))).Again?
    ensures
      var t := BodyTurn(Fed(p, Concat(chunks))).p;
      && rest + Concat(later) == t.window
      && ParseChunks(false, p, chunks) == ParseChunks(false, t.(window := rest), later)
    decreases |chunks|
  {
    hide BodyTurn, Drain;
    var t := BodyTurn(Fed(p, Concat(chunks))).p;
    if chunks == [] {
      assert Fed(p, "") == p;
      DrainBody(p);
      rest, later := t.window, [];
      assert rest + "" == rest;
    } else {
      var front, last := chunks[..|chunks| - 1], chunks[|chunks| - 1];
      var f := Fed(p, Concat(front));
      FedTwice(p, Concat(front), last);
      if BodyTurn(f).Again? {
        BodyFoundAppend(f, last);
        rest, later := BodyDone(p, front);
        OneChunkMore(BodyTurn(f).p.(window := rest), rest, later, last);
        later := later + [last];
      } else {
        BodyTurnEnds(f);
        BodySoFar(p, front);
        BodyAppend(f, last);
        DrainBody(f);
        DrainBody(Fed(BodyTurn(f).p, last));
        rest, later := t.window, [];
        assert rest + "" == rest;
      }
    }
  }

  lemma BodyTurnEnds(p: Parser)
    ensures BodyTurn(p).Again? || BodyTurn(p).Return?
  {
  }

  lemma OneChunkMore(p: Parser, rest: string, later: seq<string>, last: string)
    ensures rest + Concat(later + [last]) == rest + Concat(later) + last
    ensures
      var r := ParseChunks(false, p, later);
      ParseChunks(false, p, later + [last]) == if r.ok then Drain(false, Fed(r.p, last)) else r
  {
    hide Drain;
    assert (later + [last])[..|later|] == later;
  }

  /** The content delivered for a part, over all the chunks, is exactly the bytes before the
      first delimiter, and the program goes on right after that delimiter: for every stream,
      however it is cut and whatever follows. */
  lemma ContentEndsAtDelimiter(p: Parser, chunks: seq<string>) returns (rest: string, later: seq<string>)
    requires p.state == 3
    requires Find(p.window + Concat(chunks), Delimiter(p.boundary)) < |p.window + Concat(chunks)|
    ensures
      var all, d := p.window + Concat(chunks), Delimiter(p.boundary);
      var i := Find(all, d);
      && rest + Concat(later) == all[i + |d|..]
      && ParseChunks(false, p, chunks)
         == ParseChunks(false, p.(state := 4, window := rest, parts := Delivered(p.parts, all[..i])), later)
  {
    hide Delivered, Find, Drain, ParseChunks, Concat;
    rest, later := BodyDone(p, chunks);
  }

  /** While no delimiter has arrived, delivered bytes and held-back bytes are the stream. */
  lemma NoByteLost(p: Parser, chunks: seq<string>)
    requires p.state == 3
    requires Find(p.window + Concat(chunks), Delimiter(p.boundary)) == |p.window + Concat(chunks)|
    ensures
      var r := ParseChunks(false, p, chunks);
      var all, held := p.window + Concat(chunks), |r.p.window|;
      && r.ok && r.p.state == 3 && held <= |Delimiter(p.boundary)| && held <= |all|
      && r.p.window == all[|all| - held..]
      && r.p.parts == Delivered(p.parts, all[..|all| - held])
  {
    hide Find, Delimiter, Delivered, ParseChunks, Concat;
    BodySoFar(p, chunks);
    var all := p.window + Concat(chunks);
    assert all[..0] == "" && all[0..] == all;
    NothingDelivered(p.parts);
  }

  // ----- where chunks do matter

  /** Before the opening delimiter a chunk that does not hold all of it is thrown away. */
  lemma OpeningNeedsOneChunk(boundary: string, chunk: string)
    ensures
      var open := OpenDelimiter(boundary);
      var i := Find(chunk, open);
      Drain(false, Fed(Begin(boundary), chunk))
      == if i < |chunk| then Drain(false, Begin(boundary).(state := 1, window := chunk[i + |open|..]))
         else Parsed(Begin(boundary), true)
  {
    hide OpenDelimiter, Drain;
    var open := OpenDelimiter(boundary);
    var p := Fed(Begin(boundary), chunk);
    assert p.window == chunk;
    OpeningTurnIs(p);
    DrainTurn(p);
  }

  lemma OpeningTurnIs(p: Parser)
    requires p.state == 0
    ensures
      var open := OpenDelimiter(p.boundary);
      var i := Find(p.window, open);
      OpeningTurn(p) == if i < |p.window| then Again(p.(state := 1, window := p.window[i + |open|..]))
                        else Return(p.(window := []))
  {
    hide OpenDelimiter;
    var open := OpenDelimiter(p.boundary);
    var i := Find(p.window, open);
    if i < |p.window| {
      StartsAtShift(p.window, i, open, 0);
      assert p.window[i..][|open|..] == p.window[i + |open|..];
    } else {
      assert p.window[|p.window|..] == [];
    }
  }

  /** The first turn of the loop while the opening delimiter is sought. */
  lemma DrainTurn(p: Parser)
    requires p.state == 0
    ensures Drain(false, p) ==
      if p.window == [] then Parsed(p, true)
      else match OpeningTurn(p)
        case Again(q) => Drain(false, q)
        case Return(q) => Parsed(q, true)
        case Fail(q) => Parsed(q, false)
  {
    hide OpeningTurn, HeaderTurn, BodyTurn, BoundaryTurn;
  }
}
