/** What the multipart parser makes of every stream that arrives in one piece, by a grammar of streams. */
module MultipartStreams {
  import opened ByteSearch
  import opened Multipart
  import opened HeaderBlocks

  /** What stands behind an opening delimiter: parts, each a block of header lines, an empty line and
      content, up to where the parser stops.  A part ends with the delimiter, and then another one begins,
      or the form is closed, or something else stands there. */
  datatype Entries =
    | Nothing
    | TooLong(text: string)
    | Unfinished(hs: seq<string>, tail: string)
    | Open(hs: seq<string>, f: FileInfo, content: string)
    | Cut(hs: seq<string>, f: FileInfo, content: string, after: string)
    | Closed(hs: seq<string>, f: FileInfo, content: string, after: string)
    | Next(hs: seq<string>, f: FileInfo, content: string, more: Entries)

  function PartText(hs: seq<string>, rest: string): string { BlockText(hs) + ("\r\n" + rest) }

  function Text(e: Entries, d: string): string {
    match e
    case Nothing => ""
    case TooLong(text) => text
    case Unfinished(hs, tail) => BlockText(hs) + tail
    case Open(hs, _, content) => PartText(hs, content)
    case Cut(hs, _, content, after) => PartText(hs, content + d + after)
    case Closed(hs, _, content, after) => PartText(hs, content + d + ("--\r\n" + after))
    case Next(hs, _, content, more) => PartText(hs, content + d + ("\r\n" + Text(more, d)))
  }

  /** Some line ends within the first 8192 bytes, or there are no more. */
  ghost predicate FirstFits(w: string) {
    |w| <= 8192 || exists i: nat :: i <= 8192 && StartsAt(w, "\r\n", i)
  }

  /** The content ends with the first delimiter. */
  ghost predicate EndsFirst(content: string, d: string) {
    forall k: nat :: k < |content| ==> !StartsAt(content + d, d, k)
  }

  ghost predicate Contains(w: string, d: string) { exists k: nat :: StartsAt(w, d, k) }

  ghost predicate EntriesOk(e: Entries, d: string) {
    match e
    case Nothing => true
    case TooLong(text) => !FirstFits(text)
    case Unfinished(hs, tail) =>
      && AreHeaderLines(hs) && WithoutCrlf(tail) && FirstFits(Text(e, d)) && (hs != [] || tail != "")
    case Open(hs, f, content) =>
      AreHeaderLines(hs) && Announced(hs, NO_FILE, f) && FirstFits(Text(e, d)) && !Contains(content, d)
    case Cut(hs, f, content, after) =>
      && AreHeaderLines(hs) && Announced(hs, NO_FILE, f) && FirstFits(Text(e, d)) && EndsFirst(content, d)
      && !("\r\n" <= after) && !("--\r\n" <= after)
    case Closed(hs, f, content, after) =>
      AreHeaderLines(hs) && Announced(hs, NO_FILE, f) && FirstFits(Text(e, d)) && EndsFirst(content, d)
    case Next(hs, f, content, more) =>
      && AreHeaderLines(hs) && Announced(hs, NO_FILE, f) && FirstFits(Text(e, d)) && EndsFirst(content, d)
      && EntriesOk(more, d)
  }

  /** The last bytes of unfinished content might begin the delimiter. */
  function Safe(content: string, d: string): nat { if |content| < |d| then 0 else |content| - |d| }

  /** All parts, with the content delivered. */
  function PartsOf(e: Entries, d: string): seq<Part> {
    match e
    case Open(_, f, content) => [Part(f, content[..Safe(content, d)])]
    case Cut(_, f, content, _) => [Part(f, content)]
    case Closed(_, f, content, _) => [Part(f, content)]
    case Next(_, f, content, more) => [Part(f, content)] + PartsOf(more, d)
    case _ => []
  }

  /** The entry the parser stops in. */
  function LastOf(e: Entries): Entries { if e.Next? then LastOf(e.more) else e }

  /** Only a line that is too long is refused, and only a closed form is valid. */
  ghost predicate OutcomeIs(r: Parsed, parts: seq<Part>, e: Entries, d: string) {
    var last := LastOf(e);
    && r.ok == !last.TooLong? && r.p.valid == last.Closed?
    && r.p.parts == parts + PartsOf(e, d)
    && r.p.state == (match last case Nothing => 1 case TooLong(_) => 2 case Unfinished(_, _) => 2
                     case Open(_, _, _) => 3 case _ => 4)
    && r.p.window == (match last case TooLong(text) => text case Unfinished(_, tail) => tail
                      case Open(_, _, content) => content[Safe(content, d)..] case Cut(_, _, _, after) => after
                      case _ => "")
  }

  // ----- every stream of the grammar is parsed so

  lemma FitsMeans(w: string)
    ensures FirstFits(w) <==> Find(w, CRLF) <= HEADER_MAX
  {
    if i: nat :| i <= 8192 && StartsAt(w, CRLF, i) {
      assert Find(w, CRLF) <= i;
    }
    if Find(w, CRLF) <= 8192 && |w| > 8192 {
      assert StartsAt(w, CRLF, Find(w, CRLF));
    }
  }

  /** The headers of a part, once its first line fits. */
  lemma PartBegins(p: Parser, hs: seq<string>, f: FileInfo, rest: string)
    requires p.state == 1 && AreHeaderLines(hs) && Announced(hs, NO_FILE, f) && p.window == PartText(hs, rest)
    requires FirstFits(p.window)
    ensures Drain(false, p) ==
            Drain(false, p.(window := rest, file := f, state := 3, parts := p.parts + [Part(f, "")]))
  {
    hide Drain, Announced, AreHeaderLines, BlockText, Find;
    PartIsAnnounced(p, hs, rest, f);
    FitsMeans(p.window);
    FirstLineEnds(hs, CRLF + rest);
  }

  lemma DeliveredToLast(ps: seq<Part>, f: FileInfo, bytes: string)
    ensures Delivered(ps + [Part(f, "")], bytes) == ps + [Part(f, bytes)]
  {
    assert (ps + [Part(f, "")])[..|ps|] == ps;
    assert "" + bytes == bytes;
  }

  lemma DelimiterAfter(content: string, d: string, after: string)
    requires d != "" && EndsFirst(content, d)
    ensures Find(content + d + after, d) == |content|
  {
    var w := content + d + after;
    assert w[|content|..|content| + |d|] == d;
    forall k | 0 <= k < |content|
      ensures !StartsAt(w, d, k)
    {
      StartsAtAppend(content + d, after, d, k);
    }
    FindIs(w, d, |content|);
  }

  lemma ContentEnds(p: Parser, ps: seq<Part>, f: FileInfo, content: string, after: string)
    requires p.state == 3 && p.parts == ps + [Part(f, "")]
    requires p.window == content + Delimiter(p.boundary) + after && EndsFirst(content, Delimiter(p.boundary))
    ensures Drain(false, p) == Drain(false, p.(window := after, state := 4, parts := ps + [Part(f, content)]))
  {
    hide Delimiter, Find, Delivered, EndsFirst;
    var d := Delimiter(p.boundary);
    DelimiterAfter(content, d, after);
    DeliveredToLast(ps, f, content);
    assert p.window[..|content|] == content && p.window[|content| + |d|..] == after;
    hide Drain;
    OneMore(p, p.(window := after, state := 4, parts := ps + [Part(f, content)]));
  }

  lemma OneMore(p: Parser, q: Parser)
    requires p.window != "" && OneTurn(false, p) == Again(q)
    ensures Drain(false, p) == Drain(false, q)
  {
    hide OneTurn;
  }

  lemma Stops(p: Parser, q: Parser)
    requires p.window != "" && OneTurn(false, p) == Return(q)
    ensures Drain(false, p) == Parsed(q, true)
  {
    hide OneTurn;
  }

  lemma Ends(p: Parser)
    requires p.window == ""
    ensures Drain(false, p) == Parsed(p, true)
  {
  }

  lemma ContentStaysOpen(p: Parser, ps: seq<Part>, f: FileInfo)
    requires p.state == 3 && p.parts == ps + [Part(f, "")] && !Contains(p.window, Delimiter(p.boundary))
    ensures
      var n := Safe(p.window, Delimiter(p.boundary));
      Drain(false, p) == Parsed(p.(window := p.window[n..], parts := ps + [Part(f, p.window[..n])]), true)
  {
    hide Delimiter, Find, Delivered;
    var d := Delimiter(p.boundary);
    var n := Safe(p.window, d);
    DeliveredToLast(ps, f, p.window[..n]);
    NotFound(p.window, d);
    var q := p.(window := p.window[n..], parts := ps + [Part(f, p.window[..n])]);
    if p.window == "" {
      Ends(p);
    } else {
      assert n == 0 ==> p.window[0..] == p.window && p.window[..0] == "";
      hide Drain;
      Stops(p, q);
    }
  }

  lemma AfterDelimiter(p: Parser)
    requires p.state == 4
    ensures "\r\n" <= p.window ==> Drain(false, p) == Drain(false, p.(window := p.window[2..], state := 1))
    ensures "--\r\n" <= p.window ==>
      Drain(false, p) == Parsed(p.(window := "", valid := true, epilogue := p.epilogue + |p.window| - 4), true)
    ensures !("\r\n" <= p.window) && !("--\r\n" <= p.window) ==> Drain(false, p) == Parsed(p, true)
  {
    var w := p.window;
    assert StartsAt(w, CRLF, 0) <==> "\r\n" <= w;
    assert StartsAt(w, DASH_CRLF, 0) <==> "--\r\n" <= w;
    assert ("\r\n" <= w ==> w[0] == '\r') && ("--\r\n" <= w ==> w[0] == '-');
    hide StartsAt, Drain;
    if w == "" {
      Ends(p);
    } else if "\r\n" <= w {
      OneMore(p, p.(window := w[2..], state := 1));
    } else if "--\r\n" <= w {
      var q := p.(window := "", valid := true, epilogue := p.epilogue + |w| - 4);
      OneMore(p, q);
      Ends(q);
    } else {
      Stops(p, p);
    }
  }

  lemma TooLongRefused(p: Parser)
    requires p.state == 1 && !FirstFits(p.window)
    ensures Drain(false, p) == Parsed(p.(file := NO_FILE, state := 2), false)
  {
    FitsMeans(p.window);
    var q := p.(file := NO_FILE, state := 2);
    AtNewEntry(p);
    assert OneTurn(false, q) == Fail(q);
    hide OneTurn;
  }

  lemma HeadersUnfinished(p: Parser, hs: seq<string>, tail: string)
    requires p.state == 1 && AreHeaderLines(hs) && WithoutCrlf(tail) && p.window == BlockText(hs) + tail
    requires FirstFits(p.window) && p.window != ""
    ensures exists f :: Drain(false, p) == Parsed(p.(file := f, state := 2, window := tail), true)
  {
    hide Drain, Find, BlockText, AreHeaderLines, Announced, Headers, WithoutCrlf;
    FitsMeans(p.window);
    var q := p.(file := NO_FILE, state := 2);
    AtNewEntry(p);
    AnnouncedMeans(hs, NO_FILE, AllRead(hs, NO_FILE));
    HeadersGoOn(p.window, NO_FILE, tail, AllRead(hs, NO_FILE));
    Stops(q, q.(file := AllRead(hs, NO_FILE), window := tail));
  }

  /** The outcome with some parts in front, of a stream that goes on after another part. */
  lemma OneMorePart(r: Parsed, parts: seq<Part>, e: Entries, d: string)
    requires e.Next? && OutcomeIs(r, parts + [Part(e.f, e.content)], e.more, d)
    ensures OutcomeIs(r, parts, e, d)
  {
    assert parts + [Part(e.f, e.content)] + PartsOf(e.more, d) == parts + ([Part(e.f, e.content)] + PartsOf(e.more, d));
  }

  lemma NoMoreParts(parts: seq<Part>)
    ensures parts + [] == parts
  {
  }

  lemma AfterPart(p: Parser, hs: seq<string>, f: FileInfo, content: string, after: string)
    requires p.state == 1 && AreHeaderLines(hs) && Announced(hs, NO_FILE, f) && FirstFits(p.window)
    requires p.window == PartText(hs, content + Delimiter(p.boundary) + after)
    requires EndsFirst(content, Delimiter(p.boundary))
    ensures Drain(false, p) ==
            Drain(false, p.(window := after, file := f, state := 4, parts := p.parts + [Part(f, content)]))
  {
    hide *;
    PartBegins(p, hs, f, content + Delimiter(p.boundary) + after);
    var q := p.(window := content + Delimiter(p.boundary) + after, file := f, state := 3,
                parts := p.parts + [Part(f, "")]);
    ContentEnds(q, p.parts, f, content, after);
  }

  lemma {:induction false} EntriesParse(p: Parser, e: Entries)
    requires p.state == 1 && !p.valid && EntriesOk(e, Delimiter(p.boundary))
    requires p.window == Text(e, Delimiter(p.boundary))
    ensures OutcomeIs(Drain(false, p), p.parts, e, Delimiter(p.boundary))
    decreases e
  {
    var d := Delimiter(p.boundary);
    hide Drain, Delimiter, Announced, AreHeaderLines, PartText, BlockText, EndsFirst, WithoutCrlf, FirstFits;
    NoMoreParts(p.parts);
    match e
    case Nothing => Ends(p);
    case TooLong(_) => TooLongRefused(p);
    case Unfinished(hs, tail) =>
      UnfinishedIsSome(hs, tail);
      HeadersUnfinished(p, hs, tail);
    case Open(hs, f, content) =>
      PartBegins(p, hs, f, content);
      var q := p.(window := content, file := f, state := 3, parts := p.parts + [Part(f, "")]);
      ContentStaysOpen(q, p.parts, f);
    case Cut(hs, f, content, after) =>
      AfterPart(p, hs, f, content, after);
      AfterDelimiter(p.(window := after, file := f, state := 4, parts := p.parts + [Part(f, content)]));
    case Closed(hs, f, content, after) =>
      AfterPart(p, hs, f, content, "--\r\n" + after);
      AfterDelimiter(p.(window := "--\r\n" + after, file := f, state := 4, parts := p.parts + [Part(f, content)]));
    case Next(hs, f, content, more) =>
      var w := "\r\n" + Text(more, d);
      AfterPart(p, hs, f, content, w);
      var q := p.(window := w, file := f, state := 4, parts := p.parts + [Part(f, content)]);
      AfterDelimiter(q);
      assert w[2..] == Text(more, d);
      EntriesParse(q.(window := Text(more, d), state := 1), more);
      OneMorePart(Drain(false, p), p.parts, e, d);
  }

  lemma UnfinishedIsSome(hs: seq<string>, tail: string)
    requires hs != [] || tail != ""
    ensures BlockText(hs) + tail != ""
  {
  }

  // ----- every stream is of the grammar

  lemma {:induction false} EntriesOf(w: string, d: string) returns (e: Entries)
    requires d != ""
    ensures EntriesOk(e, d) && Text(e, d) == w
    decreases |w|
  {
    hide AreHeaderLines, EndsFirst, WithoutCrlf, FirstFits, Announced, Contains, PartText, BlockText;
    if w == "" {
      e := Nothing;
    } else if !FirstFits(w) {
      e := TooLong(w);
    } else {
      var hs, x := BlockOf(w);
      if WithoutCrlf(x) {
        e := Unfinished(hs, x);
        SomeLines(hs, x);
      } else {
        CrlfFirst(x);
        var f := AllRead(hs, NO_FILE);
        AnnouncedMeans(hs, NO_FILE, f);
        assert PartText(hs, x[2..]) == w by { PartIs(hs, x); }
        e := PartOf(w, d, hs, f, x[2..]);
      }
    }
  }

  lemma SomeLines(hs: seq<string>, x: string)
    requires BlockText(hs) + x != ""
    ensures hs != [] || x != ""
  {
  }

  lemma PartIs(hs: seq<string>, x: string)
    requires |x| >= 2 && x == CRLF + x[2..]
    ensures PartText(hs, x[2..]) == BlockText(hs) + x
  {
  }

  lemma PartOf(w: string, d: string, hs: seq<string>, f: FileInfo, rest: string) returns (e: Entries)
    requires d != "" && AreHeaderLines(hs) && Announced(hs, NO_FILE, f) && FirstFits(w) && w == PartText(hs, rest)
    ensures EntriesOk(e, d) && Text(e, d) == w
    decreases |w|, 0
  {
    hide AreHeaderLines, EndsFirst, FirstFits, Announced, Contains, PartText;
    PartIsLonger(hs, rest);
    if !Contains(rest, d) {
      e := Open(hs, f, rest);
    } else {
      var content, after := SplitAtDelimiter(rest, d);
      if "\r\n" <= after {
        CrlfFirst(after);
        var more := EntriesOf(after[2..], d);
        e := Next(hs, f, content, more);
      } else if "--\r\n" <= after {
        e := Closed(hs, f, content, after[4..]);
        assert after == "--\r\n" + after[4..];
      } else {
        e := Cut(hs, f, content, after);
      }
    }
  }

  lemma PartIsLonger(hs: seq<string>, rest: string)
    ensures |PartText(hs, rest)| > |rest|
  {
  }

  lemma SplitAtDelimiter(w: string, d: string) returns (content: string, after: string)
    requires d != "" && Contains(w, d)
    ensures w == content + d + after && EndsFirst(content, d)
  {
    var k: nat :| StartsAt(w, d, k);
    var i := Find(w, d);
    assert i <= k;
    content, after := w[..i], w[i + |d|..];
    assert w == content + d + after;
    forall j: nat | j < i
      ensures !StartsAt(content + d, d, j)
    {
      StartsAtAppend(content + d, after, d, j);
    }
  }

  // ----- the whole stream

  /** A stream in one piece, from the start: without an opening delimiter everything is thrown away. */
  lemma NoOpening(boundary: string, s: string)
    requires !Contains(s, OpenDelimiter(boundary))
    ensures Drain(false, Fed(Begin(boundary), s)) == Parsed(Begin(boundary), true)
  {
    hide OpenDelimiter, Drain, Find;
    var p := Fed(Begin(boundary), s);
    assert p == Begin(boundary).(window := s) by {
      assert "" + s == s;
    }
    if s == "" {
      Ends(p);
    } else {
      NotFound(s, OpenDelimiter(boundary));
      Stops(p, Begin(boundary));
    }
  }

  lemma Opening(boundary: string, before: string, w: string)
    requires EndsFirst(before, OpenDelimiter(boundary))
    ensures Drain(false, Fed(Begin(boundary), before + OpenDelimiter(boundary) + w))
         == Drain(false, Begin(boundary).(window := w, state := 1))
  {
    hide OpenDelimiter, Drain, Find, EndsFirst;
    var open := OpenDelimiter(boundary);
    var s := before + open + w;
    DelimiterAfter(before, open, w);
    assert "" + s == s;
    var from := s[|before|..];
    assert from == open + w && from[|open|..] == w;
    assert from[0..|open|] == open;
    OneMore(Fed(Begin(boundary), s), Begin(boundary).(window := w, state := 1));
  }

  /** In one piece, every stream is parsed as its grammar says: it holds no opening delimiter and is thrown
      away, or what stands behind the first one are entries, and the parser announces their parts, delivers
      their contents, refuses only a header block whose first line is too long, and finds the form valid
      exactly when it is closed. */
  lemma EveryStream(boundary: string, s: string)
    ensures
      var r, d, open := Drain(false, Fed(Begin(boundary), s)), "\r\n--" + boundary, "--" + boundary + "\r\n";
      if !Contains(s, open) then r.ok && r.p.parts == [] && !r.p.valid && r.p.state == 0 && r.p.window == ""
      else exists before, e ::
             && s == before + open + Text(e, d) && EndsFirst(before, open) && EntriesOk(e, d)
             && OutcomeIs(r, [], e, d)
  {
    var open, d := OpenDelimiter(boundary), Delimiter(boundary);
    DelimitersAre(boundary);
    hide OpenDelimiter, Delimiter, Drain, Contains, EndsFirst, EntriesOk, OutcomeIs, Text;
    if !Contains(s, open) {
      NoOpening(boundary, s);
    } else {
      var before, w := SplitAtDelimiter(s, open);
      Opening(boundary, before, w);
      var e := EntriesOf(w, d);
      EntriesParse(Begin(boundary).(window := w, state := 1), e);
    }
  }

  lemma DelimitersAre(boundary: string)
    ensures OpenDelimiter(boundary) == "--" + boundary + "\r\n" && Delimiter(boundary) == "\r\n--" + boundary
  {
    assert "\r\n" + "--" == "\r\n--";
  }

  /** And every such reading of a stream tells its outcome. */
  lemma EveryReading(boundary: string, before: string, e: Entries)
    requires EndsFirst(before, "--" + boundary + "\r\n") && EntriesOk(e, "\r\n--" + boundary)
    ensures
      var s := before + ("--" + boundary + "\r\n") + Text(e, "\r\n--" + boundary);
      OutcomeIs(Drain(false, Fed(Begin(boundary), s)), [], e, "\r\n--" + boundary)
  {
    DelimitersAre(boundary);
    hide OpenDelimiter, Delimiter, Drain, EndsFirst, EntriesOk, OutcomeIs, Text;
    var w := Text(e, Delimiter(boundary));
    Opening(boundary, before, w);
    EntriesParse(Begin(boundary).(window := w, state := 1), e);
  }
}
