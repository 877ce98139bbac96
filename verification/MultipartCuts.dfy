/** Exactly when the multipart parser depends on the way a stream is cut into chunks. */
module MultipartCuts {
  import opened ByteSearch
  import opened Multipart
  import opened MultipartLaws

  // ----- the program goes wrong only by refusing

  /** Before the closing delimiter, one call refuses or does what the ideal parser does. */
  lemma {:induction false} RefusedOrIdeal(p: Parser)
    requires Started(p) && !p.valid
    ensures Drain(false, p).ok ==> Drain(false, p) == Drain(true, p)
    decreases |p.window|, if p.state == 1 then 1 else 0
  {
    if p.window != [] {
      KeepsGoing(p);
      var t := OneTurn(true, p);
      assert OneTurn(false, p) == t || OneTurn(false, p).Fail? by { hide Headers, Find; }
      hide OneTurn;
      if t.Again? && !t.p.valid {
        RefusedOrIdeal(t.p);
      }
    }
  }

  /** Whenever header lines are to be read, the first line of what has arrived is within the limit. */
  ghost predicate FirstLinesShort(p: Parser)
    decreases |p.window|, if p.state == 1 then 1 else 0
  {
    p.window == [] || p.valid ||
    (&& (p.state == 2 ==> Find(p.window, CRLF) <= HEADER_MAX)
     && (OneTurn(true, p).Again? ==> FirstLinesShort(OneTurn(true, p).p)))
  }

  /** In one piece, a stream is refused if and only if some header block begins with a line over
      the limit; the lines after it may have any length. */
  lemma {:induction false} OnePieceIsExact(p: Parser)
    requires Started(p) && !p.valid
    ensures Drain(false, p).ok <==> FirstLinesShort(p)
    ensures FirstLinesShort(p) ==> Drain(false, p) == Drain(true, p)
    decreases |p.window|, if p.state == 1 then 1 else 0
  {
    RefusedOrIdeal(p);
    if p.window != [] {
      KeepsGoing(p);
      var t := OneTurn(true, p);
      var long := p.state == 2 && Find(p.window, CRLF) > HEADER_MAX;
      assert OneTurn(false, p) == if long then Fail(p) else t by { hide Headers, Find; }
      hide OneTurn;
      if t.Again? && !t.p.valid {
        OnePieceIsExact(t.p);
      }
    }
  }

  // ----- turns on a shorter window

  lemma FindOnLess(w: string, n: nat, x: string, p: string)
    requires p != [] && Find(w, p) < |w| && Find(w, p) + |p| <= n <= |w|
    ensures Find(w[..n] + x, p) == Find(w, p)
  {
    var i := Find(w, p);
    assert w == w[..n] + w[n..];
    forall k | 0 <= k <= i
      ensures StartsAt(w[..n], p, k) <==> StartsAt(w, p, k)
    {
      StartsAtAppend(w[..n], w[n..], p, k);
    }
    FindIs(w[..n], p, i);
    FindAppend(w[..n], x, p);
  }

  lemma HeadersStep(w: string, file: FileInfo)
    ensures
      var pos := Find(w, CRLF);
      Headers(w, file) ==
        if pos == |w| then More(w, file)
        else if pos == 0 then EndOfHeaders(w[2..], file)
        else Headers(w[pos + 2..], ReadHeader(w[..pos], file))
  {
    hide Find, ReadHeader;
  }

  /** The header block is read the same, whatever stands after it. */
  lemma {:induction false} HeadersOnLess(w: string, file: FileInfo, x: string)
    requires Headers(w, file).EndOfHeaders?
    ensures
      var r := Headers(w, file);
      Headers(w[..|w| - |r.window|] + x, file) == EndOfHeaders(x, r.file)
    decreases |w|
  {
    hide ReadHeader, Find, Headers;
    HeadersStep(w, file);
    var r := Headers(w, file);
    var pos, n := Find(w, CRLF), |w| - |r.window|;
    var w' := w[..n] + x;
    FindOnLess(w, n, x, CRLF);
    HeadersStep(w', file);
    if pos == 0 {
      assert w'[2..] == x;
    } else {
      var v := w[pos + 2..];
      HeadersOnLess(v, ReadHeader(w[..pos], file), x);
      assert w'[..pos] == w[..pos];
      assert w'[pos + 2..] == v[..|v| - |r.window|] + x;
    }
  }

  lemma BodyOnLess(p: Parser, x: string)
    requires BodyTurn(p).Again?
    ensures
      var t, n := BodyTurn(p).p, |p.window| - |BodyTurn(p).p.window|;
      BodyTurn(p.(window := p.window[..n] + x)) == Again(t.(window := x))
  {
    hide Find, Delivered, Delimiter;
    var w, d := p.window, Delimiter(p.boundary);
    var pos := Find(w, d);
    var n := pos + |d|;
    FindOnLess(w, n, x, d);
    assert (w[..n] + x)[..pos] == w[..pos];
    assert (w[..n] + x)[n..] == x;
  }

  lemma BoundaryOnLess(p: Parser, x: string)
    requires BoundaryTurn(p).Again? && StartsAt(p.window, CRLF, 0)
    ensures BoundaryTurn(p.(window := p.window[..2] + x)) == Again(p.(state := 1, window := x))
  {
    var w := p.window[..2] + x;
    assert w[0..2] == p.window[0..2];
    assert w[2..] == x;
  }

  /** The bytes of the window that one turn uses up. */
  function Used(p: Parser): (n: nat)
    requires p.window != [] && OneTurn(true, p).Again?
    ensures n <= |p.window|
  {
    |p.window| - |OneTurn(true, p).p.window|
  }

  /** A turn that goes round again does so on the bytes it uses up and any others after them. */
  lemma TurnOnLess(p: Parser, x: string)
    requires Started(p) && !p.valid && p.window != [] && OneTurn(true, p).Again? && !OneTurn(true, p).p.valid
    ensures
      var p' := p.(window := p.window[..Used(p)] + x);
      && p.window == p.window[..Used(p)] + OneTurn(true, p).p.window
      && (p'.window != [] ==> OneTurn(true, p') == Again(OneTurn(true, p).p.(window := x)))
      && (p'.window == [] ==> p.state == 1)
  {
    var t, n := OneTurn(true, p).p, Used(p);
    if p.state == 1 {
      assert p.window[..0] + x == x && p.window[..0] + p.window == p.window;
    } else if p.state == 2 {
      HeaderBlockOnLess(p, x);
    } else if p.state == 3 {
      BodyOnLess(p, x);
      BodyUsed(p);
    } else {
      BoundaryUsed(p);
      BoundaryOnLess(p, x);
    }
  }

  lemma BodyUsed(p: Parser)
    requires BodyTurn(p).Again?
    ensures
      var n := |p.window| - |BodyTurn(p).p.window|;
      0 < n && p.window == p.window[..n] + BodyTurn(p).p.window
  {
    hide Find, Delivered, Delimiter;
  }

  lemma BoundaryUsed(p: Parser)
    requires BoundaryTurn(p).Again? && !BoundaryTurn(p).p.valid
    ensures StartsAt(p.window, CRLF, 0) && |p.window| - |BoundaryTurn(p).p.window| == 2
    ensures p.window == p.window[..2] + BoundaryTurn(p).p.window
  {
  }

  lemma HeaderBlockOnLess(p: Parser, x: string)
    requires HeaderTurn(true, p).Again?
    ensures
      var t, n := HeaderTurn(true, p).p, |p.window| - |HeaderTurn(true, p).p.window|;
      && 0 < n && p.window == p.window[..n] + t.window
      && HeaderTurn(true, p.(window := p.window[..n] + x)) == Again(t.(window := x))
  {
    hide Headers;
    HeadersOnLess(p.window, p.file, x);
    HeadersEndIsSuffix(p.window, p.file);
  }

  lemma {:induction false} HeadersEndIsSuffix(w: string, file: FileInfo)
    ensures w[|w| - |Headers(w, file).window|..] == Headers(w, file).window
    ensures Headers(w, file).EndOfHeaders? ==> |Headers(w, file).window| < |w|
    decreases |w|
  {
    hide ReadHeader, Find;
    var pos := Find(w, CRLF);
    if 0 < pos < |w| {
      HeadersEndIsSuffix(w[pos + 2..], ReadHeader(w[..pos], file));
    }
  }

  // ----- long lines can be refused

  /** More than a line may have, without an end of line. */
  predicate TooLong(b: string) { |b| == HEADER_MAX + 1 && Find(b, CRLF) == |b| }

  lemma PrefixHasNoEnd(w: string, n: nat)
    requires n <= |w| && n <= Find(w, CRLF) + 1
    ensures Find(w[..n], CRLF) == n
  {
    forall k | 0 <= k < n
      ensures !StartsAt(w[..n], CRLF, k)
    {
      if k + 2 <= n {
        assert w == w[..n] + w[n..];
        StartsAtAppend(w[..n], w[n..], CRLF, k);
      }
    }
    NotFound(w[..n], CRLF);
  }

  /** Whole header lines, and then too much of a line. */
  lemma {:induction false} LongLine(w: string, file: FileInfo) returns (a: string, b: string, c: string)
    requires !LinesShort(w)
    ensures w == a + b + c && TooLong(b)
    ensures Headers(a, file).More? && Headers(a, file).window == []
    decreases |w|
  {
    hide Find, Headers, ReadHeader;
    var pos := Find(w, CRLF);
    if pos == |w| || pos >= HEADER_MAX {
      a, b, c := [], w[..HEADER_MAX + 1], w[HEADER_MAX + 1..];
      PrefixHasNoEnd(w, HEADER_MAX + 1);
      EmptyHeaders(file);
    } else {
      var v, f := w[pos + 2..], ReadHeader(w[..pos], file);
      a, b, c := LongLine(v, f);
      AfterLine(w, pos, a, file);
      assert w == w[..pos + 2] + v;
      a := w[..pos + 2] + a;
    }
  }

  lemma AfterLine(w: string, pos: nat, a: string, file: FileInfo)
    requires 0 < pos == Find(w, CRLF) < |w|
    ensures Headers(w[..pos + 2] + a, file) == Headers(a, ReadHeader(w[..pos], file))
  {
    hide Headers, ReadHeader, Find;
    var w' := w[..pos + 2] + a;
    FindOnLess(w, pos + 2, a, CRLF);
    HeadersStep(w', file);
    assert w'[..pos] == w[..pos] && w'[pos + 2..] == a;
  }

  /** At a line end among header lines. */
  ghost predicate AtLineStart(r: Parsed) { r.ok && r.p.window == [] && (r.p.state == 1 || r.p.state == 2) }

  /** Waiting at the start of a header line, not closed and with n parts, after the window `a`. */
  ghost predicate WaitsAfter(p: Parser, a: string, n: nat)
  {
    var r := Drain(true, p.(window := a));
    AtLineStart(r) && !r.p.valid && |r.p.parts| == n
  }

  lemma WaitsEarlier(p: Parser, a: string, n: nat)
    requires Started(p) && !p.valid && p.window != [] && OneTurn(true, p).Again? && !OneTurn(true, p).p.valid
    requires WaitsAfter(OneTurn(true, p).p, a, n)
    ensures WaitsAfter(p, p.window[..Used(p)] + a, n)
    ensures p.window == p.window[..Used(p)] + OneTurn(true, p).p.window
  {
    TurnOnLess(p, a);
    if p.window[..Used(p)] + a == [] {
      assert p.state == 1 && OneTurn(true, p).p.parts == p.parts && a == [];
    }
    hide OneTurn;
  }

  lemma GoesOn(p: Parser)
    requires Started(p) && !p.valid && !HeadersShort(p) && !(p.state == 2 && !LinesShort(p.window))
    ensures p.window != [] && OneTurn(true, p).Again? && !HeadersShort(OneTurn(true, p).p)
    ensures Started(OneTurn(true, p).p) && !OneTurn(true, p).p.valid
  {
    hide OneTurn, LinesShort;
    KeepsGoing(p);
  }

  /** How many parts have been announced before the header block with the first long line. */
  ghost function BlockParts(p: Parser): nat
    requires Started(p) && !p.valid && !HeadersShort(p)
    decreases |p.window|, if p.state == 1 then 1 else 0
  {
    if p.state == 2 && !LinesShort(p.window) then |p.parts|
    else
      GoesOn(p);
      BlockParts(OneTurn(true, p).p)
  }

  lemma Regroup(x: string, a: string, b: string, c: string)
    ensures x + (a + b + c) == x + a + b + c
  {
  }

  /** Where a stream with a long line can be cut: at the start of that line, and within it. */
  lemma {:induction false} LongLineCut(p: Parser) returns (a: string, b: string, c: string)
    requires Started(p) && !p.valid && !HeadersShort(p)
    ensures p.window == a + b + c && TooLong(b) && WaitsAfter(p, a, BlockParts(p))
    decreases |p.window|, if p.state == 1 then 1 else 0
  {
    if p.state == 2 && !LinesShort(p.window) {
      a, b, c := LongLine(p.window, p.file);
      LinesWait(p, a);
    } else {
      hide TooLong, HeadersShort, WaitsAfter, LinesShort, OneTurn;
      GoesOn(p);
      var t := OneTurn(true, p).p;
      a, b, c := LongLineCut(t);
      assert BlockParts(p) == BlockParts(t);
      WaitsEarlier(p, a, BlockParts(t));
      var used := p.window[..Used(p)];
      hide *;
      Regroup(used, a, b, c);
      a := used + a;
    }
  }

  lemma LinesWait(p: Parser, a: string)
    requires p.state == 2 && !p.valid && Headers(a, p.file).More? && Headers(a, p.file).window == []
    ensures WaitsAfter(p, a, |p.parts|)
  {
    hide Headers;
  }

  lemma LongLineRefused(q: Parser, b: string)
    requires (q.state == 1 || q.state == 2) && !q.valid && q.window == [] && TooLong(b)
    ensures !Drain(false, Fed(q, b)).ok && Drain(false, Fed(q, b)).p.parts == q.parts
  {
    hide Find, Headers;
    assert Fed(q, b).window == b;
    var q2 := Fed(q, b).(file := NO_FILE, state := 2);
    assert q.state == 1 ==> Drain(false, Fed(q, b)) == Drain(false, q2);
  }

  lemma ThreeChunks(p: Parser, a: string, b: string, c: string)
    requires p.window == []
    ensures Concat([a, b, c]) == a + b + c
    ensures
      var r := Drain(false, Fed(p, a));
      var t := Drain(false, Fed(r.p, b));
      && ParseChunks(false, p, [a]) == r
      && (!r.ok ==> ParseChunks(false, p, [a, b, c]) == r)
      && (r.ok && !t.ok ==> ParseChunks(false, p, [a, b, c]) == t)
  {
    hide OneTurn;
    assert [a][..0] == [] && [a, b][..1] == [a] && [a, b, c][..2] == [a, b];
    assert Concat([]) == "" && Concat([a]) == "" + a && Concat([a, b]) == "" + a + b;
    assert ParseChunks(false, p, []) == Parsed(p, true);
  }

  /** Parts are never taken back. */
  lemma TurnKeepsParts(ideal: bool, p: Parser)
    requires p.window != []
    ensures |p.parts| <= |OneTurn(ideal, p).p.parts|
  {
    hide Headers, Find;
  }

  lemma {:induction false} PartsGrow(ideal: bool, p: Parser)
    ensures |p.parts| <= |Drain(ideal, p).p.parts|
    decreases |p.window|, if p.state == 1 then 1 else 0
  {
    if p.window != [] {
      TurnKeepsParts(ideal, p);
      hide OneTurn;
      if OneTurn(ideal, p).Again? {
        PartsGrow(ideal, OneTurn(ideal, p).p);
      }
    }
  }

  /** A refusing program has no more parts than the ideal parser. */
  lemma {:induction false} RefusedHasFewer(p: Parser)
    requires Started(p) && !p.valid
    ensures |Drain(false, p).p.parts| <= |Drain(true, p).p.parts|
    decreases |p.window|, if p.state == 1 then 1 else 0
  {
    PartsGrow(true, p);
    if p.window != [] {
      KeepsGoing(p);
      var t := OneTurn(true, p);
      assert OneTurn(false, p) == t || OneTurn(false, p) == Fail(p) by { hide Headers, Find; }
      hide OneTurn;
      if t.Again? && !t.p.valid {
        RefusedHasFewer(t.p);
      }
    }
  }

  /** A stream with a line of maximal length or more is refused in some cutting, before the part whose
      header block holds the first such line. */
  lemma LongLinesRefused(p: Parser, s: string) returns (chunks: seq<string>)
    requires Started(p) && !p.valid && p.window == [] && !HeadersShort(Fed(p, s))
    ensures Concat(chunks) == s
    ensures
      var r := ParseChunks(false, p, chunks);
      !r.ok && |r.p.parts| <= BlockParts(Fed(p, s))
  {
    hide Drain, HeadersShort, TooLong, ParseChunks, Concat, BlockParts;
    assert Fed(p, s).window == s;
    var a, b, c := LongLineCut(Fed(p, s));
    chunks := [a, b, c];
    ThreeChunks(p, a, b, c);
    assert Fed(p, s).(window := a) == Fed(p, a);
    RefusedOrIdeal(Fed(p, a));
    RefusedHasFewer(Fed(p, a));
    LongLineRefused(Drain(true, Fed(p, a)).p, b);
  }

  // ----- bytes after the closing delimiter can be taken for another part

  lemma {:induction false} EpilogueFits(p: Parser)
    requires !p.valid
    ensures p.epilogue <= Drain(true, p).p.epilogue <= p.epilogue + |p.window|
    ensures !Drain(true, p).p.valid ==> Drain(true, p).p.epilogue == p.epilogue
    ensures Drain(true, p).p.valid ==> Drain(true, p).p.state >= 4 && Drain(true, p).p.window == []
    decreases |p.window|, if p.state == 1 then 1 else 0
  {
    if p.window != [] {
      var t := OneTurn(true, p);
      TurnFits(p);
      hide OneTurn;
      if t.Again? && !t.p.valid {
        EpilogueFits(t.p);
      }
    }
  }

  lemma TurnFits(p: Parser)
    requires !p.valid && p.window != []
    ensures
      var t := OneTurn(true, p);
      && |t.p.window| <= |p.window|
      && (t.p.valid ==> t.Again? && p.state >= 4 && t.p.state == p.state && t.p.window == [])
      && (t.p.valid ==> p.epilogue <= t.p.epilogue <= p.epilogue + |p.window|)
      && (!t.p.valid ==> t.p.epilogue == p.epilogue)
  {
    hide Headers, Find, Delivered;
  }

  /** The bytes of the stream after its closing delimiter. */
  ghost function Epilogue(p: Parser, s: string): (e: string)
    requires !p.valid && p.epilogue == 0 && p.window == []
    ensures |e| <= |s| && s == s[..|s| - |e|] + e
  {
    EpilogueFits(Fed(p, s));
    assert Fed(p, s).window == s;
    s[|s| - Drain(true, Fed(p, s)).p.epilogue..]
  }

  predicate HasCrlf(s: string) { Find(s, CRLF) < |s| }

  lemma NoCrlfInside(s: string, i: nat, j: nat)
    requires !HasCrlf(s) && i <= j <= |s|
    ensures !HasCrlf(s[i..j])
  {
    var t := s[i..j];
    var k := Find(t, CRLF);
    if k < |t| {
      StartsInside(s, i, j, k);
    }
  }

  lemma StartsInside(s: string, i: nat, j: nat, k: nat)
    requires i <= j <= |s| && StartsAt(s[i..j], CRLF, k)
    ensures StartsAt(s, CRLF, i + k)
  {
    StartsAtAppend(s[i..j], s[j..], CRLF, k);
    assert s[i..j] + s[j..] == s[i..];
    StartsAtShift(s, i, CRLF, k);
  }

  /** A closed parser that is fed no CRLF just waits. */
  lemma ClosedWaits(q: Parser)
    requires q.state >= 4 && !HasCrlf(q.window)
    ensures Drain(false, q) == Parsed(q, true)
  {
    CrlfAtStart(q.window);
    hide StartsAt, HasCrlf;
  }

  lemma CrlfAtStart(w: string)
    ensures StartsAt(w, CRLF, 0) || StartsAt(w, DASH_CRLF, 0) ==> HasCrlf(w)
  {
    assert StartsAt(w, DASH_CRLF, 0) ==> w[2..4] == w[0..4][2..4];
    assert StartsAt(w, DASH_CRLF, 0) ==> StartsAt(w, CRLF, 2);
  }

  /** The program after some chunks, beside the ideal parser: the same, or closed with the same
      parts and only bytes of the epilogue in its window. */
  ghost predicate Beside(r: Parsed, i: Parsed, s: string)
  {
    if !i.p.valid then r == i
    else
      && r.ok && r.p == i.p.(window := r.p.window, epilogue := r.p.epilogue)
      && |r.p.window| <= i.p.epilogue && |r.p.window| <= |s| && r.p.window == s[|s| - |r.p.window|..]
  }

  lemma SuffixGrows(s: string, w: string, last: string)
    requires |w| <= |s| && w == s[|s| - |w|..]
    ensures w + last == (s + last)[|s + last| - |w + last|..]
  {
  }

  /** One chunk more, once the form is closed. */
  lemma ClosedChunk(r: Parsed, i: Parsed, s: string, last: string)
    requires Beside(r, i, s) && i.p.valid && i.ok && i.p.state >= 4 && i.p.window == []
    requires i.p.epilogue + |last| <= |s + last|
    requires !HasCrlf((s + last)[|s + last| - (i.p.epilogue + |last|)..])
    ensures Beside(Drain(false, Fed(r.p, last)), Drain(true, Fed(i.p, last)), s + last)
  {
    hide HasCrlf, Drain;
    Absorbs(i.p, last);
    var w, all := r.p.window + last, s + last;
    SuffixGrows(s, r.p.window, last);
    var e := all[|all| - (i.p.epilogue + |last|)..];
    assert w == e[|e| - |w|..|e|];
    NoCrlfInside(e, |e| - |w|, |e|);
    ClosedWaits(Fed(r.p, last));
  }

  /** With short header lines and no CRLF in the epilogue, every cutting keeps the program beside
      the ideal parser. */
  lemma {:induction false} ChunksStayBeside(p: Parser, chunks: seq<string>)
    requires Started(p) && !p.valid && p.window == [] && p.epilogue == 0
    requires HeadersShort(Fed(p, Concat(chunks))) && !HasCrlf(Epilogue(p, Concat(chunks)))
    ensures Beside(ParseChunks(false, p, chunks), Drain(true, Fed(p, Concat(chunks))), Concat(chunks))
    decreases |chunks|
  {
    hide Drain, HeadersShort, HasCrlf;
    if chunks == [] {
      assert Fed(p, "") == p;
      NothingToDo(p);
    } else {
      var front, last := chunks[..|chunks| - 1], chunks[|chunks| - 1];
      var s := Concat(front);
      var i := Drain(true, Fed(p, s));
      FedTwice(p, s, last);
      HeadersShortSplit(Fed(p, s), last);
      DrainAppend(Fed(p, s), last);
      EpilogueFits(Fed(p, s));
      EpilogueSoFar(p, s, last);
      ChunksStayBeside(p, front);
      if i.p.valid {
        ClosedChunk(ParseChunks(false, p, front), i, s, last);
      } else {
        ProgramIsIdeal(Fed(i.p, last));
        IdealIsBeside(Fed(i.p, last), s + last);
      }
    }
  }

  lemma IdealIsBeside(p: Parser, s: string)
    requires Started(p) && !p.valid
    ensures Beside(Drain(true, p), Drain(true, p), s)
  {
    hide Drain;
    EpilogueFits(p);
    DrainAppend(p, "");
    assert s[|s|..] == [];
  }

  /** What follows the closing delimiter so far is the beginning of what follows it. */
  lemma EpilogueSoFar(p: Parser, s: string, last: string)
    requires Started(p) && !p.valid && p.window == [] && p.epilogue == 0 && !HasCrlf(Epilogue(p, s + last))
    ensures !HasCrlf(Epilogue(p, s))
    ensures
      var i := Drain(true, Fed(p, s)).p;
      i.valid ==>
        && i.epilogue + |last| <= |s + last|
        && Epilogue(p, s + last) == (s + last)[|s + last| - (i.epilogue + |last|)..]
  {
    hide Drain, HasCrlf;
    var i := Drain(true, Fed(p, s)).p;
    FedTwice(p, s, last);
    DrainAppend(Fed(p, s), last);
    EpilogueFits(Fed(p, s));
    assert Fed(p, s).window == s && Fed(p, s + last).window == s + last;
    if i.valid {
      Absorbs(i, last);
      var e := Epilogue(p, s + last);
      assert Epilogue(p, s) == e[0..i.epilogue];
      NoCrlfInside(e, 0, i.epilogue);
    } else {
      assert Epilogue(p, s) == [];
      NothingHasNoCrlf();
    }
  }

  lemma NothingHasNoCrlf()
    ensures !HasCrlf([])
  {
  }

  /** The number of bytes in the window up to the end of the closing delimiter. */
  ghost function Closing(p: Parser): (n: nat)
    requires !p.valid
    ensures n <= |p.window|
  {
    EpilogueFits(p);
    |p.window| - (Drain(true, p).p.epilogue - p.epilogue)
  }

  /** The bytes up to the closing delimiter close the form, whatever follows them. */
  lemma {:induction false} ClosesOnLess(p: Parser, x: string)
    requires Started(p) && !p.valid && Drain(true, p).p.valid
    ensures
      Drain(true, p.(window := p.window[..Closing(p)] + x))
      == Parsed(Drain(true, p).p.(epilogue := p.epilogue + |x|), true)
    decreases |p.window|, if p.state == 1 then 1 else 0
  {
    KeepsGoing(p);
    TurnFits(p);
    hide OneTurn;
    var t := OneTurn(true, p).p;
    if t.valid {
      CloseOnLess(p, x);
    } else {
      ClosesOnLess(t, x);
      var y := t.window[..Closing(t)] + x;
      ClosingLater(p, x);
      assert y != [] && Drain(true, t.(window := y)).p.valid;
      hide *;
      DrainOnLess(p, y);
    }
  }

  lemma ClosingLater(p: Parser, x: string)
    requires Started(p) && !p.valid && p.window != [] && OneTurn(true, p).Again? && !OneTurn(true, p).p.valid
    ensures
      var t := OneTurn(true, p).p;
      && Drain(true, p) == Drain(true, t) && p.epilogue == t.epilogue
      && p.window[..Closing(p)] + x == p.window[..Used(p)] + (t.window[..Closing(t)] + x)
  {
    var t := OneTurn(true, p).p;
    ClosingShifts(p);
    TurnSplits(p);
    hide *;
    PrefixOfSum(p.window[..Used(p)], t.window, Closing(t), x);
  }

  lemma ClosingShifts(p: Parser)
    requires Started(p) && !p.valid && p.window != [] && OneTurn(true, p).Again? && !OneTurn(true, p).p.valid
    ensures Drain(true, p) == Drain(true, OneTurn(true, p).p) && p.epilogue == OneTurn(true, p).p.epilogue
    ensures Closing(p) == Used(p) + Closing(OneTurn(true, p).p)
  {
    TurnFits(p);
    hide OneTurn;
  }

  lemma TurnSplits(p: Parser)
    requires Started(p) && !p.valid && p.window != [] && OneTurn(true, p).Again? && !OneTurn(true, p).p.valid
    ensures p.window == p.window[..Used(p)] + OneTurn(true, p).p.window
  {
    hide *;
    TurnOnLess(p, []);
  }

  lemma PrefixOfSum(a: string, b: string, k: nat, x: string)
    requires k <= |b|
    ensures (a + b)[..|a| + k] + x == a + (b[..k] + x)
  {
  }

  lemma DrainOnLess(p: Parser, y: string)
    requires Started(p) && !p.valid && p.window != [] && OneTurn(true, p).Again? && !OneTurn(true, p).p.valid
    requires y != []
    ensures Drain(true, p.(window := p.window[..Used(p)] + y)) == Drain(true, OneTurn(true, p).p.(window := y))
  {
    hide OneTurn;
    TurnOnLess(p, y);
  }

  lemma CloseOnLess(p: Parser, x: string)
    requires !p.valid && p.window != [] && p.state >= 4 && OneTurn(true, p).Again? && OneTurn(true, p).p.valid
    ensures OneTurn(true, p).p == p.(window := [], valid := true, epilogue := p.epilogue + |p.window| - 4)
    ensures |p.window| >= 4
    ensures
      var n := Closing(p);
      n <= |p.window| && Drain(true, p.(window := p.window[..n] + x))
      == Parsed(p.(window := [], valid := true, epilogue := p.epilogue + |x|), true)
  {
    var t := OneTurn(true, p).p;
    assert Drain(true, p) == Parsed(t, true);
    assert Closing(p) == 4;
    var w := p.window[..4] + x;
    assert w[0..4] == p.window[0..4] == DASH_CRLF;
    assert w[0] == '-';
  }

  /** A parser on its way to another part: among its header lines, or with the part begun. */
  ghost predicate Reopened(p: Parser, n: nat) {
    Started(p) && (((p.state == 1 || p.state == 2) && |p.parts| == n) || |p.parts| > n)
  }

  lemma TurnStaysReopened(p: Parser, n: nat)
    requires Reopened(p, n) && p.window != []
    ensures Reopened(OneTurn(false, p).p, n)
  {
    hide Headers, Find;
  }

  lemma {:induction false} StaysReopened(p: Parser, n: nat)
    requires Reopened(p, n)
    ensures Reopened(Drain(false, p).p, n)
    decreases |p.window|, if p.state == 1 then 1 else 0
  {
    if p.window != [] {
      TurnStaysReopened(p, n);
      hide OneTurn, Reopened;
      if OneTurn(false, p).Again? {
        StaysReopened(OneTurn(false, p).p, n);
      }
    }
  }

  lemma Reopens(q: Parser, e: string)
    requires q.state >= 4 && q.window == [] && StartsAt(e, CRLF, 0)
    ensures Reopened(Drain(false, Fed(q, e)).p, |q.parts|)
  {
    var t := q.(state := 1, window := e[2..]);
    assert Fed(q, e).window == e;
    assert BoundaryTurn(Fed(q, e)) == Again(t);
    hide BoundaryTurn, HeaderTurn, BodyTurn, OpeningTurn, StartsAt, Drain;
    DrainBoundary(Fed(q, e));
    StaysReopened(t, |q.parts|);
  }

  lemma DrainBoundary(q: Parser)
    requires q.state >= 4 && q.window != [] && BoundaryTurn(q).Again?
    ensures Drain(false, q) == Drain(false, BoundaryTurn(q).p)
  {
    hide BoundaryTurn, HeaderTurn, BodyTurn, OpeningTurn;
  }

  /** What a caller sees of a parse. */
  predicate SameOutcome(r: Parsed, i: Parsed) {
    r.ok == i.ok && r.p.state == i.p.state && r.p.valid == i.p.valid && r.p.parts == i.p.parts
  }

  lemma TwoChunks(p: Parser, a: string, b: string)
    requires p.window == []
    ensures Concat([a, b]) == a + b
    ensures
      var r := Drain(false, Fed(p, a));
      ParseChunks(false, p, [a, b]) == if r.ok then Drain(false, Fed(r.p, b)) else r
  {
    hide OneTurn;
    assert [a][..0] == [] && [a, b][..1] == [a];
    assert Concat([]) == "" && Concat([a]) == "" + a;
    assert ParseChunks(false, p, []) == Parsed(p, true);
  }

  /** A CRLF after the closing delimiter starts another part in some cutting. */
  lemma EpilogueReopens(p: Parser, s: string) returns (chunks: seq<string>)
    requires Started(p) && !p.valid && p.window == [] && p.epilogue == 0 && HasCrlf(Epilogue(p, s))
    ensures Concat(chunks) == s && !SameOutcome(ParseChunks(false, p, chunks), Drain(true, Fed(p, s)))
  {
    hide Drain, ParseChunks, Concat, Reopened, Find;
    var e := Epilogue(p, s);
    var i, n := Find(e, CRLF), |s| - |e|;
    var a, b := s[..n] + e[..i], e[i..];
    chunks := [a, b];
    TwoChunks(p, a, b);
    assert a + b == s by { assert e == e[..i] + e[i..]; }
    var full := Fed(p, s);
    assert full.window == s;
    DrainAppend(full, "");
    EpilogueFits(full);
    ClosesOnLess(full, e[..i]);
    assert full.(window := a) == Fed(p, a);
    RefusedOrIdeal(Fed(p, a));
    var q := Drain(true, Fed(p, a)).p;
    StartsAtShift(e, i, CRLF, 0);
    Reopens(q, b);
    ReopenedDiffers(Drain(false, Fed(q, b)).p, q);
  }

  lemma ReopenedDiffers(r: Parser, q: Parser)
    requires q.state >= 4 && Reopened(r, |q.parts|)
    ensures r.state != q.state || r.parts != q.parts
  {
  }

  /** From the opening delimiter on, every cutting of the stream has the outcome of the ideal parser,
      which has no limit, on the whole if and only if every header line is under the limit and no CRLF occurs after the
      closing delimiter. */
  lemma CuttingsAreIdeal(p: Parser, s: string)
    requires Started(p) && !p.valid && p.window == [] && p.epilogue == 0
    ensures
      (forall chunks | Concat(chunks) == s :: SameOutcome(ParseChunks(false, p, chunks), Drain(true, Fed(p, s))))
      <==> HeadersShort(Fed(p, s)) && !HasCrlf(Epilogue(p, s))
  {
    hide *;
    if !HeadersShort(Fed(p, s)) {
      var chunks := LongLinesRefused(p, s);
      RefusedDiffers(p, s, ParseChunks(false, p, chunks));
    } else if HasCrlf(Epilogue(p, s)) {
      var chunks := EpilogueReopens(p, s);
    } else {
      forall chunks | Concat(chunks) == s
        ensures SameOutcome(ParseChunks(false, p, chunks), Drain(true, Fed(p, s)))
      {
        ChunksStayBeside(p, chunks);
        BesideIsSame(p, s, ParseChunks(false, p, chunks));
      }
    }
  }

  /** With nothing after the closing delimiter, every cutting ends in the state one piece would give
      the ideal parser, to the last byte held back, if and only if every header line is under the
      limit. */
  lemma CuttingsAreEqual(p: Parser, s: string)
    requires Started(p) && !p.valid && p.window == [] && Drain(true, Fed(p, s)).p.epilogue == 0
    ensures
      (forall chunks | Concat(chunks) == s :: ParseChunks(false, p, chunks) == Drain(true, Fed(p, s)))
      <==> HeadersShort(Fed(p, s))
  {
    hide *;
    if HeadersShort(Fed(p, s)) {
      forall chunks | Concat(chunks) == s
        ensures ParseChunks(false, p, chunks) == Drain(true, Fed(p, s))
      {
        ChunkIndependence(p, chunks);
      }
    } else {
      var chunks := LongLinesRefused(p, s);
      DrainAppend(Fed(p, s), "") by { FedIsStarted(p, s); }
    }
  }

  lemma FedIsStarted(p: Parser, s: string)
    requires Started(p)
    ensures Started(Fed(p, s))
  {
  }

  lemma RefusedDiffers(p: Parser, s: string, r: Parsed)
    requires Started(p) && !r.ok
    ensures !SameOutcome(r, Drain(true, Fed(p, s)))
  {
    hide Drain;
    DrainAppend(Fed(p, s), "");
  }

  lemma BesideIsSame(p: Parser, s: string, r: Parsed)
    requires Started(p) && Beside(r, Drain(true, Fed(p, s)), s)
    ensures SameOutcome(r, Drain(true, Fed(p, s)))
  {
    hide Drain;
    DrainAppend(Fed(p, s), "");
  }
}
