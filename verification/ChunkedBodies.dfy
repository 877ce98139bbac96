/** What the chunked reader makes of every stream, independently of how it reads. */
module ChunkedBodies {
  import opened Chunked
  import opened SizeLines

  /** A stream up to where the reader stops: chunks, and then one of two ends it accepts, a size line of
      zero with an empty line, or a chunk that is not followed by an empty line; or one of those it
      refuses: nothing, a line that says no size, a size of zero without the empty line, less data than
      announced, and data after which the stream ends. */
  datatype Body =
    | More(size: string, data: string, next: Body)
    | Last(size: string)
    | Unended(size: string, data: string, end: string)
    | Nothing
    | NoSize(size: string)
    | NoEnd(size: string, end: string)
    | Short(size: string, data: string)
    | Stops(size: string, data: string, end: string)

  /** A line followed by `after`: it ends with its only newline, or with the stream. */
  predicate IsLine(l: string, after: string) {
    && l != "" && (forall i :: 0 <= i < |l| - 1 ==> l[i] != '\n')
    && (l[|l| - 1] == '\n' || after == "")
  }

  function Text(b: Body): string {
    match b
    case More(size, data, next) => size + (data + ("\r\n" + Text(next)))
    case Last(size) => size + "\r\n"
    case Unended(size, data, end) => size + (data + end)
    case Nothing => ""
    case NoSize(size) => size
    case NoEnd(size, end) => size + end
    case Short(size, data) => size + data
    case Stops(size, data, end) => size + (data + end)
  }

  /** All data that arrives is delivered. */
  function Data(b: Body): string {
    match b
    case More(_, data, next) => data + Data(next)
    case Unended(_, data, _) => data
    case Short(_, data) => data
    case Stops(_, data, _) => data
    case _ => ""
  }

  predicate Accepted(b: Body) {
    match b
    case More(_, _, next) => Accepted(next)
    case _ => b.Last? || b.Unended?
  }

  const LARGEST := 0xffff_ffff_ffff_ffff

  /** A size line that announces n bytes of data; the largest size is taken for an error. */
  ghost predicate Announces(size: string, n: nat) { n != 0 && n != LARGEST && Says(size, n) }

  ghost predicate BodyOk(b: Body, rest: string) {
    match b
    case More(size, data, next) =>
      && IsLine(size, data + ("\r\n" + Text(next)) + rest) && Announces(size, |data|)
      && next != Nothing && BodyOk(next, rest)
    case Last(size) => IsLine(size, "\r\n" + rest) && Says(size, 0)
    case Unended(size, data, end) =>
      IsLine(size, data + end + rest) && Announces(size, |data|) && IsLine(end, rest) && end != "\r\n"
    case Nothing => rest == ""
    case NoSize(size) => IsLine(size, rest) && (Says(size, LARGEST) || !exists n: nat :: Says(size, n))
    case NoEnd(size, end) =>
      && IsLine(size, end + rest) && Says(size, 0) && end != "\r\n"
      && (IsLine(end, rest) || (end == "" && rest == ""))
    case Short(size, data) =>
      IsLine(size, data) && rest == "" && exists n: nat :: Announces(size, n) && |data| < n
    case Stops(size, data, end) =>
      IsLine(size, data + end) && Announces(size, |data|) && rest == "" && (end == "" || end == "\r\n")
  }

  // ----- lines

  lemma {:induction false} LineIsFirst(l: string, after: string)
    requires IsLine(l, after)
    ensures FirstLine(l + after) == l && TakeLine(l + after) == after
  {
    var s := l + after;
    if |l| == 1 {
      assert s[0] == l[0] && l == [l[0]];
      if l[0] != '\n' {
        assert s == l && s[1..] == "";
      }
    } else {
      assert s[1..] == l[1..] + after && s[0] == l[0] && l[0] != '\n';
      LineIsFirst(l[1..], after);
      assert l == [l[0]] + l[1..];
    }
  }

  lemma {:induction false} FirstIsLine(s: string)
    requires s != ""
    ensures IsLine(FirstLine(s), TakeLine(s)) && s == FirstLine(s) + TakeLine(s)
  {
    if s[0] == '\n' {
      assert FirstLine(s) == [s[0]];
    } else if |s| == 1 {
      assert s[1..] == "" && FirstLine(s) == s;
    } else {
      var t := s[1..];
      FirstIsLine(t);
      assert FirstLine(s) == [s[0]] + FirstLine(t);
      assert TakeLine(s) == TakeLine(t);
    }
  }

  /** Among lines, only the empty one reads as CRLF up to its first NUL. */
  lemma EmptyLineOnly(l: string, after: string)
    requires IsLine(l, after)
    ensures CString(l) == CRLF <==> l == CRLF
  {
    CStringIsPrefix(l);
    NoNul(CRLF);
    if CString(l) == CRLF {
      assert l[1] == CRLF[1] == '\n';
    }
  }

  lemma {:induction false} CStringIsPrefix(s: string)
    ensures CString(s) <= s
  {
    if s != "" {
      CStringIsPrefix(s[1..]);
    }
  }

  // ----- every such stream is read so

  /** What a line says is what the reader takes it for. */
  lemma AnnouncesMeans(size: string, n: nat)
    ensures Announces(size, n) <==> n != 0 && n != ULONG_MAX && StrToUl(size) == Number(n)
    ensures Says(size, n) <==> StrToUl(size) == Number(n)
    ensures (!exists m: nat :: Says(size, m)) <==> StrToUl(size) == NoNumber
  {
    hide StrToUl, Says;
    SizeLineSays(size, n);
  }

  /** One turn of the reader at a line that announces more than nothing. */
  lemma AtChunk(size: string, t: string, n: nat)
    requires IsLine(size, t) && Announces(size, n)
    ensures
      var r := ReadBody(size + t);
      && (n > |t| ==> r == Reading(false, t, ""))
      && (n == |t| ==> r == Reading(false, t, ""))
      && (n < |t| ==>
           var data, u := t[..n], t[n..];
           && (CString(FirstLine(u)) != CRLF ==> r == Reading(true, data, TakeLine(u)))
           && (CString(FirstLine(u)) == CRLF && TakeLine(u) == "" ==> r == Reading(false, data, ""))
           && (CString(FirstLine(u)) == CRLF && TakeLine(u) != "" ==>
                var q := ReadBody(TakeLine(u));
                |TakeLine(u)| < |t| && r == Reading(q.ok, data + q.out, q.rest)))
  {
    AnnouncesMeans(size, n);
    LineIsFirst(size, t);
    hide StrToUl, CString, FirstLine, IsLine, Announces, Says;
    assert t[..|t|] == t;
  }

  /** And at any other line. */
  lemma AtOtherLine(size: string, t: string)
    requires IsLine(size, t) && !exists n: nat :: Announces(size, n)
    ensures
      var r := ReadBody(size + t);
      if Says(size, 0) then r == Reading(t != "" && CString(FirstLine(t)) == CRLF, "", TakeLine(t))
      else r == Reading(false, "", t) && (Says(size, LARGEST) || !exists n: nat :: Says(size, n))
  {
    LineIsFirst(size, t);
    hide StrToUl, CString, FirstLine, IsLine, Announces, Says;
    AnnouncesMeans(size, 0);
    if StrToUl(size).Number? {
      AnnouncesMeans(size, StrToUl(size).value);
    }
  }

  lemma OnlyOneSize(size: string, v: nat)
    requires Says(size, v) && (v == 0 || v == LARGEST)
    ensures !exists n: nat :: Announces(size, n)
    ensures v == LARGEST ==> !Says(size, 0)
  {
    hide StrToUl, Says, Announces;
    AnnouncesMeans(size, v);
    AnnouncesMeans(size, 0);
    forall n: nat
      ensures !Announces(size, n)
    {
      AnnouncesMeans(size, n);
    }
  }

  lemma NoSizeAtAll(size: string)
    requires !exists n: nat :: Says(size, n)
    ensures !exists n: nat :: Announces(size, n)
    ensures !Says(size, 0)
  {
    hide Says;
  }

  lemma LineIsNotEmpty(l: string, after: string)
    requires IsLine(l, after)
    ensures l != ""
  {
  }

  lemma Rearrange(size: string, data: string, text: string, rest: string)
    ensures size + (data + (CRLF + text)) + rest == size + (data + (CRLF + (text + rest)))
    ensures data + (CRLF + text) + rest == data + (CRLF + (text + rest))
  {
  }

  lemma Parts(data: string, more: string)
    ensures (data + more)[..|data|] == data && (data + more)[|data|..] == more
    ensures data + "" == data
  {
  }

  lemma {:induction false} BodyReads(b: Body, rest: string)
    requires BodyOk(b, rest)
    ensures b != Nothing ==> Text(b) != ""
    ensures ReadBody(Text(b) + rest) == Reading(Accepted(b), Data(b), rest)
    decreases b
  {
    hide ReadBody, IsLine, Announces, Says, FirstLine, CString, TakeLine;
    match b
    case More(size, data, next) =>
      BodyReads(next, rest);
      Rearrange(size, data, Text(next), rest);
      LineIsNotEmpty(size, data + (CRLF + Text(next)) + rest);
      var more := Text(next) + rest;
      assert IsLine(size, data + (CRLF + more)) && Announces(size, |data|) && more != "";
      MoreReads(size, data, more);
    case Last(size) =>
      LastReads(size, rest);
      LineIsNotEmpty(size, CRLF + rest);
    case Unended(size, data, end) =>
      UnendedReads(size, data, end, rest);
      LineIsNotEmpty(size, data + end + rest);
    case Nothing =>
      NothingRead();
      assert Text(b) + rest == "";
    case NoSize(size) =>
      NoSizeReads(size, rest);
      LineIsNotEmpty(size, rest);
    case NoEnd(size, end) =>
      NoEndReads(size, end, rest);
      LineIsNotEmpty(size, end + rest);
    case Short(size, data) =>
      ShortReads(size, data);
      LineIsNotEmpty(size, data);
      assert size + data + "" == size + data;
    case Stops(size, data, end) =>
      StopsReads(size, data, end);
      LineIsNotEmpty(size, data + end);
      assert size + (data + end) + "" == size + (data + end);
  }

  lemma MoreReads(size: string, data: string, more: string)
    requires IsLine(size, data + (CRLF + more)) && Announces(size, |data|) && more != ""
    ensures
      var r := ReadBody(more);
      ReadBody(size + (data + (CRLF + more))) == Reading(r.ok, data + r.out, r.rest)
  {
    hide ReadBody, IsLine, Announces, FirstLine, CString, TakeLine;
    EmptyLine(more);
    Parts(data, CRLF + more);
    AtChunk(size, data + (CRLF + more), |data|);
  }

  lemma LastReads(size: string, rest: string)
    requires IsLine(size, CRLF + rest) && Says(size, 0)
    ensures ReadBody(size + CRLF + rest) == Reading(true, "", rest)
  {
    hide ReadBody, IsLine, Announces, Says, FirstLine, CString, TakeLine;
    Associate(size, CRLF, rest);
    OnlyOneSize(size, 0);
    EmptyLine(rest);
    AtOtherLine(size, CRLF + rest);
  }

  lemma UnendedReads(size: string, data: string, end: string, rest: string)
    requires IsLine(size, data + end + rest) && Announces(size, |data|) && IsLine(end, rest) && end != CRLF
    ensures ReadBody(size + (data + end) + rest) == Reading(true, data, rest)
  {
    hide ReadBody, IsLine, Announces, FirstLine, CString, TakeLine;
    Associate(data, end, rest);
    Associate(size, data + end, rest);
    LineIsNotEmpty(end, rest);
    LineIsFirst(end, rest);
    EmptyLineOnly(end, rest);
    Parts(data, end + rest);
    AtChunk(size, data + (end + rest), |data|);
  }

  lemma NoSizeReads(size: string, rest: string)
    requires IsLine(size, rest) && (Says(size, LARGEST) || !exists n: nat :: Says(size, n))
    ensures ReadBody(size + rest) == Reading(false, "", rest)
  {
    hide ReadBody, IsLine, Announces, Says, FirstLine, CString, TakeLine;
    if Says(size, LARGEST) {
      OnlyOneSize(size, LARGEST);
    } else {
      NoSizeAtAll(size);
    }
    AtOtherLine(size, rest);
  }

  lemma NoEndReads(size: string, end: string, rest: string)
    requires IsLine(size, end + rest) && Says(size, 0) && end != CRLF
    requires IsLine(end, rest) || (end == "" && rest == "")
    ensures ReadBody(size + end + rest) == Reading(false, "", rest)
  {
    hide ReadBody, IsLine, Announces, Says, FirstLine, CString;
    Associate(size, end, rest);
    OnlyOneSize(size, 0);
    AtOtherLine(size, end + rest);
    if IsLine(end, rest) {
      LineIsFirst(end, rest);
      EmptyLineOnly(end, rest);
    } else {
      assert end + rest == "";
    }
  }

  lemma ShortReads(size: string, data: string)
    requires IsLine(size, data) && exists n: nat :: Announces(size, n) && |data| < n
    ensures ReadBody(size + data) == Reading(false, data, "")
  {
    hide ReadBody, IsLine, Announces, FirstLine, CString, TakeLine;
    var n: nat :| Announces(size, n) && |data| < n;
    AtChunk(size, data, n);
  }

  lemma StopsReads(size: string, data: string, end: string)
    requires IsLine(size, data + end) && Announces(size, |data|) && (end == "" || end == CRLF)
    ensures ReadBody(size + (data + end)) == Reading(false, data, "")
  {
    hide ReadBody, IsLine, Announces, FirstLine, CString;
    AtChunk(size, data + end, |data|);
    Parts(data, end);
    if end == CRLF {
      EmptyLine("");
      assert CRLF + "" == CRLF;
    }
  }

  // ----- every stream is such a one

  lemma {:induction false} BodyOf(s: string) returns (b: Body)
    ensures BodyOk(b, ReadBody(s).rest) && s == Text(b) + ReadBody(s).rest
    ensures (b == Nothing) <==> s == ""
    decreases |s|
  {
    hide *;
    if s == "" {
      b := Nothing;
      NothingRead();
      NothingIs();
      return;
    }
    FirstIsLine(s);
    var size, t := FirstLine(s), TakeLine(s);
    if n: nat :| Announces(size, n) {
      b := ChunkOf(size, t, n);
    } else {
      b := OtherLineOf(size, t);
    }
  }

  lemma NothingIs()
    ensures BodyOk(Nothing, "") && Text(Nothing) == "" && "" + "" == ""
  {
  }

  lemma ChunkOf(size: string, t: string, n: nat) returns (b: Body)
    requires IsLine(size, t) && Announces(size, n)
    ensures BodyOk(b, ReadBody(size + t).rest) && size + t == Text(b) + ReadBody(size + t).rest && b != Nothing
    decreases |t|, 0
  {
    hide *;
    AtChunk(size, t, n);
    if n >= |t| {
      b := TooShortOf(size, t, n);
    } else {
      var data, u := t[..n], t[n..];
      assert t == data + u && u != "" && |data| == n;
      FirstIsLine(u);
      var end, v := FirstLine(u), TakeLine(u);
      EmptyLineOnly(end, v);
      if end != CRLF {
        b := UnendedOf(size, data, end, v);
      } else if v == "" {
        assert end + v == CRLF;
        assert u == CRLF;
        b := StopsOf(size, data);
      } else {
        var next := BodyAfter(v, t);
        b := MoreOf(size, data, next, ReadBody(v).rest);
      }
    }
  }

  lemma BodyAfter(v: string, t: string) returns (b: Body)
    requires v != "" && |v| < |t|
    ensures BodyOk(b, ReadBody(v).rest) && v == Text(b) + ReadBody(v).rest && b != Nothing
    decreases |v|, 1
  {
    hide *;
    FirstIsLine(v);
    var size, u := FirstLine(v), TakeLine(v);
    LineIsNotEmpty(size, u);
    if n: nat :| Announces(size, n) {
      b := ChunkOf(size, u, n);
    } else {
      b := OtherLineOf(size, u);
    }
  }

  lemma TooShortOf(size: string, t: string, n: nat) returns (b: Body)
    requires IsLine(size, t) && Announces(size, n) && n >= |t|
    ensures BodyOk(b, "") && size + t == Text(b) + "" && b != Nothing
  {
    hide IsLine, Announces;
    b := if n > |t| then Short(size, t) else Stops(size, t, "");
    assert t + "" == t && size + t + "" == size + t;
  }

  lemma UnendedOf(size: string, data: string, end: string, rest: string) returns (b: Body)
    requires IsLine(size, data + (end + rest)) && Announces(size, |data|) && IsLine(end, rest) && end != CRLF
    ensures BodyOk(b, rest) && size + (data + (end + rest)) == Text(b) + rest && b != Nothing
  {
    hide IsLine, Announces;
    b := Unended(size, data, end);
    assert data + end + rest == data + (end + rest);
    assert size + (data + end) + rest == size + (data + end + rest);
  }

  lemma StopsOf(size: string, data: string) returns (b: Body)
    requires IsLine(size, data + CRLF) && Announces(size, |data|)
    ensures BodyOk(b, "") && size + (data + CRLF) == Text(b) + "" && b != Nothing
  {
    hide IsLine, Announces;
    b := Stops(size, data, CRLF);
  }

  lemma MoreOf(size: string, data: string, next: Body, rest: string) returns (b: Body)
    requires IsLine(size, data + (CRLF + (Text(next) + rest))) && Announces(size, |data|)
    requires BodyOk(next, rest) && next != Nothing
    ensures BodyOk(b, rest) && size + (data + (CRLF + (Text(next) + rest))) == Text(b) + rest && b != Nothing
  {
    hide IsLine, Announces;
    b := More(size, data, next);
    Rearrange(size, data, Text(next), rest);
  }

  lemma OtherLineOf(size: string, t: string) returns (b: Body)
    requires IsLine(size, t) && !exists n: nat :: Announces(size, n)
    ensures BodyOk(b, ReadBody(size + t).rest) && size + t == Text(b) + ReadBody(size + t).rest && b != Nothing
  {
    hide *;
    AtOtherLine(size, t);
    if !Says(size, 0) {
      b := NoSizeOf(size, t);
    } else if t == "" {
      b := ZeroAtEnd(size);
    } else {
      FirstIsLine(t);
      b := ZeroOf(size, FirstLine(t), TakeLine(t));
    }
  }

  lemma NoSizeOf(size: string, rest: string) returns (b: Body)
    requires IsLine(size, rest) && (Says(size, LARGEST) || !exists n: nat :: Says(size, n))
    ensures BodyOk(b, rest) && size + rest == Text(b) + rest && b != Nothing
  {
    hide IsLine, Says;
    b := NoSize(size);
  }

  lemma ZeroAtEnd(size: string) returns (b: Body)
    requires IsLine(size, "") && Says(size, 0)
    ensures BodyOk(b, TakeLine("")) && size + "" == Text(b) + TakeLine("") && b != Nothing
  {
    hide IsLine, Says;
    b := NoEnd(size, "");
    assert "" + "" == "" && size + "" == size;
  }

  lemma ZeroOf(size: string, end: string, rest: string) returns (b: Body)
    requires IsLine(size, end + rest) && Says(size, 0) && IsLine(end, rest)
    ensures BodyOk(b, rest) && size + (end + rest) == Text(b) + rest && b != Nothing
  {
    hide IsLine, Says;
    Associate(size, end, rest);
    b := if end == CRLF then Last(size) else NoEnd(size, end);
  }

  /** What the reader makes of every stream: it is accepted, delivers its data and leaves the rest, or is
      refused with the data that arrived, exactly as its shape says. */
  lemma EveryStream(s: string, r: Reading)
    ensures
      ReadBody(s) == r
      <==> exists b :: BodyOk(b, r.rest) && s == Text(b) + r.rest && r.out == Data(b) && r.ok == Accepted(b)
  {
    hide *;
    if ReadBody(s) == r {
      var b := BodyOf(s);
      BodyReads(b, r.rest);
    }
    if b :| BodyOk(b, r.rest) && s == Text(b) + r.rest && r.out == Data(b) && r.ok == Accepted(b) {
      BodyReads(b, r.rest);
    }
  }

  /** In particular, the accepted streams. */
  lemma AcceptedBodies(s: string, out: string, rest: string)
    ensures
      ReadBody(s) == Reading(true, out, rest)
      <==> exists b :: Accepted(b) && BodyOk(b, rest) && s == Text(b) + rest && out == Data(b)
  {
    hide *;
    EveryStream(s, Reading(true, out, rest));
  }
}
