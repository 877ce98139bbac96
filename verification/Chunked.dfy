/** Chunked transfer coding (section 7.1 of RFC 9112): the writer, the line reader with its
    two buffers, and the reader, over the buffered socket. */
module Chunked {
  import opened SocketStreams

  const CRLF := "\r\n"
  const ULONG_MAX := 0xffff_ffff_ffff_ffff

  // ----- sizes in hexadecimal

  function HexChar(n: nat): char
    requires n < 16
  {
    "0123456789abcdef"[n]
  }

  function Hex(n: nat): (s: string)
    ensures s != ""
  {
    if n < 16 then [HexChar(n)] else Hex(n / 16) + [HexChar(n % 16)]
  }

  method FromIToHex(size: nat) returns (ret: string)
    ensures ret == Hex(size)
  {
    var n := size;
    ret := [HexChar(n % 16)];
    n := n / 16;
    while n > 0
      invariant (if n == 0 then ret else Hex(n) + ret) == Hex(size)
    {
      ghost var m := n;
      ret := [HexChar(n % 16)] + ret;
      n := n / 16;
      if n > 0 {
        assert Hex(n) + [HexChar(m % 16)] == Hex(m);
      }
    }
  }

  predicate HexDigit(c: char) { '0' <= c <= '9' || 'a' <= c <= 'f' || 'A' <= c <= 'F' }

  function HexValue(c: char): nat
    requires HexDigit(c)
  {
    if '0' <= c <= '9' then (c - '0') as nat
    else if 'a' <= c <= 'f' then (c - 'a') as nat + 10
    else (c - 'A') as nat + 10
  }

  predicate AllHex(s: string) { forall i :: 0 <= i < |s| ==> HexDigit(s[i]) }

  function HexNumber(s: string): nat
    requires AllHex(s)
  {
    if s == "" then 0 else HexNumber(s[..|s| - 1]) * 16 + HexValue(s[|s| - 1])
  }

  /** The longest prefix of hexadecimal digits. */
  function HexPrefix(s: string): (t: string)
    ensures AllHex(t) && t <= s
  {
    if s != "" && HexDigit(s[0]) then [s[0]] + HexPrefix(s[1..]) else ""
  }

  /** A C string ends at its first NUL. */
  function CString(s: string): string {
    if s != "" && s[0] != '\0' then [s[0]] + CString(s[1..]) else ""
  }

  predicate IsSpace(c: char) {
    c == ' ' || c == '\t' || c == '\n' || c == '\r' || c as int == 11 || c as int == 12
  }

  function SkipSpaces(s: string): string {
    if s != "" && IsSpace(s[0]) then SkipSpaces(s[1..]) else s
  }

  datatype Number = NoNumber | Number(value: nat)

  /** The standard conversion to unsigned long, base 16: blanks, an optional sign, an
      optional 0x, digits; out of range is the largest value, a minus sign wraps around. */
  function StrToUl(line: string): Number {
    var s := SkipSpaces(CString(line));
    var negative := s != "" && s[0] == '-';
    var t := if s != "" && (s[0] == '-' || s[0] == '+') then s[1..] else s;
    var u := if |t| >= 3 && t[0] == '0' && (t[1] == 'x' || t[1] == 'X') && HexDigit(t[2]) then t[2..] else t;
    var digits := HexPrefix(u);
    if digits == "" then NoNumber
    else
      var v := HexNumber(digits);
      if v > ULONG_MAX then Number(ULONG_MAX)
      else if negative && v > 0 then Number(ULONG_MAX + 1 - v)
      else Number(v)
  }

  lemma HexCharIsDigit(n: nat)
    requires n < 16
    ensures HexDigit(HexChar(n)) && HexValue(HexChar(n)) == n
    ensures n > 0 ==> HexChar(n) != '0'
  {
  }

  lemma {:induction false} HexRoundTrip(n: nat)
    ensures AllHex(Hex(n)) && HexNumber(Hex(n)) == n
    ensures n > 0 ==> Hex(n)[0] != '0'
  {
    if n < 16 {
      HexCharIsDigit(n);
      assert Hex(n)[..0] == "";
    } else {
      HexRoundTrip(n / 16);
      HexCharIsDigit(n % 16);
      assert Hex(n)[..|Hex(n)| - 1] == Hex(n / 16);
    }
  }

  lemma {:induction false} HexPrefixStops(digits: string, rest: string)
    requires AllHex(digits) && (rest == "" || !HexDigit(rest[0]))
    ensures HexPrefix(digits + rest) == digits
  {
    if digits == "" {
      assert digits + rest == rest;
    } else {
      assert (digits + rest)[1..] == digits[1..] + rest;
      HexPrefixStops(digits[1..], rest);
      assert digits == [digits[0]] + digits[1..];
    }
  }

  lemma {:induction false} NoNul(s: string)
    requires forall i :: 0 <= i < |s| ==> s[i] != '\0'
    ensures CString(s) == s
  {
    if s != "" {
      NoNul(s[1..]);
      assert s == [s[0]] + s[1..];
    }
  }

  /** A printed size line reads back as the size. */
  lemma SizeLineReads(n: nat)
    requires n <= ULONG_MAX
    ensures StrToUl(Hex(n) + CRLF) == Number(n)
  {
    var digits := Hex(n);
    HexRoundTrip(n);
    hide Hex, HexNumber;
    var line := digits + CRLF;
    assert forall i :: 0 <= i < |digits| ==> line[i] == digits[i];
    NoNul(line);
    assert line[0] == digits[0] && HexDigit(line[0]);
    assert SkipSpaces(line) == line;
    HexPrefixStops(digits, CRLF);
    hide CString, SkipSpaces, HexPrefix;
    ZeroIsShort(n);
  }

  lemma ZeroIsShort(n: nat)
    ensures Hex(n)[0] == '0' ==> Hex(n) == "0"
  {
    HexRoundTrip(n);
  }

  // ----- lines of a stream

  /** Up to and including the first newline, or everything. */
  function FirstLine(s: string): (l: string)
    ensures l <= s
    ensures s != "" ==> l != ""
  {
    if s == "" then "" else if s[0] == '\n' then [s[0]] else [s[0]] + FirstLine(s[1..])
  }

  lemma {:induction false} FirstLineIs(l: string, rest: string)
    requires forall i :: 0 <= i < |l| ==> l[i] != '\n'
    ensures FirstLine(l + "\n" + rest) == l + "\n"
    ensures (l + "\n" + rest)[|l| + 1..] == rest
  {
    var s := l + "\n" + rest;
    if l == "" {
      assert s[0] == '\n';
    } else {
      assert s[1..] == l[1..] + "\n" + rest;
      FirstLineIs(l[1..], rest);
      assert [l[0]] + (l[1..] + "\n") == l + "\n";
    }
  }

  class LineReader {
    const strm: SocketStream
    const fixedBuffer: array<char>
    var fixedBufferUsedSize: nat
    var growableBuffer: string

    ghost predicate Valid()
      reads this, strm
    {
      && strm.Valid() && fixedBuffer != strm.readBuff
      && fixedBufferUsedSize < fixedBuffer.Length
      && (growableBuffer != "" ==> fixedBufferUsedSize == fixedBuffer.Length - 1)
    }

    function Line(): string
      requires Valid()
      reads this, strm, fixedBuffer
    {
      if growableBuffer == "" then fixedBuffer[..fixedBufferUsedSize] else growableBuffer
    }

    constructor (strm: SocketStream, fixedBuffer: array<char>)
      requires strm.Valid() && fixedBuffer.Length > 0 && fixedBuffer != strm.readBuff
      ensures Valid() && this.strm == strm && this.fixedBuffer == fixedBuffer
    {
      this.strm, this.fixedBuffer := strm, fixedBuffer;
      fixedBufferUsedSize, growableBuffer := 0, "";
    }

    /** The fixed buffer while it lasts, then a growing copy of it. */
    method Append(c: char)
      requires Valid()
      modifies this, fixedBuffer
      ensures Valid() && Line() == old(Line()) + [c]
    {
      if fixedBufferUsedSize < fixedBuffer.Length - 1 {
        fixedBuffer[fixedBufferUsedSize] := c;
        fixedBufferUsedSize := fixedBufferUsedSize + 1;
        fixedBuffer[fixedBufferUsedSize] := '\0';
      } else {
        if growableBuffer == "" {
          growableBuffer := fixedBuffer[..fixedBufferUsedSize];
        }
        growableBuffer := growableBuffer + [c];
      }
    }

    /** Reads one byte and, if there is one, appends it to the line. */
    method Extend() returns (n: int, byte: char)
      requires Valid()
      modifies this, fixedBuffer, strm, strm.readBuff, strm.sock
      ensures Valid() && n <= 1
      ensures n == 1 ==> old(strm.Pending()) == [byte] + strm.Pending() && Line() == old(Line()) + [byte]
      ensures n != 1 ==> strm.Pending() == old(strm.Pending()) && Line() == old(Line())
      ensures n == 0 ==> strm.Pending() == ""
      ensures n < 0 ==> !strm.sock.healthy
    {
      var data: string;
      n, data := strm.Read(1);
      byte := '\0';
      if n == 1 {
        byte := data[0];
        assert data == [byte];
        Append(byte);
      }
    }

    method GetLine() returns (ok: bool)
      requires Valid()
      modifies this, fixedBuffer, strm, strm.readBuff, strm.sock
      ensures Valid()
      ensures ok ==> old(strm.Pending()) != "" && Line() == FirstLine(old(strm.Pending()))
                     && old(strm.Pending()) == Line() + strm.Pending()
      ensures strm.sock.healthy && old(strm.Pending()) != "" ==> ok
    {
      fixedBufferUsedSize := 0;
      growableBuffer := "";
      ghost var all := strm.Pending();
      var i := 0;
      while true
        invariant Valid() && i == |Line()| && MidLine(all, Line(), strm.Pending())
        decreases |strm.Pending()|
      {
        ghost var line, rest := Line(), strm.Pending();
        var n, byte := Extend();
        if n < 0 {
          return false;
        } else if n == 0 {
          if i == 0 {
            return false;
          } else {
            break;
          }
        }
        MidLineStep(all, line, byte, strm.Pending());
        if byte == '\n' {
          break;
        }
        i := i + 1;
      }
      return true;
    }
  }

  /** Part of the first line has been read, and `rest` is still to come. */
  ghost predicate MidLine(all: string, line: string, rest: string) {
    line + rest == all && FirstLine(all) == line + FirstLine(rest)
  }

  lemma MidLineStep(all: string, line: string, byte: char, rest: string)
    requires MidLine(all, line, [byte] + rest)
    ensures byte != '\n' ==> MidLine(all, line + [byte], rest)
    ensures byte == '\n' ==> FirstLine(all) == line + [byte] && line + [byte] + rest == all
  {
    var s := [byte] + rest;
    assert s[1..] == rest;
    assert line + [byte] + rest == line + s;
    if byte != '\n' {
      assert line + ([byte] + FirstLine(rest)) == line + [byte] + FirstLine(rest);
    }
  }

  // ----- reading

  /** The outcome of a reader: whether it accepted, what it delivered, what it left. */
  datatype Reading = Reading(ok: bool, out: string, rest: string)

  function TakeLine(s: string): string { s[|FirstLine(s)|..] }

  /** The loop of the reader, at a size line already read. */
  function ReadChunks(line: string, s: string): Reading
    decreases |s|
  {
    match StrToUl(line)
    case NoNumber => Reading(false, "", s)
    case Number(len) =>
      if len == ULONG_MAX then Reading(false, "", s)
      else if len == 0 then
        Reading(s != "" && CString(FirstLine(s)) == CRLF, "", TakeLine(s))
      else if len > |s| then Reading(false, s, "")
      else
        var data, t := s[..len], s[len..];
        if t == "" then Reading(false, data, t)
        else
          var u := TakeLine(t);
          if CString(FirstLine(t)) != CRLF then Reading(true, data, u)
          else if u == "" then Reading(false, data, u)
          else
            var r := ReadChunks(FirstLine(u), TakeLine(u));
            Reading(r.ok, data + r.out, r.rest)
  }

  /** Reading a whole chunked body off a byte sequence. */
  function ReadBody(s: string): Reading {
    if s == "" then Reading(false, "", s) else ReadChunks(FirstLine(s), TakeLine(s))
  }

  method ReadContentWithLength(strm: SocketStream, len: nat) returns (ok: bool, out: string)
    requires strm.Valid()
    modifies strm, strm.readBuff, strm.sock
    ensures strm.Valid() && out + strm.Pending() == old(strm.Pending())
    ensures ok ==> |out| == len
    ensures strm.sock.healthy ==> (ok <==> len <= |old(strm.Pending())|)
    ensures strm.sock.healthy && !ok ==> strm.Pending() == ""
  {
    hide SocketStream.Pending, SocketStream.Window;
    var r := 0;
    out := "";
    ghost var all := strm.Pending();
    while r < len
      invariant strm.Valid() && r == |out| <= len && out + strm.Pending() == all
    {
      var readLen := len - r;
      ghost var pending := strm.Pending();
      var n, data := strm.Read(if readLen < 4096 then readLen else 4096);
      if n <= 0 {
        return false, out;
      }
      assert out + (data + strm.Pending()) == out + data + strm.Pending();
      out := out + data;
      r := r + n;
    }
    return true, out;
  }

  datatype Flow = Broken | Accepted | NextSize

  /** What reading one chunk of `len` bytes off `s` may come to, with what was delivered. */
  ghost predicate ChunkRead(flow: Flow, len: nat, s: string, data: string) {
    if len > |s| then flow == Broken && data == s
    else
      var t := s[len..];
      && data == s[..len]
      && if t == "" then flow == Broken
         else if CString(FirstLine(t)) != CRLF then flow == Accepted
         else flow == if TakeLine(t) == "" then Broken else NextSize
  }

  /** The data of a chunk, the line after it and, if that is empty, the next size line. */
  method ReadChunk(reader: LineReader, len: nat) returns (flow: Flow, data: string)
    requires reader.Valid()
    modifies reader, reader.fixedBuffer, reader.strm, reader.strm.readBuff, reader.strm.sock
    ensures reader.Valid()
    ensures flow != Broken || reader.strm.sock.healthy ==> ChunkRead(flow, len, old(reader.strm.Pending()), data)
    ensures flow == Accepted ==> reader.strm.Pending() == TakeLine(old(reader.strm.Pending())[len..])
    ensures flow == NextSize ==>
      var u := TakeLine(old(reader.strm.Pending())[len..]);
      reader.Line() == FirstLine(u) && reader.strm.Pending() == TakeLine(u)
  {
    hide SocketStream.Pending, SocketStream.Window, LineReader.Line, FirstLine, CString;
    var strm := reader.strm;
    ghost var s := strm.Pending();
    var all;
    all, data := ReadContentWithLength(strm, len);
    if !all {
      return Broken, data;
    }
    ghost var t := strm.Pending();
    assert s[..len] == data && s[len..] == t;
    var got := reader.GetLine();
    if !got {
      return Broken, data;
    }
    assert TakeLine(t) == strm.Pending();
    if CString(reader.Line()) != CRLF {
      return Accepted, data;
    }
    ghost var u := strm.Pending();
    got := reader.GetLine();
    if !got {
      return Broken, data;
    }
    assert TakeLine(u) == strm.Pending();
    return NextSize, data;
  }

  /** The empty line after the last, empty chunk. */
  method ReadTerminator(reader: LineReader) returns (ok: bool)
    requires reader.Valid()
    modifies reader, reader.fixedBuffer, reader.strm, reader.strm.readBuff, reader.strm.sock
    ensures reader.Valid()
    ensures ok ==> reader.strm.Pending() == TakeLine(old(reader.strm.Pending()))
    ensures
      var s := old(reader.strm.Pending());
      var good := s != "" && CString(FirstLine(s)) == CRLF;
      (ok ==> good) && (reader.strm.sock.healthy ==> ok == good)
  {
    hide SocketStream.Pending, SocketStream.Window, LineReader.Line, FirstLine, CString;
    ghost var s := reader.strm.Pending();
    var got := reader.GetLine();
    if !got || CString(reader.Line()) != CRLF {
      return false;
    }
    return true;
  }

  method ReadContentChunked(strm: SocketStream) returns (ok: bool, out: string)
    requires strm.Valid()
    modifies strm, strm.readBuff, strm.sock
    ensures strm.Valid()
    ensures ok ==> Reading(ok, out, strm.Pending()) == ReadBody(old(strm.Pending()))
    ensures strm.sock.healthy ==> ok == ReadBody(old(strm.Pending())).ok && out == ReadBody(old(strm.Pending())).out
  {
    hide SocketStream.Pending, SocketStream.Window, LineReader.Line, FirstLine, CString, StrToUl, ChunkRead, Onward,
         ReadChunks;
    out := "";
    ghost var all := strm.Pending();
    var buf := new char[16];
    var reader := new LineReader(strm, buf);
    assert strm.Pending() == all;
    var got := reader.GetLine();
    if !got {
      return false, out;
    }
    ghost var body := ReadBody(all);
    assert TakeLine(all) == strm.Pending();
    OnwardStart(all);
    ok := false;
    var done := false;
    while !done
      invariant reader.Valid()
      invariant !done ==> Onward(body, out, reader.Line(), strm.Pending())
      invariant done && ok ==> Reading(ok, out, strm.Pending()) == body
      invariant done && strm.sock.healthy ==> ok == body.ok && out == body.out
      decreases !done, |strm.Pending()|
    {
      done, ok, out := ReadOneChunk(reader, out, body);
    }
  }

  /** One turn of the reading loop, at a size line. */
  method ReadOneChunk(reader: LineReader, sofar: string, ghost body: Reading)
    returns (done: bool, ok: bool, out: string)
    requires reader.Valid() && Onward(body, sofar, reader.Line(), reader.strm.Pending())
    modifies reader, reader.fixedBuffer, reader.strm, reader.strm.readBuff, reader.strm.sock
    ensures reader.Valid()
    ensures !done ==> Onward(body, out, reader.Line(), reader.strm.Pending())
    ensures !done ==> |reader.strm.Pending()| < |old(reader.strm.Pending())|
    ensures done && ok ==> Reading(ok, out, reader.strm.Pending()) == body
    ensures done && reader.strm.sock.healthy ==> ok == body.ok && out == body.out
  {
    hide SocketStream.Pending, SocketStream.Window, LineReader.Line, FirstLine, CString, StrToUl, ChunkRead, Onward,
         ReadChunks;
    out := sofar;
    ghost var line, s := reader.Line(), reader.strm.Pending();
    OnwardEnds(body, out, line, s);
    var chunkLen := StrToUl(reader.Line());
    if chunkLen == NoNumber {
      return true, false, out;
    }
    if chunkLen.value == ULONG_MAX {
      return true, false, out;
    }
    if chunkLen.value == 0 {
      ok := ReadTerminator(reader);
      return true, ok, out;
    }
    done, ok, out := ReadSizedChunk(reader, chunkLen.value, sofar, body);
  }

  /** The turn of the reading loop after a size line that announces data. */
  method ReadSizedChunk(reader: LineReader, len: nat, sofar: string, ghost body: Reading)
    returns (done: bool, ok: bool, out: string)
    requires reader.Valid() && Onward(body, sofar, reader.Line(), reader.strm.Pending())
    requires StrToUl(reader.Line()) == Number(len) && len != 0 && len != ULONG_MAX
    modifies reader, reader.fixedBuffer, reader.strm, reader.strm.readBuff, reader.strm.sock
    ensures reader.Valid()
    ensures !done ==> Onward(body, out, reader.Line(), reader.strm.Pending())
    ensures !done ==> |reader.strm.Pending()| < |old(reader.strm.Pending())|
    ensures done && ok ==> Reading(ok, out, reader.strm.Pending()) == body
    ensures done && reader.strm.sock.healthy ==> ok == body.ok && out == body.out
  {
    hide SocketStream.Pending, SocketStream.Window, LineReader.Line, FirstLine, CString, StrToUl, ChunkRead, Onward,
         ReadChunks;
    ghost var line, s := reader.Line(), reader.strm.Pending();
    var flow, data := ReadChunk(reader, len);
    OnwardChunk(body, sofar, line, s, len, flow, data);
    return flow != NextSize, flow == Accepted, sofar + data;
  }

  /** The reader, with `out` delivered and at a size line, is on its way to `body`. */
  ghost predicate Onward(body: Reading, out: string, line: string, s: string) {
    var r := ReadChunks(line, s);
    body == Reading(r.ok, out + r.out, r.rest)
  }

  lemma OnwardStart(all: string)
    requires all != ""
    ensures Onward(ReadBody(all), "", FirstLine(all), TakeLine(all))
  {
    hide ReadChunks, FirstLine;
    var r := ReadChunks(FirstLine(all), TakeLine(all));
    assert "" + r.out == r.out;
  }

  /** The size lines at which the reader stops. */
  lemma OnwardEnds(body: Reading, out: string, line: string, s: string)
    requires Onward(body, out, line, s)
    ensures
      var n := StrToUl(line);
      && (n == NoNumber || n.value == ULONG_MAX ==> body == Reading(false, out, s))
      && (n.Number? && n.value == 0 ==>
           body == Reading(s != "" && CString(FirstLine(s)) == CRLF, out, TakeLine(s)))
  {
    hide StrToUl, FirstLine, CString;
    assert out + "" == out;
  }

  /** What one chunk contributes to the result of reading. */
  lemma ChunkResult(line: string, s: string, len: nat, flow: Flow, data: string)
    requires StrToUl(line) == Number(len) && len != 0 && len != ULONG_MAX && ChunkRead(flow, len, s, data)
    ensures flow == Broken ==> !ReadChunks(line, s).ok && ReadChunks(line, s).out == data
    ensures flow != Broken ==> len <= |s|
    ensures flow == Accepted ==> ReadChunks(line, s) == Reading(true, data, TakeLine(s[len..]))
    ensures flow == NextSize ==>
      var u := TakeLine(s[len..]);
      var r := ReadChunks(FirstLine(u), TakeLine(u));
      ReadChunks(line, s) == Reading(r.ok, data + r.out, r.rest) && |TakeLine(u)| < |s|
  {
    hide StrToUl, CString, FirstLine;
  }

  /** One chunk brings the reader nearer to the same body, or ends it there. */
  lemma OnwardChunk(body: Reading, out: string, line: string, s: string, len: nat, flow: Flow, data: string)
    requires Onward(body, out, line, s) && StrToUl(line) == Number(len) && len != 0 && len != ULONG_MAX
    ensures ChunkRead(flow, len, s, data) ==>
      && (flow == Broken ==> !body.ok && body.out == out + data)
      && (flow == Accepted ==> len <= |s| && body == Reading(true, out + data, TakeLine(s[len..])))
      && (flow == NextSize ==> len <= |s|)
      && (flow == NextSize ==>
           var u := TakeLine(s[len..]);
           Onward(body, out + data, FirstLine(u), TakeLine(u)) && |TakeLine(u)| < |s|)
  {
    hide StrToUl, CString, ReadChunks, ChunkRead, TakeLine, FirstLine;
    if ChunkRead(flow, len, s, data) {
      ChunkResult(line, s, len, flow, data);
      if flow == NextSize {
        var u := TakeLine(s[len..]);
        Associate(out, data, ReadChunks(FirstLine(u), TakeLine(u)).out);
      }
    }
  }

  // ----- writing

  /** What a content provider does with the sink it is given. */
  datatype SinkOp = Write(data: string) | Done

  const LAST_CHUNK := "0\r\n\r\n"

  function Chunk(data: string): string {
    if data == "" then "" else Hex(|data|) + CRLF + data + CRLF
  }

  /** The sink's state: what has gone out, and whether more is expected. */
  datatype Sink = Sink(sent: string, available: bool, offset: nat)

  function SinkAfter(k: Sink, op: SinkOp): Sink {
    match op
    case Write(d) => Sink(k.sent + Chunk(d), |d| > 0, k.offset + |d|)
    case Done => Sink(k.sent + LAST_CHUNK, false, k.offset)
  }

  function SinkAfterAll(k: Sink, ops: seq<SinkOp>): Sink
    decreases |ops|
  {
    if ops == [] then k else SinkAfterAll(SinkAfter(k, ops[0]), ops[1..])
  }

  /** The provider is called again while its last call left more to come. */
  function Provide(k: Sink, calls: seq<seq<SinkOp>>): Sink
    decreases |calls|
  {
    if calls == [] || !k.available then k else Provide(SinkAfterAll(k, calls[0]), calls[1..])
  }

  class ChunkedSink {
    var sent: string
    var dataAvailable: bool
    var offset: nat

    function State(): Sink
      reads this
    {
      Sink(sent, dataAvailable, offset)
    }

    constructor ()
      ensures State() == Sink("", true, 0)
    {
      sent, dataAvailable, offset := "", true, 0;
    }

    /** Emits one chunk for the data, unless there is none. */
    method DoWrite(d: string)
      modifies this
      ensures State() == SinkAfter(old(State()), Write(d))
    {
      dataAvailable := |d| > 0;
      offset := offset + |d|;
      var payload := d;
      if payload != "" {
        var size := FromIToHex(|payload|);
        var chunk := size + "\r\n" + payload + "\r\n";
        sent := sent + chunk;
      }
    }

    method DoDone()
      modifies this
      ensures State() == SinkAfter(old(State()), Done)
    {
      dataAvailable := false;
      sent := sent + "0\r\n\r\n";
    }
  }

  /** One call to the content provider. */
  method CallProvider(sink: ChunkedSink, ops: seq<SinkOp>)
    modifies sink
    ensures sink.State() == SinkAfterAll(old(sink.State()), ops)
  {
    hide SinkAfter;
    ghost var before := sink.State();
    var j := 0;
    assert ops[0..] == ops;
    while j < |ops|
      invariant 0 <= j <= |ops|
      invariant SinkAfterAll(sink.State(), ops[j..]) == SinkAfterAll(before, ops)
    {
      assert ops[j..][0] == ops[j] && ops[j..][1..] == ops[j + 1..];
      match ops[j] {
        case Write(d) => sink.DoWrite(d);
        case Done => sink.DoDone();
      }
      j := j + 1;
    }
  }

  /** The writer's loop over the calls to its content provider. */
  method WriteContentChunked(calls: seq<seq<SinkOp>>) returns (sent: string)
    ensures sent == Provide(Sink("", true, 0), calls).sent
  {
    hide SinkAfterAll;
    var sink := new ChunkedSink();
    ghost var start := Sink("", true, 0);
    var i := 0;
    assert calls[0..] == calls;
    while i < |calls| && sink.dataAvailable
      invariant 0 <= i <= |calls| && fresh(sink)
      invariant Provide(sink.State(), calls[i..]) == Provide(start, calls)
      decreases |calls| - i
    {
      assert calls[i..][0] == calls[i] && calls[i..][1..] == calls[i + 1..];
      CallProvider(sink, calls[i]);
      i := i + 1;
    }
    return sink.sent;
  }

  // ----- the round trip

  function Concat(writes: seq<string>): string {
    if writes == [] then "" else writes[0] + Concat(writes[1..])
  }

  /** The chunks of a list of writes. */
  function Chunks(writes: seq<string>): string {
    if writes == [] then "" else Chunk(writes[0]) + Chunks(writes[1..])
  }

  predicate Sized(writes: seq<string>) {
    forall i :: 0 <= i < |writes| ==> |writes[i]| < ULONG_MAX
  }

  lemma SizeLine(n: nat, rest: string)
    ensures FirstLine(Hex(n) + CRLF + rest) == Hex(n) + CRLF
    ensures TakeLine(Hex(n) + CRLF + rest) == rest
  {
    HexRoundTrip(n);
    var l := Hex(n) + "\r";
    assert l + "\n" == Hex(n) + CRLF;
    assert l + "\n" + rest == Hex(n) + CRLF + rest;
    assert forall i :: 0 <= i < |Hex(n)| ==> l[i] == Hex(n)[i];
    FirstLineIs(l, rest);
  }

  lemma EmptyLine(rest: string)
    ensures FirstLine(CRLF + rest) == CRLF && TakeLine(CRLF + rest) == rest
    ensures CString(CRLF) == CRLF
  {
    assert CRLF + rest == "\r" + "\n" + rest;
    assert "\r" + "\n" == CRLF;
    FirstLineIs("\r", rest);
    NoNul(CRLF);
  }

  lemma LastChunkReads(rest: string)
    ensures ReadBody(LAST_CHUNK + rest) == Reading(true, "", rest)
  {
    hide FirstLine, CString, StrToUl;
    assert LAST_CHUNK + rest == Hex(0) + CRLF + (CRLF + rest);
    SizeLine(0, CRLF + rest);
    SizeLineReads(0);
    EmptyLine(rest);
  }

  lemma ChunkReads(d: string, more: string)
    requires d != "" && |d| < ULONG_MAX && more != ""
    ensures
      var r := ReadBody(more);
      ReadBody(Chunk(d) + more) == Reading(r.ok, d + r.out, r.rest)
  {
    hide FirstLine, CString, StrToUl, Hex;
    var s := d + CRLF + more;
    assert Chunk(d) + more == Hex(|d|) + CRLF + s;
    SizeLine(|d|, s);
    SizeLineReads(|d|);
    assert s[..|d|] == d && s[|d|..] == CRLF + more;
    EmptyLine(more);
  }

  /** Reading the chunks of any list of writes, followed by the last chunk, accepts and
      delivers the concatenation, leaving what comes after untouched. */
  lemma {:induction false} ChunkedRoundTrip(writes: seq<string>, rest: string)
    requires Sized(writes)
    ensures ReadBody(Chunks(writes) + LAST_CHUNK + rest) == Reading(true, Concat(writes), rest)
    decreases |writes|
  {
    hide ReadBody, Chunk;
    if writes == [] {
      assert Chunks(writes) + LAST_CHUNK + rest == LAST_CHUNK + rest;
      LastChunkReads(rest);
    } else {
      ChunkedRoundTrip(writes[1..], rest);
      var more := Chunks(writes[1..]) + LAST_CHUNK + rest;
      assert Chunks(writes) + LAST_CHUNK + rest == Chunk(writes[0]) + more;
      if writes[0] == "" {
        EmptyChunk();
        assert "" + more == more && "" + Concat(writes[1..]) == Concat(writes[1..]);
      } else {
        ChunkReads(writes[0], more);
      }
    }
  }

  lemma EmptyChunk()
    ensures Chunk("") == ""
  {
  }

  function Ops(writes: seq<string>): seq<SinkOp> {
    seq(|writes|, i requires 0 <= i < |writes| => Write(writes[i]))
  }

  lemma {:induction false} OpsSend(k: Sink, writes: seq<string>)
    ensures
      var r := SinkAfterAll(k, Ops(writes) + [Done]);
      r.sent == k.sent + (Chunks(writes) + LAST_CHUNK) && !r.available
    decreases |writes|
  {
    hide Chunk;
    var ops := Ops(writes) + [Done];
    if writes == [] {
      assert ops == [Done] && ops[1..] == [];
      assert "" + LAST_CHUNK == LAST_CHUNK;
    } else {
      var k1 := SinkAfter(k, Write(writes[0]));
      assert ops[0] == Write(writes[0]) && ops[1..] == Ops(writes[1..]) + [Done];
      OpsSend(k1, writes[1..]);
      var c, tail := Chunk(writes[0]), Chunks(writes[1..]) + LAST_CHUNK;
      assert k.sent + c + tail == k.sent + (c + tail);
      assert c + tail == Chunk(writes[0]) + Chunks(writes[1..]) + LAST_CHUNK;
    }
  }

  /** A provider call after which the writer asks for more. */
  predicate AsksAgain(writes: seq<string>) { writes == [] || writes[|writes| - 1] != "" }

  lemma {:induction false} OpsOnly(k: Sink, writes: seq<string>)
    ensures
      var r := SinkAfterAll(k, Ops(writes));
      && r.sent == k.sent + Chunks(writes)
      && r.available == if writes == [] then k.available else writes[|writes| - 1] != ""
    decreases |writes|
  {
    hide Chunk;
    if writes == [] {
      assert Ops(writes) == [] && k.sent + "" == k.sent;
    } else {
      var k1 := SinkAfter(k, Write(writes[0]));
      assert Ops(writes)[1..] == Ops(writes[1..]);
      OpsOnly(k1, writes[1..]);
      assert k.sent + Chunk(writes[0]) + Chunks(writes[1..]) == k.sent + (Chunk(writes[0]) + Chunks(writes[1..]));
    }
  }

  function Flatten(batches: seq<seq<string>>): seq<string> {
    if batches == [] then [] else batches[0] + Flatten(batches[1..])
  }

  /** Provider calls: writes that keep the writer asking, then writes and the end. */
  function Calls(batches: seq<seq<string>>, last: seq<string>): (c: seq<seq<SinkOp>>)
    ensures c != []
  {
    if batches == [] then [Ops(last) + [Done]] else [Ops(batches[0])] + Calls(batches[1..], last)
  }

  lemma {:induction false} ChunksAppend(a: seq<string>, b: seq<string>)
    ensures Chunks(a + b) == Chunks(a) + Chunks(b)
  {
    hide Chunk;
    if a == [] {
      assert a + b == b;
    } else {
      assert (a + b)[1..] == a[1..] + b;
      ChunksAppend(a[1..], b);
      assert Chunk(a[0]) + (Chunks(a[1..]) + Chunks(b)) == Chunk(a[0]) + Chunks(a[1..]) + Chunks(b);
    }
  }

  lemma {:induction false} CallsSend(k: Sink, batches: seq<seq<string>>, last: seq<string>)
    requires k.available && forall i :: 0 <= i < |batches| ==> AsksAgain(batches[i])
    ensures Provide(k, Calls(batches, last)).sent == k.sent + (Chunks(Flatten(batches) + last) + LAST_CHUNK)
    decreases |batches|
  {
    hide SinkAfterAll, Chunks, Ops;
    var calls := Calls(batches, last);
    if batches == [] {
      OpsSend(k, last);
      assert calls[1..] == [];
      assert Flatten(batches) + last == last;
    } else {
      OpsOnly(k, batches[0]);
      var k1 := SinkAfterAll(k, calls[0]);
      assert calls[1..] == Calls(batches[1..], last);
      CallsSend(k1, batches[1..], last);
      assert Provide(k, calls) == Provide(k1, calls[1..]);
      hide *;
      FlattenOne(batches, last);
      ChunksAppend(batches[0], Flatten(batches[1..]) + last);
      Reassociate(k.sent, Chunks(batches[0]), Chunks(Flatten(batches[1..]) + last), LAST_CHUNK);
    }
  }

  lemma FlattenOne(batches: seq<seq<string>>, last: seq<string>)
    requires batches != []
    ensures Flatten(batches) + last == batches[0] + (Flatten(batches[1..]) + last)
  {
  }

  lemma Reassociate(s: string, a: string, b: string, c: string)
    ensures s + a + (b + c) == s + (a + b + c)
  {
  }

  /** What any number of provider calls send, in any division of the writes among them
      that keeps the writer asking, is read back whole. */
  lemma WriterReaderRoundTrip(batches: seq<seq<string>>, last: seq<string>, rest: string)
    requires forall i :: 0 <= i < |batches| ==> AsksAgain(batches[i])
    requires Sized(Flatten(batches) + last)
    ensures
      var sent := Provide(Sink("", true, 0), Calls(batches, last)).sent;
      ReadBody(sent + rest) == Reading(true, Concat(Flatten(batches) + last), rest)
  {
    hide Provide, Chunks, ReadBody, Concat;
    CallsSend(Sink("", true, 0), batches, last);
    var all := Flatten(batches) + last;
    assert "" + (Chunks(all) + LAST_CHUNK) == Chunks(all) + LAST_CHUNK;
    ChunkedRoundTrip(all, rest);
  }

  // ----- an empty write ends the sending

  /** The batches the provider is called for: up to the first after which the writer stops asking. */
  function Asked(batches: seq<seq<string>>): seq<seq<string>> {
    if batches == [] then []
    else [batches[0]] + if AsksAgain(batches[0]) then Asked(batches[1..]) else []
  }

  predicate AllAskAgain(batches: seq<seq<string>>) { forall i :: 0 <= i < |batches| ==> AsksAgain(batches[i]) }

  lemma AllAskCons(batches: seq<seq<string>>)
    requires batches != []
    ensures AllAskAgain(batches) <==> AsksAgain(batches[0]) && AllAskAgain(batches[1..])
  {
    assert batches == [batches[0]] + batches[1..];
  }

  /** One provider call. */
  lemma FirstCall(k: Sink, batches: seq<seq<string>>, last: seq<string>) returns (k1: Sink)
    requires k.available && batches != []
    ensures k1.sent == k.sent + Chunks(batches[0]) && k1.available == AsksAgain(batches[0])
    ensures Provide(k, Calls(batches, last)) == Provide(k1, Calls(batches[1..], last))
  {
    hide SinkAfterAll, Chunks, Ops;
    var calls := Calls(batches, last);
    OpsOnly(k, batches[0]);
    k1 := SinkAfterAll(k, calls[0]);
    assert calls[1..] == Calls(batches[1..], last);
  }

  lemma ChunksOfAsked(batches: seq<seq<string>>)
    requires batches != []
    ensures
      var more := if AsksAgain(batches[0]) then Chunks(Flatten(Asked(batches[1..]))) else "";
      Chunks(Flatten(Asked(batches))) == Chunks(batches[0]) + more
  {
    hide AsksAgain;
    var more := if AsksAgain(batches[0]) then Asked(batches[1..]) else [];
    assert Asked(batches)[1..] == more;
    assert Flatten(Asked(batches)) == batches[0] + Flatten(more);
    ChunksAppend(batches[0], Flatten(more));
  }

  lemma {:induction false} StoppedCallsSend(k: Sink, batches: seq<seq<string>>, last: seq<string>)
    requires k.available && !AllAskAgain(batches)
    ensures Provide(k, Calls(batches, last)).sent == k.sent + Chunks(Flatten(Asked(batches)))
    decreases |batches|
  {
    assert batches != [];
    hide *;
    AllAskCons(batches);
    ChunksOfAsked(batches);
    var k1 := FirstCall(k, batches, last);
    var c := Chunks(batches[0]);
    if AsksAgain(batches[0]) {
      StoppedCallsSend(k1, batches[1..], last);
      Associate(k.sent, c, Chunks(Flatten(Asked(batches[1..]))));
    } else {
      NotAskedAgain(k1, Calls(batches[1..], last));
      Associate(k.sent, c, "");
    }
  }

  lemma NotAskedAgain(k: Sink, calls: seq<seq<SinkOp>>)
    requires !k.available
    ensures Provide(k, calls) == k
  {
  }

  lemma Associate(a: string, b: string, c: string)
    ensures a + b + c == a + (b + c)
    ensures b + "" == b
  {
  }

  /** Without the last chunk, the reader delivers what there is and does not accept it. */
  lemma {:induction false} UnfinishedIsRefused(writes: seq<string>)
    requires Sized(writes)
    ensures ReadBody(Chunks(writes)) == Reading(false, Concat(writes), "")
    decreases |writes|
  {
    if writes != [] {
      var d, more := writes[0], Chunks(writes[1..]);
      UnfinishedIsRefused(writes[1..]);
      hide Chunk, ReadBody;
      if d == "" {
        EmptyChunk();
        assert "" + more == more && "" + Concat(writes[1..]) == Concat(writes[1..]);
      } else if more != "" {
        ChunkReads(d, more);
      } else {
        LoneChunk(d);
        NothingRead();
        assert Chunk(d) + "" == Chunk(d) && d + "" == d;
      }
    }
  }

  lemma NothingRead()
    ensures ReadBody("") == Reading(false, "", "")
  {
  }

  lemma LoneChunk(d: string)
    requires d != "" && |d| < ULONG_MAX
    ensures ReadBody(Chunk(d)) == Reading(false, d, "")
  {
    hide FirstLine, CString, StrToUl, Hex;
    var s := d + CRLF;
    assert Chunk(d) == Hex(|d|) + CRLF + s;
    SizeLine(|d|, s);
    SizeLineReads(|d|);
    assert s[..|d|] == d && s[|d|..] == CRLF + "";
    EmptyLine("");
  }

  lemma {:induction false} AskedIsSized(batches: seq<seq<string>>, last: seq<string>)
    requires Sized(Flatten(batches) + last)
    ensures Sized(Flatten(Asked(batches)))
    decreases |batches|
  {
    if batches != [] {
      var first, more := batches[0], Flatten(batches[1..]) + last;
      FlattenOne(batches, last);
      assert (first + more)[|first|..] == more && (first + more)[..|first|] == first;
      assert Sized(more) && Sized(first) by { SizedParts(first, more); }
      AskedIsSized(batches[1..], last);
      var rest := if AsksAgain(first) then Asked(batches[1..]) else [];
      assert Asked(batches)[1..] == rest;
    }
  }

  lemma SizedParts(a: seq<string>, b: seq<string>)
    requires Sized(a + b)
    ensures Sized(a) && Sized(b)
  {
    forall i | 0 <= i < |a|
      ensures |a[i]| < ULONG_MAX
    {
      assert (a + b)[i] == a[i];
    }
    forall i | 0 <= i < |b|
      ensures |b[i]| < ULONG_MAX
    {
      assert (a + b)[|a| + i] == b[i];
    }
  }

  /** What the writer sends is accepted if and only if no provider call but the last one ends with an
      empty write; if one does, what was written up to there is delivered and then refused. */
  lemma WriterIsHeardOut(batches: seq<seq<string>>, last: seq<string>)
    requires Sized(Flatten(batches) + last)
    ensures
      var r := ReadBody(Provide(Sink("", true, 0), Calls(batches, last)).sent);
      && (r.ok <==> AllAskAgain(batches))
      && (AllAskAgain(batches) ==> r == Reading(true, Concat(Flatten(batches) + last), ""))
      && (!AllAskAgain(batches) ==> r == Reading(false, Concat(Flatten(Asked(batches))), ""))
  {
    var sent := Provide(Sink("", true, 0), Calls(batches, last)).sent;
    if AllAskAgain(batches) {
      hide Provide, ReadBody, Sized;
      WriterReaderRoundTrip(batches, last, "");
      assert sent + "" == sent;
    } else {
      hide *;
      StoppedCallsSend(Sink("", true, 0), batches, last);
      var ws := Flatten(Asked(batches));
      assert "" + Chunks(ws) == Chunks(ws);
      AskedIsSized(batches, last);
      UnfinishedIsRefused(ws);
    }
  }
}
