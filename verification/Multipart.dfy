/** The streaming multipart/form-data parser and the serializer.  The parser is a machine
    over a window of unread bytes; the class keeps the window in a growing buffer. */
module Multipart {
  import opened ByteSearch
  import opened Wrappers

  const CRLF := "\r\n"
  const DASH_CRLF := "--\r\n"
  const HEADER_MAX := 8192

  /** The header fields of a part. */
  datatype FileInfo = FileInfo(name: string, filename: string, contentType: string)

  datatype Part = Part(file: FileInfo, content: string)

  const NO_FILE := FileInfo("", "", "")

  function OpenDelimiter(boundary: string): (d: string)
    ensures |d| >= 4
  {
    "--" + boundary + CRLF
  }

  function Delimiter(boundary: string): (d: string)
    ensures |d| == 4 + |boundary|
  {
    CRLF + "--" + boundary
  }

  // ----- header lines

  function Lower(c: char): char {
    if 'A' <= c <= 'Z' then (c as int + 32) as char else c
  }

  predicate StartsWithIgnoreCase(a: string, b: string) {
    |a| >= |b| && forall i :: 0 <= i < |b| ==> Lower(a[i]) == Lower(b[i])
  }

  predicate SpaceOrTab(c: char) { c == ' ' || c == '\t' }

  function TrimLeft(s: string): string {
    if s != [] && SpaceOrTab(s[0]) then TrimLeft(s[1..]) else s
  }

  function TrimRight(s: string): string {
    if s != [] && SpaceOrTab(s[|s| - 1]) then TrimRight(s[..|s| - 1]) else s
  }

  predicate Blank(c: char) {
    c == ' ' || c == '\t' || c == '\n' || c == '\r' || c as int == 11 || c as int == 12
  }

  function SkipBlanks(s: string): (r: string)
    ensures |r| <= |s|
    ensures r == [] || !Blank(r[0])
  {
    if s != [] && Blank(s[0]) then SkipBlanks(s[1..]) else s
  }

  predicate EndsLine(c: char) { c == '\r' || c == '\n' }

  /** The text after `lit`, ignoring case, if it is there. */
  function After(s: string, lit: string): Option<string> {
    if StartsWithIgnoreCase(s, lit) then Some(s[|lit|..]) else None
  }

  /** An extended file name, if any, and blanks to the end of the line. */
  predicate LineTail(t: string) {
    || SkipBlanks(t) == []
    || match After(t, ";")
       case None => false
       case Some(u) =>
         match After(SkipBlanks(u), "filename*=")
         case None => false
         case Some(v) => SkipBlanks(SkipWord(v)) == [] && v != [] && !Blank(v[0])
  }

  function SkipWord(s: string): string {
    if s != [] && !Blank(s[0]) then SkipWord(s[1..]) else s
  }

  /** The shortest file name whose closing quote is followed by a line tail. */
  function MatchFilename(v: string, i: nat): Option<string>
    requires i <= |v|
    decreases |v| - i
  {
    if i == |v| then None
    else if v[i] == '"' && LineTail(v[i + 1..]) then Some(v[..i])
    else if EndsLine(v[i]) then None
    else MatchFilename(v, i + 1)
  }

  /** What may follow the name: a file name, or only a line tail. */
  function MatchAfterName(t: string): Option<string> {
    var quoted :=
      match After(t, ";")
      case None => None
      case Some(u) =>
        match After(SkipBlanks(u), "filename=\"")
        case None => None
        case Some(v) => MatchFilename(v, 0);
    if quoted.Some? then quoted else if LineTail(t) then Some("") else None
  }

  /** The shortest name whose closing quote is followed by what may follow a name. */
  function MatchName(r: string, i: nat): Option<(string, string)>
    requires i <= |r|
    decreases |r| - i
  {
    if i == |r| then None
    else if r[i] == '"' && MatchAfterName(r[i + 1..]).Some? then Some((r[..i], MatchAfterName(r[i + 1..]).value))
    else if EndsLine(r[i]) then None
    else MatchName(r, i + 1)
  }

  /** The regular expression for a Content-Disposition line: the name and file name. */
  function MatchDisposition(h: string): Option<(string, string)> {
    match After(h, "Content-Disposition:")
    case None => None
    case Some(a) => MatchFormData(SkipBlanks(a))
  }

  function MatchFormData(a: string): Option<(string, string)> {
    match After(a, "form-data;")
    case None => None
    case Some(b) => MatchNameField(SkipBlanks(b))
  }

  function MatchNameField(b: string): Option<(string, string)> {
    match After(b, "name=\"")
    case None => None
    case Some(r) => MatchName(r, 0)
  }

  function ReadHeader(h: string, file: FileInfo): FileInfo {
    if StartsWithIgnoreCase(h, "content-type:") then
      file.(contentType := TrimRight(TrimLeft(h[13..])))
    else
      match MatchDisposition(h)
      case Some((name, filename)) => file.(name := name, filename := filename)
      case None => file
  }

  datatype HeaderResult = More(window: string, file: FileInfo) | EndOfHeaders(window: string, file: FileInfo)

  /** Reading header lines up to and including the empty one, or as far as they go. */
  function Headers(w: string, file: FileInfo): (r: HeaderResult)
    ensures |r.window| <= |w|
    ensures r.EndOfHeaders? ==> |r.window| < |w|
    decreases |w|
  {
    var pos := Find(w, CRLF);
    if pos == |w| then More(w, file)
    else if pos == 0 then EndOfHeaders(w[2..], file)
    else Headers(w[pos + 2..], ReadHeader(w[..pos], file))
  }

  // ----- the machine

  /** `epilogue` counts the bytes thrown away after the closing delimiter. */
  datatype Parser = Parser(
    boundary: string, state: nat, window: string, file: FileInfo, valid: bool,
    parts: seq<Part>, epilogue: nat)

  function Fed(p: Parser, bytes: string): Parser { p.(window := p.window + bytes) }

  /** Content bytes handed to the receiver belong to the part announced last. */
  function Delivered(parts: seq<Part>, bytes: string): seq<Part> {
    if parts == [] then parts
    else
      var last := parts[|parts| - 1];
      parts[..|parts| - 1] + [last.(content := last.content + bytes)]
  }

  lemma NothingDelivered(parts: seq<Part>)
    ensures Delivered(parts, "") == parts
  {
    if parts != [] {
      var last := parts[|parts| - 1];
      assert last.content + "" == last.content;
    }
  }

  datatype Turn = Again(p: Parser) | Return(p: Parser) | Fail(p: Parser)

  /** Looking for the opening delimiter: bytes before it are dropped, and so is a part of
      it at the end of the window. */
  function OpeningTurn(p: Parser): (t: Turn)
    ensures t.Again? ==> |t.p.window| < |p.window|
  {
    var w, open := p.window, OpenDelimiter(p.boundary);
    var from := w[Find(w, open)..];
    if |open| > |from| then Return(p.(window := from))
    else if !StartsAt(from, open, 0) then Fail(p.(window := from))
    else Again(p.(window := from[|open|..], state := 1))
  }

  function HeaderTurn(ideal: bool, p: Parser): (t: Turn)
    ensures t.Again? ==> |t.p.window| < |p.window|
  {
    var w := p.window;
    if !ideal && Find(w, CRLF) > HEADER_MAX then Fail(p)
    else
      match Headers(w, p.file)
      case More(rest, file) => Return(p.(window := rest, file := file))
      case EndOfHeaders(rest, file) =>
        Again(p.(window := rest, file := file, state := 3, parts := p.parts + [Part(file, "")]))
  }

  /** Delivering content: up to the delimiter, or all but the last bytes that might begin it. */
  function BodyTurn(p: Parser): (t: Turn)
    ensures t.Again? ==> |t.p.window| < |p.window|
  {
    var w, d := p.window, Delimiter(p.boundary);
    if |d| > |w| then Return(p)
    else
      var pos := Find(w, d);
      if pos < |w| then
        Again(p.(window := w[pos + |d|..], state := 4, parts := Delivered(p.parts, w[..pos])))
      else
        var len := |w| - |d|;
        Return(p.(window := w[len..], parts := Delivered(p.parts, w[..len])))
  }

  lemma WholeWindow(p: Parser)
    ensures p.(window := p.window[0..], parts := Delivered(p.parts, p.window[..0])) == p
  {
    NothingDelivered(p.parts);
    assert p.window[0..] == p.window && p.window[..0] == [];
  }

  function BoundaryTurn(p: Parser): (t: Turn)
    ensures t.Again? ==> |t.p.window| < |p.window|
  {
    var w := p.window;
    if 2 > |w| then Return(p)
    else if StartsAt(w, CRLF, 0) then Again(p.(window := w[2..], state := 1))
    else if 4 > |w| then Return(p)
    else if StartsAt(w, DASH_CRLF, 0) then Again(p.(window := [], valid := true, epilogue := p.epilogue + |w| - 4))
    else Return(p)
  }

  /** One turn of the parsing loop.  An ideal parser has no limit on header lines and
      ignores whatever follows the closing delimiter; the program has the limit and, in
      its last state, goes on reading. */
  function OneTurn(ideal: bool, p: Parser): (t: Turn)
    requires p.window != []
    ensures t.Again? ==> |t.p.window| < |p.window| || (t.p.window == p.window && p.state == 1 && t.p.state == 2)
  {
    if ideal && p.valid then Return(p.(window := [], epilogue := p.epilogue + |p.window|))
    else if p.state == 0 then OpeningTurn(p)
    else if p.state == 1 then Again(p.(file := NO_FILE, state := 2))
    else if p.state == 2 then HeaderTurn(ideal, p)
    else if p.state == 3 then BodyTurn(p)
    else BoundaryTurn(p)
  }

  datatype Parsed = Parsed(p: Parser, ok: bool)

  /** The parsing loop. */
  function Drain(ideal: bool, p: Parser): Parsed
    decreases |p.window|, if p.state == 1 then 1 else 0
  {
    if p.window == [] then Parsed(p, true)
    else
      match OneTurn(ideal, p)
      case Again(q) => Drain(ideal, q)
      case Return(q) => Parsed(q, true)
      case Fail(q) => Parsed(q, false)
  }

  function Begin(boundary: string): Parser {
    Parser(boundary, 0, [], NO_FILE, false, [], 0)
  }

  // ----- the class

  class MultipartParser {
    const boundary: string
    var state: nat
    var isValid: bool
    var file: FileInfo
    var buf: string
    var bufStart: nat
    var bufEnd: nat
    ghost var parts: seq<Part>
    ghost var epilogue: nat

    ghost predicate Valid()
      reads this`buf, this`bufStart, this`bufEnd
    {
      bufStart <= bufEnd <= |buf|
    }

    function Window(): (w: string)
      requires Valid()
      ensures |w| == bufEnd - bufStart
      reads this`buf, this`bufStart, this`bufEnd
    {
      buf[bufStart..bufEnd]
    }

    ghost function Value(): Parser
      requires Valid()
      reads this
    {
      Parser(boundary, state, Window(), file, isValid, parts, epilogue)
    }

    constructor (boundary: string)
      ensures Valid() && Value() == Begin(boundary)
    {
      this.boundary := boundary;
      state, isValid, file := 0, false, NO_FILE;
      buf, bufStart, bufEnd := [], 0, 0;
      parts, epilogue := [], 0;
    }

    /** Moves the unread bytes to the front of the buffer and puts the new ones after them. */
    method BufAppend(data: string)
      requires Valid()
      modifies this`buf, this`bufStart, this`bufEnd
      ensures Valid() && Window() == old(Window()) + data
    {
      ghost var w := Window();
      var remaining := bufEnd - bufStart;
      if remaining > 0 && bufStart > 0 {
        ShiftDown(remaining);
      }
      assert forall k :: 0 <= k < remaining ==> buf[k] == w[k];
      hide Window;
      bufStart := 0;
      bufEnd := remaining;
      if remaining + |data| > |buf| {
        buf := buf + seq(remaining + |data| - |buf|, _ => '\0');
      }
      FillBuffer(data, w);
      bufEnd := bufEnd + |data|;
      WindowIs(w, data);
    }

    lemma WindowIs(w: string, data: string)
      requires Valid() && bufStart == 0 && bufEnd == |w| + |data|
      requires forall k :: 0 <= k < |w| ==> buf[k] == w[k]
      requires forall k :: 0 <= k < |data| ==> buf[|w| + k] == data[k]
      ensures Window() == w + data
    {
    }

    /** Moves the unread bytes to the front of the buffer. */
    method ShiftDown(remaining: nat)
      requires Valid() && remaining == bufEnd - bufStart && bufStart > 0
      modifies this`buf
      ensures Valid() && forall k :: 0 <= k < remaining ==> buf[k] == old(Window())[k]
    {
      ghost var w := Window();
      var i := 0;
      while i < remaining
        invariant 0 <= i <= remaining && |buf| == old(|buf|)
        invariant forall k :: 0 <= k < i ==> buf[k] == w[k]
        invariant forall k :: bufStart + i <= k < bufEnd ==> buf[k] == w[k - bufStart]
      {
        buf := buf[i := buf[bufStart + i]];
        i := i + 1;
      }
    }

    /** Copies the new bytes behind the kept ones. */
    method FillBuffer(data: string, ghost w: string)
      requires bufStart == 0 && bufEnd == |w| && |w| + |data| <= |buf|
      requires forall k :: 0 <= k < |w| ==> buf[k] == w[k]
      modifies this`buf
      ensures |buf| == old(|buf|)
      ensures forall k :: 0 <= k < |w| ==> buf[k] == w[k]
      ensures forall k :: 0 <= k < |data| ==> buf[|w| + k] == data[k]
    {
      var i := 0;
      while i < |data|
        invariant 0 <= i <= |data| && |buf| == old(|buf|)
        invariant forall k :: 0 <= k < |w| ==> buf[k] == w[k]
        invariant forall k :: |w| <= k < |w| + i ==> buf[k] == data[k - |w|]
      {
        buf := buf[bufEnd + i := data[i]];
        i := i + 1;
      }
    }

    method BufFind(s: string) returns (pos: nat)
      requires Valid() && s != []
      ensures pos == Find(Window(), s)
    {
      hide Find;
      var c := s[0];
      var off := bufStart;
      while off < bufEnd
        invariant bufStart <= off <= bufEnd
        invariant forall k :: 0 <= k < off - bufStart ==> !StartsAt(Window(), s, k)
        decreases bufEnd - off
      {
        var p := off;
        while p != bufEnd && buf[p] != c
          invariant off <= p <= bufEnd
          invariant forall k :: 0 <= k < p - bufStart ==> !StartsAt(Window(), s, k)
          decreases bufEnd - p
        {
          if StartsAt(Window(), s, p - bufStart) {
            ByteOfOccurrence(Window(), s, p - bufStart, p - bufStart);
          }
          p := p + 1;
        }
        if p == bufEnd {
          NotFound(Window(), s);
          return bufEnd - bufStart;
        }
        var remaining := bufEnd - p;
        if |s| > remaining {
          forall k | 0 <= k < bufEnd - bufStart
            ensures !StartsAt(Window(), s, k)
          {
          }
          NotFound(Window(), s);
          return bufEnd - bufStart;
        }
        var here := StartWith(p, s);
        if here {
          FindIs(Window(), s, p - bufStart);
          return p - bufStart;
        }
        off := p + 1;
      }
      NotFound(Window(), s);
      return bufEnd - bufStart;
    }

    method StartWith(spos: nat, b: string) returns (yes: bool)
      requires Valid() && bufStart <= spos <= bufEnd
      ensures yes == StartsAt(Window(), b, spos - bufStart)
    {
      if bufEnd - spos < |b| {
        return false;
      }
      var i := 0;
      while i < |b|
        invariant 0 <= i <= |b|
        invariant buf[spos..spos + i] == b[..i]
      {
        if buf[i + spos] != b[i] {
          assert Window()[spos - bufStart + i] == buf[spos + i];
          return false;
        }
        assert buf[spos..spos + i + 1] == buf[spos..spos + i] + [b[i]];
        assert b[..i + 1] == b[..i] + [b[i]];
        i := i + 1;
      }
      ghost var at := spos - bufStart;
      assert Window()[at..at + |b|] == buf[spos..spos + |b|];
      return true;
    }

    method BufHead(l: nat) returns (head: string)
      requires Valid() && l <= bufEnd - bufStart
      ensures l <= |Window()| && head == Window()[..l]
    {
      head := buf[bufStart..bufStart + l];
    }

    method BufErase(size: nat)
      requires Valid() && bufStart + size <= bufEnd
      modifies this`bufStart
      ensures Valid() && size <= |old(Window())| && Window() == old(Window())[size..]
    {
      bufStart := bufStart + size;
    }

    /** How a turn of the loop ends: go round again, or return true or false. */
    ghost function Ending(flow: Flow): Turn
      requires Valid()
      reads this
    {
      match flow
      case GoOn => Again(Value())
      case ReturnTrue => Return(Value())
      case ReturnFalse => Fail(Value())
    }

    method InitialBoundary() returns (flow: Flow)
      requires Valid() && Window() != [] && state == 0
      modifies this
      ensures Valid() && Ending(flow) == OpeningTurn(old(Value()))
    {
      hide OpenDelimiter, Find, StartsAt, Window;
      ghost var p := Value();
      var open := OpenDelimiter(boundary);
      DropUpTo(open);
      assert Value() == p.(window := p.window[Find(p.window, open)..]);
      if |open| > bufEnd - bufStart {
        return ReturnTrue;
      }
      var here := TakeOpening(open);
      return if here then GoOn else ReturnFalse;
    }

    /** Consumes the opening delimiter if the window begins with it. */
    method TakeOpening(open: string) returns (here: bool)
      requires Valid() && |open| <= bufEnd - bufStart
      modifies this
      ensures Valid() && here == StartsAt(old(Window()), open, 0)
      ensures Value() == if here then old(Value()).(window := old(Window())[|open|..], state := 1) else old(Value())
    {
      hide StartsAt, Window;
      here := StartWith(bufStart, open);
      if here {
        state := 1;
        BufErase(|open|);
      }
    }

    method DropUpTo(s: string)
      requires Valid() && s != []
      modifies this`bufStart
      ensures Valid() && Window() == old(Window())[Find(old(Window()), s)..]
    {
      var pos := BufFind(s);
      BufErase(pos);
    }

    method NewEntry() returns (flow: Flow)
      requires Valid() && Window() != [] && state == 1
      modifies this
      ensures Valid() && Ending(flow) == OneTurn(false, old(Value()))
    {
      file := NO_FILE;
      state := 2;
      return GoOn;
    }

    method HeaderLines() returns (flow: Flow)
      requires Valid() && Window() != [] && state == 2
      modifies this
      ensures Valid() && Ending(flow) == HeaderTurn(false, old(Value()))
    {
      hide Find, ReadHeader, StartsAt, Headers;
      var pos := BufFind(CRLF);
      if pos > HEADER_MAX {
        return ReturnFalse;
      }
      var complete := ReadLines(pos);
      if complete {
        parts := parts + [Part(file, "")];
        state := 3;
        return GoOn;
      }
      return ReturnTrue;
    }

    /** The inner loop over header lines; `first` is the end of the first one. */
    method ReadLines(first: nat) returns (complete: bool)
      requires Valid() && first == Find(Window(), CRLF)
      modifies this`file, this`bufStart
      ensures Valid()
      ensures Headers(old(Window()), old(file))
              == if complete then EndOfHeaders(Window(), file) else More(Window(), file)
    {
      hide Find, ReadHeader, StartsAt, Window;
      var pos := first;
      ghost var all := Headers(Window(), file);
      while pos < bufEnd - bufStart
        invariant Valid() && pos == Find(Window(), CRLF) && Headers(Window(), file) == all
        decreases bufEnd - bufStart
      {
        if pos == 0 {
          BufErase(2);
          return true;
        }
        var header := BufHead(pos);
        file := ReadHeader(header, file);
        BufErase(pos + 2);
        pos := BufFind(CRLF);
      }
      return false;
    }

    method Body() returns (flow: Flow)
      requires Valid() && Window() != [] && state == 3
      modifies this
      ensures Valid() && Ending(flow) == BodyTurn(old(Value()))
    {
      hide Delimiter, Find, Delivered, Window;
      ghost var p := Value();
      var d := Delimiter(boundary);
      if |d| > bufEnd - bufStart {
        return ReturnTrue;
      }
      var pos := BufFind(d);
      if pos < bufEnd - bufStart {
        Deliver(pos);
        BufErase(pos + |d|);
        state := 4;
        return GoOn;
      }
      var len := bufEnd - bufStart - |d|;
      if len > 0 {
        Deliver(len);
        BufErase(len);
      } else {
        WholeWindow(p);
      }
      return ReturnTrue;
    }

    /** Hands the first bytes of the window to the receiver. */
    method Deliver(len: nat)
      requires Valid() && len <= bufEnd - bufStart
      modifies this`parts
      ensures Valid() && |Window()| == bufEnd - bufStart && parts == Delivered(old(parts), Window()[..len])
    {
      parts := Delivered(parts, Window()[..len]);
    }

    method Boundary() returns (flow: Flow)
      requires Valid() && Window() != [] && state >= 4
      modifies this
      ensures Valid() && Ending(flow) == BoundaryTurn(old(Value()))
    {
      hide StartsAt;
      if 2 > bufEnd - bufStart {
        return ReturnTrue;
      }
      var next := StartWith(bufStart, CRLF);
      if next {
        BufErase(2);
        state := 1;
        return GoOn;
      }
      if 4 > bufEnd - bufStart {
        return ReturnTrue;
      }
      var closing := StartWith(bufStart, DASH_CRLF);
      if closing {
        epilogue := epilogue + |Window()| - 4;
        BufErase(4);
        isValid := true;
        BufErase(bufEnd - bufStart);
        return GoOn;
      }
      return ReturnTrue;
    }

    /** The parsing loop over the buffered bytes and one more chunk. */
    method Parse(data: string) returns (ok: bool)
      requires Valid()
      modifies this
      ensures Valid() && Parsed(Value(), ok) == Drain(false, Fed(old(Value()), data))
    {
      hide OpeningTurn, HeaderTurn, BodyTurn, BoundaryTurn;
      BufAppend(data);
      ghost var all := Drain(false, Value());
      assert Value() == Fed(old(Value()), data);
      while bufEnd - bufStart > 0
        invariant Valid() && Drain(false, Value()) == all
        decreases bufEnd - bufStart, if state == 1 then 1 else 0
      {
        ghost var before := Value();
        var flow: Flow;
        if state == 0 {
          flow := InitialBoundary();
        } else if state == 1 {
          flow := NewEntry();
        } else if state == 2 {
          flow := HeaderLines();
        } else if state == 3 {
          flow := Body();
        } else {
          flow := Boundary();
        }
        if flow == ReturnTrue {
          return true;
        }
        if flow == ReturnFalse {
          return false;
        }
        assert OneTurn(false, before) == Again(Value());
      }
      return true;
    }
  }

  datatype Flow = GoOn | ReturnTrue | ReturnFalse
}
