/** The serializer of multipart forms, and the round trip through the parser. */
module MultipartForm {
  import opened ByteSearch
  import opened Wrappers
  import opened Multipart
  import opened MultipartLaws
  import opened MultipartCuts

  // ----- boundaries

  predicate BoundaryChar(c: char) {
    'a' <= c <= 'z' || 'A' <= c <= 'Z' || '0' <= c <= '9' || c == '-' || c == '_'
  }

  predicate BoundaryOk(boundary: string) {
    forall i :: 0 <= i < |boundary| ==> BoundaryChar(boundary[i])
  }

  method IsBoundaryCharsValid(boundary: string) returns (valid: bool)
    ensures valid == BoundaryOk(boundary)
  {
    valid := true;
    var i := 0;
    while i < |boundary|
      invariant 0 <= i <= |boundary| && valid
      invariant forall k :: 0 <= k < i ==> BoundaryChar(boundary[k])
    {
      if !BoundaryChar(boundary[i]) {
        valid := false;
        break;
      }
      i := i + 1;
    }
  }

  lemma IsSmall(c: char)
    requires c in "abcdefghijklmnopqrstuvwxyz"
    ensures 'a' <= c <= 'z'
  {
  }

  lemma SmallIs(c: char)
    requires 'a' <= c <= 'z'
    ensures c in "abcdefghijklmnopqrstuvwxyz"
  {
    assert "abcdefghijklmnopqrstuvwxyz"[c as int - 97] == c;
  }

  lemma IsCapital(c: char)
    requires c in "ABCDEFGHIJKLMNOPQRSTUVWXYZ"
    ensures 'A' <= c <= 'Z'
  {
  }

  lemma CapitalIs(c: char)
    requires 'A' <= c <= 'Z'
    ensures c in "ABCDEFGHIJKLMNOPQRSTUVWXYZ"
  {
    assert "ABCDEFGHIJKLMNOPQRSTUVWXYZ"[c as int - 65] == c;
  }

  predicate Listed(c: char) {
    || c in "abcdefghijklmnopqrstuvwxyz" || c in "ABCDEFGHIJKLMNOPQRSTUVWXYZ" || c in "0123456789" || c in "-_"
  }

  lemma DecimalDigits(c: char)
    ensures '0' <= c <= '9' <==> c in "0123456789"
  {
    if '0' <= c <= '9' {
      assert "0123456789"[c as int - 48] == c;
    }
  }

  lemma BoundaryCharIsListed(c: char)
    requires BoundaryChar(c)
    ensures Listed(c)
  {
    if 'a' <= c <= 'z' {
      SmallIs(c);
    } else if 'A' <= c <= 'Z' {
      CapitalIs(c);
    } else if '0' <= c <= '9' {
      DecimalDigits(c);
    }
  }

  lemma ListedIsBoundaryChar(c: char)
    requires Listed(c)
    ensures BoundaryChar(c)
  {
    if c in "abcdefghijklmnopqrstuvwxyz" {
      IsSmall(c);
    } else if c in "ABCDEFGHIJKLMNOPQRSTUVWXYZ" {
      IsCapital(c);
    } else if c in "0123456789" {
      DecimalDigits(c);
    }
  }

  /** A boundary is accepted if and only if all its characters are in the alphabet listed. */
  lemma BoundaryAlphabet(boundary: string)
    ensures BoundaryOk(boundary) <==> forall c <- boundary :: Listed(c)
  {
    hide BoundaryChar, Listed;
    if BoundaryOk(boundary) {
      forall c | c in boundary
        ensures Listed(c)
      {
        BoundaryCharIsListed(c);
      }
    }
    if forall c <- boundary :: Listed(c) {
      forall i | 0 <= i < |boundary|
        ensures BoundaryChar(boundary[i])
      {
        ListedIsBoundaryChar(boundary[i]);
      }
    }
  }

  // ----- serializing

  function DispositionLine(f: FileInfo): string {
    "Content-Disposition: form-data; name=\"" + f.name + "\""
    + if f.filename != "" then "; filename=\"" + f.filename + "\"" else ""
  }

  function TypeLine(f: FileInfo): string { "Content-Type: " + f.contentType }

  /** The header lines, the empty line and the content of one item. */
  function ItemText(it: Part): string {
    DispositionLine(it.file) + CRLF
    + (if it.file.contentType != "" then TypeLine(it.file) + CRLF else "")
    + CRLF + it.content
  }

  /** What follows a boundary: the remaining items, each after its own line end, or the close. */
  function Tail(items: seq<Part>, boundary: string): string {
    if items == [] then DASH_CRLF
    else CRLF + ItemText(items[0]) + Delimiter(boundary) + Tail(items[1..], boundary)
  }

  function Form(items: seq<Part>, boundary: string): string {
    "--" + boundary + Tail(items, boundary)
  }

  lemma ItemIsWritten(it: Part)
    ensures
      var f := it.file;
      ItemText(it) ==
        "Content-Disposition: form-data; name=\"" + f.name + "\""
        + (if f.filename != "" then "; filename=\"" + f.filename + "\"" else "") + "\r\n"
        + (if f.contentType != "" then "Content-Type: " + f.contentType + "\r\n" else "")
        + "\r\n" + it.content
  {
  }

  /** The form as it is sent: for every item a delimiter line, its header lines, an empty line and its
      content, and then the closing delimiter. */
  lemma FormIsWritten(items: seq<Part>, boundary: string)
    ensures Form([], boundary) == "--" + boundary + "--\r\n"
    ensures items != [] ==>
      Form(items, boundary) ==
        "--" + boundary + "\r\n" + ItemText(items[0]) + "\r\n" + Form(items[1..], boundary)
  {
    hide ItemText;
    if items != [] {
      var text, tail := ItemText(items[0]), Tail(items[1..], boundary);
      assert Delimiter(boundary) == "\r\n" + ("--" + boundary);
      assert "--" + boundary + ("\r\n" + text + ("\r\n" + ("--" + boundary)) + tail)
          == "--" + boundary + "\r\n" + text + "\r\n" + ("--" + boundary + tail);
    }
  }

  method Serialize(items: seq<Part>, boundary: string) returns (body: string, contentType: string)
    ensures body == Form(items, boundary)
    ensures contentType == "multipart/form-data; boundary=" + boundary
  {
    body := "";
    var i := 0;
    assert items[0..] == items;
    while i < |items|
      invariant 0 <= i <= |items|
      invariant body + ("--" + boundary + Tail(items[i..], boundary)) == Form(items, boundary)
    {
      ghost var before := body;
      var text := SerializeItem(items[i], boundary);
      body := body + text;
      assert items[i..][1..] == items[i + 1..];
      ItemStep(before, items[i], boundary, Tail(items[i + 1..], boundary));
      i := i + 1;
    }
    assert items[|items|..] == [];
    body := body + "--" + boundary + "--\r\n";
    contentType := "multipart/form-data; boundary=" + boundary;
  }

  lemma ItemStep(before: string, it: Part, boundary: string, rest: string)
    ensures before + ("--" + boundary + (CRLF + ItemText(it) + Delimiter(boundary) + rest))
            == before + ("--" + boundary + CRLF + ItemText(it) + CRLF) + ("--" + boundary + rest)
  {
    hide ItemText;
  }

  method SerializeItem(item: Part, boundary: string) returns (body: string)
    ensures body == "--" + boundary + CRLF + ItemText(item) + CRLF
  {
    body := "--" + boundary + "\r\n";
    ghost var head := body;
    body := body + "Content-Disposition: form-data; name=\"" + item.file.name + "\"";
    if item.file.filename != "" {
      body := body + "; filename=\"" + item.file.filename + "\"";
    }
    assert body == head + DispositionLine(item.file);
    hide DispositionLine;
    body := body + "\r\n";
    ghost var disposition := DispositionLine(item.file) + CRLF;
    assert body == head + disposition;
    if item.file.contentType != "" {
      body := body + "Content-Type: " + item.file.contentType + "\r\n";
    }
    ghost var types := if item.file.contentType != "" then TypeLine(item.file) + CRLF else "";
    assert body == head + disposition + types;
    body := body + "\r\n";
    body := body + item.content + "\r\n";
    assert body == head + disposition + types + CRLF + item.content + CRLF;
    assert ItemText(item) == disposition + types + CRLF + item.content;
    Regrouped(head, disposition, types, CRLF, item.content);
  }

  lemma Regrouped(a: string, b: string, c: string, d: string, e: string)
    ensures a + b + c + d + e == a + (b + c + d + e)
  {
  }

  // ----- what the round trip asks of an item

  predicate OneLine(s: string) { forall i :: 0 <= i < |s| ==> !EndsLine(s[i]) }

  predicate Quotable(s: string) { OneLine(s) && '"' !in s }

  predicate Trimmed(s: string) {
    s != "" ==> !SpaceOrTab(s[0]) && !SpaceOrTab(s[|s| - 1])
  }

  /** Header values in the form the header lines can carry. */
  predicate HeaderOk(it: Part) {
    && Quotable(it.file.name) && Quotable(it.file.filename)
    && OneLine(it.file.contentType) && Trimmed(it.file.contentType)
  }

  /** A content in which the delimiter does not occur. */
  predicate Clean(it: Part, boundary: string) { Find(it.content, Delimiter(boundary)) == |it.content| }

  predicate ItemOk(it: Part, boundary: string) { HeaderOk(it) && Clean(it, boundary) }

  predicate AllHeadersOk(items: seq<Part>) { forall it <- items :: HeaderOk(it) }

  predicate AllClean(items: seq<Part>, boundary: string) { forall it <- items :: Clean(it, boundary) }

  /** The first header line is within the limit. */
  predicate ItemFits(it: Part) { |DispositionLine(it.file)| <= HEADER_MAX }

  /** Both header lines are under the limit. */
  predicate ItemShort(it: Part) {
    && |DispositionLine(it.file)| < HEADER_MAX
    && (it.file.contentType != "" ==> |TypeLine(it.file)| < HEADER_MAX)
  }

  predicate AllFit(items: seq<Part>) { forall it <- items :: ItemFits(it) }

  predicate AllShort(items: seq<Part>) { forall it <- items :: ItemShort(it) }

  lemma AllCons(items: seq<Part>)
    requires items != []
    ensures AllFit(items) <==> ItemFits(items[0]) && AllFit(items[1..])
    ensures AllShort(items) <==> ItemShort(items[0]) && AllShort(items[1..])
  {
    hide ItemFits, ItemShort;
    assert items == [items[0]] + items[1..];
  }

  // ----- header lines read back

  lemma AfterLiteral(lit: string, rest: string)
    ensures After(lit + rest, lit) == Some(rest)
  {
    assert (lit + rest)[|lit|..] == rest;
  }

  lemma NoTail(t: string)
    requires t == ""
    ensures LineTail(t) && MatchAfterName(t) == Some("")
  {
  }

  lemma {:induction false} FilenameRead(f: string, i: nat)
    requires Quotable(f) && i <= |f|
    ensures MatchFilename(f + "\"", i) == Some(f)
    decreases |f| - i
  {
    var v := f + "\"";
    if i < |f| {
      assert v[i] == f[i];
      FilenameRead(f, i + 1);
    } else {
      assert v[i + 1..] == "" && v[..i] == f;
      NoTail("");
    }
  }

  lemma FilenamePart(f: string)
    requires Quotable(f)
    ensures MatchAfterName("; filename=\"" + f + "\"") == Some(f)
  {
    var t := "; filename=\"" + f + "\"";
    assert t == ";" + (" filename=\"" + (f + "\""));
    AfterLiteral(";", " filename=\"" + (f + "\""));
    SkipOneBlank("filename=\"" + (f + "\""));
    assert " filename=\"" + (f + "\"") == " " + ("filename=\"" + (f + "\""));
    AfterLiteral("filename=\"", f + "\"");
    FilenameRead(f, 0);
  }

  lemma SkipOneBlank(s: string)
    requires s != [] && !Blank(s[0])
    ensures SkipBlanks(" " + s) == s
  {
    assert (" " + s)[1..] == s;
  }

  lemma {:induction false} NameRead(name: string, t: string, i: nat)
    requires Quotable(name) && i <= |name| && MatchAfterName(t).Some?
    ensures MatchName(name + "\"" + t, i) == Some((name, MatchAfterName(t).value))
    decreases |name| - i
  {
    hide MatchAfterName;
    var r := name + "\"" + t;
    if i < |name| {
      assert r[i] == name[i];
      NameRead(name, t, i + 1);
    } else {
      assert r[i] == '"' && r[i + 1..] == t && r[..i] == name;
    }
  }

  lemma DispositionRead(f: FileInfo)
    requires Quotable(f.name) && Quotable(f.filename)
    ensures MatchDisposition(DispositionLine(f)) == Some((f.name, f.filename))
  {
    var t := if f.filename != "" then "; filename=\"" + f.filename + "\"" else "";
    if f.filename != "" { FilenamePart(f.filename); } else { NoTail(t); }
    NameRead(f.name, t, 0);
    hide MatchName, MatchAfterName, Quotable;
    var r := f.name + "\"" + t;
    NameFieldRead(r);
    var b := "name=\"" + r;
    FormDataRead(b);
    var a := "form-data;" + (" " + b);
    DispositionShape(f, t);
    hide MatchFormData, MatchNameField, After, SkipBlanks, DispositionLine;
    AfterLiteral("Content-Disposition:", " " + a);
    SkipOneBlank(a);
  }

  lemma DispositionShape(f: FileInfo, t: string)
    requires t == if f.filename != "" then "; filename=\"" + f.filename + "\"" else ""
    ensures DispositionLine(f)
            == "Content-Disposition:" + (" " + ("form-data;" + (" " + ("name=\"" + (f.name + "\"" + t)))))
  {
    var lit := "Content-Disposition: form-data; name=\"";
    LiteralShape();
    Nested("Content-Disposition:", " ", "form-data;", " ", "name=\"", f.name + "\"" + t);
    Joined(lit, f.name, "\"", t);
  }

  lemma LiteralShape()
    ensures "Content-Disposition: form-data; name=\"" == "Content-Disposition:" + " " + "form-data;" + " " + "name=\""
  {
  }

  lemma Nested(a: string, b: string, c: string, d: string, e: string, r: string)
    ensures a + b + c + d + e + r == a + (b + (c + (d + (e + r))))
  {
  }

  lemma Joined(a: string, b: string, c: string, d: string)
    ensures a + b + c + d == a + (b + c + d)
  {
  }

  lemma NameFieldRead(r: string)
    ensures MatchNameField("name=\"" + r) == MatchName(r, 0)
  {
    hide MatchName;
    AfterLiteral("name=\"", r);
  }

  lemma FormDataRead(b: string)
    requires b != [] && !Blank(b[0])
    ensures MatchFormData("form-data;" + (" " + b)) == MatchNameField(b)
  {
    hide MatchNameField, After;
    AfterLiteral("form-data;", " " + b);
    SkipOneBlank(b);
  }

  lemma DispositionHeader(f: FileInfo, g: FileInfo)
    requires Quotable(f.name) && Quotable(f.filename)
    ensures ReadHeader(DispositionLine(f), g) == g.(name := f.name, filename := f.filename)
  {
    DispositionRead(f);
    hide MatchDisposition;
    var h := DispositionLine(f);
    assert h[8] == 'D' && "content-type:"[8] == 't';
    assert Lower(h[8]) != Lower("content-type:"[8]);
  }

  lemma TypePrefix(rest: string)
    ensures StartsWithIgnoreCase("Content-Type:" + rest, "content-type:")
  {
    var a, b := "Content-Type:", "content-type:";
    assert Lower('C') == 'c' && Lower('T') == 't';
    assert forall i :: 0 <= i < 13 ==> Lower(a[i]) == Lower(b[i]);
    assert forall i :: 0 <= i < 13 ==> (a + rest)[i] == a[i];
  }

  lemma TrimKeeps(ct: string)
    requires Trimmed(ct) && ct != ""
    ensures TrimRight(TrimLeft(" " + ct)) == ct
  {
    assert (" " + ct)[1..] == ct;
    assert TrimLeft(" " + ct) == TrimLeft(ct);
  }

  lemma TypeHeader(f: FileInfo, g: FileInfo)
    requires Trimmed(f.contentType) && f.contentType != ""
    ensures ReadHeader(TypeLine(f), g) == g.(contentType := f.contentType)
  {
    var ct := f.contentType;
    TypePrefix(" " + ct);
    TrimKeeps(ct);
    hide StartsWithIgnoreCase, TrimLeft, TrimRight;
    assert TypeLine(f) == "Content-Type:" + (" " + ct);
    assert TypeLine(f)[13..] == " " + ct;
  }

  // ----- items read back

  lemma FirstCr(w: string, n: nat)
    requires n + 2 <= |w| && w[n..n + 2] == CRLF && forall i :: 0 <= i < n ==> w[i] != '\r'
    ensures Find(w, CRLF) == n
  {
    forall k | 0 <= k < n
      ensures !StartsAt(w, CRLF, k)
    {
      if StartsAt(w, CRLF, k) {
        ByteOfOccurrence(w, CRLF, k, k);
      }
    }
    FindIs(w, CRLF, n);
  }

  lemma LineThenRest(h: string, rest: string, file: FileInfo)
    requires h != "" && OneLine(h)
    ensures Headers(h + CRLF + rest, file) == Headers(rest, ReadHeader(h, file))
    ensures LinesShort(h + CRLF + rest) <==> |h| < HEADER_MAX && LinesShort(rest)
    ensures Find(h + CRLF + rest, CRLF) == |h|
  {
    hide ReadHeader, Find;
    var w := h + CRLF + rest;
    assert w[|h|..|h| + 2] == CRLF;
    assert forall i :: 0 <= i < |h| ==> w[i] == h[i];
    FirstCr(w, |h|);
    assert w[|h| + 2..] == rest && w[..|h|] == h;
  }

  lemma EmptyLineThenRest(rest: string, file: FileInfo)
    ensures Headers(CRLF + rest, file) == EndOfHeaders(rest, file)
    ensures LinesShort(CRLF + rest)
  {
    hide Find;
    var w := CRLF + rest;
    assert w[0..2] == CRLF;
    FirstCr(w, 0);
    assert w[2..] == rest;
  }

  lemma DispositionIsOneLine(f: FileInfo)
    requires Quotable(f.name) && Quotable(f.filename)
    ensures OneLine(DispositionLine(f)) && DispositionLine(f) != ""
  {
    JoinedIsOneLine("Content-Disposition: form-data; name=\"", f.name);
    JoinedIsOneLine("Content-Disposition: form-data; name=\"" + f.name, "\"");
    JoinedIsOneLine("; filename=\"", f.filename);
    JoinedIsOneLine("; filename=\"" + f.filename, "\"");
    hide OneLine;
    var a := "Content-Disposition: form-data; name=\"" + f.name + "\"";
    if f.filename != "" {
      JoinedIsOneLine(a, "; filename=\"" + f.filename + "\"");
    } else {
      assert a + "" == a;
    }
  }

  lemma JoinedIsOneLine(a: string, b: string)
    requires OneLine(a) && OneLine(b)
    ensures OneLine(a + b)
  {
  }

  lemma ItemTextShape(it: Part, rest: string)
    ensures it.file.contentType == "" ==>
      ItemText(it) + rest == DispositionLine(it.file) + CRLF + (CRLF + (it.content + rest))
    ensures it.file.contentType != "" ==>
      ItemText(it) + rest == DispositionLine(it.file) + CRLF + (TypeLine(it.file) + CRLF + (CRLF + (it.content + rest)))
  {
    hide DispositionLine, TypeLine;
  }

  lemma ItemHeaders(it: Part, rest: string)
    requires HeaderOk(it)
    ensures Headers(ItemText(it) + rest, NO_FILE) == EndOfHeaders(it.content + rest, it.file)
    ensures LinesShort(ItemText(it) + rest) <==> ItemShort(it)
    ensures Find(ItemText(it) + rest, CRLF) <= HEADER_MAX <==> ItemFits(it)
  {
    var f := it.file;
    var g := NO_FILE.(name := f.name, filename := f.filename);
    var tail := it.content + rest;
    DispositionIsOneLine(f);
    DispositionHeader(f, NO_FILE);
    EmptyLineThenRest(tail, f);
    ItemTextShape(it, rest);
    if f.contentType != "" {
      TypeLines(f, CRLF + tail);
    }
    hide DispositionLine, TypeLine, Headers, LinesShort, ReadHeader, ItemText, Find;
    if f.contentType == "" {
      LineThenRest(DispositionLine(f), CRLF + tail, NO_FILE);
    } else {
      LineThenRest(DispositionLine(f), TypeLine(f) + CRLF + (CRLF + tail), NO_FILE);
    }
  }

  lemma TypeLines(f: FileInfo, rest: string)
    requires OneLine(f.contentType) && Trimmed(f.contentType) && f.contentType != ""
    requires LinesShort(rest)
    ensures
      var g := NO_FILE.(name := f.name, filename := f.filename);
      Headers(TypeLine(f) + CRLF + rest, g) == Headers(rest, f)
    ensures LinesShort(TypeLine(f) + CRLF + rest) <==> |TypeLine(f)| < HEADER_MAX
  {
    var g := NO_FILE.(name := f.name, filename := f.filename);
    TypeHeader(f, g);
    JoinedIsOneLine("Content-Type: ", f.contentType);
    hide Headers, LinesShort, ReadHeader;
    LineThenRest(TypeLine(f), rest, g);
  }

  /** The delimiter cannot overlap itself: CR occurs only at its start. */
  lemma DelimiterHasOneCr(boundary: string)
    requires BoundaryOk(boundary)
    ensures Delimiter(boundary)[0] == '\r'
    ensures forall k :: 1 <= k < |Delimiter(boundary)| ==> Delimiter(boundary)[k] != '\r'
  {
    var d := Delimiter(boundary);
    assert d == "\r\n--" + boundary;
    assert forall k :: 4 <= k < |d| ==> d[k] == boundary[k - 4];
  }

  lemma DeliveredToNew(parts: seq<Part>, file: FileInfo, content: string)
    ensures Delivered(parts + [Part(file, "")], content) == parts + [Part(file, content)]
  {
    var all := parts + [Part(file, "")];
    assert all[..|all| - 1] == parts;
    assert "" + content == content;
  }

  function AfterItem(p: Parser, it: Part, rest: string): Parser {
    p.(state := 4, window := rest, file := it.file, parts := p.parts + [it])
  }

  /** The parser in the content of an item. */
  function InContent(p: Parser, it: Part, rest: string): Parser {
    p.(state := 3, window := it.content + (Delimiter(p.boundary) + rest), file := it.file,
       parts := p.parts + [Part(it.file, "")])
  }

  lemma HeadersParse(p: Parser, it: Part, rest: string)
    requires p.state == 2 && !p.valid && p.file == NO_FILE && HeaderOk(it)
    requires p.window == ItemText(it) + (Delimiter(p.boundary) + rest)
    ensures p.window != [] && OneTurn(true, p) == Again(InContent(p, it, rest))
    ensures LinesShort(p.window) <==> ItemShort(it)
    ensures Find(p.window, CRLF) <= HEADER_MAX <==> ItemFits(it)
  {
    ItemHeaders(it, Delimiter(p.boundary) + rest);
    hide Headers, ItemText, HeaderOk, ItemShort, ItemFits, LinesShort, Delimiter, Find;
  }

  /** From a new entry, an item and the delimiter after it are read as one part. */
  lemma ItemParses(p: Parser, it: Part, rest: string)
    requires p.state == 1 && !p.valid && BoundaryOk(p.boundary) && ItemOk(it, p.boundary)
    requires p.window == ItemText(it) + (Delimiter(p.boundary) + rest)
    ensures Drain(true, p) == Drain(true, AfterItem(p, it, rest))
    ensures HeadersShort(p) <==> ItemShort(it) && HeadersShort(AfterItem(p, it, rest))
    ensures FirstLinesShort(p) <==> ItemFits(it) && FirstLinesShort(AfterItem(p, it, rest))
  {
    var p2 := p.(state := 2, file := NO_FILE);
    var p3 := InContent(p2, it, rest);
    var p4 := AfterItem(p, it, rest);
    assert p.window != [] ==> OneTurn(true, p) == Again(p2);
    HeadersParse(p2, it, rest);
    ContentParses(p3, it, rest, p.parts);
    assert p3.window != [] by { assert |Delimiter(p.boundary)| >= 4; }
    hide OneTurn, ItemText, ItemOk, ItemShort, ItemFits, LinesShort, Delimiter, BoundaryOk, Find;
    ThreeTurns(p, p2, p3, p4);
  }

  lemma ThreeTurns(p: Parser, p2: Parser, p3: Parser, p4: Parser)
    requires p.state == 1 && p2.state == 2 && p3.state == 3 && !p.valid && !p2.valid && !p3.valid
    requires p.window != [] && p2.window != [] && p3.window != []
    requires OneTurn(true, p) == Again(p2) && OneTurn(true, p2) == Again(p3) && OneTurn(true, p3) == Again(p4)
    ensures Drain(true, p) == Drain(true, p4)
    ensures HeadersShort(p) <==> LinesShort(p2.window) && HeadersShort(p4)
    ensures FirstLinesShort(p) <==> Find(p2.window, CRLF) <= HEADER_MAX && FirstLinesShort(p4)
  {
    hide OneTurn, LinesShort, Find;
    assert Drain(true, p) == Drain(true, p2) == Drain(true, p3);
    assert HeadersShort(p) == HeadersShort(p2) && HeadersShort(p3) == HeadersShort(p4);
    assert FirstLinesShort(p) == FirstLinesShort(p2) && FirstLinesShort(p3) == FirstLinesShort(p4);
  }

  lemma ContentParses(p: Parser, it: Part, rest: string, before: seq<Part>)
    requires p.state == 3 && !p.valid && BoundaryOk(p.boundary) && ItemOk(it, p.boundary) && p.file == it.file
    requires p.window == it.content + (Delimiter(p.boundary) + rest)
    requires p.parts == before + [Part(it.file, "")]
    ensures OneTurn(true, p) == Again(p.(state := 4, window := rest, parts := before + [it]))
  {
    var d := Delimiter(p.boundary);
    DelimiterHasOneCr(p.boundary);
    FindAfterText(it.content, d, rest);
    assert it.content + d + rest == p.window;
    DeliveredToNew(before, it.file, it.content);
    hide Find, Delimiter, Delivered, BoundaryOk;
    var i := |it.content|;
    assert p.window[..i] == it.content;
    assert p.window[i + |d|..] == rest;
  }

  /** After a delimiter, the remaining items and the close are read to the end. */
  lemma {:induction false} TailParses(p: Parser, items: seq<Part>)
    requires p.state == 4 && !p.valid && BoundaryOk(p.boundary) && p.window == Tail(items, p.boundary)
    requires forall i :: 0 <= i < |items| ==> ItemOk(items[i], p.boundary)
    ensures HeadersShort(p) <==> AllShort(items)
    ensures FirstLinesShort(p) <==> AllFit(items)
    ensures
      var r := Drain(true, p);
      r.ok && r.p.valid && r.p.window == [] && r.p.parts == p.parts + items && r.p.epilogue == p.epilogue
    decreases |items|
  {
    hide ItemText, ItemOk, ItemShort, ItemFits, Delimiter, BoundaryOk, OneTurn;
    if items != [] {
      AllCons(items);
      hide AllShort, AllFit;
    }
    if items == [] {
      ClosingParses(p);
      assert p.parts + items == p.parts;
    } else {
      var it, rest := items[0], Tail(items[1..], p.boundary);
      var text := ItemText(it) + (Delimiter(p.boundary) + rest);
      assert p.window == CRLF + text;
      var q := p.(state := 1, window := text);
      NextPart(p, text);
      ItemParses(q, it, rest);
      var s := AfterItem(q, it, rest);
      TailParses(s, items[1..]);
      HeadAndTail(p.parts, items);
    }
  }

  lemma HeadAndTail(before: seq<Part>, items: seq<Part>)
    requires items != []
    ensures before + [items[0]] + items[1..] == before + items
  {
  }

  lemma ClosingParses(p: Parser)
    requires p.state == 4 && !p.valid && p.window == DASH_CRLF
    ensures HeadersShort(p) && FirstLinesShort(p)
    ensures Drain(true, p) == Parsed(p.(window := [], valid := true), true)
  {
    assert p.window[0..4] == DASH_CRLF && p.window[0] == '-';
    var q := p.(window := [], valid := true);
    assert OneTurn(true, p) == Again(q);
    hide OneTurn;
  }

  lemma NextPart(p: Parser, text: string)
    requires p.state == 4 && !p.valid && p.window == CRLF + text
    ensures p.window != [] && OneTurn(true, p) == Again(p.(state := 1, window := text))
  {
    assert p.window[0..2] == CRLF;
    assert p.window[2..] == text;
  }

  // ----- the round trip

  lemma FormOpens(items: seq<Part>, boundary: string)
    requires items != []
    ensures
      var open := OpenDelimiter(boundary);
      && Form(items, boundary) == open + (ItemText(items[0]) + (Delimiter(boundary) + Tail(items[1..], boundary)))
      && Find(Form(items, boundary), open) == 0
  {
    hide ItemText, Delimiter;
    var open := OpenDelimiter(boundary);
    var text, tail := ItemText(items[0]), Delimiter(boundary) + Tail(items[1..], boundary);
    var rest := text + tail;
    OpeningShape(boundary, text, Delimiter(boundary), Tail(items[1..], boundary));
    assert (open + rest)[0..|open|] == open;
    FindIs(open + rest, open, 0);
  }

  lemma OpeningShape(boundary: string, a: string, b: string, c: string)
    ensures "--" + boundary + (CRLF + a + b + c) == "--" + boundary + CRLF + (a + (b + c))
  {
  }

  /** The parser of a form once its opening delimiter has been read. */
  function Opened(boundary: string, window: string): Parser {
    Begin(boundary).(state := 1, window := window)
  }

  lemma OpenedForm(items: seq<Part>, boundary: string)
    requires items != [] && BoundaryOk(boundary)
    requires forall i :: 0 <= i < |items| ==> ItemOk(items[i], boundary)
    ensures
      var open, form := OpenDelimiter(boundary), Form(items, boundary);
      && Find(form, open) == 0 && |open| < |form|
      && var p := Opened(boundary, form[|open|..]);
         var r := Drain(true, p);
         && r.ok && r.p.valid && r.p.parts == items && r.p.epilogue == 0
         && (HeadersShort(p) <==> AllShort(items))
         && (FirstLinesShort(p) <==> AllFit(items))
  {
    hide *;
    FormOpens(items, boundary);
    var open, form := OpenDelimiter(boundary), Form(items, boundary);
    var text := ItemText(items[0]) + (Delimiter(boundary) + Tail(items[1..], boundary));
    AfterOpen(open, text);
    TextIsNotEmpty(boundary, items[0], Tail(items[1..], boundary));
    OpenedText(items, boundary, text);
  }

  lemma AfterOpen(open: string, text: string)
    ensures (open + text)[|open|..] == text
  {
  }

  lemma TextIsNotEmpty(boundary: string, it: Part, rest: string)
    ensures |ItemText(it) + (Delimiter(boundary) + rest)| > 0
  {
    hide ItemText;
  }

  lemma OpenedText(items: seq<Part>, boundary: string, text: string)
    requires items != [] && BoundaryOk(boundary)
    requires forall i :: 0 <= i < |items| ==> ItemOk(items[i], boundary)
    requires text == ItemText(items[0]) + (Delimiter(boundary) + Tail(items[1..], boundary))
    ensures
      var p := Opened(boundary, text);
      var r := Drain(true, p);
      && r.ok && r.p.valid && r.p.parts == items && r.p.epilogue == 0
      && (HeadersShort(p) <==> AllShort(items))
      && (FirstLinesShort(p) <==> AllFit(items))
  {
    hide ItemText, ItemOk, ItemShort, ItemFits, AllShort, AllFit, Delimiter, BoundaryOk, Drain, HeadersShort,
         FirstLinesShort;
    AllCons(items);
    var p, rest := Opened(boundary, text), Tail(items[1..], boundary);
    ItemParses(p, items[0], rest);
    TailParses(AfterItem(p, items[0], rest), items[1..]);
    HeadAndTail([], items);
    assert [] + items == items;
  }

  lemma CleanRoundTrip(items: seq<Part>, boundary: string)
    requires BoundaryOk(boundary) && forall i :: 0 <= i < |items| ==> ItemOk(items[i], boundary)
    ensures
      var r := Drain(false, Fed(Begin(boundary), Form(items, boundary)));
      && (r.ok <==> AllFit(items))
      && (r.ok ==> r.p.parts == items && (r.p.valid <==> items != []))
  {
    assert items == [] ==> AllFit(items);
    hide ItemOk, AllFit, AllShort, Form, Drain, OpenDelimiter, Find;
    var form := Form(items, boundary);
    OpeningNeedsOneChunk(boundary, form);
    if items != [] {
      OpenedForm(items, boundary);
      OnePieceIsExact(Opened(boundary, form[|OpenDelimiter(boundary)|..]));
    } else {
      EmptyForm(boundary);
    }
  }

  // ----- a content that holds the delimiter

  /** These parts are settled: content is delivered to later ones only. */
  ghost predicate Settled(p: Parser, ps: seq<Part>) { ps <= p.parts && (p.state == 3 ==> |ps| < |p.parts|) }

  lemma TurnKeepsSettled(p: Parser, ps: seq<Part>)
    requires Settled(p, ps) && p.window != []
    ensures Settled(OneTurn(true, p).p, ps)
  {
    hide Headers, Find;
  }

  lemma {:induction false} StaysSettled(p: Parser, ps: seq<Part>)
    requires Settled(p, ps)
    ensures ps <= Drain(true, p).p.parts
    decreases |p.window|, if p.state == 1 then 1 else 0
  {
    if p.window != [] {
      TurnKeepsSettled(p, ps);
      var t := OneTurn(true, p);
      assert ps <= t.p.parts;
      hide OneTurn, Settled;
      if t.Again? {
        StaysSettled(t.p, ps);
      }
    }
  }

  /** The content of the item before the first delimiter in it. */
  function CutOff(it: Part, boundary: string): Part {
    it.(content := it.content[..Find(it.content, Delimiter(boundary))])
  }

  lemma DirtyContent(p: Parser, it: Part, rest: string, before: seq<Part>)
    requires p.state == 3 && !p.valid && p.file == it.file && !Clean(it, p.boundary)
    requires p.window == it.content + (Delimiter(p.boundary) + rest) && p.parts == before + [Part(it.file, "")]
    ensures p.window != [] && OneTurn(true, p).Again?
    ensures
      var t := OneTurn(true, p).p;
      t.state == 4 && t.parts == before + [CutOff(it, p.boundary)]
  {
    var d, more := Delimiter(p.boundary), Delimiter(p.boundary) + rest;
    var i := Find(it.content, d);
    FindAppend(it.content, more, d);
    DeliveredToNew(before, it.file, it.content[..i]);
    hide Find, Delimiter, Delivered;
    assert p.window[..i] == it.content[..i];
  }

  /** An item whose content holds the delimiter loses the rest of it. */
  lemma DirtyItem(p: Parser, it: Part, rest: string)
    requires p.state == 1 && !p.valid && HeaderOk(it) && !Clean(it, p.boundary)
    requires p.window == ItemText(it) + (Delimiter(p.boundary) + rest)
    ensures p.parts + [CutOff(it, p.boundary)] <= Drain(true, p).p.parts
  {
    var p2 := p.(state := 2, file := NO_FILE);
    var p3 := InContent(p2, it, rest);
    HeadersParse(p2, it, rest);
    DirtyContent(p3, it, rest, p.parts);
    var t := OneTurn(true, p3).p;
    assert OneTurn(true, p) == Again(p2);
    hide OneTurn, ItemText, HeaderOk, Clean, CutOff, Delimiter, Find;
    assert Drain(true, p) == Drain(true, p2) == Drain(true, p3) == Drain(true, t);
    StaysSettled(t, p.parts + [CutOff(it, p.boundary)]);
  }

  lemma CutOffDiffers(before: seq<Part>, it: Part, boundary: string, parts: seq<Part>, more: seq<Part>)
    requires !Clean(it, boundary) && before + [CutOff(it, boundary)] <= parts
    ensures parts != before + ([it] + more)
  {
    var i := Find(it.content, Delimiter(boundary));
    assert (before + [CutOff(it, boundary)])[|before|] == CutOff(it, boundary);
    assert parts[|before|] == CutOff(it, boundary);
    assert |it.content[..i]| == i < |it.content|;
    assert (before + ([it] + more))[|before|] == it;
  }

  lemma AllCleanCons(items: seq<Part>, boundary: string)
    requires items != []
    ensures AllClean(items, boundary) <==> Clean(items[0], boundary) && AllClean(items[1..], boundary)
    ensures AllHeadersOk(items) <==> HeaderOk(items[0]) && AllHeadersOk(items[1..])
  {
    hide Clean, HeaderOk;
    assert items == [items[0]] + items[1..];
  }

  /** From an item on: if a content holds the delimiter, the items do not come back. */
  lemma {:induction false} DirtyItems(p: Parser, items: seq<Part>)
    requires p.state == 1 && !p.valid && BoundaryOk(p.boundary) && items != [] && AllHeadersOk(items)
    requires p.window == ItemText(items[0]) + (Delimiter(p.boundary) + Tail(items[1..], p.boundary))
    requires !AllClean(items, p.boundary)
    ensures Drain(true, p).p.parts != p.parts + items
    decreases |items|
  {
    hide *;
    var it, more, rest := items[0], items[1..], Tail(items[1..], p.boundary);
    AllCleanCons(items, p.boundary);
    assert items == [it] + more;
    if !Clean(it, p.boundary) {
      DirtyItem(p, it, rest);
      CutOffDiffers(p.parts, it, p.boundary, Drain(true, p).p.parts, more);
    } else {
      NothingIsClean(more, p.boundary);
      var q := ItemThenNext(p, it, more);
      DirtyItems(q, more);
      assert p.parts + [it] + more == p.parts + ([it] + more);
    }
  }

  lemma NothingIsClean(items: seq<Part>, boundary: string)
    ensures items == [] ==> AllClean(items, boundary)
  {
  }

  /** An item that is read back, and the parser at the next one. */
  lemma ItemThenNext(p: Parser, it: Part, more: seq<Part>) returns (q: Parser)
    requires p.state == 1 && !p.valid && BoundaryOk(p.boundary) && HeaderOk(it) && Clean(it, p.boundary) && more != []
    requires p.window == ItemText(it) + (Delimiter(p.boundary) + Tail(more, p.boundary))
    ensures q.state == 1 && !q.valid && q.boundary == p.boundary && q.parts == p.parts + [it]
    ensures q.window == ItemText(more[0]) + (Delimiter(p.boundary) + Tail(more[1..], p.boundary))
    ensures Drain(true, p) == Drain(true, q)
  {
    hide ItemText, HeaderOk, Clean, Delimiter, BoundaryOk, OneTurn;
    var rest := Tail(more, p.boundary);
    var text := ItemText(more[0]) + (Delimiter(p.boundary) + Tail(more[1..], p.boundary));
    assert rest == CRLF + text;
    ItemParses(p, it, rest);
    var s := AfterItem(p, it, rest);
    NextPart(s, text);
    q := s.(state := 1, window := text);
  }

  lemma OpenedDirty(items: seq<Part>, boundary: string)
    requires items != [] && BoundaryOk(boundary) && AllHeadersOk(items) && !AllClean(items, boundary)
    ensures
      var open, form := OpenDelimiter(boundary), Form(items, boundary);
      && Find(form, open) == 0 && |open| < |form|
      && var r := Drain(false, Opened(boundary, form[|open|..]));
         !(r.ok && r.p.parts == items)
  {
    hide *;
    FormOpens(items, boundary);
    var open := OpenDelimiter(boundary);
    var text := ItemText(items[0]) + (Delimiter(boundary) + Tail(items[1..], boundary));
    AfterOpen(open, text);
    TextIsNotEmpty(boundary, items[0], Tail(items[1..], boundary));
    var p := Opened(boundary, text);
    DirtyText(items, boundary, text);
  }

  lemma DirtyText(items: seq<Part>, boundary: string, text: string)
    requires items != [] && BoundaryOk(boundary) && AllHeadersOk(items) && !AllClean(items, boundary)
    requires text == ItemText(items[0]) + (Delimiter(boundary) + Tail(items[1..], boundary))
    ensures
      var r := Drain(false, Opened(boundary, text));
      !(r.ok && r.p.parts == items)
  {
    hide ItemText, Delimiter, Tail, BoundaryOk, AllHeadersOk, AllClean, Drain;
    var p := Opened(boundary, text);
    DirtyItems(p, items);
    RefusedOrIdeal(p);
    assert [] + items == items;
  }

  /** Round trip in one piece, for header values the header lines can carry: a serialized form is accepted
      and gives the same parts in order if and only if the first header line of every item is within the
      limit and no content holds the delimiter; it is then valid exactly when it has an item. */
  lemma FormRoundTrip(items: seq<Part>, boundary: string)
    requires BoundaryOk(boundary) && AllHeadersOk(items)
    ensures
      var r := Drain(false, Fed(Begin(boundary), Form(items, boundary)));
      && (r.ok && r.p.parts == items <==> AllFit(items) && AllClean(items, boundary))
      && (r.ok && r.p.parts == items ==> (r.p.valid <==> items != []))
      && (AllClean(items, boundary) ==> (r.ok <==> AllFit(items)))
  {
    if AllClean(items, boundary) {
      assert forall i :: 0 <= i < |items| ==> ItemOk(items[i], boundary);
      hide *;
      CleanRoundTrip(items, boundary);
    } else {
      assert items != [];
      hide *;
      OpeningNeedsOneChunk(boundary, Form(items, boundary));
      OpenedDirty(items, boundary);
      OpenedIs(boundary, Form(items, boundary)[|OpenDelimiter(boundary)|..]);
    }
  }

  lemma OpenedIs(boundary: string, window: string)
    ensures Opened(boundary, window) == Begin(boundary).(state := 1, window := window)
  {
  }

  lemma EmptyForm(boundary: string)
    requires BoundaryOk(boundary)
    ensures
      var r := Drain(false, Fed(Begin(boundary), Form([], boundary)));
      r.ok && r.p.parts == [] && !r.p.valid
  {
    var form, open := Form([], boundary), OpenDelimiter(boundary);
    OpeningNeedsOneChunk(boundary, form);
    var i := Find(form, open);
    if i < |form| {
      var k := i + |open| - 2;
      ByteOfOccurrence(form, open, i, k);
      assert open[|open| - 2] == '\r';
      OnlyCrOfEmptyForm(boundary, k);
      assert form[i + |open|..] == [];
    }
  }

  lemma OnlyCrOfEmptyForm(boundary: string, k: nat)
    requires BoundaryOk(boundary) && k < |Form([], boundary)| && Form([], boundary)[k] == '\r'
    ensures k == |Form([], boundary)| - 2
  {
    var form := Form([], boundary);
    assert form == "--" + boundary + "--\r\n";
    assert forall j :: 2 <= j < 2 + |boundary| ==> form[j] == boundary[j - 2];
  }

  lemma {:induction false} FirstChunkOpens(boundary: string, first: string, rest: seq<string>)
    requires |OpenDelimiter(boundary)| <= |first| && Find(first, OpenDelimiter(boundary)) == 0
    ensures ParseChunks(false, Begin(boundary), [first] + rest)
            == ParseChunks(false, Opened(boundary, first[|OpenDelimiter(boundary)|..]), rest)
    decreases |rest|
  {
    hide Drain, OpenDelimiter, Find;
    var chunks := [first] + rest;
    if rest == [] {
      assert chunks == [first] && chunks[..0] == [];
      NothingToDo(Begin(boundary));
      OpeningNeedsOneChunk(boundary, first);
    } else {
      assert chunks[..|chunks| - 1] == [first] + rest[..|rest| - 1];
      FirstChunkOpens(boundary, first, rest[..|rest| - 1]);
    }
  }

  /** A cutting of the form that leaves its opening delimiter whole in the first chunk. */
  predicate Cuts(first: string, rest: seq<string>, items: seq<Part>, boundary: string) {
    first + Concat(rest) == Form(items, boundary) && |OpenDelimiter(boundary)| <= |first|
  }

  /** The chunks are accepted and give the items back. */
  ghost predicate GivesBack(first: string, rest: seq<string>, items: seq<Part>, boundary: string) {
    var r := ParseChunks(false, Begin(boundary), [first] + rest);
    r.ok && r.p.valid && r.p.parts == items
  }

  /** After the opening delimiter, the chunks are a cutting of the rest of the form. */
  lemma CutAfterOpening(first: string, rest: seq<string>, items: seq<Part>, boundary: string)
    requires items != [] && Cuts(first, rest, items, boundary)
    ensures
      var open, form := OpenDelimiter(boundary), Form(items, boundary);
      && |open| <= |form|
      && var p := Opened(boundary, first[|open|..]);
         && ParseChunks(false, Begin(boundary), [first] + rest) == ParseChunks(false, p, rest)
         && Fed(p, Concat(rest)) == Opened(boundary, form[|open|..])
  {
    hide Form, Drain, OpenDelimiter, ParseChunks, Concat, Find;
    FormOpens(items, boundary);
    var open, form := OpenDelimiter(boundary), Form(items, boundary);
    OpeningInFirst(open, first, Concat(rest));
    FirstChunkOpens(boundary, first, rest);
  }

  lemma OpeningInFirst(open: string, first: string, more: string)
    requires open != [] && |open| <= |first| && Find(first + more, open) == 0
    ensures Find(first, open) == 0
    ensures (first + more)[|open|..] == first[|open|..] + more
  {
    StartsAtAppend(first, more, open, 0);
    FindIs(first, open, 0);
  }

  lemma ShortFormGivesBack(items: seq<Part>, boundary: string, first: string, rest: seq<string>)
    requires items != [] && BoundaryOk(boundary) && Cuts(first, rest, items, boundary)
    requires AllShort(items) && forall i :: 0 <= i < |items| ==> ItemOk(items[i], boundary)
    ensures GivesBack(first, rest, items, boundary)
  {
    hide ItemOk, AllShort, AllFit, Form, Drain, OpenDelimiter, BoundaryOk, HeadersShort, ParseChunks;
    CutAfterOpening(first, rest, items, boundary);
    OpenedForm(items, boundary);
    ChunkIndependence(Opened(boundary, first[|OpenDelimiter(boundary)|..]), rest);
  }

  lemma LongFormIsRefused(items: seq<Part>, boundary: string) returns (first: string, rest: seq<string>)
    requires items != [] && BoundaryOk(boundary)
    requires forall i :: 0 <= i < |items| ==> ItemOk(items[i], boundary)
    requires !AllShort(items)
    ensures Cuts(first, rest, items, boundary) && !GivesBack(first, rest, items, boundary)
  {
    hide ItemOk, AllShort, AllFit, Drain, OpenDelimiter, BoundaryOk, HeadersShort, ParseChunks, Concat, Find;
    OpenedForm(items, boundary);
    var open, form := OpenDelimiter(boundary), Form(items, boundary);
    var s := form[|open|..];
    var p := Opened(boundary, "");
    assert Fed(p, s) == Opened(boundary, s);
    rest := LongLinesRefused(p, s);
    first := open;
    FormOpens(items, boundary);
    hide Form;
    assert first + Concat(rest) == form;
    CutAfterOpening(first, rest, items, boundary);
    assert first[|open|..] == "";
  }

  lemma DirtyFormIsLost(items: seq<Part>, boundary: string)
    requires items != [] && BoundaryOk(boundary) && AllHeadersOk(items) && !AllClean(items, boundary)
    ensures Cuts(Form(items, boundary), [], items, boundary) && !GivesBack(Form(items, boundary), [], items, boundary)
  {
    hide AllHeadersOk, AllClean, BoundaryOk, Form, OpenDelimiter, Drain, Find;
    OpenedDirty(items, boundary);
    var form := Form(items, boundary);
    assert form + "" == form;
    CutAfterOpening(form, [], items, boundary);
  }

  /** For header values the header lines can carry, the round trip survives every cutting that leaves the
      opening delimiter in the first chunk if and only if all header lines are under the limit and no
      content holds the delimiter. */
  lemma FormRoundTripInChunks(items: seq<Part>, boundary: string)
    requires items != [] && BoundaryOk(boundary) && AllHeadersOk(items)
    ensures
      (forall first, rest | Cuts(first, rest, items, boundary) :: GivesBack(first, rest, items, boundary))
      <==> AllShort(items) && AllClean(items, boundary)
  {
    if !AllClean(items, boundary) {
      hide *;
      DirtyFormIsLost(items, boundary);
    } else {
      assert forall i :: 0 <= i < |items| ==> ItemOk(items[i], boundary);
      hide *;
      if AllShort(items) {
        forall first, rest | Cuts(first, rest, items, boundary)
          ensures GivesBack(first, rest, items, boundary)
        {
          ShortFormGivesBack(items, boundary, first, rest);
        }
      } else {
        var first, rest := LongFormIsRefused(items, boundary);
      }
    }
  }
}
