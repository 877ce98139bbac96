/** What a block of header lines announces, by a grammar of the two lines that matter. */
module HeaderBlocks {
  import opened ByteSearch
  import opened Multipart
  import opened Wrappers

  function Capital(k: nat): char
    requires k < 26
  {
    "ABCDEFGHIJKLMNOPQRSTUVWXYZ"[k]
  }

  function Small(k: nat): char
    requires k < 26
  {
    "abcdefghijklmnopqrstuvwxyz"[k]
  }

  /** The same character, or the same letter in the other case. */
  ghost predicate SameLetter(a: char, b: char) {
    a == b || exists k: nat :: k < 26 && ((a == Capital(k) && b == Small(k)) || (a == Small(k) && b == Capital(k)))
  }

  ghost predicate Spelled(s: string, word: string) {
    |s| == |word| && forall i :: 0 <= i < |s| ==> SameLetter(s[i], word[i])
  }

  predicate IsBlank(c: char) { c in " \t\n\r" || c as int == 11 || c as int == 12 }

  predicate AllBlank(s: string) { forall c <- s :: IsBlank(c) }

  predicate OnOneLine(s: string) { '\r' !in s && '\n' !in s }

  // ----- the disposition line

  /** Blanks to the end of the line, or an extended file name and then blanks. */
  ghost predicate IsLineTail(t: string) {
    AllBlank(t) || exists b, k, w, b' :: IsExtended(t, b, k, w, b')
  }

  ghost predicate IsExtended(t: string, b: string, k: string, w: string, b': string) {
    && t == ";" + (b + (k + (w + b'))) && AllBlank(b) && Spelled(k, "filename*=")
    && w != "" && (forall c <- w :: !IsBlank(c)) && AllBlank(b')
  }

  /** A quoted text and what stands behind it. */
  ghost predicate IsQuoted(v: string, text: string, behind: string) {
    v == text + ("\"" + behind) && OnOneLine(text)
  }

  ghost predicate IsFileName(v: string, f: string) { exists t :: IsQuoted(v, f, t) && IsLineTail(t) }

  /** A file name field, up to its opening quote. */
  ghost predicate HasFileField(t: string, v: string) {
    exists b, k :: IsFileField(t, b, k, v)
  }

  ghost predicate IsFileField(t: string, b: string, k: string, v: string) {
    t == ";" + (b + (k + v)) && AllBlank(b) && Spelled(k, "filename=\"")
  }

  ghost predicate NamesFile(t: string, f: string) { exists v :: HasFileField(t, v) && IsFileName(v, f) }

  /** What may stand behind the name. */
  ghost predicate IsNameTail(t: string) { IsLineTail(t) || exists f :: NamesFile(t, f) }

  ghost predicate IsName(v: string, n: string) { exists t :: IsQuoted(v, n, t) && IsNameTail(t) }

  /** A disposition line, up to the opening quote of the name. */
  ghost predicate HasNameField(h: string, v: string) {
    exists k, b, k', b', k'' :: IsNameField(h, k, b, k', b', k'', v)
  }

  ghost predicate IsNameField(h: string, k: string, b: string, k': string, b': string, k'': string, v: string) {
    && h == k + (b + (k' + (b' + (k'' + v)))) && AllBlank(b) && AllBlank(b')
    && Spelled(k, "Content-Disposition:") && Spelled(k', "form-data;") && Spelled(k'', "name=\"")
  }

  ghost predicate IsDisposition(h: string) { exists v, n :: HasNameField(h, v) && IsName(v, n) }

  ghost predicate Shortest(s: string, all: iset<string>) { s in all && forall t <- all :: |s| <= |t| }

  /** The line says name n and file name f: the shortest name, and for it a file name rather than none,
      and the shortest. */
  ghost predicate SaysDisposition(h: string, n: string, f: string) {
    exists v, t ::
      && HasNameField(h, v) && IsQuoted(v, n, t) && Shortest(n, iset m | IsName(v, m))
      && FileNameOf(t, f)
  }

  ghost predicate FileNameOf(t: string, f: string) {
    if exists g :: NamesFile(t, g) then Shortest(f, iset g | NamesFile(t, g)) else f == "" && IsLineTail(t)
  }

  // ----- the type line

  ghost predicate SaysType(h: string, v: string) {
    exists k, l, r :: IsType(h, k, l, v, r)
  }

  ghost predicate IsType(h: string, k: string, l: string, v: string, r: string) {
    && h == k + (l + (v + r)) && Spelled(k, "content-type:")
    && (forall c <- l :: c in " \t") && (forall c <- r :: c in " \t")
    && (v != "" ==> v[0] !in " \t" && v[|v| - 1] !in " \t")
  }

  ghost predicate IsTypeLine(h: string) { exists v :: SaysType(h, v) }

  // ----- characters and words

  lemma Capitals(k: nat)
    requires k < 26
    ensures Capital(k) == 'A' + k as char
  {
  }

  lemma Smalls(k: nat)
    requires k < 26
    ensures Small(k) == 'a' + k as char
  {
  }

  lemma SameLetterMeans(a: char, b: char)
    ensures SameLetter(a, b) <==> Lower(a) == Lower(b)
  {
    hide Capital, Small;
    if Lower(a) == Lower(b) && a != b {
      var k := if 'A' <= a <= 'Z' then a as int - 65 else b as int - 65;
      Capitals(k);
      Smalls(k);
    }
    if k: nat :| k < 26 && ((a == Capital(k) && b == Small(k)) || (a == Small(k) && b == Capital(k))) {
      Capitals(k);
      Smalls(k);
    }
  }

  lemma SpelledMeans(s: string, word: string)
    ensures Spelled(s, word) <==> |s| == |word| && StartsWithIgnoreCase(s, word)
  {
    hide SameLetter, Lower;
    forall i | 0 <= i < |s| && |s| == |word|
      ensures SameLetter(s[i], word[i]) <==> Lower(s[i]) == Lower(word[i])
    {
      SameLetterMeans(s[i], word[i]);
    }
  }

  lemma AfterIs(k: string, word: string, u: string)
    requires Spelled(k, word)
    ensures |k| == |word| && After(k + u, word) == Some(u)
  {
    SpelledMeans(k, word);
    assert (k + u)[|word|..] == u;
    assert forall i :: 0 <= i < |k| ==> (k + u)[i] == k[i];
  }

  lemma AfterOf(s: string, word: string) returns (k: string)
    requires After(s, word).Some?
    ensures Spelled(k, word) && s == k + After(s, word).value
  {
    k := s[..|word|];
    SpelledMeans(k, word);
  }

  /** A word spelled begins with a letter, not with a blank. */
  lemma SpelledStart(k: string, word: string, u: string)
    requires Spelled(k, word) && word != "" && 'a' <= Lower(word[0]) <= 'z'
    ensures k + u != "" && !Blank((k + u)[0])
  {
    SpelledMeans(k, word);
    assert Lower(k[0]) == Lower(word[0]);
  }

  lemma {:induction false} SkipBlanksIs(b: string, u: string)
    requires AllBlank(b) && (u == "" || !Blank(u[0]))
    ensures SkipBlanks(b + u) == u
  {
    if b == "" {
      assert b + u == u;
    } else {
      assert b[0] in b && (b + u)[1..] == b[1..] + u;
      SkipBlanksIs(b[1..], u);
    }
  }

  lemma {:induction false} SkipBlanksOf(s: string) returns (b: string)
    ensures s == b + SkipBlanks(s) && AllBlank(b)
  {
    b := "";
    if s != "" && Blank(s[0]) {
      var more := SkipBlanksOf(s[1..]);
      b := [s[0]] + more;
      assert s == [s[0]] + s[1..];
    }
  }

  lemma {:induction false} SkipWordIs(w: string, u: string)
    requires (forall c <- w :: !IsBlank(c)) && (u == "" || Blank(u[0]))
    ensures SkipWord(w + u) == u
  {
    if w == "" {
      assert w + u == u;
    } else {
      assert w[0] in w && (w + u)[1..] == w[1..] + u;
      SkipWordIs(w[1..], u);
    }
  }

  lemma {:induction false} SkipWordOf(s: string) returns (w: string)
    ensures s == w + SkipWord(s) && forall c <- w :: !IsBlank(c)
    ensures s != "" && !Blank(s[0]) ==> w != ""
  {
    w := "";
    if s != "" && !Blank(s[0]) {
      var more := SkipWordOf(s[1..]);
      w := [s[0]] + more;
      assert s == [s[0]] + s[1..];
    }
  }

  lemma SkippedAll(s: string)
    ensures SkipBlanks(s) == [] <==> AllBlank(s)
  {
    var b := SkipBlanksOf(s);
    if SkipBlanks(s) == [] {
      assert s == b;
    }
    if AllBlank(s) {
      SkipBlanksIs(s, "");
      assert s + "" == s;
    }
  }

  // ----- tails

  lemma ExtendedReads(t: string, b: string, k: string, w: string, b': string)
    requires IsExtended(t, b, k, w, b')
    ensures LineTail(t)
  {
    var v := w + b';
    Semicolon(b + (k + v));
    SpelledStart(k, "filename*=", v);
    SkipBlanksIs(b, k + v);
    AfterIs(k, "filename*=", v);
    assert v[0] == w[0] && w[0] in w;
    assert b' != "" ==> b'[0] in b';
    SkipWordIs(w, b');
    SkippedAll(b');
    hide After, SkipBlanks, SkipWord, Spelled;
  }

  lemma Semicolon(u: string)
    ensures After(";" + u, ";") == Some(u)
  {
    SameLetterMeans(';', ';');
    AfterIs(";", ";", u);
  }

  lemma SemicolonOf(t: string)
    requires After(t, ";").Some?
    ensures t == ";" + After(t, ";").value
  {
    assert Lower(t[0]) == Lower(';');
    assert t[0] == ';';
    assert t == [t[0]] + t[1..];
  }

  lemma LineTailMeans(t: string)
    ensures LineTail(t) <==> IsLineTail(t)
  {
    hide Spelled;
    SkippedAll(t);
    if LineTail(t) && !AllBlank(t) {
      var u := After(t, ";").value;
      SemicolonOf(t);
      var b := SkipBlanksOf(u);
      var k := AfterOf(SkipBlanks(u), "filename*=");
      var v := After(SkipBlanks(u), "filename*=").value;
      var w := SkipWordOf(v);
      SkippedAll(SkipWord(v));
      assert IsExtended(t, b, k, w, SkipWord(v));
    }
    if b, k, w, b' :| IsExtended(t, b, k, w, b') {
      ExtendedReads(t, b, k, w, b');
    }
  }

  /** The quoted text that ends at i. */
  lemma QuotedAt(v: string, i: nat)
    requires i < |v| && v[i] == '"' && forall j :: 0 <= j < i ==> !EndsLine(v[j])
    ensures IsQuoted(v, v[..i], v[i + 1..])
  {
    assert v == v[..i] + ([v[i]] + v[i + 1..]);
  }

  lemma QuotedIs(v: string, text: string, behind: string)
    requires IsQuoted(v, text, behind)
    ensures |text| < |v| && v[|text|] == '"' && text == v[..|text|] && behind == v[|text| + 1..]
    ensures forall j :: 0 <= j < |text| ==> !EndsLine(v[j])
  {
    assert v[..|text|] == text;
    assert forall j :: 0 <= j < |text| ==> v[j] == text[j] && text[j] in text;
  }

  lemma FileNameMeans(v: string, f: string)
    ensures IsFileName(v, f) <==>
            && |f| < |v| && v[|f|] == '"' && f == v[..|f|] && LineTail(v[|f| + 1..])
            && forall j :: 0 <= j < |f| ==> !EndsLine(v[j])
  {
    hide IsLineTail, LineTail, IsQuoted;
    if t :| IsQuoted(v, f, t) && IsLineTail(t) {
      QuotedIs(v, f, t);
      LineTailMeans(t);
    }
    if && |f| < |v| && v[|f|] == '"' && f == v[..|f|] && LineTail(v[|f| + 1..])
       && forall j :: 0 <= j < |f| ==> !EndsLine(v[j])
    {
      QuotedAt(v, |f|);
      LineTailMeans(v[|f| + 1..]);
    }
  }

  lemma {:induction false} FilenameScan(v: string, i: nat)
    requires i <= |v| && forall f :: IsFileName(v, f) ==> |f| >= i
    requires forall j :: 0 <= j < i ==> !EndsLine(v[j])
    ensures match MatchFilename(v, i)
            case Some(f) => Shortest(f, iset g | IsFileName(v, g))
            case None => forall f :: !IsFileName(v, f)
    decreases |v| - i
  {
    hide IsFileName, LineTail, EndsLine;
    forall f
      ensures IsFileName(v, f) ==> |f| < |v| && f == v[..|f|]
    {
      FileNameMeans(v, f);
    }
    if i < |v| {
      FileNameMeans(v, v[..i]);
      if v[i] == '"' && LineTail(v[i + 1..]) {
        assert IsFileName(v, v[..i]);
      } else if EndsLine(v[i]) {
        forall f
          ensures !IsFileName(v, f)
        {
          FileNameMeans(v, f);
        }
      } else {
        FilenameScan(v, i + 1);
      }
    }
  }

  lemma FileFieldReads(t: string, b: string, k: string, v: string)
    requires IsFileField(t, b, k, v)
    ensures After(t, ";") == Some(b + (k + v)) && SkipBlanks(b + (k + v)) == k + v
    ensures After(k + v, "filename=\"") == Some(v)
  {
    Semicolon(b + (k + v));
    SpelledStart(k, "filename=\"", v);
    SkipBlanksIs(b, k + v);
    AfterIs(k, "filename=\"", v);
  }

  function FileField(t: string): Option<string> {
    match After(t, ";")
    case None => None
    case Some(u) => After(SkipBlanks(u), "filename=\"")
  }

  lemma FileFieldMeans(t: string, v: string)
    ensures HasFileField(t, v) <==> FileField(t) == Some(v)
  {
    hide Spelled;
    if b, k :| IsFileField(t, b, k, v) {
      FileFieldReads(t, b, k, v);
    }
    if FileField(t) == Some(v) {
      SemicolonOf(t);
      var u := After(t, ";").value;
      var b := SkipBlanksOf(u);
      var k := AfterOf(SkipBlanks(u), "filename=\"");
      assert IsFileField(t, b, k, v);
    }
  }

  lemma AfterNameMeans(t: string)
    ensures match MatchAfterName(t)
            case Some(f) => IsNameTail(t) && FileNameOf(t, f)
            case None => !IsNameTail(t)
  {
    hide IsFileName, HasFileField, LineTail, IsLineTail, After, SkipBlanks, MatchFilename;
    LineTailMeans(t);
    if FileField(t).Some? {
      var v := FileField(t).value;
      FilenameScan(v, 0);
      FileFieldMeans(t, v);
    }
    NamesFileMeans(t);
  }

  lemma NamesFileMeans(t: string)
    ensures FileField(t) == None ==> forall f :: !NamesFile(t, f)
    ensures FileField(t).Some? ==> forall f :: NamesFile(t, f) <==> IsFileName(FileField(t).value, f)
  {
    hide IsFileName, HasFileField, FileField;
    forall v
      ensures HasFileField(t, v) <==> FileField(t) == Some(v)
    {
      FileFieldMeans(t, v);
    }
  }

  // ----- the name

  lemma NameMeans(v: string, n: string)
    ensures IsName(v, n) <==>
            && |n| < |v| && v[|n|] == '"' && n == v[..|n|] && MatchAfterName(v[|n| + 1..]).Some?
            && forall j :: 0 <= j < |n| ==> !EndsLine(v[j])
  {
    hide IsNameTail, MatchAfterName, IsQuoted;
    if t :| IsQuoted(v, n, t) && IsNameTail(t) {
      QuotedIs(v, n, t);
      AfterNameMeans(t);
    }
    if && |n| < |v| && v[|n|] == '"' && n == v[..|n|] && MatchAfterName(v[|n| + 1..]).Some?
       && forall j :: 0 <= j < |n| ==> !EndsLine(v[j])
    {
      QuotedAt(v, |n|);
      AfterNameMeans(v[|n| + 1..]);
    }
  }

  lemma {:induction false} NameScan(v: string, i: nat)
    requires i <= |v| && forall n :: IsName(v, n) ==> |n| >= i
    requires forall j :: 0 <= j < i ==> !EndsLine(v[j])
    ensures match MatchName(v, i)
            case Some((n, f)) =>
              && Shortest(n, iset m | IsName(v, m)) && |n| < |v| && IsQuoted(v, n, v[|n| + 1..])
              && MatchAfterName(v[|n| + 1..]) == Some(f)
            case None => forall n :: !IsName(v, n)
    decreases |v| - i
  {
    hide IsName, MatchAfterName, EndsLine, IsQuoted;
    forall n
      ensures IsName(v, n) ==> |n| < |v| && n == v[..|n|]
    {
      NameMeans(v, n);
    }
    if i < |v| {
      NameMeans(v, v[..i]);
      if v[i] == '"' && MatchAfterName(v[i + 1..]).Some? {
        assert IsName(v, v[..i]);
        QuotedAt(v, i);
      } else if EndsLine(v[i]) {
        forall n
          ensures !IsName(v, n)
        {
          NameMeans(v, n);
        }
      } else {
        NameScan(v, i + 1);
      }
    }
  }

  function NameField(h: string): Option<string> {
    match After(h, "Content-Disposition:")
    case None => None
    case Some(a) =>
      match After(SkipBlanks(a), "form-data;")
      case None => None
      case Some(b) => After(SkipBlanks(b), "name=\"")
  }

  lemma NameFieldReads(h: string, k: string, b: string, k': string, b': string, k'': string, v: string)
    requires IsNameField(h, k, b, k', b', k'', v)
    ensures NameField(h) == Some(v)
  {
    var u := k'' + v;
    AfterIs(k, "Content-Disposition:", b + (k' + (b' + u)));
    SpelledStart(k', "form-data;", b' + u);
    SkipBlanksIs(b, k' + (b' + u));
    AfterIs(k', "form-data;", b' + u);
    SpelledStart(k'', "name=\"", v);
    SkipBlanksIs(b', u);
    AfterIs(k'', "name=\"", v);
    hide After, SkipBlanks, Spelled;
  }

  lemma NameFieldMeans(h: string, v: string)
    ensures HasNameField(h, v) <==> NameField(h) == Some(v)
  {
    hide After, SkipBlanks, Spelled;
    if NameField(h) == Some(v) {
      var k := AfterOf(h, "Content-Disposition:");
      var a := After(h, "Content-Disposition:").value;
      var b := SkipBlanksOf(a);
      var k' := AfterOf(SkipBlanks(a), "form-data;");
      var c := After(SkipBlanks(a), "form-data;").value;
      var b' := SkipBlanksOf(c);
      var k'' := AfterOf(SkipBlanks(c), "name=\"");
      assert IsNameField(h, k, b, k', b', k'', v);
    }
    if k, b, k', b', k'' :| IsNameField(h, k, b, k', b', k'', v) {
      NameFieldReads(h, k, b, k', b', k'', v);
    }
  }

  lemma MatchByField(h: string)
    ensures MatchDisposition(h) == match NameField(h) case None => None case Some(v) => MatchName(v, 0)
  {
    hide After, SkipBlanks, MatchName;
  }

  /** The matcher finds what a disposition line says, and nothing if and only if it is no such line. */
  lemma DispositionMeans(h: string, n: string, f: string)
    ensures MatchDisposition(h) == Some((n, f)) <==> SaysDisposition(h, n, f)
    ensures MatchDisposition(h) == None <==> !IsDisposition(h)
  {
    hide NameField, MatchName, MatchDisposition, MatchAfterName, IsName, HasNameField, IsQuoted, FileNameOf;
    hide IsNameTail;
    MatchByField(h);
    forall v
      ensures HasNameField(h, v) <==> NameField(h) == Some(v)
    {
      NameFieldMeans(h, v);
    }
    if NameField(h).Some? {
      var v := NameField(h).value;
      NameScan(v, 0);
      if MatchName(v, 0).Some? {
        var (m, g) := MatchName(v, 0).value;
        AfterNameMeans(v[|m| + 1..]);
        OnlyReading(v, m, g);
        assert IsQuoted(v, m, v[|m| + 1..]);
      }
    }
  }

  /** A line says one name and one file name. */
  lemma OnlyReading(v: string, m: string, g: string)
    requires Shortest(m, iset k | IsName(v, k)) && IsQuoted(v, m, v[|m| + 1..]) && FileNameOf(v[|m| + 1..], g)
    ensures forall n, f, t ::
              Shortest(n, iset k | IsName(v, k)) && IsQuoted(v, n, t) && FileNameOf(t, f) ==> n == m && f == g
  {
    hide IsName, IsQuoted, FileNameOf;
    forall n, f, t | Shortest(n, iset k | IsName(v, k)) && IsQuoted(v, n, t) && FileNameOf(t, f)
      ensures n == m && f == g
    {
      QuotedIs(v, n, t);
      QuotedIs(v, m, v[|m| + 1..]);
      assert |n| == |m|;
      OnlyFileName(t, f, g);
    }
  }

  lemma OnlyFileName(t: string, f: string, g: string)
    requires FileNameOf(t, f) && FileNameOf(t, g)
    ensures f == g
  {
    hide FileField, IsFileName, IsLineTail, NamesFile;
    NamesFileMeans(t);
    if FileField(t).Some? && exists h :: NamesFile(t, h) {
      FileNameMeans(FileField(t).value, f);
      FileNameMeans(FileField(t).value, g);
    }
  }

  // ----- the type line

  lemma {:induction false} TrimLeftIs(l: string, u: string)
    requires (forall c <- l :: c in " \t") && (u == "" || u[0] !in " \t")
    ensures TrimLeft(l + u) == u
  {
    if l == "" {
      assert l + u == u;
    } else {
      assert l[0] in l && (l + u)[1..] == l[1..] + u;
      TrimLeftIs(l[1..], u);
    }
  }

  lemma {:induction false} TrimRightIs(u: string, r: string)
    requires (forall c <- r :: c in " \t") && (u == "" || u[|u| - 1] !in " \t")
    ensures TrimRight(u + r) == u
    decreases |r|
  {
    if r == "" {
      assert u + r == u;
    } else {
      var n := |r| - 1;
      assert r[n] in r && (u + r)[..|u + r| - 1] == u + r[..n];
      TrimRightIs(u, r[..n]);
    }
  }

  lemma {:induction false} TrimLeftOf(s: string) returns (l: string)
    ensures s == l + TrimLeft(s) && (forall c <- l :: c in " \t")
    ensures TrimLeft(s) != "" ==> TrimLeft(s)[0] !in " \t"
  {
    l := "";
    if s != "" && SpaceOrTab(s[0]) {
      var more := TrimLeftOf(s[1..]);
      l := [s[0]] + more;
      assert s == [s[0]] + s[1..];
    }
  }

  lemma {:induction false} TrimRightOf(s: string) returns (r: string)
    ensures s == TrimRight(s) + r && (forall c <- r :: c in " \t")
    ensures TrimRight(s) != "" ==> TrimRight(s)[|TrimRight(s)| - 1] !in " \t" && s != "" && TrimRight(s)[0] == s[0]
    decreases |s|
  {
    r := "";
    if s != "" && SpaceOrTab(s[|s| - 1]) {
      var n := |s| - 1;
      var more := TrimRightOf(s[..n]);
      r := more + [s[n]];
      assert s == s[..n] + [s[n]];
    }
  }

  /** All blanks trim to nothing on the left. */
  lemma TrimmedIs(l: string, v: string, r: string)
    requires (forall c <- l :: c in " \t") && (forall c <- r :: c in " \t")
    requires v != "" ==> v[0] !in " \t" && v[|v| - 1] !in " \t"
    ensures TrimRight(TrimLeft(l + (v + r))) == v
  {
    if v == "" {
      assert l + (v + r) == (l + r) + "";
      TrimLeftIs(l + r, "");
      TrimRightIs("", "");
    } else {
      assert (v + r)[0] == v[0];
      TrimLeftIs(l, v + r);
      TrimRightIs(v, r);
    }
  }

  /** A type line, and only a type line, is read as one, and for its value without blanks at the ends. */
  lemma TypeMeans(h: string, v: string)
    ensures SaysType(h, v)
            <==> StartsWithIgnoreCase(h, "content-type:") && |h| >= 13 && TrimRight(TrimLeft(h[13..])) == v
  {
    hide Spelled, TrimLeft, TrimRight, StartsWithIgnoreCase;
    if k, l, r :| IsType(h, k, l, v, r) {
      AfterIs(k, "content-type:", l + (v + r));
      assert |"content-type:"| == 13 && h[13..] == l + (v + r);
      TrimmedIs(l, v, r);
    }
    if After(h, "content-type:").Some? && |h| >= 13 && TrimRight(TrimLeft(h[13..])) == v {
      var k := AfterOf(h, "content-type:");
      assert |"content-type:"| == 13 && h == k + h[13..];
      var l := TrimLeftOf(h[13..]);
      var r := TrimRightOf(TrimLeft(h[13..]));
      assert IsType(h, k, l, v, r);
    }
  }

  lemma TypeLineMeans(h: string)
    ensures IsTypeLine(h) <==> StartsWithIgnoreCase(h, "content-type:")
    ensures StartsWithIgnoreCase(h, "content-type:") ==> SaysType(h, TrimRight(TrimLeft(h[13..])))
  {
    hide SaysType, TrimLeft, TrimRight;
    if StartsWithIgnoreCase(h, "content-type:") {
      TypeMeans(h, TrimRight(TrimLeft(h[13..])));
    }
    if v :| SaysType(h, v) {
      TypeMeans(h, v);
    }
  }

  lemma DispositionStart(h: string)
    requires IsDisposition(h)
    ensures |h| > 8 && Lower(h[8]) == 'd'
  {
    hide HasNameField, IsName;
    var v, n :| HasNameField(h, v) && IsName(v, n);
    NameFieldMeans(h, v);
    assert Lower(h[8]) == Lower("Content-Disposition:"[8]);
  }

  lemma NotBoth(h: string)
    ensures !(IsDisposition(h) && IsTypeLine(h))
  {
    hide IsDisposition, IsTypeLine;
    if IsDisposition(h) {
      DispositionStart(h);
    }
    if IsTypeLine(h) {
      TypeLineMeans(h);
      assert Lower(h[8]) == Lower("content-type:"[8]) == 't';
    }
  }

  // ----- one line

  /** What one line does to the fields read so far. */
  ghost predicate LineReads(h: string, before: FileInfo, after: FileInfo) {
    && (if IsDisposition(h) then SaysDisposition(h, after.name, after.filename)
        else after.name == before.name && after.filename == before.filename)
    && (if IsTypeLine(h) then SaysType(h, after.contentType) else after.contentType == before.contentType)
  }

  lemma LineMeans(h: string, before: FileInfo, after: FileInfo)
    ensures ReadHeader(h, before) == after <==> LineReads(h, before, after)
  {
    hide IsDisposition, SaysDisposition, SaysType, IsTypeLine, MatchDisposition, StartsWithIgnoreCase, TrimLeft,
         TrimRight;
    NotBoth(h);
    TypeLineMeans(h);
    TypeMeans(h, after.contentType);
    DispositionMeans(h, after.name, after.filename);
  }

  // ----- blocks of lines

  /** A line, without the CRLF that ends it. */
  predicate IsHeaderLine(h: string) {
    h != "" && forall i :: 0 <= i < |h| - 1 ==> !(h[i] == '\r' && h[i + 1] == '\n')
  }

  predicate AreHeaderLines(hs: seq<string>) { forall h <- hs :: IsHeaderLine(h) }

  function BlockText(hs: seq<string>): string {
    if hs == [] then "" else BlockText(hs[..|hs| - 1]) + (hs[|hs| - 1] + CRLF)
  }

  predicate WithoutCrlf(w: string) { forall i :: 0 <= i < |w| - 1 ==> !(w[i] == '\r' && w[i + 1] == '\n') }

  /** The last line of the kind is at i. */
  ghost predicate LastDisposition(hs: seq<string>, i: int) {
    0 <= i < |hs| && IsDisposition(hs[i]) && forall j :: i < j < |hs| ==> !IsDisposition(hs[j])
  }

  ghost predicate LastType(hs: seq<string>, i: int) {
    0 <= i < |hs| && IsTypeLine(hs[i]) && forall j :: i < j < |hs| ==> !IsTypeLine(hs[j])
  }

  /** Name and file name of the last disposition line, or those there before. */
  ghost predicate NamesAnnounced(hs: seq<string>, before: FileInfo, n: string, f: string) {
    if exists i :: LastDisposition(hs, i) then exists i :: LastDisposition(hs, i) && SaysDisposition(hs[i], n, f)
    else n == before.name && f == before.filename
  }

  /** The value of the last type line, or the one there before. */
  ghost predicate TypeAnnounced(hs: seq<string>, before: FileInfo, v: string) {
    if exists i :: LastType(hs, i) then exists i :: LastType(hs, i) && SaysType(hs[i], v)
    else v == before.contentType
  }

  ghost predicate Announced(hs: seq<string>, before: FileInfo, after: FileInfo) {
    NamesAnnounced(hs, before, after.name, after.filename) && TypeAnnounced(hs, before, after.contentType)
  }

  function AllRead(hs: seq<string>, file: FileInfo): FileInfo {
    if hs == [] then file else ReadHeader(hs[|hs| - 1], AllRead(hs[..|hs| - 1], file))
  }

  lemma LastOfMore(hs: seq<string>)
    requires hs != []
    ensures
      var n := |hs| - 1;
      && (forall i :: LastDisposition(hs, i) <==>
                      if IsDisposition(hs[n]) then i == n else LastDisposition(hs[..n], i))
      && (forall i :: LastType(hs, i) <==> if IsTypeLine(hs[n]) then i == n else LastType(hs[..n], i))
  {
    hide IsDisposition, IsTypeLine;
  }

  lemma NamesOfMore(hs: seq<string>, before: FileInfo, n: string, f: string)
    requires hs != []
    ensures
      var h := hs[|hs| - 1];
      NamesAnnounced(hs, before, n, f) <==>
        if IsDisposition(h) then SaysDisposition(h, n, f) else NamesAnnounced(hs[..|hs| - 1], before, n, f)
  {
    LastOfMore(hs);
    hide IsDisposition, SaysDisposition, LastDisposition;
    assert IsDisposition(hs[|hs| - 1]) ==> LastDisposition(hs, |hs| - 1);
    assert !IsDisposition(hs[|hs| - 1]) ==> forall i :: LastDisposition(hs[..|hs| - 1], i) ==> LastDisposition(hs, i);
    InFront(hs);
  }

  lemma TypeOfMore(hs: seq<string>, before: FileInfo, v: string)
    requires hs != []
    ensures
      var h := hs[|hs| - 1];
      TypeAnnounced(hs, before, v) <==>
        if IsTypeLine(h) then SaysType(h, v) else TypeAnnounced(hs[..|hs| - 1], before, v)
  {
    LastOfMore(hs);
    hide IsTypeLine, SaysType, LastType;
    assert IsTypeLine(hs[|hs| - 1]) ==> LastType(hs, |hs| - 1);
    assert !IsTypeLine(hs[|hs| - 1]) ==> forall i :: LastType(hs[..|hs| - 1], i) ==> LastType(hs, i);
    InFront(hs);
  }

  lemma InFront(hs: seq<string>)
    requires hs != []
    ensures
      var front := hs[..|hs| - 1];
      forall i :: LastDisposition(front, i) || LastType(front, i) ==> 0 <= i < |front| && front[i] == hs[i]
  {
    hide IsDisposition, IsTypeLine;
    var front := hs[..|hs| - 1];
    forall i | LastDisposition(front, i) || LastType(front, i)
      ensures 0 <= i < |front| && front[i] == hs[i]
    {
    }
  }

  /** Reading the lines one by one ends with what the block announces, and with nothing else. */
  lemma {:induction false} AnnouncedMeans(hs: seq<string>, before: FileInfo, after: FileInfo)
    ensures AllRead(hs, before) == after <==> Announced(hs, before, after)
  {
    hide NamesAnnounced, TypeAnnounced, SaysDisposition, SaysType, ReadHeader, IsDisposition, IsTypeLine;
    if hs == [] {
      NothingAnnounced(before, after.name, after.filename, after.contentType);
    } else {
      var front, h := hs[..|hs| - 1], hs[|hs| - 1];
      var f := AllRead(front, before);
      AnnouncedMeans(front, before, f);
      AnnouncedMeans(front, before, FileInfo(after.name, after.filename, f.contentType));
      AnnouncedMeans(front, before, FileInfo(f.name, f.filename, after.contentType));
      NamesOfMore(hs, before, after.name, after.filename);
      TypeOfMore(hs, before, after.contentType);
      LineMeans(h, f, after);
    }
  }

  lemma NothingAnnounced(before: FileInfo, n: string, f: string, v: string)
    ensures NamesAnnounced([], before, n, f) <==> n == before.name && f == before.filename
    ensures TypeAnnounced([], before, v) <==> v == before.contentType
  {
  }

  // ----- a window that holds a block

  lemma LineEnds(h: string, x: string)
    requires IsHeaderLine(h)
    ensures Find(h + CRLF + x, CRLF) == |h|
  {
    var w := h + CRLF + x;
    assert w[|h|..|h| + 2] == CRLF;
    forall k | 0 <= k < |h|
      ensures !StartsAt(w, CRLF, k)
    {
      if StartsAt(w, CRLF, k) {
        ByteOfOccurrence(w, CRLF, k, k);
        ByteOfOccurrence(w, CRLF, k, k + 1);
      }
    }
    FindIs(w, CRLF, |h|);
  }

  lemma LineAt(w: string)
    requires 0 < Find(w, CRLF) < |w|
    ensures
      var i := Find(w, CRLF);
      i + 2 <= |w| && IsHeaderLine(w[..i]) && w == w[..i] + CRLF + w[i + 2..]
  {
    var h := w[..Find(w, CRLF)];
    assert w[|h|..|h| + 2] == CRLF;
    forall k | 0 <= k < |h| - 1
      ensures !(h[k] == '\r' && h[k + 1] == '\n')
    {
      if h[k] == '\r' && h[k + 1] == '\n' {
        assert w[k..k + 2] == CRLF;
        assert StartsAt(w, CRLF, k);
      }
    }
  }

  lemma CrlfAt(w: string, k: nat)
    ensures StartsAt(w, CRLF, k) <==> k < |w| - 1 && w[k] == '\r' && w[k + 1] == '\n'
  {
    if k < |w| - 1 {
      assert w[k..k + 2] == [w[k], w[k + 1]];
    }
  }

  lemma NoLineAt(w: string)
    ensures Find(w, CRLF) == |w| <==> WithoutCrlf(w)
  {
    hide StartsAt;
    if WithoutCrlf(w) {
      forall k | 0 <= k < |w|
        ensures !StartsAt(w, CRLF, k)
      {
        CrlfAt(w, k);
      }
      NotFound(w, CRLF);
    } else {
      var k :| 0 <= k < |w| - 1 && w[k] == '\r' && w[k + 1] == '\n';
      CrlfAt(w, k);
    }
  }

  lemma CrlfFirst(x: string)
    requires CRLF <= x
    ensures |x| >= 2 && x == CRLF + x[2..]
  {
  }

  lemma OneLineRead(h: string, x: string, file: FileInfo)
    requires IsHeaderLine(h)
    ensures Headers(h + CRLF + x, file) == Headers(x, ReadHeader(h, file))
  {
    hide ReadHeader, Find;
    LineEnds(h, x);
    var w := h + CRLF + x;
    assert w[..|h|] == h && w[|h| + 2..] == x;
  }

  lemma {:induction false} BlockRead(hs: seq<string>, x: string, file: FileInfo)
    requires AreHeaderLines(hs)
    ensures Headers(BlockText(hs) + x, file) == Headers(x, AllRead(hs, file))
  {
    hide ReadHeader, Headers, IsHeaderLine;
    if hs == [] {
      assert BlockText(hs) + x == x;
    } else {
      var front, h := hs[..|hs| - 1], hs[|hs| - 1];
      assert BlockText(hs) + x == BlockText(front) + (h + CRLF + x);
      BlockRead(front, h + CRLF + x, file);
      OneLineRead(h, x, AllRead(front, file));
    }
  }

  lemma {:induction false} BlockCons(h: string, hs: seq<string>)
    ensures BlockText([h] + hs) == h + CRLF + BlockText(hs)
  {
    var all := [h] + hs;
    if hs == [] {
      assert all == [h] && all[..0] == [];
      assert BlockText(all) == "" + (h + CRLF);
      assert h + CRLF + "" == h + CRLF;
    } else {
      BlockCons(h, hs[..|hs| - 1]);
      assert all[..|all| - 1] == [h] + hs[..|hs| - 1];
      assert BlockText(hs) == BlockText(hs[..|hs| - 1]) + (hs[|hs| - 1] + CRLF);
    }
  }

  /** The complete lines at the front of a window, up to an empty one or to where no line ends. */
  lemma {:induction false} BlockOf(w: string) returns (hs: seq<string>, x: string)
    ensures AreHeaderLines(hs) && w == BlockText(hs) + x && (WithoutCrlf(x) || CRLF <= x)
    decreases |w|
  {
    hide Find, IsHeaderLine, WithoutCrlf;
    var i := Find(w, CRLF);
    if i == 0 || i == |w| {
      NoLineAt(w);
      hs, x := [], w;
      assert BlockText(hs) + x == x;
      assert 0 < |w| && i == 0 ==> w[0..2] == CRLF;
    } else {
      LineAt(w);
      var more: seq<string>;
      more, x := BlockOf(w[i + 2..]);
      hs := [w[..i]] + more;
      BlockCons(w[..i], more);
    }
  }

  lemma AtEmptyLine(rest: string, file: FileInfo)
    ensures Headers(CRLF + rest, file) == EndOfHeaders(rest, file)
  {
    assert (CRLF + rest)[0..2] == CRLF;
    FindIs(CRLF + rest, CRLF, 0);
  }

  lemma AtNoLine(rest: string, file: FileInfo)
    requires WithoutCrlf(rest)
    ensures Headers(rest, file) == More(rest, file)
  {
    NoLineAt(rest);
  }

  /** The header lines of a window are read up to the empty one exactly when it is a block of lines, an
      empty line and the rest, and the fields are then those that the block announces. */
  lemma HeadersEnd(w: string, file: FileInfo, rest: string, f: FileInfo)
    ensures
      Headers(w, file) == EndOfHeaders(rest, f)
      <==> exists hs :: AreHeaderLines(hs) && w == BlockText(hs) + (CRLF + rest) && Announced(hs, file, f)
  {
    hide *;
    if Headers(w, file) == EndOfHeaders(rest, f) {
      var hs, x := BlockOf(w);
      BlockRead(hs, x, file);
      AnnouncedMeans(hs, file, AllRead(hs, file));
      if WithoutCrlf(x) {
        AtNoLine(x, AllRead(hs, file));
      } else {
        CrlfFirst(x);
        AtEmptyLine(x[2..], AllRead(hs, file));
      }
    }
    if hs :| AreHeaderLines(hs) && w == BlockText(hs) + (CRLF + rest) && Announced(hs, file, f) {
      BlockRead(hs, CRLF + rest, file);
      AtEmptyLine(rest, f);
      AnnouncedMeans(hs, file, f);
    }
  }

  /** And otherwise as far as complete lines go. */
  lemma HeadersGoOn(w: string, file: FileInfo, rest: string, f: FileInfo)
    ensures
      Headers(w, file) == More(rest, f)
      <==> exists hs :: AreHeaderLines(hs) && w == BlockText(hs) + rest && WithoutCrlf(rest) && Announced(hs, file, f)
  {
    hide *;
    if Headers(w, file) == More(rest, f) {
      var hs, x := BlockOf(w);
      BlockRead(hs, x, file);
      AnnouncedMeans(hs, file, AllRead(hs, file));
      if WithoutCrlf(x) {
        AtNoLine(x, AllRead(hs, file));
      } else {
        CrlfFirst(x);
        AtEmptyLine(x[2..], AllRead(hs, file));
      }
    }
    if hs :| AreHeaderLines(hs) && w == BlockText(hs) + rest && WithoutCrlf(rest) && Announced(hs, file, f) {
      BlockRead(hs, rest, file);
      AtNoLine(rest, f);
      AnnouncedMeans(hs, file, f);
    }
  }

  /** A line that is neither changes nothing, wherever it stands in the block. */
  lemma OtherLinesAreIgnored(hs: seq<string>, h: string, more: seq<string>, x: string, file: FileInfo)
    requires AreHeaderLines(hs) && IsHeaderLine(h) && AreHeaderLines(more)
    requires !IsDisposition(h) && !IsTypeLine(h)
    ensures Headers(BlockText(hs + [h] + more) + x, file) == Headers(BlockText(hs + more) + x, file)
    ensures forall f :: Announced(hs + [h] + more, file, f) <==> Announced(hs + more, file, f)
  {
    hide *;
    ReadInTwo(hs + [h], more, file);
    ReadInTwo(hs, [h], file);
    ReadInTwo(hs, more, file);
    OnlyOne(h, AllRead(hs, file));
    LineMeans(h, AllRead(hs, file), AllRead(hs, file));
    NoChange(h, AllRead(hs, file));
    AllLines(hs, h, more);
    BlockRead(hs + [h] + more, x, file);
    BlockRead(hs + more, x, file);
    forall f
      ensures Announced(hs + [h] + more, file, f) <==> Announced(hs + more, file, f)
    {
      AnnouncedMeans(hs + [h] + more, file, f);
      AnnouncedMeans(hs + more, file, f);
    }
  }

  lemma AllLines(hs: seq<string>, h: string, more: seq<string>)
    requires AreHeaderLines(hs) && IsHeaderLine(h) && AreHeaderLines(more)
    ensures AreHeaderLines(hs + [h] + more) && AreHeaderLines(hs + more)
  {
    hide IsHeaderLine;
  }

  lemma NoChange(h: string, f: FileInfo)
    requires !IsDisposition(h) && !IsTypeLine(h)
    ensures LineReads(h, f, f)
  {
    hide IsDisposition, IsTypeLine;
  }

  lemma OnlyOne(h: string, f: FileInfo)
    ensures AllRead([h], f) == ReadHeader(h, f)
  {
    hide ReadHeader;
    assert [h][..0] == [];
  }

  lemma {:induction false} ReadInTwo(a: seq<string>, b: seq<string>, file: FileInfo)
    ensures AllRead(a + b, file) == AllRead(b, AllRead(a, file))
    decreases |b|
  {
    hide ReadHeader;
    if b == [] {
      assert a + b == a;
    } else {
      assert (a + b)[..|a + b| - 1] == a + b[..|b| - 1];
      ReadInTwo(a, b[..|b| - 1], file);
    }
  }

  /** A new entry: the program goes on with the content of a part whose fields are those its block
      announces, from empty ones, or refuses a block whose first line is too long. */
  lemma PartIsAnnounced(p: Parser, hs: seq<string>, rest: string, f: FileInfo)
    requires p.state == 1 && AreHeaderLines(hs) && p.window == BlockText(hs) + (CRLF + rest)
    requires Announced(hs, FileInfo("", "", ""), f)
    ensures
      Drain(false, p) ==
        if hs != [] && |hs[0]| > 8192 then Parsed(p.(file := NO_FILE, state := 2), false)
        else Drain(false, p.(window := rest, file := f, state := 3, parts := p.parts + [Part(f, "")]))
  {
    hide Announced, Headers, Find, Drain, AreHeaderLines, BlockText;
    HeadersEnd(p.window, NO_FILE, rest, f);
    FirstLineEnds(hs, CRLF + rest);
    AtNewEntry(p);
    AtHeaders(p.(file := NO_FILE, state := 2), rest, f);
  }

  lemma FirstLineEnds(hs: seq<string>, x: string)
    requires AreHeaderLines(hs) && CRLF <= x
    ensures Find(BlockText(hs) + x, CRLF) == if hs == [] then 0 else |hs[0]|
    ensures BlockText(hs) + x != ""
  {
    hide Find, IsHeaderLine;
    CrlfFirst(x);
    if hs == [] {
      assert BlockText(hs) + x == x && x[0..2] == CRLF;
      FindIs(x, CRLF, 0);
    } else {
      BlockCons(hs[0], hs[1..]);
      assert [hs[0]] + hs[1..] == hs;
      LineEndsFirst(hs[0], BlockText(hs[1..]), x);
    }
  }

  lemma LineEndsFirst(h: string, more: string, x: string)
    requires IsHeaderLine(h)
    ensures Find(h + CRLF + more + x, CRLF) == |h|
  {
    hide Find, IsHeaderLine;
    LineEnds(h, more + x);
    assert h + CRLF + more + x == h + CRLF + (more + x);
  }

  lemma AtNewEntry(p: Parser)
    requires p.state == 1 && p.window != ""
    ensures Drain(false, p) == Drain(false, p.(file := NO_FILE, state := 2))
  {
  }

  lemma AtHeaders(p: Parser, rest: string, f: FileInfo)
    requires p.state == 2 && p.window != "" && Headers(p.window, p.file) == EndOfHeaders(rest, f)
    ensures
      Drain(false, p) ==
        if Find(p.window, CRLF) > 8192 then Parsed(p, false)
        else Drain(false, p.(window := rest, file := f, state := 3, parts := p.parts + [Part(f, "")]))
  {
    hide Headers, Find, OpeningTurn, BodyTurn, BoundaryTurn;
  }
}
