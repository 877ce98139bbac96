/** The quote-aware command line tokenizer and the printer beside it.  The tokenizer is
    proved against a scanning function, the scanning function against a grammar of command
    lines, and the printer against both. */
module CommandLines {

  datatype Error = UnexpectedEndOfEscape | UnexpectedEscape | UnmatchedQuotes

  datatype Result<T> = Ok(value: T) | Err(error: Error)

  predicate IsSeparator(c: char) { c == ' ' || c == '\t' }

  predicate IsQuote(c: char) { c == '\'' || c == '"' }

  predicate IsEscape(c: char) { c == '\\' }

  predicate IsPlain(c: char) { !IsSeparator(c) && !IsQuote(c) && !IsEscape(c) }

  /** The characters that may follow a backslash. */
  predicate CanEscape(c: char) { c == 'n' || !IsPlain(c) }

  /** What a backslash followed by c stands for. */
  function Unescaped(c: char): char { if c == 'n' then '\n' else c }

  // ----- the scanning function

  function SkipSeparators(s: string): string
  {
    if s != [] && IsSeparator(s[0]) then SkipSeparators(s[1..]) else s
  }

  lemma SkipShortens(s: string)
    ensures |SkipSeparators(s)| <= |s|
    ensures SkipSeparators(s) != [] ==> !IsSeparator(SkipSeparators(s)[0])
  {
  }

  /** How the collection of one word ends. */
  datatype Collected =
    | Separated(word: string, rest: string)
    | AtEnd(word: string, shown: bool)
    | Bad(error: Error)

  /** Collects a word from the front of s: `quote` holds the open quotation mark, if any, and
      `shown` records whether a character was seen that makes a word count at the end of the line. */
  function Collect(s: string, quote: string, tok: string, shown: bool): (r: Collected)
    requires |quote| <= 1
    ensures r.Separated? ==> |r.rest| < |s|
    decreases |s|
  {
    if s == [] then
      if quote != [] then Bad(UnmatchedQuotes) else AtEnd(tok, shown)
    else if IsEscape(s[0]) then
      if |s| == 1 then Bad(UnexpectedEndOfEscape)
      else if CanEscape(s[1]) then Collect(s[2..], quote, tok + [Unescaped(s[1])], shown)
      else Bad(UnexpectedEscape)
    else if IsSeparator(s[0]) && quote == [] then Separated(tok, s[1..])
    else if IsQuote(s[0]) && quote == [] then Collect(s[1..], [s[0]], tok, shown)
    else if quote == [s[0]] then Collect(s[1..], [], tok, shown)
    else Collect(s[1..], quote, tok + [s[0]], shown || !IsQuote(s[0]))
  }

  function Prepend(tok: string, r: Result<seq<string>>): Result<seq<string>>
  {
    if r.Ok? then Ok([tok] + r.value) else r
  }

  /** The tokens of a command line. */
  function Split(s: string): Result<seq<string>>
    decreases |s|
  {
    SkipShortens(s);
    var t := SkipSeparators(s);
    if t == [] then Ok([])
    else
      match Collect(t, [], [], false)
      case Separated(tok, rest) => Prepend(tok, Split(rest))
      case AtEnd(tok, shown) => Ok(if shown then [tok] else [])
      case Bad(e) => Err(e)
  }

  // ----- the tokenizer

  lemma SkipOne(s: string, i: nat)
    requires i < |s| && IsSeparator(s[i])
    ensures SkipSeparators(s[i..]) == SkipSeparators(s[i + 1..])
  {
    assert s[i..][0] == s[i] && s[i..][1..] == s[i + 1..];
  }

  lemma SkipNone(s: string, i: nat)
    requires i <= |s| && (i < |s| ==> !IsSeparator(s[i]))
    ensures SkipSeparators(s[i..]) == s[i..]
  {
    assert i < |s| ==> s[i..][0] == s[i];
  }

  lemma SkipTwice(s: string)
    ensures SkipSeparators(SkipSeparators(s)) == SkipSeparators(s)
  {
  }

  lemma SplitSkips(s: string)
    ensures Split(SkipSeparators(s)) == Split(s)
  {
    SkipTwice(s);
  }

  /** One turn of the collecting loop at a character that is not a backslash. */
  lemma CollectOne(s: string, i: nat, quote: string, tok: string, shown: bool)
    requires i < |s| && |quote| <= 1 && !IsEscape(s[i])
    ensures Collect(s[i..], quote, tok, shown) ==
      if quote == [] && IsSeparator(s[i]) then Separated(tok, s[i + 1..])
      else if quote == [] && IsQuote(s[i]) then Collect(s[i + 1..], [s[i]], tok, shown)
      else if quote != [] && quote[0] == s[i] then Collect(s[i + 1..], [], tok, shown)
      else Collect(s[i + 1..], quote, tok + [s[i]], shown || !IsQuote(s[i]))
  {
    assert quote != [] && quote[0] == s[i] ==> quote == [s[i]];
    assert s[i..][0] == s[i] && s[i..][1..] == s[i + 1..];
  }

  /** One turn of the collecting loop at a backslash. */
  lemma CollectEscape(s: string, i: nat, quote: string, tok: string, shown: bool)
    requires i < |s| && |quote| <= 1 && IsEscape(s[i])
    ensures i + 1 == |s| ==> Collect(s[i..], quote, tok, shown) == Bad(UnexpectedEndOfEscape)
    ensures i + 1 < |s| && CanEscape(s[i + 1]) ==>
      Collect(s[i..], quote, tok, shown) == Collect(s[i + 2..], quote, tok + [Unescaped(s[i + 1])], shown)
    ensures i + 1 < |s| && !CanEscape(s[i + 1]) ==>
      Collect(s[i..], quote, tok, shown) == Bad(UnexpectedEscape)
  {
    assert s[i..][0] == s[i];
    if i + 1 < |s| {
      assert s[i..][1] == s[i + 1] && s[i..][2..] == s[i + 2..];
    }
  }

  lemma CollectEnd(quote: string, tok: string, shown: bool)
    requires |quote| <= 1
    ensures Collect([], quote, tok, shown) == if quote != [] then Bad(UnmatchedQuotes) else AtEnd(tok, shown)
    ensures Prepend(tok, Ok([])) == Ok([tok])
  {
    assert [tok] + [] == [tok];
  }

  lemma BlankSplit(s: string)
    ensures SkipSeparators([]) == []
    ensures SkipSeparators(s) == [] ==> Split(s) == Ok([])
  {
  }

  /** What one call of the tokenizer does: a token and the text left, the end, or an exception. */
  datatype Outcome = Token(tok: string, next: nat) | NoToken | Thrown(error: Error)

  class UnixStyleSeparator {
    var last: bool
    var selectedQuote: seq<char>

    constructor ()
      ensures !last && selectedQuote == []
    {
      last, selectedQuote := false, [];
    }

    method Reset()
      modifies this`last
      ensures !last
    {
      last := false;
    }

    /** Between two calls no quotation is open, and a pending blank field means that the next
        character begins a word. */
    ghost predicate Between(s: string, next: nat)
      reads this
    {
      && next <= |s| && selectedQuote == []
      && (last ==> next < |s| && !IsSeparator(s[next]))
    }

    method AdvanceSeparators(s: string, from: nat) returns (next: nat, atEnd: bool)
      requires from <= |s|
      ensures from <= next <= |s| && s[next..] == SkipSeparators(s[from..])
      ensures atEnd == (next == |s|)
      ensures next < |s| ==> !IsSeparator(s[next])
      ensures from < |s| && !IsSeparator(s[from]) ==> next == from
    {
      next := from;
      while next != |s| && IsSeparator(s[next])
        invariant from <= next <= |s|
        invariant SkipSeparators(s[next..]) == SkipSeparators(s[from..])
        invariant from < |s| && !IsSeparator(s[from]) ==> next == from
      {
        SkipOne(s, next);
        next := next + 1;
      }
      SkipNone(s, next);
      atEnd := next == |s|;
    }

    /** Consumes the backslash at `next` and leaves `after` on the character escaped. */
    method DoEscape(s: string, next: nat, tok: string) returns (after: nat, r: Result<string>)
      requires next < |s| && IsEscape(s[next])
      ensures r.Ok? <==> next + 1 < |s| && CanEscape(s[next + 1])
      ensures r.Ok? ==> after == next + 1 && r.value == tok + [Unescaped(s[next + 1])]
      ensures r.Err? ==> r.error == if next + 1 == |s| then UnexpectedEndOfEscape else UnexpectedEscape
    {
      after := next + 1;
      if after == |s| {
        return after, Err(UnexpectedEndOfEscape);
      }
      if s[after] == 'n' {
        r := Ok(tok + ['\n']);
      } else if IsQuote(s[after]) || IsSeparator(s[after]) || IsEscape(s[after]) {
        r := Ok(tok + [s[after]]);
      } else {
        r := Err(UnexpectedEscape);
      }
    }

    /** The call operator: reads one token from position `from`. */
    method Next(s: string, from: nat) returns (r: Outcome)
      requires Between(s, from)
      modifies this
      ensures r.Token? ==> from < r.next && Between(s, r.next)
      ensures match r
        case Token(tok, next) => Split(s[from..]) == Prepend(tok, Split(s[next..]))
        case NoToken => Split(s[from..]) == Ok([])
        case Thrown(e) => Split(s[from..]) == Err(e)
    {
      hide Collect, Split, SkipSeparators;
      var tok, shown := "", false;
      var next, atEnd := AdvanceSeparators(s, from);
      if atEnd {
        BlankSplit(s[from..]);
        if last {
          assert false;  // a pending blank field stands before a word
        }
        return NoToken;
      }
      last := false;
      ghost var word := Collect(s[next..], [], [], false);
      while next != |s|
        invariant from <= next <= |s| && |selectedQuote| <= 1 && !last
        invariant selectedQuote != [] ==> IsQuote(selectedQuote[0])
        invariant next == from ==> next < |s|
        invariant Collect(s[next..], selectedQuote, tok, shown) == word
        decreases |s| - next
      {
        if IsEscape(s[next]) {
          CollectEscape(s, next, selectedQuote, tok, shown);
          var after, escaped := DoEscape(s, next, tok);
          if escaped.Err? {
            assert word == Bad(escaped.error);
            WordEndsSplit(s[from..], word);
            return Thrown(escaped.error);
          }
          next, tok := after, escaped.value;
        } else {
          CollectOne(s, next, selectedQuote, tok, shown);
          if IsSeparator(s[next]) {
            if selectedQuote == [] {
              next := next + 1;
              last := true;
              assert word == Separated(tok, s[next..]);
              ghost var rest := next;
              next, atEnd := AdvanceSeparators(s, next);
              SplitSkips(s[rest..]);
              WordEndsSplit(s[from..], word);
              if atEnd {
                if last {
                  last := false;
                  return Token(tok, next);
                }
                return NoToken;
              }
              return Token(tok, next);
            } else {
              shown := true;
              tok := tok + [s[next]];
            }
          } else if IsQuote(s[next]) {
            if selectedQuote == [] {
              selectedQuote := selectedQuote + [s[next]];
              assert selectedQuote == [s[next]];
            } else if selectedQuote[|selectedQuote| - 1] == s[next] {
              selectedQuote := selectedQuote[..|selectedQuote| - 1];
            } else {
              tok := tok + [s[next]];
            }
          } else {
            shown := true;
            tok := tok + [s[next]];
          }
        }
        next := next + 1;
      }
      CollectEnd(selectedQuote, tok, shown);
      WordEndsSplit(s[from..], word);
      next, atEnd := AdvanceSeparators(s, next);
      if last {
        assert false;  // set only where the call returns
      }
      if selectedQuote != [] {
        return Thrown(UnmatchedQuotes);
      }
      BlankSplit(s[next..]);
      return if shown then Token(tok, next) else NoToken;
    }
  }

  lemma WordEndsSplit(s: string, word: Collected)
    requires SkipSeparators(s) != [] && word == Collect(SkipSeparators(s), [], [], false)
    ensures Split(s) ==
      match word
      case Separated(tok, rest) => Prepend(tok, Split(rest))
      case AtEnd(tok, shown) => Ok(if shown then [tok] else [])
      case Bad(e) => Err(e)
  {
  }

  /** Splits a command line: iterates the tokenizer until it has no more tokens. */
  method SplitUnix(cmdline: string) returns (r: Result<seq<string>>)
    ensures r == Split(cmdline)
  {
    var separator := new UnixStyleSeparator();
    separator.Reset();
    var result: seq<string> := [];
    if cmdline == "" {
      return Ok(result);
    }
    var step := separator.Next(cmdline, 0);
    assert cmdline[0..] == cmdline;
    ghost var first := step;
    if first.Token? {
      BeforePrepend([], first.tok, Split(cmdline[first.next..]));
      BeforePrepend([], first.tok, Prepend(first.tok, Split(cmdline[first.next..])));
    }
    hide Split;
    while step.Token?
      invariant step.Token? ==> separator.Between(cmdline, step.next)
      invariant fresh(separator)
      invariant match step
        case Token(tok, next) => Split(cmdline) == Before(result + [tok], Split(cmdline[next..]))
        case NoToken => Split(cmdline) == Ok(result)
        case Thrown(e) => Split(cmdline) == Err(e)
      decreases if step.Token? then |cmdline| - step.next + 1 else 0
    {
      result := result + [step.tok];
      BeforePrepend(result, "", Ok([]));
      step := separator.Next(cmdline, step.next);
      if step.Token? {
        BeforePrepend(result, step.tok, Split(cmdline[step.next..]));
      }
    }
    r := if step.Thrown? then Err(step.error) else Ok(result);
  }

  function Before(toks: seq<string>, r: Result<seq<string>>): Result<seq<string>>
  {
    if r.Ok? then Ok(toks + r.value) else r
  }

  lemma BeforePrepend(toks: seq<string>, tok: string, r: Result<seq<string>>)
    ensures Before(toks, Prepend(tok, r)) == Before(toks + [tok], r)
    ensures Before([], r) == r && Before(toks, Ok([])) == Ok(toks)
  {
    assert toks + [] == toks;
    if r.Ok? {
      assert [] + r.value == r.value;
      assert toks + ([tok] + r.value) == toks + [tok] + r.value;
    }
  }

  // ----- a grammar of command lines

  /** A character standing for itself, or one written after a backslash. */
  datatype Unit = Raw(c: char) | Escaped(c: char)

  datatype Piece = Bare(u: Unit) | Quoted(mark: char, us: seq<Unit>)

  type Word = seq<Piece>

  /** Words with the separators before each of them, and the separators after the last. */
  datatype Line = End(trail: string) | Cons(lead: string, w: Word, more: Line)

  predicate IsOneOf(c: char, cs: string) { c in cs }

  predicate UnitOk(u: Unit, mark: string) {
    match u
    case Escaped(c) => c == 'n' || IsOneOf(c, " \t'\"\\")
    case Raw(c) => if mark == [] then !IsOneOf(c, " \t'\"\\") else c != '\\' && [c] != mark
  }

  predicate PieceOk(p: Piece) {
    match p
    case Bare(u) => UnitOk(u, [])
    case Quoted(mark, us) => IsOneOf(mark, "'\"") && forall u <- us :: UnitOk(u, [mark])
  }

  predicate WordOk(w: Word) { forall p <- w :: PieceOk(p) }

  predicate Blank(s: string) { forall c <- s :: IsOneOf(c, " \t") }

  predicate LineOk(l: Line) {
    match l
    case End(trail) => Blank(trail)
    case Cons(lead, w, more) =>
      && Blank(lead) && w != [] && WordOk(w) && LineOk(more)
      && (more.Cons? ==> more.lead != [])
  }

  function UnitText(u: Unit): string { if u.Raw? then [u.c] else ['\\', u.c] }

  function UnitsText(us: seq<Unit>): string { if us == [] then [] else UnitText(us[0]) + UnitsText(us[1..]) }

  function PieceText(p: Piece): string {
    match p
    case Bare(u) => UnitText(u)
    case Quoted(mark, us) => [mark] + UnitsText(us) + [mark]
  }

  function WordText(w: Word): string { if w == [] then [] else PieceText(w[0]) + WordText(w[1..]) }

  function LineText(l: Line): string {
    match l
    case End(trail) => trail
    case Cons(lead, w, more) => lead + WordText(w) + LineText(more)
  }

  /** A backslash stands for nothing itself, but before n for the end of a line. */
  function UnitValue(u: Unit): char { if u == Escaped('n') then '\n' else u.c }

  function UnitsValue(us: seq<Unit>): string { if us == [] then [] else [UnitValue(us[0])] + UnitsValue(us[1..]) }

  function PieceValue(p: Piece): string { if p.Bare? then [UnitValue(p.u)] else UnitsValue(p.us) }

  function WordValue(w: Word): string { if w == [] then [] else PieceValue(w[0]) + WordValue(w[1..]) }

  /** Only an unescaped character other than a quotation mark shows. */
  predicate UnitShows(u: Unit) { u.Raw? && !IsOneOf(u.c, "'\"") }

  predicate AnyShows(us: seq<Unit>) { exists u <- us :: UnitShows(u) }

  predicate PieceShows(p: Piece) { if p.Bare? then UnitShows(p.u) else AnyShows(p.us) }

  predicate WordShows(w: Word) { exists p <- w :: PieceShows(p) }

  /** The tokens the line means: the value of every word, except that a last word in which
      nothing shows and which no separator follows is not a token. */
  function LineTokens(l: Line): seq<string> {
    match l
    case End(_) => []
    case Cons(_, w, more) =>
      if more == End("") && !WordShows(w) then [] else [WordValue(w)] + LineTokens(more)
  }

  // ----- every line of the grammar is read as it means

  lemma CharactersAre(c: char)
    ensures IsSeparator(c) <==> IsOneOf(c, " \t")
    ensures IsQuote(c) <==> IsOneOf(c, "'\"")
    ensures IsPlain(c) <==> !IsOneOf(c, " \t'\"\\")
  {
  }

  lemma ReadUnit(u: Unit, mark: string, rest: string, tok: string, shown: bool)
    requires |mark| <= 1 && UnitOk(u, mark)
    ensures Collect(UnitText(u) + rest, mark, tok, shown)
         == Collect(rest, mark, tok + [UnitValue(u)], shown || UnitShows(u))
  {
    var s := UnitText(u) + rest;
    assert s[0] == UnitText(u)[0];
    if u.Raw? {
      assert s[1..] == rest;
    } else {
      assert s[1] == u.c && s[2..] == rest;
    }
  }

  lemma NoneShows()
    ensures !AnyShows([])
  {
  }

  lemma SomeShows(us: seq<Unit>)
    requires us != []
    ensures AnyShows(us) <==> UnitShows(us[0]) || AnyShows(us[1..])
  {
    assert us == [us[0]] + us[1..];
  }

  lemma {:induction false} ReadUnits(us: seq<Unit>, mark: string, rest: string, tok: string, shown: bool)
    requires |mark| <= 1 && forall u <- us :: UnitOk(u, mark)
    ensures Collect(UnitsText(us) + rest, mark, tok, shown)
         == Collect(rest, mark, tok + UnitsValue(us), shown || AnyShows(us))
    decreases us
  {
    hide Collect, UnitOk, UnitShows, AnyShows, UnitText, UnitValue;
    if us == [] {
      assert tok + [] == tok && [] + rest == rest;
      assert !AnyShows([]) by { NoneShows(); }
    } else {
      var u, more := us[0], us[1..];
      assert UnitsText(us) + rest == UnitText(u) + (UnitsText(more) + rest);
      assert tok + UnitsValue(us) == tok + [UnitValue(u)] + UnitsValue(more);
      ReadUnit(u, mark, UnitsText(more) + rest, tok, shown);
      ReadUnits(more, mark, rest, tok + [UnitValue(u)], shown || UnitShows(u));
      SomeShows(us);
    }
  }

  lemma ReadMark(mark: char, quote: string, rest: string, tok: string, shown: bool)
    requires IsQuote(mark) && (quote == [] || quote == [mark])
    ensures Collect([mark] + rest, quote, tok, shown)
         == Collect(rest, if quote == [] then [mark] else [], tok, shown)
  {
    assert ([mark] + rest)[0] == mark && ([mark] + rest)[1..] == rest;
  }

  lemma ReadPiece(p: Piece, rest: string, tok: string, shown: bool)
    requires PieceOk(p)
    ensures Collect(PieceText(p) + rest, [], tok, shown)
         == Collect(rest, [], tok + PieceValue(p), shown || PieceShows(p))
  {
    hide Collect, UnitsText, UnitsValue, UnitText, UnitValue;
    match p
    case Bare(u) => ReadUnit(u, [], rest, tok, shown);
    case Quoted(mark, us) =>
      assert PieceText(p) + rest == [mark] + (UnitsText(us) + ([mark] + rest));
      ReadMark(mark, [], UnitsText(us) + ([mark] + rest), tok, shown);
      ReadUnits(us, [mark], [mark] + rest, tok, shown);
      ReadMark(mark, [mark], rest, tok + UnitsValue(us), shown || PieceShows(p));
  }

  lemma {:induction false} ReadWord(w: Word, rest: string, tok: string, shown: bool)
    requires WordOk(w)
    ensures Collect(WordText(w) + rest, [], tok, shown)
         == Collect(rest, [], tok + WordValue(w), shown || WordShows(w))
    decreases w
  {
    hide Collect, PieceOk, PieceShows, PieceText, PieceValue;
    if w == [] {
      assert tok + [] == tok && [] + rest == rest;
    } else {
      var p, more := w[0], w[1..];
      assert WordText(w) + rest == PieceText(p) + (WordText(more) + rest);
      assert tok + WordValue(w) == tok + PieceValue(p) + WordValue(more);
      ReadPiece(p, WordText(more) + rest, tok, shown);
      ReadWord(more, rest, tok + PieceValue(p), shown || PieceShows(p));
      assert WordShows(w) <==> PieceShows(p) || WordShows(more) by {
        assert w == [p] + more;
      }
    }
  }

  lemma {:induction false} SkipBlank(lead: string, rest: string)
    requires Blank(lead)
    ensures SkipSeparators(lead + rest) == SkipSeparators(rest)
  {
    if lead == [] {
      assert lead + rest == rest;
    } else {
      CharactersAre(lead[0]);
      assert lead + rest == [lead[0]] + (lead[1..] + rest);
      SkipBlank(lead[1..], rest);
    }
  }

  lemma WordStarts(w: Word, rest: string)
    requires w != [] && WordOk(w)
    ensures SkipSeparators(WordText(w) + rest) == WordText(w) + rest != []
  {
    assert PieceOk(w[0]) && PieceText(w[0]) != [];
    assert !IsSeparator(PieceText(w[0])[0]);
    assert WordText(w)[0] == PieceText(w[0])[0];
    assert (WordText(w) + rest)[0] == WordText(w)[0];
  }

  /** Reading a word and what follows it. */
  lemma ReadWordFirst(lead: string, w: Word, rest: string)
    requires Blank(lead) && w != [] && WordOk(w)
    requires rest == [] || IsSeparator(rest[0])
    ensures Split(lead + WordText(w) + rest) ==
      if rest == [] then Ok(if WordShows(w) then [WordValue(w)] else [])
      else Prepend(WordValue(w), Split(rest[1..]))
  {
    var s := lead + WordText(w) + rest;
    assert s == lead + (WordText(w) + rest);
    SkipBlank(lead, WordText(w) + rest);
    WordStarts(w, rest);
    ReadWord(w, rest, [], false);
    assert [] + WordValue(w) == WordValue(w);
    WordEndsSplit(s, Collect(rest, [], WordValue(w), WordShows(w)));
  }

  lemma SplitSkipsOne(s: string)
    requires s != [] && IsSeparator(s[0])
    ensures Split(s[1..]) == Split(s)
  {
    hide Split;
    SplitSkips(s);
    SplitSkips(s[1..]);
  }

  lemma {:induction false} LineIsRead(l: Line)
    requires LineOk(l)
    ensures Split(LineText(l)) == Ok(LineTokens(l))
    decreases l
  {
    hide WordText, WordValue, WordShows, WordOk;
    match l
    case End(trail) =>
      SkipBlank(trail, []);
      assert trail + [] == trail;
    case Cons(lead, w, more) =>
      var rest := LineText(more);
      if rest != [] {
        CharactersAre(rest[0]);
      }
      assert rest == [] || IsSeparator(rest[0]);
      assert rest == [] <==> more == End("");
      hide Split;
      ReadWordFirst(lead, w, rest);
      LineIsRead(more);
      if rest != [] {
        SplitSkipsOne(rest);
      } else {
        assert [WordValue(w)] + [] == [WordValue(w)];
      }
  }

  // ----- every accepted line is in the grammar

  lemma ConsText(u: Unit, us: seq<Unit>)
    ensures UnitsText([u] + us) == UnitText(u) + UnitsText(us)
  {
    assert ([u] + us)[1..] == us;
  }

  lemma ConsWord(p: Piece, w: Word)
    ensures WordText([p] + w) == PieceText(p) + WordText(w)
  {
    assert ([p] + w)[1..] == w;
  }

  /** The text from here on: the rest of the open quotation, then the rest of the word. */
  function Remaining(us: seq<Unit>, quote: string, w: Word): string
  {
    UnitsText(us) + quote + WordText(w)
  }

  predicate RemainingOk(us: seq<Unit>, quote: string, w: Word)
    requires |quote| <= 1
  {
    && (quote == [] ==> us == [])
    && (forall u <- us :: UnitOk(u, quote)) && WordOk(w)
  }

  /** The text a collected word was taken from, up to what follows it. */
  predicate TakenFrom(s: string, r: Collected, text: string) {
    match r
    case Separated(_, rest) => exists c | IsSeparator(c) :: s == text + [c] + rest
    case AtEnd(_, _) => s == text
    case Bad(_) => true
  }

  lemma MoreTaken(u: string, s: string, r: Collected, text: string)
    requires TakenFrom(s, r, text)
    ensures TakenFrom(u + s, r, u + text)
  {
    if r.Separated? {
      var c :| IsSeparator(c) && s == text + [c] + r.rest;
      assert u + s == u + text + [c] + r.rest;
    }
  }

  lemma BareRemaining(w: Word)
    ensures Remaining([], [], w) == WordText(w)
  {
  }

  lemma BareMore(u: Unit, w: Word)
    requires UnitOk(u, []) && WordOk(w)
    ensures WordOk([Bare(u)] + w)
    ensures Remaining([], [], [Bare(u)] + w) == UnitText(u) + Remaining([], [], w)
  {
    assert PieceOk(Bare(u));
    hide PieceOk, UnitText, WordText;
    ConsWord(Bare(u), w);
    BareRemaining(w);
    BareRemaining([Bare(u)] + w);
  }

  /** One unit more at the front of what remains. */
  lemma UnitMore(u: Unit, quote: string, us: seq<Unit>, w: Word) returns (us': seq<Unit>, w': Word)
    requires |quote| <= 1 && UnitOk(u, quote) && RemainingOk(us, quote, w)
    ensures RemainingOk(us', quote, w')
    ensures Remaining(us', quote, w') == UnitText(u) + Remaining(us, quote, w)
    ensures quote == [] ==> w' != []
  {
    hide UnitOk, UnitText, UnitsText, WordText, WordOk;
    if quote == [] {
      us', w' := [], [Bare(u)] + w;
      BareMore(u, w);
    } else {
      us', w' := [u] + us, w;
      ConsText(u, us);
    }
  }

  /** The unit at the front of a text that the collection does not stop at. */
  lemma FrontUnit(s: string, quote: string, tok: string, shown: bool) returns (u: Unit)
    requires s != [] && |quote| <= 1 && !Collect(s, quote, tok, shown).Bad?
    requires quote == [] ==> !IsSeparator(s[0]) && !IsQuote(s[0])
    requires quote != [s[0]]
    ensures UnitOk(u, quote) && UnitText(u) <= s
    ensures Collect(s, quote, tok, shown) ==
      Collect(s[|UnitText(u)|..], quote, tok + [UnitValue(u)], shown || UnitShows(u))
  {
    u := if IsEscape(s[0]) then Escaped(s[1]) else Raw(s[0]);
    assert s == UnitText(u) + s[|UnitText(u)|..];
  }

  lemma QuoteText(mark: char, inner: seq<Unit>, after: Word)
    ensures Remaining([], [], [Quoted(mark, inner)] + after) == [mark] + Remaining(inner, [mark], after)
  {
    hide UnitsText, WordText;
    var w := [Quoted(mark, inner)] + after;
    ConsWord(w[0], after);
    BareRemaining(w);
    var open := [mark];
    assert open + (UnitsText(inner) + open + WordText(after)) == open + UnitsText(inner) + open + WordText(after);
  }

  /** A quotation in front of a word. */
  lemma OpenQuote(s: string, r: Collected, inner: seq<Unit>, after: Word) returns (w: Word)
    requires s != [] && IsQuote(s[0]) && RemainingOk(inner, [s[0]], after)
    requires TakenFrom(s[1..], r, Remaining(inner, [s[0]], after))
    ensures w != [] && RemainingOk([], [], w) && TakenFrom(s, r, Remaining([], [], w))
  {
    w := [Quoted(s[0], inner)] + after;
    assert RemainingOk([], [], w);
    hide *;
    QuoteText(s[0], inner, after);
    MoreTaken([s[0]], s[1..], r, Remaining(inner, [s[0]], after));
    assert s == [s[0]] + s[1..];
  }

  lemma CloseQuote(s: string, r: Collected, w: Word)
    requires s != [] && TakenFrom(s[1..], r, Remaining([], [], w))
    ensures TakenFrom(s, r, Remaining([], [s[0]], w))
  {
    MoreTaken([s[0]], s[1..], r, Remaining([], [], w));
    assert s == [s[0]] + s[1..];
    assert Remaining([], [s[0]], w) == [s[0]] + Remaining([], [], w) by {
      hide WordText;
      BareRemaining(w);
      assert [] + [s[0]] == [s[0]];
    }
    hide TakenFrom, Remaining;
  }

  /** One unit more at the front of the text and of what remains. */
  lemma UnitTaken(s: string, u: Unit, quote: string, r: Collected, us: seq<Unit>, w: Word)
    returns (us': seq<Unit>, w': Word)
    requires |quote| <= 1 && UnitOk(u, quote) && RemainingOk(us, quote, w)
    requires UnitText(u) <= s && TakenFrom(s[|UnitText(u)|..], r, Remaining(us, quote, w))
    ensures RemainingOk(us', quote, w') && TakenFrom(s, r, Remaining(us', quote, w'))
    ensures quote == [] ==> w' != []
  {
    hide TakenFrom, Remaining, RemainingOk, UnitOk;
    us', w' := UnitMore(u, quote, us, w);
    MoreTaken(UnitText(u), s[|UnitText(u)|..], r, Remaining(us, quote, w));
    assert s == UnitText(u) + s[|UnitText(u)|..];
  }

  lemma NothingRemains(s: string, r: Collected)
    requires (s == [] && r.AtEnd?) || (s != [] && IsSeparator(s[0]) && r.Separated? && r.rest == s[1..])
    ensures RemainingOk([], [], []) && TakenFrom(s, r, Remaining([], [], []))
  {
    assert Remaining([], [], []) == [];
    if s != [] {
      assert s == [] + [s[0]] + s[1..];
    }
  }

  lemma {:induction false} WordIsWritten(s: string, quote: string, tok: string, shown: bool)
    returns (us: seq<Unit>, w: Word)
    requires |quote| <= 1 && (quote == [] || IsQuote(quote[0]))
    requires !Collect(s, quote, tok, shown).Bad?
    ensures RemainingOk(us, quote, w)
    ensures TakenFrom(s, Collect(s, quote, tok, shown), Remaining(us, quote, w))
    ensures quote == [] && s != [] && !IsSeparator(s[0]) ==> w != []
    decreases |s|
  {
    hide RemainingOk, TakenFrom, Remaining, UnitOk, UnitValue, UnitShows;
    var r := Collect(s, quote, tok, shown);
    us, w := [], [];
    if s == [] || (quote == [] && IsSeparator(s[0])) {
      NothingRemains(s, r);
    } else if quote == [] && IsQuote(s[0]) {
      var inner, after := WordIsWritten(s[1..], [s[0]], tok, shown);
      w := OpenQuote(s, r, inner, after);
    } else if quote == [s[0]] {
      us, w := WordIsWritten(s[1..], [], tok, shown);
      AfterQuote(us, w, quote);
      CloseQuote(s, r, w);
    } else {
      var u := FrontUnit(s, quote, tok, shown);
      us, w := WordIsWritten(s[|UnitText(u)|..], quote, tok + [UnitValue(u)], shown || UnitShows(u));
      us, w := UnitTaken(s, u, quote, r, us, w);
    }
  }

  lemma AfterQuote(us: seq<Unit>, w: Word, quote: string)
    requires |quote| == 1 && RemainingOk(us, [], w)
    ensures us == [] && RemainingOk(us, quote, w)
  {
  }

  lemma {:induction false} LeadIsBlank(s: string) returns (lead: string)
    ensures Blank(lead) && s == lead + SkipSeparators(s)
  {
    lead := [];
    if s != [] && IsSeparator(s[0]) {
      var more := LeadIsBlank(s[1..]);
      lead := [s[0]] + more;
      assert s == [s[0]] + s[1..];
    }
  }

  /** A separator put in front of a line. */
  function Widen(c: char, l: Line): Line {
    match l
    case End(trail) => End([c] + trail)
    case Cons(lead, w, more) => Cons([c] + lead, w, more)
  }

  lemma WidenText(c: char, l: Line)
    requires IsSeparator(c) && LineOk(l)
    ensures LineOk(Widen(c, l)) && LineText(Widen(c, l)) == [c] + LineText(l)
  {
    CharactersAre(c);
    hide WordText, WordOk;
    if l.Cons? {
      assert [c] + l.lead + WordText(l.w) + LineText(l.more) == [c] + (l.lead + WordText(l.w) + LineText(l.more));
    }
  }

  /** The first word and the separator after it, in front of a line. */
  lemma FrontWord(s: string, lead: string, w: Word, rest: string, more: Line) returns (l: Line)
    requires Blank(lead) && w != [] && WordOk(w) && LineOk(more) && LineText(more) == rest
    requires exists c | IsSeparator(c) :: s == lead + (WordText(w) + [c] + rest)
    ensures LineOk(l) && LineText(l) == s
  {
    hide WordText, WordOk;
    var c :| IsSeparator(c) && s == lead + (WordText(w) + [c] + rest);
    WidenText(c, more);
    l := Cons(lead, w, Widen(c, more));
    assert s == lead + WordText(w) + ([c] + rest);
  }

  lemma FirstWordIsWritten(t: string) returns (w: Word)
    requires t != [] && !IsSeparator(t[0]) && !Collect(t, [], [], false).Bad?
    ensures w != [] && WordOk(w) && TakenFrom(t, Collect(t, [], [], false), WordText(w))
  {
    hide Collect, TakenFrom, Remaining, WordText;
    var us, w0 := WordIsWritten(t, [], [], false);
    w := w0;
    BareRemaining(w);
  }

  lemma {:induction false} AcceptedIsALine(s: string) returns (l: Line)
    requires Split(s).Ok?
    ensures LineOk(l) && LineText(l) == s
    decreases |s|
  {
    hide Collect, Split, SkipSeparators, WordOk, WordText, LineOk, LineText;
    var lead := LeadIsBlank(s);
    SkipShortens(s);
    var t := SkipSeparators(s);
    if t == [] {
      l := BlankLine(lead);
      assert lead + [] == lead;
      return;
    }
    var r := Collect(t, [], [], false);
    WordEndsSplit(s, r);
    var w := FirstWordIsWritten(t);
    if r.AtEnd? {
      l := LastWord(lead, w);
    } else {
      var more := AcceptedIsALine(r.rest);
      l := FrontWord(s, lead, w, r.rest, more);
    }
  }

  lemma BlankLine(trail: string) returns (l: Line)
    requires Blank(trail)
    ensures LineOk(l) && LineText(l) == trail
  {
    l := End(trail);
  }

  lemma LastWord(lead: string, w: Word) returns (l: Line)
    requires Blank(lead) && w != [] && WordOk(w)
    ensures LineOk(l) && LineText(l) == lead + WordText(w)
  {
    l := Cons(lead, w, End(""));
    assert lead + WordText(w) + "" == lead + WordText(w);
  }

  /** The tokenizer accepts exactly the lines of the grammar, and every reading of a line in the
      grammar gives the tokens it returns. */
  lemma GrammarIsExact(s: string)
    ensures Split(s).Ok? <==> exists l :: LineOk(l) && LineText(l) == s
    ensures forall l :: LineOk(l) && LineText(l) == s ==> Split(s) == Ok(LineTokens(l))
  {
    hide Split;
    if Split(s).Ok? {
      var l := AcceptedIsALine(s);
    }
    forall l | LineOk(l) && LineText(l) == s
      ensures Split(s) == Ok(LineTokens(l))
    {
      LineIsRead(l);
    }
  }

  // ----- the printer

  /** Tokens after the first, each in double quotation marks behind the separator. */
  function QuotedTail(ts: seq<string>, separator: string): string
  {
    if ts == [] then [] else QuotedTail(ts[..|ts| - 1], separator) + InQuotes(ts[|ts| - 1], separator)
  }

  function Reconstruct(ts: seq<string>, separator: string): string
  {
    if ts == [] then [] else ts[0] + QuotedTail(ts[1..], separator)
  }

  method ReconstructCommandLine(tokens: seq<string>, separator: string) returns (cl: string)
    ensures cl == Reconstruct(tokens, separator)
  {
    cl := "";
    if tokens != [] {
      cl := cl + tokens[0];
      for i := 1 to |tokens|
        invariant cl == tokens[0] + QuotedTail(tokens[1..i], separator)
      {
        assert tokens[1..i + 1][..i - 1] == tokens[1..i];
        cl := cl + separator + ['"'] + tokens[i] + ['"'];
        assert cl == tokens[0] + (QuotedTail(tokens[1..i], separator) + InQuotes(tokens[i], separator));
      }
      assert tokens[1..|tokens|] == tokens[1..];
    }
  }

  function InQuotes(t: string, separator: string): string { separator + ['"'] + t + ['"'] }

  lemma {:induction false} QuotedTailFront(ts: seq<string>, separator: string)
    requires ts != []
    ensures QuotedTail(ts, separator) == InQuotes(ts[0], separator) + QuotedTail(ts[1..], separator)
    decreases |ts|
  {
    hide InQuotes;
    var n := |ts| - 1;
    if n > 0 {
      QuotedTailFront(ts[..n], separator);
      assert ts[..n][1..] == ts[1..][..n - 1];
    } else {
      assert ts[..n] == [] && ts[1..] == [];
    }
  }

  /** What one more token adds to the printed line: the separator and the token in quotation marks, or for the
      first token the token alone. */
  lemma PrintedTokenByToken(ts: seq<string>, t: string, separator: string)
    ensures Reconstruct([], separator) == "" && Reconstruct([t], separator) == t
    ensures ts != [] ==>
      Reconstruct(ts + [t], separator) == Reconstruct(ts, separator) + (separator + ("\"" + (t + "\"")))
  {
    assert [t][1..] == [];
    if ts != [] {
      var more := (ts + [t])[1..];
      assert more == ts[1..] + [t] && more[..|more| - 1] == ts[1..];
      assert (ts + [t])[0] == ts[0];
      QuotedIs(t, separator);
      hide InQuotes;
      assert QuotedTail(more, separator) == QuotedTail(ts[1..], separator) + InQuotes(t, separator);
      InThree(ts[0], QuotedTail(ts[1..], separator), InQuotes(t, separator));
    }
  }

  lemma QuotedIs(t: string, separator: string)
    ensures InQuotes(t, separator) == separator + ("\"" + (t + "\""))
  {
    assert ['"'] == "\"";
  }

  lemma InThree(a: string, b: string, c: string)
    ensures a + (b + c) == a + b + c
  {
  }

  predicate Quotable(t: string) { '"' !in t && '\\' !in t }

  /** A token that is not dropped at the end of the line. */
  predicate Lasts(t: string) { exists c <- t :: c != '\'' }

  function Raws(t: string): (us: seq<Unit>)
    ensures |us| == |t| && forall i :: 0 <= i < |t| ==> us[i] == Raw(t[i])
  {
    seq(|t|, i requires 0 <= i < |t| => Raw(t[i]))
  }

  lemma {:induction false} RawsMean(t: string)
    ensures UnitsText(Raws(t)) == t && UnitsValue(Raws(t)) == t
  {
    if t != [] {
      RawsMean(t[1..]);
      assert Raws(t)[1..] == Raws(t[1..]);
    }
  }

  /** The word the printer writes for a token after the first. */
  function QuotedWord(t: string): Word { [Quoted('"', Raws(t))] }

  lemma RawsOk(t: string)
    requires Quotable(t)
    ensures forall u <- Raws(t) :: UnitOk(u, ['"'])
    ensures AnyShows(Raws(t)) <==> Lasts(t)
  {
    forall i | 0 <= i < |t|
      ensures UnitOk(Raws(t)[i], ['"'])
      ensures UnitShows(Raws(t)[i]) <==> t[i] != '\''
    {
      assert t[i] in t;
    }
    if Lasts(t) {
      var i :| 0 <= i < |t| && t[i] != '\'';
      assert Raws(t)[i] in Raws(t);
    }
    if AnyShows(Raws(t)) {
      var u :| u in Raws(t) && UnitShows(u);
      var i :| 0 <= i < |t| && Raws(t)[i] == u;
      assert t[i] in t;
    }
  }

  lemma QuotedWordMeans(t: string)
    requires Quotable(t)
    ensures QuotedWord(t) != [] && WordOk(QuotedWord(t)) && " " + WordText(QuotedWord(t)) == InQuotes(t, " ")
    ensures WordValue(QuotedWord(t)) == t
    ensures WordShows(QuotedWord(t)) <==> Lasts(t)
  {
    hide UnitsText, UnitsValue, AnyShows, Lasts, UnitOk, Raws, Quotable;
    RawsMean(t);
    RawsOk(t);
    SingleWord(Quoted('"', Raws(t)));
    assert " " + (['"'] + t + ['"']) == " " + ['"'] + t + ['"'];
  }

  lemma SingleWord(p: Piece)
    ensures WordText([p]) == PieceText(p) && WordValue([p]) == PieceValue(p)
    ensures WordShows([p]) <==> PieceShows(p)
  {
    assert [p][1..] == [];
    assert p in [p];
  }

  /** The printed tail, as a line of the grammar. */
  function TailLine(ts: seq<string>): Line
  {
    if ts == [] then End("") else Cons(" ", QuotedWord(ts[0]), TailLine(ts[1..]))
  }

  /** All tokens, less the last one if it would be dropped. */
  function Kept(ts: seq<string>): seq<string>
  {
    if ts == [] || Lasts(ts[|ts| - 1]) then ts else ts[..|ts| - 1]
  }

  lemma {:induction false} TailLineMeans(ts: seq<string>)
    requires forall t <- ts :: Quotable(t)
    ensures LineOk(TailLine(ts)) && LineText(TailLine(ts)) == QuotedTail(ts, " ")
    ensures LineTokens(TailLine(ts)) == Kept(ts)
  {
    hide WordOk, WordText, WordValue, WordShows, QuotedWord, Lasts, Quotable;
    if ts != [] {
      var w := QuotedWord(ts[0]);
      QuotedWordMeans(ts[0]);
      TailLineMeans(ts[1..]);
      QuotedTailFront(ts, " ");
    }
  }

  // ----- round trip

  /** A first token the printer can write without quotation marks. */
  predicate PlainText(t: string) { t != [] && forall c <- t :: IsPlain(c) }

  predicate Printable(ts: seq<string>)
  {
    ts == [] || (PlainText(ts[0]) && (|ts| == 1 || Lasts(ts[|ts| - 1])))
  }

  /** The word made of unquoted characters standing for themselves. */
  function BareWord(t: string): (w: Word)
    ensures |w| == |t| && forall i :: 0 <= i < |t| ==> w[i] == Bare(Raw(t[i]))
  {
    seq(|t|, i requires 0 <= i < |t| => Bare(Raw(t[i])))
  }

  lemma {:induction false} BareWordText(t: string)
    ensures WordText(BareWord(t)) == t && WordValue(BareWord(t)) == t
  {
    if t != [] {
      BareWordText(t[1..]);
      assert BareWord(t)[1..] == BareWord(t[1..]);
    }
  }

  lemma BareWordMeans(t: string)
    requires PlainText(t)
    ensures BareWord(t) != [] && WordOk(BareWord(t)) && WordShows(BareWord(t))
  {
    forall p | p in BareWord(t)
      ensures PieceOk(p)
    {
      CharactersAre(p.u.c);
    }
    CharactersAre(t[0]);
    assert BareWord(t)[0] in BareWord(t) && PieceShows(BareWord(t)[0]);
  }

  /** The printed line, when the first token is blanks followed by plain characters. */
  lemma FirstTokenRead(lead: string, t: string, ts: seq<string>)
    requires Blank(lead) && PlainText(t) && forall x <- ts :: Quotable(x)
    ensures Split(lead + t + QuotedTail(ts, " ")) == Ok([t] + Kept(ts))
  {
    var tail, w := TailLine(ts), BareWord(t);
    assert tail.Cons? ==> tail.lead != [];
    hide Split, WordOk, WordText, WordValue, WordShows, QuotedTail, Kept, TailLine, PlainText, Quotable, BareWord;
    BareWordText(t);
    BareWordMeans(t);
    TailLineMeans(ts);
    var l := Cons(lead, w, tail);
    assert LineText(l) == lead + t + QuotedTail(ts, " ");
    LineIsRead(l);
  }

  /** The printed line, when the first token is blank: that token is lost. */
  lemma BlankFirstToken(t: string, ts: seq<string>)
    requires Blank(t) && forall x <- ts :: Quotable(x)
    ensures Split(t + QuotedTail(ts, " ")) == Ok(Kept(ts))
  {
    hide *;
    TailLineMeans(ts);
    LineIsRead(TailLine(ts));
    SkipBlank(t, QuotedTail(ts, " "));
    SplitSkips(QuotedTail(ts, " "));
    SplitSkips(t + QuotedTail(ts, " "));
  }

  /** The printed line, when a separator follows the first plain run: the first token read is that run. */
  lemma CutFirstToken(lead: string, t: string, rest: string)
    requires Blank(lead) && PlainText(t) && rest != [] && IsSeparator(rest[0])
    ensures Split(lead + t + rest).Ok? ==> Split(lead + t + rest).value != [] && Split(lead + t + rest).value[0] == t
  {
    hide Split, WordOk, WordText, WordValue, WordShows, PlainText, BareWord, Blank;
    BareWordText(t);
    BareWordMeans(t);
    ReadWordFirst(lead, BareWord(t), rest);
  }

  /** The leading blanks, the plain run after them, and the rest of a text without quotation
      marks and backslashes. */
  lemma {:induction false} FirstRun(t: string) returns (lead: string, run: string, rest: string)
    requires forall c <- t :: IsPlain(c) || IsSeparator(c)
    ensures t == lead + run + rest && Blank(lead) && (forall c <- run :: IsPlain(c))
    ensures rest == [] || (IsSeparator(rest[0]) && run != [])
    decreases |t|
  {
    lead, run, rest := [], [], [];
    if t != [] {
      lead, run, rest := FirstRun(t[1..]);
      assert t == [t[0]] + t[1..];
      if IsSeparator(t[0]) {
        lead := [t[0]] + lead;
      } else if lead == [] {
        run := [t[0]] + run;
      } else {
        CharactersAre(lead[0]);
        lead, run, rest := [], [t[0]], lead + run + rest;
      }
    }
  }

  lemma KeptIsAll(ts: seq<string>)
    ensures Kept(ts) == ts <==> ts == [] || Lasts(ts[|ts| - 1])
    ensures |Kept(ts)| <= |ts|
  {
  }

  lemma LastOfRest(ts: seq<string>)
    requires ts != []
    ensures ts == [ts[0]] + ts[1..]
    ensures |ts| > 1 ==> ts[|ts| - 1] == ts[1..][|ts| - 2]
  {
  }

  lemma PlainHasNoBlank(lead: string, run: string, rest: string)
    requires PlainText(lead + run + rest) && Blank(lead) && (rest == [] || IsSeparator(rest[0]))
    ensures lead == [] && rest == [] && lead + run + rest == run
  {
    InSum(lead, run, rest);
    if lead != [] {
      assert lead[0] in lead;
      CharactersAre(lead[0]);
    }
  }

  lemma InSum(x: string, y: string, z: string)
    ensures x != [] ==> x[0] in x + y + z
    ensures z != [] ==> z[0] in x + y + z
  {
    assert x != [] ==> x[0] == (x + y + z)[0];
    assert z != [] ==> z[0] == (x + y + z)[|x| + |y|];
  }

  /** Tokens free of double quotation marks and backslashes, the first also free of single ones. */
  predicate Unmarked(ts: seq<string>)
  {
    (forall t <- ts :: Quotable(t)) && (ts != [] ==> '\'' !in ts[0])
  }

  lemma UnmarkedRoundTrip(ts: seq<string>)
    requires Unmarked(ts)
    ensures Split(Reconstruct(ts, " ")) == Ok(ts) <==> Printable(ts)
  {
    if ts != [] {
      assert Quotable(ts[0]);
      var lead, run, rest := FirstRun(ts[0]);
      var tail := QuotedTail(ts[1..], " ");
      assert PlainText(run) || (run == [] && rest == []);
      var printable := Printable(ts);
      assert printable == (PlainText(ts[0]) && (|ts| == 1 || Lasts(ts[|ts| - 1])));
      hide Split, QuotedTail, Quotable, Kept, Lasts, Blank, Printable;
      LastOfRest(ts);
      KeptIsAll(ts[1..]);
      if run == [] {
        hide PlainText;
        assert lead + run + rest == lead;
        BlankFirstToken(lead, ts[1..]);
        NotPlain(lead);
      } else {
        if PlainText(ts[0]) {
          PlainHasNoBlank(lead, run, rest);
        }
        hide PlainText;
        if rest == [] {
          assert lead + run + rest == lead + run;
          FirstTokenRead(lead, run, ts[1..]);
          SameFirst(ts, run, Kept(ts[1..]));
        } else {
          assert lead + run + rest + tail == lead + run + (rest + tail);
          CutFirstToken(lead, run, rest + tail);
        }
      }
    }
  }

  lemma NotPlain(t: string)
    requires Blank(t)
    ensures !PlainText(t)
  {
    if t != [] {
      assert t[0] in t;
    }
  }

  lemma SameFirst(ts: seq<string>, t: string, more: seq<string>)
    requires ts != []
    ensures [t] + more == ts <==> t == ts[0] && more == ts[1..]
  {
    assert ([t] + more)[1..] == more;
    assert ts == [ts[0]] + ts[1..];
  }

  // ----- marks are not written back

  /** How often a character occurs. */
  function Count(c: char, s: string): nat
  {
    if s == [] then 0 else (if s[0] == c then 1 else 0) + Count(c, s[1..])
  }

  function Total(c: char, ts: seq<string>): nat
  {
    if ts == [] then 0 else Count(c, ts[0]) + Total(c, ts[1..])
  }

  lemma {:induction false} CountAppend(c: char, a: string, b: string)
    ensures Count(c, a + b) == Count(c, a) + Count(c, b)
  {
    if a == [] {
      assert a + b == b;
    } else {
      assert (a + b)[1..] == a[1..] + b;
      CountAppend(c, a[1..], b);
    }
  }

  lemma {:induction false} CountNone(c: char, s: string)
    ensures Count(c, s) == 0 <==> c !in s
  {
    if s != [] {
      assert s == [s[0]] + s[1..];
      CountNone(c, s[1..]);
    }
  }

  lemma CountOne(c: char, d: char)
    ensures Count(c, [d]) == if c == d then 1 else 0
  {
    assert [d][1..] == [];
  }

  /** How often a mark is written without being meant: as the backslash of an escape, or
      around a quotation. */
  function UnitExtra(c: char, u: Unit): nat { if IsEscape(c) && u.Escaped? then 1 else 0 }

  function UnitsExtra(c: char, us: seq<Unit>): nat
  {
    if us == [] then 0 else UnitExtra(c, us[0]) + UnitsExtra(c, us[1..])
  }

  function PieceExtra(c: char, p: Piece): nat {
    match p
    case Bare(u) => UnitExtra(c, u)
    case Quoted(mark, us) => UnitsExtra(c, us) + if c == mark then 2 else 0
  }

  function WordExtra(c: char, w: Word): nat
  {
    if w == [] then 0 else PieceExtra(c, w[0]) + WordExtra(c, w[1..])
  }

  function LineExtra(c: char, l: Line): nat {
    match l
    case End(_) => 0
    case Cons(_, w, more) => WordExtra(c, w) + LineExtra(c, more)
  }

  predicate IsMark(c: char) { IsQuote(c) || IsEscape(c) }

  lemma CountUnit(c: char, u: Unit)
    requires IsMark(c) && (u.Raw? ==> !IsEscape(u.c))
    ensures Count(c, UnitText(u)) == Count(c, [UnitValue(u)]) + UnitExtra(c, u)
  {
    CountOne(c, u.c);
    CountOne(c, UnitValue(u));
    if u.Escaped? {
      assert UnitText(u)[1..] == [u.c];
    }
  }

  lemma {:induction false} CountUnits(c: char, us: seq<Unit>)
    requires IsMark(c) && forall u <- us :: u.Raw? ==> !IsEscape(u.c)
    ensures Count(c, UnitsText(us)) == Count(c, UnitsValue(us)) + UnitsExtra(c, us)
  {
    if us != [] {
      CountUnit(c, us[0]);
      CountUnits(c, us[1..]);
      hide Count, UnitText, UnitValue, UnitExtra;
      CountAppend(c, UnitText(us[0]), UnitsText(us[1..]));
      CountAppend(c, [UnitValue(us[0])], UnitsValue(us[1..]));
    }
  }

  lemma CountPiece(c: char, p: Piece)
    requires IsMark(c) && PieceOk(p)
    ensures Count(c, PieceText(p)) == Count(c, PieceValue(p)) + PieceExtra(c, p)
  {
    match p
    case Bare(u) => CountUnit(c, u);
    case Quoted(mark, us) =>
      CountUnits(c, us);
      CountOne(c, mark);
      hide Count, UnitsText, UnitsValue, UnitsExtra;
      CountAppend(c, [mark], UnitsText(us));
      CountAppend(c, [mark] + UnitsText(us), [mark]);
  }

  lemma {:induction false} CountWord(c: char, w: Word)
    requires IsMark(c) && WordOk(w)
    ensures Count(c, WordText(w)) == Count(c, WordValue(w)) + WordExtra(c, w)
  {
    if w != [] {
      CountPiece(c, w[0]);
      CountWord(c, w[1..]);
      hide Count, PieceText, PieceValue, PieceExtra;
      CountAppend(c, PieceText(w[0]), WordText(w[1..]));
      CountAppend(c, PieceValue(w[0]), WordValue(w[1..]));
    }
  }

  lemma CountBlank(c: char, s: string)
    requires IsMark(c) && Blank(s)
    ensures Count(c, s) == 0
  {
    CountNone(c, s);
  }

  /** Every mark of a token, and every mark not meant, is written in the line. */
  lemma {:induction false} CountLine(c: char, l: Line)
    requires IsMark(c) && LineOk(l)
    ensures Count(c, LineText(l)) >= Total(c, LineTokens(l)) + LineExtra(c, l)
    decreases l
  {
    hide Count, WordText, WordValue, WordExtra, WordShows, WordOk, Blank;
    match l
    case End(trail) => CountBlank(c, trail);
    case Cons(lead, w, more) =>
      CountBlank(c, lead);
      CountWord(c, w);
      CountLine(c, more);
      CountAppend(c, lead, WordText(w));
      CountAppend(c, lead + WordText(w), LineText(more));
      assert ([WordValue(w)] + LineTokens(more))[1..] == LineTokens(more);
  }

  /** The printer adds double quotation marks only. */
  lemma {:induction false} CountPrinted(c: char, ts: seq<string>)
    requires c == '\'' || c == '\\'
    ensures Count(c, QuotedTail(ts, " ")) == Total(c, ts)
  {
    if ts != [] {
      QuotedTailFront(ts, " ");
      CountPrinted(c, ts[1..]);
      CountQuoted(c, ts[0]);
      hide Count, QuotedTail, InQuotes;
      CountAppend(c, InQuotes(ts[0], " "), QuotedTail(ts[1..], " "));
    }
  }

  lemma CountQuoted(c: char, t: string)
    requires c == '\'' || c == '\\'
    ensures Count(c, InQuotes(t, " ")) == Count(c, t)
  {
    CountOne(c, ' ');
    CountOne(c, '"');
    hide Count;
    CountAppend(c, " ", ['"']);
    CountAppend(c, " " + ['"'], t);
    CountAppend(c, " " + ['"'] + t, ['"']);
  }

  /** A line in which every unit stands for itself, and every quotation is in double marks. */
  predicate PieceIsSimple(p: Piece)
  {
    if p.Bare? then p.u.Raw? else p.mark == '"' && forall u <- p.us :: u.Raw?
  }

  predicate LineIsSimple(l: Line)
  {
    l.Cons? ==> (forall p <- l.w :: PieceIsSimple(p)) && LineIsSimple(l.more)
  }

  lemma {:induction false} SimpleUnits(us: seq<Unit>)
    requires UnitsExtra('\\', us) == 0
    ensures forall u <- us :: u.Raw?
  {
    if us != [] {
      SimpleUnits(us[1..]);
      assert us == [us[0]] + us[1..];
    }
  }

  lemma {:induction false} SimpleWord(w: Word)
    requires WordOk(w) && WordExtra('\\', w) == 0 && WordExtra('\'', w) == 0
    ensures forall p <- w :: PieceIsSimple(p)
  {
    if w != [] {
      SimpleWord(w[1..]);
      if w[0].Quoted? {
        SimpleUnits(w[0].us);
      }
      assert w == [w[0]] + w[1..];
    }
  }

  lemma {:induction false} SimpleLine(l: Line)
    requires LineOk(l) && LineExtra('\\', l) == 0 && LineExtra('\'', l) == 0
    ensures LineIsSimple(l)
    decreases l
  {
    hide WordExtra, WordOk;
    if l.Cons? {
      SimpleWord(l.w);
      SimpleLine(l.more);
    }
  }

  lemma {:induction false} SimpleUnitsQuotable(us: seq<Unit>)
    requires forall u <- us :: u.Raw? && UnitOk(u, ['"'])
    ensures Quotable(UnitsValue(us))
  {
    if us != [] {
      SimpleUnitsQuotable(us[1..]);
      assert us[0] in us;
    }
  }

  lemma {:induction false} SimpleWordQuotable(w: Word)
    requires WordOk(w) && forall p <- w :: PieceIsSimple(p)
    ensures Quotable(WordValue(w))
  {
    if w != [] {
      SimpleWordQuotable(w[1..]);
      assert PieceOk(w[0]) && PieceIsSimple(w[0]);
      if w[0].Quoted? {
        SimpleUnitsQuotable(w[0].us);
      }
    }
  }

  lemma {:induction false} SimpleTokens(l: Line)
    requires LineOk(l) && LineIsSimple(l)
    ensures forall t <- LineTokens(l) :: Quotable(t)
    decreases l
  {
    hide WordOk, WordValue, WordShows, Quotable, PieceIsSimple;
    if l.Cons? {
      SimpleWordQuotable(l.w);
      SimpleTokens(l.more);
    }
  }

  /** A double quotation mark, if any mark, comes first. */
  predicate Guarded(s: string)
  {
    s == [] || s[0] == '"' || (s[0] != '\'' && Guarded(s[1..]))
  }

  lemma {:induction false} GuardedAppend(a: string, b: string)
    requires Guarded(a) && Guarded(b)
    ensures Guarded(a + b)
  {
    if a == [] {
      assert a + b == b;
    } else {
      assert (a + b)[1..] == a[1..] + b;
      if a[0] != '"' {
        GuardedAppend(a[1..], b);
      }
    }
  }

  lemma {:induction false} GuardedBlank(s: string)
    requires Blank(s)
    ensures Guarded(s)
  {
    if s != [] {
      assert s[0] in s;
      GuardedBlank(s[1..]);
    }
  }

  lemma GuardedPiece(p: Piece)
    requires PieceOk(p) && PieceIsSimple(p)
    ensures Guarded(PieceText(p))
  {
    if p.Bare? {
      assert PieceText(p)[1..] == [];
    }
  }

  lemma {:induction false} GuardedWord(w: Word)
    requires WordOk(w) && forall p <- w :: PieceIsSimple(p)
    ensures Guarded(WordText(w))
  {
    hide PieceOk, PieceIsSimple, PieceText, Guarded;
    if w == [] {
      GuardedBlank([]);
    } else {
      GuardedPiece(w[0]);
      GuardedWord(w[1..]);
      GuardedAppend(PieceText(w[0]), WordText(w[1..]));
    }
  }

  lemma {:induction false} GuardedLine(l: Line)
    requires LineOk(l) && LineIsSimple(l)
    ensures Guarded(LineText(l))
    decreases l
  {
    hide WordOk, WordText, Guarded, PieceIsSimple, Blank;
    match l
    case End(trail) => GuardedBlank(trail);
    case Cons(lead, w, more) =>
      GuardedBlank(lead);
      GuardedWord(w);
      GuardedLine(more);
      GuardedAppend(lead, WordText(w));
      GuardedAppend(lead + WordText(w), LineText(more));
  }

  lemma {:induction false} GuardedPrefix(a: string, b: string)
    requires Guarded(a + b) && '"' !in a
    ensures '\'' !in a
  {
    if a != [] {
      assert (a + b)[1..] == a[1..] + b && (a + b)[0] == a[0];
      GuardedPrefix(a[1..], b);
      assert a == [a[0]] + a[1..];
    }
  }

  lemma CountReconstructed(c: char, ts: seq<string>)
    requires c == '\'' || c == '\\'
    ensures Count(c, Reconstruct(ts, " ")) == Total(c, ts)
  {
    if ts != [] {
      CountPrinted(c, ts[1..]);
      hide Count, QuotedTail;
      CountAppend(c, ts[0], QuotedTail(ts[1..], " "));
    }
  }

  /** Tokens that are read back hold no mark the printer would have had to escape. */
  lemma ReadBackIsUnmarked(ts: seq<string>)
    requires Split(Reconstruct(ts, " ")) == Ok(ts)
    ensures Unmarked(ts)
  {
    var text := Reconstruct(ts, " ");
    hide *;
    var l := AcceptedIsALine(text);
    LineIsRead(l);
    LineIsClean(l, ts);
    SimpleTokens(l);
    GuardedLine(l);
    FirstIsUnmarked(ts);
  }

  lemma LineIsClean(l: Line, ts: seq<string>)
    requires LineOk(l) && LineText(l) == Reconstruct(ts, " ") && LineTokens(l) == ts
    ensures LineIsSimple(l)
  {
    hide *;
    CountLine('\'', l) by { MarksAre(); }
    CountLine('\\', l) by { MarksAre(); }
    CountReconstructed('\'', ts);
    CountReconstructed('\\', ts);
    SimpleLine(l);
  }

  lemma MarksAre()
    ensures IsMark('\'') && IsMark('\\')
  {
  }

  lemma FirstIsUnmarked(ts: seq<string>)
    requires (forall t <- ts :: Quotable(t)) && Guarded(Reconstruct(ts, " "))
    ensures Unmarked(ts)
  {
    if ts != [] {
      assert Quotable(ts[0]);
      GuardedPrefix(ts[0], QuotedTail(ts[1..], " "));
    }
  }

  /** Splitting what the printer wrote gives the tokens back if and only if no token has a double
      quotation mark or a backslash, the first is non-empty without single marks and separators,
      and the last, if another one, has a character other than a single mark. */
  lemma PrintSplitRoundTrip(ts: seq<string>)
    ensures Split(Reconstruct(ts, " ")) == Ok(ts) <==> Unmarked(ts) && Printable(ts)
  {
    hide *;
    if Split(Reconstruct(ts, " ")) == Ok(ts) {
      ReadBackIsUnmarked(ts);
    }
    if Unmarked(ts) {
      UnmarkedRoundTrip(ts);
    }
  }

  /** A last word in which nothing shows, such as two quotation marks or an escaped character, is
      a token exactly when a separator follows it. */
  lemma TrailingSeparatorMatters(w: Word)
    requires w != [] && WordOk(w) && !WordShows(w)
    ensures Split(WordText(w)) == Ok([])
    ensures Split(WordText(w) + " ") == Ok([WordValue(w)])
  {
    var bare, spaced := Cons("", w, End("")), Cons("", w, End(" "));
    hide Split, WordText, WordValue;
    assert LineText(bare) == WordText(w) && LineText(spaced) == WordText(w) + " ";
    LineIsRead(bare);
    LineIsRead(spaced);
    assert [WordValue(w)] + [] == [WordValue(w)];
  }
}
