/** The command lines that the tokenizer refuses, by a grammar of their own, one for each error. */
module CommandErrors {
  import opened CommandLines

  /** A line that breaks off: complete words, a quotation that is still open, if any, and what is wrong. */
  datatype Broken = Broken(front: Line, open: string, us: seq<Unit>, fault: string)

  /** The end of the line in a quotation, a backslash at the end of the line, or one before a character
      that it cannot stand before. */
  predicate FaultIs(fault: string, open: string, e: Error) {
    match e
    case UnmatchedQuotes => open != "" && fault == ""
    case UnexpectedEndOfEscape => fault == "\\"
    case UnexpectedEscape => |fault| >= 2 && fault[0] == '\\' && !IsOneOf(fault[1], "n \t'\"\\")
  }

  predicate OpenOk(open: string, us: seq<Unit>) {
    (open == "" && us == []) || (open in {"'", "\""} && forall u <- us :: UnitOk(u, open))
  }

  predicate BrokenOk(b: Broken, e: Error) { LineOk(b.front) && OpenOk(b.open, b.us) && FaultIs(b.fault, b.open, e) }

  function TailText(open: string, us: seq<Unit>, fault: string): string { open + (UnitsText(us) + fault) }

  function BrokenText(b: Broken): string { LineText(b.front) + TailText(b.open, b.us, b.fault) }

  // ----- such a line is refused so

  lemma FaultCollects(fault: string, open: string, e: Error, tok: string, shown: bool)
    requires FaultIs(fault, open, e) && |open| <= 1
    ensures Collect(fault, open, tok, shown) == Bad(e)
  {
    if e == UnexpectedEscape {
      CharactersAre(fault[1]);
    }
  }

  lemma TailCollects(open: string, us: seq<Unit>, fault: string, e: Error, tok: string, shown: bool)
    requires OpenOk(open, us) && FaultIs(fault, open, e)
    ensures Collect(TailText(open, us, fault), [], tok, shown) == Bad(e)
    ensures TailText(open, us, fault) != "" && !IsSeparator(TailText(open, us, fault)[0])
  {
    hide Collect, FaultIs, UnitOk;
    if open == "" {
      NoUnits(fault);
      FaultCollects(fault, open, e, tok, shown);
      FaultStarts(fault, e);
    } else {
      ReadMark(open[0], [], UnitsText(us) + fault, tok, shown);
      ReadUnits(us, open, fault, tok, shown);
      FaultCollects(fault, open, e, tok + UnitsValue(us), shown || AnyShows(us));
      assert open == [open[0]];
    }
  }

  lemma FaultStarts(fault: string, e: Error)
    requires FaultIs(fault, "", e)
    ensures fault != "" && fault[0] == '\\'
  {
  }

  lemma NoUnits(fault: string)
    ensures TailText("", [], fault) == fault
  {
  }

  lemma BadSplit(s: string, e: Error)
    requires s != "" && !IsSeparator(s[0]) && Collect(s, [], [], false) == Bad(e)
    ensures Split(s) == Err(e)
  {
    assert SkipSeparators(s) == s;
  }

  lemma {:induction false} BrokenIsRefused(l: Line, x: string, e: Error)
    requires LineOk(l) && x != "" && !IsSeparator(x[0])
    requires forall tok, shown :: Collect(x, [], tok, shown) == Bad(e)
    ensures Split(LineText(l) + x) == Err(e)
    decreases l
  {
    hide WordText, WordValue, WordShows, WordOk, Collect;
    match l
    case End(trail) =>
      SkipBlank(trail, x);
      BadSplit(x, e);
      SplitSkips(trail + x);
      SplitSkips(x);
      hide Split;
    case Cons(lead, w, more) =>
      var rest := LineText(more) + x;
      assert LineText(l) + x == lead + WordText(w) + rest;
      if more == End("") {
        assert rest == x;
        WordThenBad(lead, w, x, e);
      } else {
        RestStarts(more, x);
        hide Split;
        ReadWordFirst(lead, w, rest);
        BrokenIsRefused(more, x, e);
        SplitSkipsOne(rest);
      }
  }

  lemma RestStarts(l: Line, x: string)
    requires LineOk(l) && l != End("") && (l.Cons? ==> l.lead != [])
    ensures LineText(l) + x != "" && IsSeparator((LineText(l) + x)[0])
  {
    hide WordText, WordOk;
    var first := if l.Cons? then l.lead[0] else l.trail[0];
    CharactersAre(first);
    assert (LineText(l) + x)[0] == first;
  }

  lemma WordThenBad(lead: string, w: Word, x: string, e: Error)
    requires Blank(lead) && w != [] && WordOk(w) && x != ""
    requires forall tok, shown :: Collect(x, [], tok, shown) == Bad(e)
    ensures Split(lead + WordText(w) + x) == Err(e)
  {
    hide WordText, WordValue, WordShows, WordOk, Collect;
    var s := lead + WordText(w) + x;
    assert s == lead + (WordText(w) + x);
    SkipBlank(lead, WordText(w) + x);
    WordStarts(w, x);
    ReadWord(w, x, [], false);
  }

  // ----- every refused line is such a one

  /** Where a collection breaks: in the quotation open at its start, or after it. */
  datatype Break = Inside(us: seq<Unit>, fault: string)
                 | Outside(us: seq<Unit>, w: Word, open: string, more: seq<Unit>, fault: string)

  predicate BreakOk(b: Break, quote: string, e: Error)
    requires |quote| <= 1
  {
    match b
    case Inside(us, fault) => OpenOk(quote, us) && quote != "" && FaultIs(fault, quote, e)
    case Outside(us, w, open, more, fault) =>
      RemainingOk(us, quote, w) && OpenOk(open, more) && FaultIs(fault, open, e)
  }

  function BreakText(b: Break, quote: string): string {
    match b
    case Inside(us, fault) => UnitsText(us) + fault
    case Outside(us, w, open, more, fault) => Remaining(us, quote, w) + TailText(open, more, fault)
  }

  /** The collection breaks at once. */
  lemma BreaksHere(s: string, quote: string, e: Error) returns (b: Break)
    requires |quote| <= 1 && (quote == [] || quote in {"'", "\""})
    requires FaultIs(s, quote, e)
    ensures BreakOk(b, quote, e) && BreakText(b, quote) == s
  {
    if quote == "" {
      b := Outside([], [], "", [], s);
      BareRemaining([]);
      assert "" + s == s;
    } else {
      b := Inside([], s);
      assert "" + s == s;
    }
  }

  lemma UnitBreaks(u: Unit, quote: string, b: Break, e: Error) returns (b': Break)
    requires |quote| <= 1 && UnitOk(u, quote) && BreakOk(b, quote, e)
    ensures BreakOk(b', quote, e) && BreakText(b', quote) == UnitText(u) + BreakText(b, quote)
  {
    hide UnitOk, UnitText, UnitsText, WordText, WordOk, FaultIs;
    match b
    case Inside(us, fault) =>
      b' := Inside([u] + us, fault);
      ConsText(u, us);
      assert UnitText(u) + UnitsText(us) + fault == UnitText(u) + (UnitsText(us) + fault);
    case Outside(us, w, open, more, fault) =>
      hide Remaining, RemainingOk, OpenOk, TailText;
      var us', w' := UnitMore(u, quote, us, w);
      b' := Outside(us', w', open, more, fault);
      var x := TailText(open, more, fault);
      assert UnitText(u) + Remaining(us, quote, w) + x == UnitText(u) + (Remaining(us, quote, w) + x);
  }

  lemma QuoteBreaks(mark: string, b: Break, e: Error) returns (b': Break)
    requires mark in {"'", "\""} && BreakOk(b, mark, e)
    ensures BreakOk(b', "", e) && BreakText(b', "") == mark + BreakText(b, mark)
  {
    hide UnitOk, UnitsText, WordText, FaultIs;
    match b
    case Inside(us, fault) =>
      b' := Outside([], [], mark, us, fault);
      NoneRemains();
      assert "" + (mark + (UnitsText(us) + fault)) == mark + (UnitsText(us) + fault);
    case Outside(us, w, open, more, fault) =>
      hide TailText, OpenOk;
      b' := Outside([], [Quoted(mark[0], us)] + w, open, more, fault);
      QuoteText(mark[0], us, w);
      hide Remaining;
      assert mark == [mark[0]];
      var x := TailText(open, more, fault);
      assert mark + Remaining(us, mark, w) + x == mark + (Remaining(us, mark, w) + x);
  }

  lemma NoneRemains()
    ensures Remaining([], [], []) == "" && RemainingOk([], [], [])
  {
    BareRemaining([]);
  }

  lemma CloseBreaks(mark: string, b: Break, e: Error) returns (b': Break)
    requires mark in {"'", "\""} && BreakOk(b, "", e)
    ensures BreakOk(b', mark, e) && BreakText(b', mark) == mark + BreakText(b, "")
  {
    hide UnitOk, UnitsText, WordText, FaultIs, TailText, OpenOk;
    b' := b;
    AfterQuote(b.us, b.w, mark);
    BareRemaining(b.w);
    assert Remaining([], mark, b.w) == mark + WordText(b.w) by {
      assert UnitsText([]) + mark == mark by { NoText(); }
    }
    hide Remaining;
    var x := TailText(b.open, b.more, b.fault);
    assert mark + WordText(b.w) + x == mark + (WordText(b.w) + x);
  }

  lemma NoText()
    ensures UnitsText([]) == ""
  {
  }

  /** A unit at the front of a text whose collection goes on after it. */
  lemma GoodUnit(s: string, quote: string, tok: string, shown: bool, e: Error) returns (u: Unit)
    requires s != [] && |quote| <= 1 && Collect(s, quote, tok, shown) == Bad(e)
    requires quote == [] ==> !IsSeparator(s[0]) && !IsQuote(s[0])
    requires quote != [s[0]] && !FaultIs(s, quote, e)
    ensures UnitOk(u, quote) && UnitText(u) <= s
    ensures Collect(s[|UnitText(u)|..], quote, tok + [UnitValue(u)], shown || UnitShows(u)) == Bad(e)
  {
    if IsEscape(s[0]) && |s| > 1 {
      CharactersAre(s[1]);
    } else {
      CharactersAre(s[0]);
    }
    u := if IsEscape(s[0]) then Escaped(s[1]) else Raw(s[0]);
    assert s == UnitText(u) + s[|UnitText(u)|..];
  }

  lemma {:induction false} CollectionBreaks(s: string, quote: string, tok: string, shown: bool, e: Error)
    returns (b: Break)
    requires |quote| <= 1 && (quote == [] || quote in {"'", "\""})
    requires Collect(s, quote, tok, shown) == Bad(e)
    ensures BreakOk(b, quote, e) && BreakText(b, quote) == s
    decreases |s|
  {
    hide BreakOk, BreakText, UnitOk, UnitValue, UnitShows, FaultIs, UnitText;
    if FaultIs(s, quote, e) {
      b := BreaksHere(s, quote, e);
      return;
    }
    EndIsFault(s, quote, tok, shown, e);
    assert s == [s[0]] + s[1..];
    if quote == [] && IsQuote(s[0]) {
      var b0 := CollectionBreaks(s[1..], [s[0]], tok, shown, e);
      b := QuoteBreaks([s[0]], b0, e);
    } else if quote == [s[0]] {
      var b0 := CollectionBreaks(s[1..], [], tok, shown, e);
      b := CloseBreaks(quote, b0, e);
    } else {
      var u := GoodUnit(s, quote, tok, shown, e);
      UnitIsText(u);
      var b0 := CollectionBreaks(s[|UnitText(u)|..], quote, tok + [UnitValue(u)], shown || UnitShows(u), e);
      b := UnitBreaks(u, quote, b0, e);
      assert s == UnitText(u) + s[|UnitText(u)|..];
    }
  }

  lemma EndIsFault(s: string, quote: string, tok: string, shown: bool, e: Error)
    requires |quote| <= 1 && Collect(s, quote, tok, shown) == Bad(e)
    ensures s == [] ==> FaultIs(s, quote, e)
  {
  }

  lemma UnitIsText(u: Unit)
    ensures UnitText(u) != ""
  {
  }

  lemma {:induction false} RefusedIsBroken(s: string, e: Error) returns (b: Broken)
    requires Split(s) == Err(e)
    ensures BrokenOk(b, e) && BrokenText(b) == s
    decreases |s|
  {
    hide Collect, Split, SkipSeparators, WordOk, WordText, BrokenOk, BrokenText, BreakOk, BreakText;
    var lead := LeadIsBlank(s);
    SkipShortens(s);
    var t := SkipSeparators(s);
    RefusedStarts(s, e);
    var r := Collect(t, [], [], false);
    if r.Bad? {
      var k := CollectionBreaks(t, [], [], false, e);
      b := BreaksInWord(lead, k, e);
    } else {
      var w := FirstWordIsWritten(t);
      var b0 := RefusedIsBroken(r.rest, e);
      b := BreaksLater(s, lead, w, r, b0, e);
    }
  }

  lemma RefusedStarts(s: string, e: Error)
    requires Split(s) == Err(e)
    ensures
      var t := SkipSeparators(s);
      && t != [] && !IsSeparator(t[0]) && |t| <= |s|
      && var r := Collect(t, [], [], false);
         (r.Bad? && r.error == e) || (r.Separated? && |r.rest| < |t| && Split(r.rest) == Err(e))
  {
    SkipShortens(s);
    hide Collect;
  }

  lemma BreaksInWord(lead: string, k: Break, e: Error) returns (b: Broken)
    requires Blank(lead) && BreakOk(k, "", e)
    ensures BrokenOk(b, e) && BrokenText(b) == lead + BreakText(k, "")
  {
    hide WordText, WordOk, TailText, FaultIs, OpenOk;
    var x := TailText(k.open, k.more, k.fault);
    BareRemaining(k.w);
    NoneRemains();
    var l: Line;
    if k.w == [] {
      l := End(lead);
      assert "" + x == x;
    } else {
      l := LastWord(lead, k.w);
      assert lead + WordText(k.w) + x == lead + (WordText(k.w) + x);
    }
    b := Broken(l, k.open, k.more, k.fault);
  }

  lemma BreaksLater(s: string, lead: string, w: Word, r: Collected, b0: Broken, e: Error) returns (b: Broken)
    requires Blank(lead) && w != [] && WordOk(w) && r.Separated? && BrokenOk(b0, e) && BrokenText(b0) == r.rest
    requires s == lead + SkipSeparators(s) && TakenFrom(SkipSeparators(s), r, WordText(w))
    ensures BrokenOk(b, e) && BrokenText(b) == s
  {
    hide WordText, WordOk, TailText, FaultIs, OpenOk, LineOk, LineText;
    var x, more := TailText(b0.open, b0.us, b0.fault), LineText(b0.front);
    var c :| IsSeparator(c) && SkipSeparators(s) == WordText(w) + [c] + r.rest;
    hide TakenFrom, SkipSeparators;
    InParts(lead, WordText(w), [c], more, x);
    var l := FrontWord(lead + (WordText(w) + [c] + more), lead, w, more, b0.front);
    b := b0.(front := l);
  }

  lemma InParts(lead: string, w: string, c: string, more: string, x: string)
    ensures lead + (w + c + (more + x)) == lead + (w + c + more) + x
  {
  }

  /** Each error exactly on the lines that break in its way: the end of the line in a quotation, a
      backslash at the end, and a backslash before a character that cannot be escaped. */
  lemma ErrorsAreExact(s: string, e: Error)
    ensures Split(s) == Err(e) <==> exists b :: BrokenOk(b, e) && BrokenText(b) == s
  {
    hide Split, BrokenOk, BrokenText;
    if Split(s) == Err(e) {
      var b := RefusedIsBroken(s, e);
    }
    if b :| BrokenOk(b, e) && BrokenText(b) == s {
      BrokenRefused(b, e);
    }
  }

  lemma BrokenRefused(b: Broken, e: Error)
    requires BrokenOk(b, e)
    ensures Split(BrokenText(b)) == Err(e)
  {
    hide Split, Collect, TailText, FaultIs, OpenOk, LineOk, LineText;
    var x := TailText(b.open, b.us, b.fault);
    forall tok, shown
      ensures Collect(x, [], tok, shown) == Bad(e)
    {
      TailCollects(b.open, b.us, b.fault, e, tok, shown);
    }
    TailCollects(b.open, b.us, b.fault, e, [], false);
    BrokenIsRefused(b.front, x, e);
  }
}
