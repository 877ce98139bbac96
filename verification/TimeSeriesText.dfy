/** A time series as one line of a definition file, and back: the definition, then after
    `#` the state of a started series. */
module TimeSeriesText {
  import opened TimeSlots
  import opened TimeSeriesModel
  import opened Splitters
  import opened Wrappers
  import opened Decimals

  // ----- writing

  function SlotText(t: TimeSlot): string {
    if t.IsNull() || t.h < 0 || t.m < 0 then "00:00"
    else TwoDigits(t.h) + ":" + TwoDigits(t.m)
  }

  function Hms(n: nat): string {
    TwoDigits(n / 3600) + ":" + TwoDigits(n / 60 % 60) + ":" + TwoDigits(n % 60)
  }

  /** A duration in seconds as hours, minutes and seconds. */
  function DurationText(seconds: int): string {
    if seconds < 0 then "-" + Hms(-seconds) else Hms(seconds)
  }

  function DefinitionTokens(s: Series): seq<string> {
    [(if s.relative then "+" else "") + SlotText(s.start)]
    + if s.HasIncrement() then [SlotText(s.finish), SlotText(s.incr)] else []
  }

  predicate HasState(s: Series, free: bool) {
    free || !s.valid || s.next != s.start || s.relDuration != 0
  }

  function Maybe(present: bool, token: string): seq<string> {
    if present then [token] else []
  }

  function StateTokens(s: Series, free: bool): seq<string> {
    if !HasState(s, free) then []
    else
      ["#"]
      + Maybe(free, "free")
      + Maybe(!s.valid, "isValid:false")
      + Maybe(s.next != s.start, "nextTimeSlot/" + SlotText(s.next))
      + Maybe(s.relDuration != 0, "relativeDuration/" + DurationText(s.relDuration))
  }

  /** Each token with a space before it. */
  function Spaced(ts: seq<string>): string {
    if ts == [] then "" else " " + ts[0] + Spaced(ts[1..])
  }

  lemma {:induction false} SpacedAppend(a: seq<string>, b: seq<string>)
    ensures Spaced(a + b) == Spaced(a) + Spaced(b)
  {
    if a == [] {
      assert a + b == b;
    } else {
      assert (a + b)[1..] == a[1..] + b;
      SpacedAppend(a[1..], b);
    }
  }

  lemma SpacedOne(a: seq<string>, t: string)
    ensures Spaced(a + [t]) == Spaced(a) + " " + t
  {
    SpacedAppend(a, [t]);
    assert Spaced([t]) == " " + t;
  }

  /** The line printed for a started series. */
  function Line(s: Series, free: bool): string {
    var def := DefinitionTokens(s);
    def[0] + Spaced(def[1..]) + Spaced(StateTokens(s, free))
  }

  /** Appending a space and a token to a text that ends in spaced tokens. */
  lemma AppendToken(ret: string, ts: seq<string>, t: string)
    ensures ret + Spaced(ts) + (" " + t) == ret + Spaced(ts + [t])
  {
    hide Spaced;
    SpacedOne(ts, t);
    Assoc(Spaced(ts), " ", t);
    Assoc(ret, Spaced(ts), " " + t);
  }

  method Write(s: Series, ret: string) returns (out: string)
    ensures out == ret + DefinitionTokens(s)[0] + Spaced(DefinitionTokens(s)[1..])
  {
    hide Spaced, SlotText;
    out := ret;
    if s.relative {
      out := out + "+";
    }
    out := out + SlotText(s.start);
    ghost var head := ret + DefinitionTokens(s)[0];
    assert out == head;
    NoneSpaced();
    if !s.finish.IsNull() {
      var was := out;
      out := out + " ";
      out := out + SlotText(s.finish);
      AppendToken(head, [], SlotText(s.finish));
      assert out == head + Spaced([]) + (" " + SlotText(s.finish));
      out := out + " ";
      out := out + SlotText(s.incr);
      AppendToken(head, [] + [SlotText(s.finish)], SlotText(s.incr));
      assert out == head + Spaced([] + [SlotText(s.finish)]) + (" " + SlotText(s.incr));
      assert DefinitionTokens(s)[1..] == [] + [SlotText(s.finish)] + [SlotText(s.incr)];
    }
  }

  lemma NoneSpaced()
    ensures Spaced([]) == ""
  {
  }

  lemma AppendMaybe(ret: string, ts: seq<string>, present: bool, token: string)
    ensures present ==> ret + Spaced(ts) + (" " + token) == ret + Spaced(ts + Maybe(present, token))
    ensures !present ==> ts + Maybe(present, token) == ts
  {
    hide Spaced;
    AppendToken(ret, ts, token);
  }

  method WriteState(s: Series, ret: string, isFree: bool) returns (out: string)
    ensures out == ret + Spaced(StateTokens(s, isFree))
  {
    hide Spaced, SlotText, DurationText, Maybe;
    out := ret;
    var nextTimeSlotChanged := s.next != s.start;
    var relativeDurationChanged := s.relDuration != 0;
    NoneSpaced();
    if isFree || !s.valid || nextTimeSlotChanged || relativeDurationChanged {
      AppendToken(ret, [], "#");
      ghost var ts := ["#"];
      assert [] + ["#"] == ts;
      out := out + " #";
      AppendMaybe(ret, ts, isFree, "free");
      ts := ts + Maybe(isFree, "free");
      if isFree {
        out := out + " free";
      }
      assert out == ret + Spaced(ts);
      AppendMaybe(ret, ts, !s.valid, "isValid:false");
      ts := ts + Maybe(!s.valid, "isValid:false");
      if !s.valid {
        out := out + " isValid:false";
      }
      assert out == ret + Spaced(ts);
      out := WriteChanged(s, out, ret, ts, nextTimeSlotChanged, relativeDurationChanged);
    }
  }

  /** The two state tokens that carry a value. */
  method WriteChanged(s: Series, before: string, ghost ret: string, ghost flags: seq<string>,
                      nextTimeSlotChanged: bool, relativeDurationChanged: bool) returns (out: string)
    requires before == ret + Spaced(flags)
    ensures out == ret + Spaced(flags
      + Maybe(nextTimeSlotChanged, "nextTimeSlot/" + SlotText(s.next))
      + Maybe(relativeDurationChanged, "relativeDuration/" + DurationText(s.relDuration)))
  {
    hide Spaced, SlotText, DurationText, Maybe;
    assert " nextTimeSlot/" == " " + "nextTimeSlot/";
    assert " relativeDuration/" == " " + "relativeDuration/";
    out := before;
    AppendMaybe(ret, flags, nextTimeSlotChanged, "nextTimeSlot/" + SlotText(s.next));
    PrefixedToken(out, "nextTimeSlot/", SlotText(s.next));
    ghost var ts := flags + Maybe(nextTimeSlotChanged, "nextTimeSlot/" + SlotText(s.next));
    if nextTimeSlotChanged {
      out := out + " nextTimeSlot/";
      out := out + SlotText(s.next);
    }
    assert out == ret + Spaced(ts);
    AppendMaybe(ret, ts, relativeDurationChanged, "relativeDuration/" + DurationText(s.relDuration));
    PrefixedToken(out, "relativeDuration/", DurationText(s.relDuration));
    if relativeDurationChanged {
      out := out + " relativeDuration/";
      out := out + DurationText(s.relDuration);
    }
  }

  lemma PrefixedToken(out: string, name: string, value: string)
    ensures out + (" " + name) + value == out + (" " + (name + value))
  {
    Assoc(" ", name, value);
    Assoc(out, " " + name, value);
  }

  // ----- reading

  datatype Outcome<+T> = Got(value: T) | Thrown

  /** The text after the first separator. */
  function SplitGetSecond(s: string, separator: char): Option<string> {
    var i := FindOf(s, [separator], 0);
    if i == |s| then None else Some(s[i + 1..])
  }

  predicate OccursAt(s: string, p: string, i: nat) {
    i + |p| <= |s| && s[i..i + |p|] == p
  }

  predicate Contains(s: string, p: string) {
    exists i :: 0 <= i <= |s| && OccursAt(s, p, i)
  }

  function GetTime(time: string, checkTime: bool): Outcome<TimeSlot> {
    var colon := FindOf(time, ":", 0);
    if colon == |time| then Thrown
    else
      var theHour := if time[0] == '+' then time[1..colon] else time[..colon];
      var theMin := time[colon + 1..];
      if (checkTime && |theHour| != 2) || |theMin| != 2 then Thrown
      else match (ParseInt(theHour), ParseInt(theMin))
        case (Some(h), Some(m)) =>
          if checkTime && !(0 <= h <= 23 && 0 <= m <= 59) then Thrown
          else Got(TimeSlot(h, m))
        case _ => Thrown
  }

  function HmsValue(t: string): Outcome<int> {
    var i := FindOf(t, ":", 0);
    if i == |t| then Thrown
    else
      var j := FindOf(t, ":", i + 1);
      if j == |t| then Thrown
      else match (ParseInt(t[..i]), ParseInt(t[i + 1..j]), ParseInt(t[j + 1..]))
        case (Some(h), Some(m), Some(sec)) => Got(3600 * h + 60 * m + sec)
        case _ => Thrown
  }

  /** Hours, minutes and seconds, with an optional minus sign. */
  function DurationFromText(s: string): Outcome<int> {
    if s != [] && s[0] == '-' then
      match HmsValue(s[1..])
      case Got(n) => Got(-n)
      case Thrown => Thrown
    else HmsValue(s)
  }

  /** The effect of one token after `#` on the series being read. */
  function ReadToken(token: string, ts: Series): Outcome<Series> {
    if token == "isValid:false" then Got(ts.(valid := false))
    else
      var afterNext :=
        if Contains(token, "nextTimeSlot") then
          match SplitGetSecond(token, '/')
          case None => Thrown
          case Some(text) =>
            match GetTime(text, false)
            case Thrown => Thrown
            case Got(t) => if t.h >= 0 && t.m >= 0 then Got(ts.(next := t)) else Thrown
        else Got(ts);
      if afterNext.Thrown? then Thrown
      else if Contains(token, "relativeDuration") then
        match SplitGetSecond(token, '/')
        case None => Thrown
        case Some(text) =>
          match DurationFromText(text)
          case Thrown => Thrown
          case Got(d) => Got(afterNext.value.(relDuration := d))
      else afterNext
  }

  /** Reading the tokens from `i` on; `found` tells whether a `#` has been seen. */
  function StateFrom(tokens: seq<string>, i: nat, found: bool, ts: Series): Outcome<Series>
    requires i <= |tokens|
    decreases |tokens| - i
  {
    if i == |tokens| then Got(ts)
    else
      var r := if found then ReadToken(tokens[i], ts) else Got(ts);
      if r.Thrown? then Thrown
      else StateFrom(tokens, i + 1, found || tokens[i] == "#", r.value)
  }

  method ParseState(index: nat, tokens: seq<string>, ts: Series) returns (r: Outcome<Series>)
    requires index <= |tokens|
    ensures r == StateFrom(tokens, index, false, ts)
  {
    var commentFound := false;
    var state := ts;
    var i := index;
    while i < |tokens|
      invariant index <= i <= |tokens|
      invariant StateFrom(tokens, i, commentFound, state) == StateFrom(tokens, index, false, ts)
    {
      var token := tokens[i];
      ghost var before := state;
      if commentFound {
        var read := ReadToken(token, state);
        if read.Thrown? {
          return Thrown;
        }
        state := read.value;
      }
      if token == "#" {
        commentFound := true;
      }
      i := i + 1;
    }
    return Got(state);
  }

  function FromResult(r: Result<Series>): Outcome<Series> {
    match r
    case Ok(s) => Got(s)
    case Err(_) => Thrown
  }

  /** Building a series from the tokens of a line, at `index`. */
  function Create(index: nat, tokens: seq<string>, readState: bool): Outcome<Series>
    requires index < |tokens| && forall k :: 0 <= k < |tokens| ==> tokens[k] != []
  {
    var relative := tokens[index][0] == '+';
    var startStr := if relative then tokens[index][1..] else tokens[index];
    match GetTime(startStr, true)
    case Thrown => Thrown
    case Got(start) =>
      var i := index + 1;
      if i < |tokens| && tokens[i][0] != '#' then
        if i + 1 >= |tokens| then Thrown
        else
          var finish, incr := GetTime(tokens[i], true), GetTime(tokens[i + 1], true);
          if finish.Thrown? || incr.Thrown? then Thrown
          else
            match FromResult(FreshSeries(start, finish.value, incr.value, relative))
            case Thrown => Thrown
            case Got(ts) => if readState then StateFrom(tokens, i + 1, false, ts) else Got(ts)
      else
        match FromResult(FreshSingle(start, relative))
        case Thrown => Thrown
        case Got(ts) => if readState then StateFrom(tokens, i, false, ts) else Got(ts)
  }

  /** The program's equality of series: state and definition, not the remembered requeue time. */
  predicate SameSeries(a: Series, b: Series) {
    && a.valid == b.valid && a.next == b.next && a.relDuration == b.relDuration
    && a.relative == b.relative && a.start == b.start && a.finish == b.finish && a.incr == b.incr
  }

  // ----- the pieces read back

  lemma FindAt(s: string, d: string, from: nat, i: nat)
    requires from <= i < |s| && s[i] in d && forall k :: from <= k < i ==> s[k] !in d
    ensures FindOf(s, d, from) == i
  {
  }

  lemma SlotRoundTrip(t: TimeSlot)
    requires t.Proper()
    ensures GetTime(SlotText(t), false) == Got(t)
    ensures t.InDay() ==> GetTime(SlotText(t), true) == Got(t)
  {
    var h, m := TwoDigits(t.h), TwoDigits(t.m);
    var s := SlotText(t);
    FindAt(s, ":", 0, |h|);
    assert s[..|h|] == h;
    assert s[|h| + 1..] == m;
    TwoDigitsRoundTrip(t.h);
    TwoDigitsRoundTrip(t.m);
  }

  lemma HmsSplits(n: nat)
    ensures
      var t := Hms(n);
      var h, m, sec := TwoDigits(n / 3600), TwoDigits(n / 60 % 60), TwoDigits(n % 60);
      var j := |h| + 1 + |m|;
      && j + 1 <= |t|
      && FindOf(t, ":", 0) == |h| && FindOf(t, ":", |h| + 1) == j
      && t[..|h|] == h && t[|h| + 1..j] == m && t[j + 1..] == sec
      && t[0] != '-'
  {
    hide TwoDigits;
    var t := Hms(n);
    var h, m := TwoDigits(n / 3600), TwoDigits(n / 60 % 60);
    FindAt(t, ":", 0, |h|);
    FindAt(t, ":", |h| + 1, |h| + 1 + |m|);
  }

  lemma HmsRoundTrip(n: nat)
    ensures HmsValue(Hms(n)) == Got(n) && Hms(n) != [] && Hms(n)[0] != '-'
  {
    HmsSplits(n);
    HmsParts(n);
    hide TwoDigits, ParseInt, Hms, FindOf;
  }

  lemma HmsParts(n: nat)
    ensures ParseInt(TwoDigits(n / 3600)) == Some(n / 3600)
    ensures ParseInt(TwoDigits(n / 60 % 60)) == Some(n / 60 % 60)
    ensures ParseInt(TwoDigits(n % 60)) == Some(n % 60)
    ensures 3600 * (n / 3600) + 60 * (n / 60 % 60) + n % 60 == n
  {
    hide TwoDigits, ParseInt;
    TwoDigitsRoundTrip(n / 3600);
    TwoDigitsRoundTrip(n / 60 % 60);
    TwoDigitsRoundTrip(n % 60);
  }

  lemma DurationRoundTrip(seconds: int)
    ensures DurationFromText(DurationText(seconds)) == Got(seconds)
  {
    hide Hms, HmsValue;
    if seconds < 0 {
      HmsRoundTrip(-seconds);
      assert ("-" + Hms(-seconds))[1..] == Hms(-seconds);
    } else {
      HmsRoundTrip(seconds);
    }
  }

  // ----- the tokens of the line

  const BLANKS := " \t"

  /** A token that survives splitting at blanks. */
  predicate Word(t: string) {
    t != [] && forall i :: 0 <= i < |t| ==> t[i] !in BLANKS
  }

  lemma {:induction false} SpacedWordsSplit(ts: seq<string>)
    requires AllWords(ts)
    ensures Tokens(Spaced(ts), BLANKS) == ts
  {
    if ts == [] {
      NoTokens(BLANKS);
    } else {
      hide Tokens, Word;
      SpacedWordsSplit(ts[1..]);
      SpacedStarts(ts[1..]);
      WordThenRest(ts[0], Spaced(ts[1..]));
      var text := Spaced(ts);
      assert text[1..] == ts[0] + Spaced(ts[1..]);
      assert text[0] == ' ' && text[0..] == text;
      SkipDelimiters(text, BLANKS, 0, 1);
    }
  }

  lemma WordThenRest(t: string, rest: string)
    requires Word(t) && (rest == "" || rest[0] == ' ')
    ensures Tokens(t + rest, BLANKS) == [t] + Tokens(rest, BLANKS)
  {
    var text := t + rest;
    TakeRun(text, BLANKS, 0, |t|);
    assert text[0..] == text && text[0..|t|] == t && text[|t|..] == rest;
  }

  /** Digits, colons and minus signs: what times are written in. */
  predicate Plain(t: string) {
    forall i :: 0 <= i < |t| ==> IsDigit(t[i]) || t[i] == ':' || t[i] == '-'
  }

  lemma PlainIsWord(t: string)
    requires Plain(t) && t != []
    ensures Word(t) && 'D' !in t && 'x' !in t && '#' !in t && '+' !in t
  {
  }

  lemma PlainPair(a: string, b: string)
    requires Plain(a) && Plain(b)
    ensures Plain(a + ":" + b)
  {
  }

  lemma SlotTextIsWord(t: TimeSlot)
    ensures SlotText(t) != [] && Word(SlotText(t))
    ensures 'D' !in SlotText(t) && '#' !in SlotText(t) && '+' !in SlotText(t)
  {
    hide TwoDigits;
    if !(t.IsNull() || t.h < 0 || t.m < 0) {
      PlainPair(TwoDigits(t.h), TwoDigits(t.m));
    }
    PlainIsWord(SlotText(t));
  }

  lemma HmsIsPlain(n: nat)
    ensures Plain(Hms(n)) && Hms(n) != []
  {
    hide TwoDigits;
    PlainPair(TwoDigits(n / 3600), TwoDigits(n / 60 % 60));
    PlainPair(TwoDigits(n / 3600) + ":" + TwoDigits(n / 60 % 60), TwoDigits(n % 60));
  }

  lemma DurationTextIsWord(seconds: int)
    ensures Word(DurationText(seconds)) && 'x' !in DurationText(seconds)
  {
    hide Hms;
    HmsIsPlain(if seconds < 0 then -seconds else seconds);
    PlainIsWord(DurationText(seconds));
  }

  lemma PrefixedIsWord(name: string, value: string)
    requires Word(name) && Word(value)
    ensures Word(name + value)
  {
  }

  ghost predicate AllWords(ts: seq<string>) {
    forall k :: 0 <= k < |ts| ==> Word(ts[k])
  }

  lemma DefinitionIsWords(s: Series)
    ensures |DefinitionTokens(s)| >= 1 && AllWords(DefinitionTokens(s))
  {
    SlotTextIsWord(s.start);
    SlotTextIsWord(s.finish);
    SlotTextIsWord(s.incr);
    PrefixedIsWord("+", SlotText(s.start));
    hide SlotText, Word;
    assert "" + SlotText(s.start) == SlotText(s.start);
  }

  lemma MaybeWord(ts: seq<string>, present: bool, token: string)
    requires AllWords(ts) && Word(token)
    ensures AllWords(ts + Maybe(present, token))
  {
  }

  lemma NextIsWord(t: TimeSlot)
    ensures Word("nextTimeSlot/" + SlotText(t))
  {
    SlotTextIsWord(t);
    PrefixedIsWord("nextTimeSlot/", SlotText(t));
  }

  lemma DurationIsWord(seconds: int)
    ensures Word("relativeDuration/" + DurationText(seconds))
  {
    DurationTextIsWord(seconds);
    PrefixedIsWord("relativeDuration/", DurationText(seconds));
  }

  lemma FlagsAreWords()
    ensures Word("free") && Word("isValid:false") && AllWords(["#"]) && AllWords([])
  {
  }

  lemma StateIsWords(s: Series, free: bool)
    ensures AllWords(StateTokens(s, free))
  {
    hide SlotText, DurationText, Word, AllWords, Maybe;
    NextIsWord(s.next);
    DurationIsWord(s.relDuration);
    FlagsAreWords();
    var a := ["#"] + Maybe(free, "free");
    MaybeWord(["#"], free, "free");
    var b := a + Maybe(!s.valid, "isValid:false");
    MaybeWord(a, !s.valid, "isValid:false");
    var c := b + Maybe(s.next != s.start, "nextTimeSlot/" + SlotText(s.next));
    MaybeWord(b, s.next != s.start, "nextTimeSlot/" + SlotText(s.next));
    MaybeWord(c, s.relDuration != 0, "relativeDuration/" + DurationText(s.relDuration));
  }

  lemma WordsSplit(def: seq<string>, state: seq<string>)
    requires |def| >= 1 && AllWords(def) && AllWords(state)
    ensures Tokens(def[0] + Spaced(def[1..]) + Spaced(state), BLANKS) == def + state
  {
    var rest := def[1..] + state;
    assert Word(def[0]) && AllWords(rest);
    hide Spaced, Word, Tokens;
    SpacedAppend(def[1..], state);
    SpacedStarts(rest);
    SpacedWordsSplit(rest);
    Assoc(def[0], Spaced(def[1..]), Spaced(state));
    WordThenRest(def[0], Spaced(rest));
    HeadAndRest(def, state);
  }

  lemma Assoc<T>(a: seq<T>, b: seq<T>, c: seq<T>)
    ensures a + b + c == a + (b + c)
  {
  }

  lemma HeadAndRest<T>(a: seq<T>, b: seq<T>)
    requires |a| >= 1
    ensures [a[0]] + (a[1..] + b) == a + b
  {
  }

  /** Splitting the printed line gives back its tokens. */
  lemma LineSplits(s: Series, free: bool)
    ensures Tokens(Line(s, free), BLANKS) == DefinitionTokens(s) + StateTokens(s, free)
  {
    DefinitionIsWords(s);
    StateIsWords(s, free);
    hide DefinitionTokens, StateTokens, Spaced, Tokens, AllWords;
    WordsSplit(DefinitionTokens(s), StateTokens(s, free));
  }

  lemma SpacedStarts(ts: seq<string>)
    ensures Spaced(ts) == "" || Spaced(ts)[0] == ' '
  {
  }

  // ----- reading the state back

  lemma LetterOccurs(s: string, p: string, c: char)
    requires c in p && Contains(s, p)
    ensures c in s
  {
    var i :| 0 <= i <= |s| && OccursAt(s, p, i);
    assert c in s[i..i + |p|];
  }

  lemma LacksLetter(s: string, p: string, c: char)
    requires c in p && c !in s
    ensures !Contains(s, p)
  {
    if Contains(s, p) {
      LetterOccurs(s, p, c);
    }
  }

  lemma StartsWithName(name: string, rest: string)
    ensures Contains(name + rest, name)
  {
    assert (name + rest)[0..|name|] == name;
    assert OccursAt(name + rest, name, 0);
  }

  lemma NextTokenParts(value: string)
    requires 'D' !in value
    ensures
      var token := "nextTimeSlot/" + value;
      && token != "isValid:false" && Contains(token, "nextTimeSlot") && !Contains(token, "relativeDuration")
      && SplitGetSecond(token, '/') == Some(value)
  {
    var token := "nextTimeSlot/" + value;
    assert token[0] == 'n';
    assert "relativeDuration"[8] == 'D';
    LacksLetter(token, "relativeDuration", 'D');
    assert token == "nextTimeSlot" + ("/" + value);
    StartsWithName("nextTimeSlot", "/" + value);
    FindAt(token, ['/'], 0, 12);
    assert token[13..] == value;
  }

  lemma DurationTokenParts(value: string)
    requires 'x' !in value
    ensures
      var token := "relativeDuration/" + value;
      && token != "isValid:false" && !Contains(token, "nextTimeSlot") && Contains(token, "relativeDuration")
      && SplitGetSecond(token, '/') == Some(value)
  {
    var token := "relativeDuration/" + value;
    assert token[0] == 'r';
    assert "nextTimeSlot"[2] == 'x';
    LacksLetter(token, "nextTimeSlot", 'x');
    assert token == "relativeDuration" + ("/" + value);
    StartsWithName("relativeDuration", "/" + value);
    FindAt(token, ['/'], 0, 16);
    assert token[17..] == value;
  }

  lemma ReadNext(t: TimeSlot, ts: Series)
    requires t.Proper()
    ensures ReadToken("nextTimeSlot/" + SlotText(t), ts) == Got(ts.(next := t))
  {
    SlotTextIsWord(t);
    SlotRoundTrip(t);
    NextTokenParts(SlotText(t));
    hide SlotText, GetTime, Contains, SplitGetSecond;
  }

  lemma ReadDuration(seconds: int, ts: Series)
    ensures ReadToken("relativeDuration/" + DurationText(seconds), ts) == Got(ts.(relDuration := seconds))
  {
    DurationTextIsWord(seconds);
    DurationRoundTrip(seconds);
    DurationTokenParts(DurationText(seconds));
    hide DurationText, DurationFromText, Contains, SplitGetSecond;
  }

  lemma ReadFree(ts: Series)
    ensures ReadToken("free", ts) == Got(ts)
  {
    assert 'x' in "nextTimeSlot" by { assert "nextTimeSlot"[2] == 'x'; }
    assert 'D' in "relativeDuration" by { assert "relativeDuration"[8] == 'D'; }
    LacksLetter("free", "nextTimeSlot", 'x');
    LacksLetter("free", "relativeDuration", 'D');
  }

  /** Reading state tokens one after the other. */
  function ReadAll(tokens: seq<string>, ts: Series): Outcome<Series> {
    if tokens == [] then Got(ts)
    else
      var r := ReadToken(tokens[0], ts);
      if r.Thrown? then Thrown else ReadAll(tokens[1..], r.value)
  }

  lemma {:induction false} StateFromReadsAll(tokens: seq<string>, i: nat, ts: Series)
    requires i <= |tokens|
    ensures StateFrom(tokens, i, true, ts) == ReadAll(tokens[i..], ts)
    decreases |tokens| - i
  {
    if i < |tokens| {
      hide ReadToken;
      assert tokens[i..][1..] == tokens[i + 1..];
      var r := ReadToken(tokens[i], ts);
      if r.Got? {
        StateFromReadsAll(tokens, i + 1, r.value);
      }
    }
  }

  lemma {:induction false} ReadAllAppend(a: seq<string>, b: seq<string>, ts: Series, ts': Series)
    requires ReadAll(a, ts) == Got(ts')
    ensures ReadAll(a + b, ts) == ReadAll(b, ts')
    decreases |a|
  {
    hide ReadToken;
    if a == [] {
      assert a + b == b;
    } else {
      assert (a + b)[1..] == a[1..] + b;
      ReadAllAppend(a[1..], b, ReadToken(a[0], ts).value, ts');
    }
  }

  lemma ReadMaybe(present: bool, token: string, ts: Series, ts': Series)
    requires present ==> ReadToken(token, ts) == Got(ts')
    requires !present ==> ts == ts'
    ensures ReadAll(Maybe(present, token), ts) == Got(ts')
  {
    hide ReadToken;
    assert [token][1..] == [];
  }

  /** The state tokens after `#` restore validity, next slot and relative duration. */
  lemma StateTokensReadBack(s: Series, free: bool, ts: Series)
    requires s.next.Proper() && ts.valid && ts.next == s.start && ts.relDuration == 0
    requires HasState(s, free)
    ensures ReadAll(StateTokens(s, free)[1..], ts)
            == Got(ts.(valid := s.valid, next := s.next, relDuration := s.relDuration))
  {
    hide SlotText, DurationText, ReadToken, ReadAll, Maybe;
    var t1 := ts.(valid := s.valid);
    var t2 := t1.(next := s.next);
    var t3 := t2.(relDuration := s.relDuration);
    var a := Maybe(free, "free");
    var b := Maybe(!s.valid, "isValid:false");
    var c := Maybe(s.next != s.start, "nextTimeSlot/" + SlotText(s.next));
    var d := Maybe(s.relDuration != 0, "relativeDuration/" + DurationText(s.relDuration));
    ReadFree(ts);
    ReadMaybe(free, "free", ts, ts);
    ReadExpired(ts);
    ReadMaybe(!s.valid, "isValid:false", ts, t1);
    ReadNext(s.next, t1);
    ReadMaybe(s.next != s.start, "nextTimeSlot/" + SlotText(s.next), t1, t2);
    ReadDuration(s.relDuration, t2);
    ReadMaybe(s.relDuration != 0, "relativeDuration/" + DurationText(s.relDuration), t2, t3);
    ReadAllAppend(a, b, ts, ts);
    ReadAllAppend(a + b, c, ts, t1);
    ReadAllAppend(a + b + c, d, ts, t2);
    DropHash(a, b, c, d);
    assert StateTokens(s, free) == ["#"] + a + b + c + d;
  }

  lemma DropHash(a: seq<string>, b: seq<string>, c: seq<string>, d: seq<string>)
    ensures (["#"] + a + b + c + d)[1..] == a + b + c + d
  {
  }

  /** After the definition's tokens, the state tokens restore the state. */
  lemma StateReadsBack(s: Series, free: bool, def: seq<string>, ts: Series)
    requires s.next.Proper() && ts.valid && ts.next == s.start && ts.relDuration == 0
    ensures StateFrom(def + StateTokens(s, free), |def|, false, ts)
            == Got(ts.(valid := s.valid, next := s.next, relDuration := s.relDuration))
  {
    var state := StateTokens(s, free);
    FirstStateToken(s, free);
    if HasState(s, free) {
      StateTokensReadBack(s, free, ts);
      assert |state| >= 1;
      hide StateTokens, ReadAll;
      StateFromReadsAll(def + state, |def| + 1, ts);
      assert (def + state)[|def| + 1..] == state[1..];
    } else {
      assert |def + state| == |def|;
    }
  }

  lemma ReadExpired(ts: Series)
    ensures ReadToken("isValid:false", ts) == Got(ts.(valid := false))
  {
  }

  // ----- the round trip

  lemma StartReadsBack(s: Series)
    requires s.start.InDay()
    ensures
      var t := DefinitionTokens(s)[0];
      && t != [] && (t[0] == '+' <==> s.relative)
      && GetTime(if s.relative then t[1..] else t, true) == Got(s.start)
  {
    SlotTextIsWord(s.start);
    SlotRoundTrip(s.start);
    var t := DefinitionTokens(s)[0];
    assert s.relative ==> t[1..] == SlotText(s.start);
    assert !s.relative ==> t == SlotText(s.start);
  }

  lemma FirstStateToken(s: Series, free: bool)
    ensures StateTokens(s, free) != [] ==> StateTokens(s, free)[0] == "#"
  {
  }

  /** Reading the tokens of a printed series gives an equal series. */
  ghost predicate ReadsBack(all: seq<string>, s: Series) {
    && all != [] && (forall k :: 0 <= k < |all| ==> all[k] != [])
    && exists t :: Create(0, all, true) == Got(t) && SameSeries(t, s)
  }

  lemma NoEmptyTokens(a: seq<string>, b: seq<string>)
    requires AllWords(a) && AllWords(b)
    ensures forall k :: 0 <= k < |a + b| ==> (a + b)[k] != []
  {
  }

  lemma SingleReadsBack(s: Series, free: bool)
    requires Inv(s) && !s.HasIncrement()
    ensures ReadsBack(DefinitionTokens(s) + StateTokens(s, free), s)
  {
    var def, state := DefinitionTokens(s), StateTokens(s, free);
    DefinitionIsWords(s);
    StateIsWords(s, free);
    NoEmptyTokens(def, state);
    StartReadsBack(s);
    FirstStateToken(s, free);
    var blank := Series(s.start, s.finish, s.incr, s.relative, s.start, true, 0, NULL_SLOT, s.start.Duration());
    StateReadsBack(s, free, def, blank);
    var t := blank.(valid := s.valid, next := s.next, relDuration := s.relDuration);
    CreateReadsSingle(def + state, s, t);
    EqualSeriesRead(def + state, s, t);
  }

  lemma CreateReadsSingle(all: seq<string>, s: Series, t: Series)
    requires |all| >= 1 && (forall k :: 0 <= k < |all| ==> all[k] != [])
    requires all[0][0] == '+' <==> s.relative
    requires GetTime(if s.relative then all[0][1..] else all[0], true) == Got(s.start)
    requires |all| > 1 ==> all[1][0] == '#'
    requires s.start.InDay() && s.finish.IsNull() && s.incr.IsNull()
    requires StateFrom(all, 1, false, Series(s.start, s.finish, s.incr, s.relative, s.start, true, 0, NULL_SLOT,
                                             s.start.Duration())) == Got(t)
    ensures Create(0, all, true) == Got(t)
  {
    hide GetTime, ReadToken;
  }

  lemma SeriesReadsBack(s: Series, free: bool)
    requires Inv(s) && s.HasIncrement()
    ensures ReadsBack(DefinitionTokens(s) + StateTokens(s, free), s)
  {
    var def, state := DefinitionTokens(s), StateTokens(s, free);
    DefinitionIsWords(s);
    StateIsWords(s, free);
    NoEmptyTokens(def, state);
    SeriesTokens(s);
    SeriesStateReadsBack(s, free);
    hide *;
    var all := def + state;
    assert all[0] == def[0] && all[1] == def[1] && all[2] == def[2];
    CreateReads(all, s, Restored(s));
    EqualSeriesRead(all, s, Restored(s));
  }

  function Restored(s: Series): Series
    requires 0 < s.incr.Duration()
  {
    BlankSeries(s).(valid := s.valid, next := s.next, relDuration := s.relDuration)
  }

  lemma SeriesStateReadsBack(s: Series, free: bool)
    requires Inv(s) && s.HasIncrement()
    ensures 0 < s.incr.Duration() && SameSeries(Restored(s), s)
    ensures |DefinitionTokens(s)| == 3
    ensures StateFrom(DefinitionTokens(s) + StateTokens(s, free), 3, false, BlankSeries(s)) == Got(Restored(s))
  {
    hide StateTokens, StateFrom, LastSlot, SlotText;
    StateReadsBack(s, free, DefinitionTokens(s), BlankSeries(s));
  }

  lemma EqualSeriesRead(all: seq<string>, s: Series, t: Series)
    requires all != [] && (forall k :: 0 <= k < |all| ==> all[k] != [])
    requires Create(0, all, true) == Got(t) && SameSeries(t, s)
    ensures ReadsBack(all, s)
  {
    hide Create;
  }

  function BlankSeries(s: Series): Series
    requires 0 < s.incr.Duration()
  {
    Series(s.start, s.finish, s.incr, s.relative, s.start, true, 0, NULL_SLOT, LastSlot(s.start, s.finish, s.incr))
  }

  lemma SeriesTokens(s: Series)
    requires Inv(s) && s.HasIncrement()
    ensures
      var def := DefinitionTokens(s);
      && |def| == 3 && def[0] != [] && (def[0][0] == '+' <==> s.relative)
      && GetTime(if s.relative then def[0][1..] else def[0], true) == Got(s.start)
      && GetTime(def[1], true) == Got(s.finish) && GetTime(def[2], true) == Got(s.incr)
      && def[1] != [] && def[1][0] != '#' && def[2] != "#"
    ensures SeriesSlots(s.start, s.finish, s.incr)
  {
    StartReadsBack(s);
    SlotTextIsWord(s.finish);
    SlotTextIsWord(s.incr);
    SlotRoundTrip(s.finish);
    SlotRoundTrip(s.incr);
    hide SlotText, GetTime;
    assert "#"[0] == '#';
  }

  lemma CreateReads(all: seq<string>, s: Series, t: Series)
    requires |all| >= 3 && (forall k :: 0 <= k < |all| ==> all[k] != [])
    requires all[0][0] == '+' <==> s.relative
    requires GetTime(if s.relative then all[0][1..] else all[0], true) == Got(s.start)
    requires GetTime(all[1], true) == Got(s.finish) && GetTime(all[2], true) == Got(s.incr)
    requires all[1][0] != '#' && all[2] != "#"
    requires SeriesSlots(s.start, s.finish, s.incr)
    requires StateFrom(all, 3, false, BlankSeries(s)) == Got(t)
    ensures Create(0, all, true) == Got(t)
  {
    hide GetTime, LastSlot, ReadToken;
  }

  /** Print and parse: the line written for any series a run can reach, whatever its free
      flag, reads back as an equal series, next slots past midnight and expired flags
      included. */
  lemma PrintParseRoundTrip(s: Series, free: bool)
    requires Inv(s)
    ensures
      var tokens := Tokens(Line(s, free), BLANKS);
      && tokens != [] && (forall k :: 0 <= k < |tokens| ==> tokens[k] != [])
      && exists t :: Create(0, tokens, true) == Got(t) && SameSeries(t, s)
  {
    hide Tokens, Line, StateTokens, DefinitionTokens, Create, Inv;
    LineSplits(s, free);
    if s.HasIncrement() {
      SeriesReadsBack(s, free);
    } else {
      SingleReadsBack(s, free);
    }
  }
}
