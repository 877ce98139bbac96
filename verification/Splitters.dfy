/** The rival implementations of splitting a line at delimiter characters, and of fetching
    one token.  All are proved against one list: the maximal delimiter-free runs. */
module Splitters {

  /** Length of the longest delimiter-free prefix. */
  function RunLength(s: string, d: string): (n: nat)
    ensures n <= |s|
    ensures forall k :: 0 <= k < n ==> s[k] !in d
    ensures n < |s| ==> s[n] in d
  {
    if s == [] || s[0] in d then 0 else 1 + RunLength(s[1..], d)
  }

  /** The tokens of a line. */
  function Tokens(s: string, d: string): seq<string>
    decreases |s|
  {
    if s == [] then []
    else if s[0] in d then Tokens(s[1..], d)
    else
      var n := RunLength(s, d);
      [s[..n]] + Tokens(s[n..], d)
  }

  // ----- the tokens are the maximal runs, in order

  datatype Span = Span(i: nat, j: nat)

  /** A non-empty delimiter-free stretch with a delimiter or an end on either side. */
  ghost predicate IsRun(s: string, d: string, p: Span) {
    && p.i < p.j <= |s|
    && (forall k :: p.i <= k < p.j ==> s[k] !in d)
    && (p.i == 0 || s[p.i - 1] in d)
    && (p.j == |s| || s[p.j] in d)
  }

  ghost function Spans(s: string, d: string, from: nat): (ps: seq<Span>)
    requires from <= |s|
    decreases |s| - from
  {
    if from == |s| then []
    else if s[from] in d then Spans(s, d, from + 1)
    else
      var n := RunLength(s[from..], d);
      assert s[from..][0] == s[from];
      [Span(from, from + n)] + Spans(s, d, from + n)
  }

  /** A place where no run begins earlier and is still going on. */
  ghost predicate AtBoundary(s: string, d: string, from: nat)
    requires from <= |s|
  {
    from == 0 || from == |s| || s[from] in d || s[from - 1] in d
  }

  lemma RunLengthAt(s: string, d: string, i: nat, j: nat)
    requires i <= j <= |s|
    requires forall k :: i <= k < j ==> s[k] !in d
    requires j == |s| || s[j] in d
    ensures RunLength(s[i..], d) == j - i
  {
    var n := RunLength(s[i..], d);
    assert j - i < |s[i..]| ==> s[i..][j - i] == s[j];
    assert n < |s[i..]| ==> s[i..][n] == s[i + n];
  }

  lemma FirstRun(s: string, d: string, from: nat)
    requires from < |s| && AtBoundary(s, d, from) && s[from] !in d
    ensures
      var p := Span(from, from + RunLength(s[from..], d));
      && IsRun(s, d, p) && AtBoundary(s, d, p.j)
      && forall q :: IsRun(s, d, q) && from <= q.i < p.j ==> q == p
  {
    var n := RunLength(s[from..], d);
    assert s[from..][0] == s[from];
    assert forall k :: from <= k < from + n ==> s[k] == s[from..][k - from];
    assert from + n == |s| || s[from + n] == s[from..][n];
    var p := Span(from, from + n);
    forall q | IsRun(s, d, q) && from <= q.i < p.j
      ensures q == p
    {
      SameRun(s, d, p, q);
    }
  }

  /** Two runs that overlap are the same run. */
  lemma SameRun(s: string, d: string, p: Span, q: Span)
    requires IsRun(s, d, p) && IsRun(s, d, q) && p.i <= q.i < p.j
    ensures p == q
  {
  }

  lemma {:induction false} SpansAreTheRuns(s: string, d: string, from: nat)
    requires from <= |s| && AtBoundary(s, d, from)
    ensures forall p :: p in Spans(s, d, from) <==> IsRun(s, d, p) && from <= p.i
    decreases |s| - from
  {
    if from < |s| {
      if s[from] in d {
        SpansAreTheRuns(s, d, from + 1);
      } else {
        hide IsRun, AtBoundary, RunLength;
        FirstRun(s, d, from);
        var first := Span(from, from + RunLength(s[from..], d));
        SpansAreTheRuns(s, d, first.j);
        assert Spans(s, d, from) == [first] + Spans(s, d, first.j);
      }
    }
  }

  lemma {:induction false} SpansAreInOrder(s: string, d: string, from: nat)
    requires from <= |s|
    ensures forall x :: 0 <= x < |Spans(s, d, from)| ==> from <= Spans(s, d, from)[x].i
    ensures forall x, y :: 0 <= x < y < |Spans(s, d, from)| ==> Spans(s, d, from)[x].j <= Spans(s, d, from)[y].i
    decreases |s| - from
  {
    if from < |s| {
      if s[from] in d {
        SpansAreInOrder(s, d, from + 1);
      } else {
        SpansAreInOrder(s, d, from + RunLength(s[from..], d));
      }
    }
  }

  lemma {:induction false} TokensAreSpans(s: string, d: string, from: nat)
    requires from <= |s|
    ensures |Tokens(s[from..], d)| == |Spans(s, d, from)|
    ensures forall k :: 0 <= k < |Spans(s, d, from)| ==>
      var p := Spans(s, d, from)[k];
      p.i <= p.j <= |s| && Tokens(s[from..], d)[k] == s[p.i..p.j]
    decreases |s| - from
  {
    if from < |s| {
      if s[from] in d {
        assert s[from..][1..] == s[from + 1..];
        TokensAreSpans(s, d, from + 1);
      } else {
        var n := RunLength(s[from..], d);
        assert s[from..][0] == s[from];
        assert s[from..][n..] == s[from + n..];
        assert s[from..][..n] == s[from..from + n];
        TokensAreSpans(s, d, from + n);
      }
    }
  }

  /** The token list is the list of all maximal runs, from left to right. */
  lemma TokensAreTheMaximalRuns(s: string, d: string) returns (ps: seq<Span>)
    ensures forall p :: p in ps <==> IsRun(s, d, p)
    ensures forall x, y :: 0 <= x < y < |ps| ==> ps[x].j <= ps[y].i
    ensures |Tokens(s, d)| == |ps|
    ensures forall k :: 0 <= k < |ps| ==> ps[k].i <= ps[k].j <= |s| && Tokens(s, d)[k] == s[ps[k].i..ps[k].j]
  {
    ps := Spans(s, d, 0);
    assert s[0..] == s;
    SpansAreTheRuns(s, d, 0);
    SpansAreInOrder(s, d, 0);
    TokensAreSpans(s, d, 0);
  }

  // ----- reading the list from the middle of a line

  lemma {:induction false} SkipDelimiters(s: string, d: string, i: nat, j: nat)
    requires i <= j <= |s| && forall k :: i <= k < j ==> s[k] in d
    ensures Tokens(s[i..], d) == Tokens(s[j..], d)
    decreases j - i
  {
    if i < j {
      assert s[i..][1..] == s[i + 1..];
      SkipDelimiters(s, d, i + 1, j);
    }
  }

  lemma TakeRun(s: string, d: string, i: nat, j: nat)
    requires i < j <= |s|
    requires forall k :: i <= k < j ==> s[k] !in d
    requires j == |s| || s[j] in d
    ensures Tokens(s[i..], d) == [s[i..j]] + Tokens(s[j..], d)
  {
    RunLengthAt(s, d, i, j);
    assert s[i..][0] == s[i];
    assert s[i..][..j - i] == s[i..j];
    assert s[i..][j - i..] == s[j..];
  }

  // ----- the library searches, and their result when nothing is found

  const NPOS := -1

  /** First position at or after `from` holding a delimiter, or the end. */
  function FindOf(s: string, d: string, from: nat): (i: nat)
    requires from <= |s|
    ensures from <= i <= |s|
    ensures forall k :: from <= k < i ==> s[k] !in d
    ensures i < |s| ==> s[i] in d
    decreases |s| - from
  {
    if from == |s| || s[from] in d then from else FindOf(s, d, from + 1)
  }

  function FindNotOf(s: string, d: string, from: nat): (i: nat)
    requires from <= |s|
    ensures from <= i <= |s|
    ensures forall k :: from <= k < i ==> s[k] in d
    ensures i < |s| ==> s[i] !in d
    decreases |s| - from
  {
    if from == |s| || s[from] !in d then from else FindNotOf(s, d, from + 1)
  }

  function FindFirstOf(s: string, d: string, from: int): int
    requires from == NPOS || 0 <= from
  {
    if from == NPOS || from > |s| then NPOS
    else var i := FindOf(s, d, from); if i == |s| then NPOS else i
  }

  function FindFirstNotOf(s: string, d: string, from: int): int
    requires from == NPOS || 0 <= from
  {
    if from == NPOS || from > |s| then NPOS
    else var i := FindNotOf(s, d, from); if i == |s| then NPOS else i
  }

  /** The characters from `i` up to `j`, or to the end if `j` was not found. */
  function SubString(s: string, i: nat, j: int): string
    requires i <= |s| && (j == NPOS || i <= j <= |s|)
  {
    if j == NPOS then s[i..] else s[i..j]
  }

  /** The tokens so far and those of the text not yet read make up the whole list. */
  ghost predicate Progress(s: string, d: string, tokens: seq<string>, rest: string) {
    tokens + Tokens(rest, d) == Tokens(s, d)
  }

  lemma NoTokens(d: string)
    ensures Tokens([], d) == []
  {
  }

  lemma AtStart(s: string, d: string)
    ensures Progress(s, d, [], s[0..])
  {
    assert s[0..] == s;
  }

  lemma AtEnd(s: string, d: string, tokens: seq<string>)
    requires Progress(s, d, tokens, [])
    ensures tokens == Tokens(s, d)
  {
  }

  /** One turn of the find-a-delimiter loops keeps the progress. */
  lemma TurnKeepsProgress(s: string, d: string, tokens: seq<string>, first: nat, second: nat)
    requires first <= second <= |s| && Progress(s, d, tokens, s[first..])
    requires forall k :: first <= k < second ==> s[k] !in d
    requires second == |s| || s[second] in d
    ensures Progress(s, d,
                     if first == second then tokens else tokens + [s[first..second]],
                     if second == |s| then [] else s[second + 1..])
    ensures first != second ==> |tokens| < |Tokens(s, d)| && Tokens(s, d)[|tokens|] == s[first..second]
  {
    hide Tokens;
    NextToken(s, d, first, second);
    var rest := Tokens(if second == |s| then [] else s[second + 1..], d);
    if first == second {
      assert [] + rest == rest;
    } else {
      Regroup(tokens, s[first..second], rest);
    }
  }

  lemma Regroup<T>(a: seq<T>, x: T, b: seq<T>)
    ensures a + ([x] + b) == (a + [x]) + b
    ensures (a + ([x] + b))[|a|] == x
  {
  }

  /** What one turn of the find-a-delimiter loops consumes. */
  lemma NextToken(s: string, d: string, first: nat, second: nat)
    requires first <= second <= |s|
    requires forall k :: first <= k < second ==> s[k] !in d
    requires second == |s| || s[second] in d
    ensures Tokens(s[first..], d)
            == (if first == second then [] else [s[first..second]])
               + Tokens(if second == |s| then [] else s[second + 1..], d)
  {
    if first < second {
      TakeRun(s, d, first, second);
    }
    if second < |s| {
      SkipDelimiters(s, d, second, second + 1);
    }
  }

  // ----- the splitters

  method SplitOrig(line: string, d: string) returns (tokens: seq<string>)
    ensures tokens == Tokens(line, d)
  {
    hide Tokens, FindOf, FindNotOf;
    tokens := [];
    var lastPos := FindFirstNotOf(line, d, 0);
    var pos := FindFirstOf(line, d, lastPos);
    AtStart(line, d);
    SkipDelimiters(line, d, 0, FindNotOf(line, d, 0));
    assert line[|line|..] == [];
    while pos != NPOS || lastPos != NPOS
      invariant lastPos == NPOS || (0 <= lastPos < |line| && line[lastPos] !in d)
      invariant pos == FindFirstOf(line, d, lastPos)
      invariant Progress(line, d, tokens, if lastPos == NPOS then [] else line[lastPos..])
      decreases if lastPos == NPOS then 0 else 1 + |line| - lastPos
    {
      ghost var end := FindOf(line, d, lastPos);
      assert line[lastPos..end] == SubString(line, lastPos, pos);
      TurnKeepsProgress(line, d, tokens, lastPos, end);
      if end < |line| {
        SkipDelimiters(line, d, end + 1, FindNotOf(line, d, end));
      }
      tokens := tokens + [SubString(line, lastPos, pos)];
      lastPos := FindFirstNotOf(line, d, pos);
      pos := FindFirstOf(line, d, lastPos);
    }
    AtEnd(line, d, tokens);
  }

  method SplitOrig1(line: string, d: string) returns (tokens: seq<string>)
    ensures tokens == Tokens(line, d)
  {
    hide Tokens, FindOf, Progress;
    tokens := [];
    var first, end := 0, |line|;
    AtStart(line, d);
    assert line[end..] == [];
    while first != end
      invariant 0 <= first <= end
      invariant Progress(line, d, tokens, line[first..])
      decreases end - first
    {
      var second := FindOf(line, d, first);
      TurnKeepsProgress(line, d, tokens, first, second);
      if first != second {
        tokens := tokens + [line[first..second]];
      }
      if second == end {
        AtEnd(line, d, tokens);
        break;
      }
      first := second + 1;
    }
    if first == end {
      AtEnd(line, d, tokens);
    }
  }

  method SplitUsingStringView(line: string, d: string) returns (tokens: seq<string>)
    ensures tokens == Tokens(line, d)
  {
    hide Tokens, FindOf, Progress;
    tokens := [];
    var first, second, last := 0, 0, |line|;
    AtStart(line, d);
    assert line[last..] == [];
    while second != last && first != last
      invariant 0 <= second <= last && 0 <= first
      invariant second == last || first <= last
      invariant Progress(line, d, tokens, if second == last then [] else line[first..])
      decreases if second == last then 0 else 1 + last - first
    {
      second := FindOf(line, d, first);
      TurnKeepsProgress(line, d, tokens, first, second);
      if first != second {
        tokens := tokens + [line[first..second]];
      }
      first := second + 1;
    }
    AtEnd(line, d, tokens);
  }

  method SplitUsingStringView2(line: string, d: string) returns (tokens: seq<string>)
    ensures tokens == Tokens(line, d)
  {
    hide Tokens, FindOf, Progress;
    tokens := [];
    var first := 0;
    AtStart(line, d);
    assert line[|line|..] == [];
    while first < |line|
      invariant 0 <= first <= |line|
      invariant Progress(line, d, tokens, line[first..])
    {
      var second := FindFirstOf(line, d, first);
      ghost var end := FindOf(line, d, first);
      assert line[first..end] == SubString(line, first, second);
      TurnKeepsProgress(line, d, tokens, first, end);
      if first != second {
        tokens := tokens + [SubString(line, first, second)];
      }
      if second == NPOS {
        AtEnd(line, d, tokens);
        break;
      }
      first := second + 1;
    }
    if first == |line| {
      AtEnd(line, d, tokens);
    }
  }

  method Split2(line: string, d: string) returns (tokens: seq<string>)
    ensures tokens == Tokens(line, d)
  {
    hide Tokens, FindOf, Progress;
    tokens := [];
    var start := 0;
    var pos := FindFirstOf(line, d, start);
    AtStart(line, d);
    while pos != NPOS
      invariant 0 <= start <= |line|
      invariant pos == FindFirstOf(line, d, start)
      invariant Progress(line, d, tokens, line[start..])
      decreases |line| - start
    {
      TurnKeepsProgress(line, d, tokens, start, pos);
      if pos != start {
        tokens := tokens + [line[start..pos]];
      }
      start := pos + 1;
      pos := FindFirstOf(line, d, start);
      assert line[|line|..] == [];
    }
    TurnKeepsProgress(line, d, tokens, start, |line|);
    if start < |line| {
      tokens := tokens + [line[start..|line|]];
    }
    AtEnd(line, d, tokens);
  }

  // ----- the splitter object

  lemma NothingLeft(s: string, d: string)
    ensures FindFirstNotOf(s, d, 0) == NPOS <==> Tokens(s, d) == []
  {
    var i := FindNotOf(s, d, 0);
    SkipDelimiters(s, d, 0, i);
    assert s[0..] == s;
    assert i == |s| ==> s[i..] == [];
  }

  class StringSplitter {
    const src: string
    const sep: string
    var rem: string
    var firstNotOf: int
    var finished: bool

    /** The tokens still to be handed out. */
    function Remaining(): seq<string>
      reads this
    {
      if finished then [] else Tokens(rem, sep)
    }

    /** The last search is still good for the text that remains. */
    predicate Searched()
      reads this
    {
      !finished && firstNotOf == FindFirstNotOf(rem, sep, 0) && firstNotOf != NPOS
    }

    constructor (src: string, sep: string)
      ensures this.src == src && this.sep == sep && Remaining() == Tokens(src, sep)
    {
      this.src, this.sep := src, sep;
      rem := src;
      firstNotOf := 0;
      finished := false;
    }

    method Finished() returns (b: bool)
      modifies this
      ensures b <==> Remaining() == []
      ensures Remaining() == old(Remaining())
      ensures !b ==> Searched()
    {
      if finished {
        return true;
      }
      firstNotOf := FindFirstNotOf(rem, sep, 0);
      NothingLeft(rem, sep);
      if firstNotOf == NPOS {
        finished := true;
      }
      return finished;
    }

    method NextView() returns (token: string)
      requires Searched()
      modifies this
      ensures [token] + Remaining() == old(Remaining())
    {
      hide Tokens, FindOf, FindNotOf;
      assert rem[0..] == rem;
      SkipDelimiters(rem, sep, 0, firstNotOf);
      if firstNotOf != 0 {
        rem := rem[firstNotOf..];
      }
      assert Tokens(rem, sep) == old(Remaining());
      var pos := FindFirstOf(rem, sep, 0);
      assert rem[0..] == rem;
      NextToken(rem, sep, 0, FindOf(rem, sep, 0));
      if pos != NPOS {
        token := rem[..pos];
        rem := rem[pos + 1..];
        NothingLeft(rem, sep);
        if FindFirstNotOf(rem, sep, 0) == NPOS {
          finished := true;
        }
        return;
      }
      finished := true;
      token := rem;
      assert rem[0..|rem|] == rem;
      NoTokens(sep);
    }

    method Reset()
      modifies this
      ensures Remaining() == Tokens(src, sep)
    {
      rem := src;
      finished := false;
    }
  }

  method SplitWithObject(line: string, d: string) returns (tokens: seq<string>)
    ensures tokens == Tokens(line, d)
  {
    tokens := [];
    var splitter := new StringSplitter(line, d);
    var done := splitter.Finished();
    while !done
      invariant splitter.sep == d
      invariant !done ==> splitter.Searched()
      invariant done <==> splitter.Remaining() == []
      invariant tokens + splitter.Remaining() == Tokens(line, d)
      decreases |splitter.Remaining()|
    {
      var token := splitter.NextView();
      tokens := tokens + [token];
      done := splitter.Finished();
    }
  }

  // ----- fetching one token

  /** The answer every get_token variant gives. */
  predicate IsTokenAt(s: string, d: string, pos: nat, found: bool, token: string) {
    (found <==> pos < |Tokens(s, d)|) && (found ==> token == Tokens(s, d)[pos])
  }

  method GetToken(s: string, pos: nat, d: string) returns (found: bool, token: string)
    ensures IsTokenAt(s, d, pos, found, token)
  {
    hide Tokens, FindOf, Progress;
    var currentPos, first, end := 0, 0, |s|;
    ghost var seen: seq<string> := [];
    AtStart(s, d);
    assert s[end..] == [];
    while first != end
      invariant 0 <= first <= end && currentPos == |seen| <= pos
      invariant Progress(s, d, seen, s[first..])
      decreases end - first
    {
      var second := FindOf(s, d, first);
      TurnKeepsProgress(s, d, seen, first, second);
      if first != second {
        if currentPos == pos {
          return true, s[first..second];
        }
        currentPos := currentPos + 1;
        seen := seen + [s[first..second]];
      }
      if second == end {
        AtEnd(s, d, seen);
        break;
      }
      first := second + 1;
    }
    if first == end {
      AtEnd(s, d, seen);
    }
    return false, "";
  }

  method GetToken2(s: string, pos: nat, d: string) returns (found: bool, token: string)
    ensures IsTokenAt(s, d, pos, found, token)
  {
    hide Tokens, FindOf, Progress;
    var currentPos, first := 0, 0;
    ghost var seen: seq<string> := [];
    AtStart(s, d);
    assert s[|s|..] == [];
    while first < |s|
      invariant 0 <= first <= |s| && currentPos == |seen| <= pos
      invariant Progress(s, d, seen, s[first..])
    {
      var second := FindFirstOf(s, d, first);
      ghost var end := FindOf(s, d, first);
      assert s[first..end] == SubString(s, first, second);
      TurnKeepsProgress(s, d, seen, first, end);
      if first != second {
        if currentPos == pos {
          return true, SubString(s, first, second);
        }
        currentPos := currentPos + 1;
        seen := seen + [SubString(s, first, second)];
      }
      if second == NPOS {
        AtEnd(s, d, seen);
        break;
      }
      first := second + 1;
    }
    if first == |s| {
      AtEnd(s, d, seen);
    }
    return false, "";
  }

  method GetToken3(s: string, pos: nat, d: string) returns (found: bool, token: string)
    ensures IsTokenAt(s, d, pos, found, token)
  {
    hide Tokens, FindOf, Progress;
    var currentPos, first, second, last := 0, 0, 0, |s|;
    ghost var seen: seq<string> := [];
    AtStart(s, d);
    assert s[last..] == [];
    while second != last && first != last
      invariant 0 <= second <= last && 0 <= first
      invariant second == last || first <= last
      invariant currentPos == |seen| <= pos
      invariant Progress(s, d, seen, if second == last then [] else s[first..])
      decreases if second == last then 0 else 1 + last - first
    {
      second := FindOf(s, d, first);
      TurnKeepsProgress(s, d, seen, first, second);
      if first != second {
        if currentPos == pos {
          return true, s[first..second];
        }
        currentPos := currentPos + 1;
        seen := seen + [s[first..second]];
      }
      first := second + 1;
    }
    AtEnd(s, d, seen);
    return false, "";
  }

  method GetTokenWithObject(line: string, pos: nat, d: string) returns (found: bool, token: string)
    ensures IsTokenAt(line, d, pos, found, token)
  {
    var count := 0;
    var splitter := new StringSplitter(line, d);
    var done := splitter.Finished();
    while !done
      invariant splitter.sep == d
      invariant !done ==> splitter.Searched()
      invariant done <==> splitter.Remaining() == []
      invariant count <= pos && count <= |Tokens(line, d)|
      invariant splitter.Remaining() == Tokens(line, d)[count..]
      decreases |splitter.Remaining()|
    {
      var theToken := splitter.NextView();
      if count == pos {
        return true, theToken;
      } else if count > pos {
        return false, "";
      }
      count := count + 1;
      done := splitter.Finished();
    }
    return false, "";
  }
}
