/** Which texts are times, durations, state tokens and definitions, and what they say, by grammars of
    their own, and how such texts are printed. */
module TimeTexts {
  import opened TimeSlots
  import opened TimeSeriesModel
  import opened TimeSeriesText
  import opened Splitters
  import opened Decimals
  import opened Wrappers

  // ----- whole numbers

  ghost predicate DigitIs(c: char, d: nat) { d < 10 && c == "0123456789"[d] }

  /** A decimal numeral, leading zeros allowed. */
  ghost predicate IsNumeral(t: string, n: nat)
    decreases |t|
  {
    if t == "" then n == 0
    else
      exists d: nat {:trigger DigitIs(t[|t| - 1], d)} ::
        DigitIs(t[|t| - 1], d) && d <= n && (n - d) % 10 == 0 && IsNumeral(t[..|t| - 1], (n - d) / 10)
  }

  /** A numeral with an optional sign, and nothing around it. */
  ghost predicate IsInteger(t: string, v: int) { exists sign, digits, n :: IsSigned(t, v, sign, digits, n) }

  ghost predicate IsSigned(t: string, v: int, sign: string, digits: string, n: nat) {
    && t == sign + digits && sign in {"", "+", "-"} && digits != "" && IsNumeral(digits, n)
    && v == if sign == "-" then -(n as int) else n
  }

  lemma DigitMeans(c: char, d: nat)
    ensures DigitIs(c, d) <==> IsDigit(c) && DigitValue(c) == d
  {
    if d < 10 {
      assert "0123456789"[d] == '0' + d as char;
    }
  }

  lemma {:induction false} NumeralMeans(t: string, n: nat)
    ensures IsNumeral(t, n) <==> AllDigits(t) && DigitsValue(t) == n
    decreases |t|
  {
    hide DigitIs;
    if t != "" {
      var front, c := t[..|t| - 1], t[|t| - 1];
      if AllDigits(t) && DigitsValue(t) == n {
        var d := DigitValue(c);
        NumeralMeans(front, DigitsValue(front));
        DigitMeans(c, d);
        assert (n - d) / 10 == DigitsValue(front);
      }
      if d: nat :| DigitIs(c, d) && d <= n && (n - d) % 10 == 0 && IsNumeral(front, (n - d) / 10) {
        NumeralMeans(front, (n - d) / 10);
        DigitMeans(c, d);
        assert t == front + [c];
      }
    }
  }

  /** The conversion accepts exactly these texts, for their value. */
  lemma IntegerMeans(t: string, v: int)
    ensures ParseInt(t) == Some(v) <==> IsInteger(t, v)
  {
    hide IsNumeral, DigitsValue;
    if ParseInt(t) == Some(v) {
      var signed := t[0] == '-' || t[0] == '+';
      var sign, digits := if signed then [t[0]] else "", if signed then t[1..] else t;
      NumeralMeans(digits, DigitsValue(digits));
      assert t == sign + digits;
      assert IsSigned(t, v, sign, digits, DigitsValue(digits));
    }
    if sign, digits, n :| IsSigned(t, v, sign, digits, n) {
      NumeralMeans(digits, n);
      assert digits[0] != '-' && digits[0] != '+';
      assert sign == "" ==> t == digits;
      assert sign != "" ==> t[0] == sign[0] && t[1..] == digits;
    }
  }

  // ----- times

  /** Hours and two characters of minutes; checked, it is a time of day with two characters of hours. */
  ghost predicate IsTime(t: string, checkTime: bool, slot: TimeSlot) {
    exists plus, h, m :: IsTimeOf(t, checkTime, slot, plus, h, m)
  }

  ghost predicate IsTimeOf(t: string, checkTime: bool, slot: TimeSlot, plus: string, h: string, m: string) {
    && t == plus + (h + (":" + m)) && plus in {"", "+"} && (plus == "" && h != "" ==> h[0] != '+') && ':' !in h
    && IsInteger(h, slot.h) && IsInteger(m, slot.m) && |m| == 2
    && (checkTime ==> |h| == 2 && 0 <= slot.h <= 23 && 0 <= slot.m <= 59)
  }

  lemma SplitAt(t: string, a: string, c: char, b: string)
    requires t == a + ([c] + b) && c !in a
    ensures FindOf(t, [c], 0) == |a| < |t| && t[..|a|] == a && t[|a| + 1..] == b
  {
    assert forall k :: 0 <= k < |a| ==> t[k] == a[k] && a[k] in a;
    FindAt(t, [c], 0, |a|);
  }

  lemma AtColon(t: string, a: string, b: string)
    requires t == a + (":" + b) && ':' !in a
    ensures FindOf(t, ":", 0) == |a| < |t| && t[..|a|] == a && t[|a| + 1..] == b
  {
    hide FindOf;
    assert [':'] == ":";
    SplitAt(t, a, ':', b);
  }

  lemma SplitOf(t: string, c: char)
    requires FindOf(t, [c], 0) < |t|
    ensures
      var i := FindOf(t, [c], 0);
      t == t[..i] + ([c] + t[i + 1..]) && c !in t[..i]
  {
    hide FindOf;
    FoundFirst(t, c, 0);
    SplitAround(t, c, FindOf(t, [c], 0));
  }

  lemma SplitAround(t: string, c: char, i: nat)
    requires i < |t| && t[i] == c && forall k :: 0 <= k < i ==> t[k] != c
    ensures t == t[..i] + ([c] + t[i + 1..]) && c !in t[..i]
  {
  }

  lemma {:induction false} FoundFirst(t: string, c: char, from: nat)
    requires from <= |t|
    ensures
      var i := FindOf(t, [c], from);
      from <= i <= |t| && (i < |t| ==> t[i] == c) && forall k :: from <= k < i ==> t[k] != c
    decreases |t| - from
  {
    if from < |t| {
      FoundFirst(t, c, from + 1);
    }
  }

  lemma PlusFront(plus: string, h: string)
    requires plus in {"", "+"}
    ensures plus == "+" ==> (plus + h)[0] == '+' && (plus + h)[1..] == h
    ensures plus == "" ==> plus + h == h
  {
  }

  /** Where the hours stand in front of a colon. */
  lemma HoursAre(t: string, colon: nat, plus: string, h: string)
    requires colon < |t| && t[colon] == ':' && t[..colon] == plus + h
    requires plus in {"", "+"} && (plus == "" && h != "" ==> h[0] != '+')
    ensures if t[0] == '+' then colon > 0 && t[1..colon] == h else t[..colon] == h
  {
    PlusFront(plus, h);
    if colon > 0 {
      assert t[0] == (plus + h)[0];
      assert t[1..colon] == (plus + h)[1..];
    }
  }

  lemma TimeParts(t: string, plus: string, h: string, m: string)
    requires t == plus + (h + (":" + m)) && plus in {"", "+"} && (plus == "" && h != "" ==> h[0] != '+') && ':' !in h
    ensures
      var colon := FindOf(t, ":", 0);
      colon < |t| && t[colon + 1..] == m && (if t[0] == '+' then colon > 0 && t[1..colon] == h else t[..colon] == h)
  {
    hide FindOf;
    assert t == plus + h + (":" + m);
    AtColon(t, plus + h, m);
    FoundFirst(t, ':', 0);
    HoursAre(t, FindOf(t, ":", 0), plus, h);
  }

  lemma TimeReads(t: string, checkTime: bool, slot: TimeSlot, plus: string, h: string, m: string)
    requires IsTimeOf(t, checkTime, slot, plus, h, m)
    ensures GetTime(t, checkTime) == Got(slot)
  {
    hide IsInteger, ParseInt, FindOf;
    IntegerMeans(h, slot.h);
    IntegerMeans(m, slot.m);
    TimeParts(t, plus, h, m);
  }

  lemma TimeGives(t: string, checkTime: bool, slot: TimeSlot) returns (colon: nat, h: string)
    requires GetTime(t, checkTime) == Got(slot)
    ensures colon == FindOf(t, ":", 0) < |t| && (t[0] == '+' ==> colon > 0)
    ensures h == if t[0] == '+' then t[1..colon] else t[..colon]
    ensures ParseInt(h) == Some(slot.h) && ParseInt(t[colon + 1..]) == Some(slot.m) && |t[colon + 1..]| == 2
    ensures checkTime ==> |h| == 2 && 0 <= slot.h <= 23 && 0 <= slot.m <= 59
  {
    SplitOf(t, ':');
    hide ParseInt, FindOf;
    colon := FindOf(t, ":", 0);
    h := if t[0] == '+' then t[1..colon] else t[..colon];
  }

  lemma PlusOf(front: string) returns (plus: string, h: string)
    ensures front == plus + h && plus in {"", "+"} && (plus == "" && h != "" ==> h[0] != '+')
    ensures h == if front != "" && front[0] == '+' then front[1..] else front
  {
    if front != "" && front[0] == '+' {
      plus, h := "+", front[1..];
    } else {
      plus, h := "", front;
    }
  }

  lemma TimeOf(t: string, checkTime: bool, slot: TimeSlot)
    requires GetTime(t, checkTime) == Got(slot)
    ensures IsTime(t, checkTime, slot)
  {
    hide *;
    var colon, h := TimeGives(t, checkTime, slot);
    SplitOf(t, ':');
    var plus, h' := PlusOf(t[..colon]);
    SameHours(t, colon, h, h');
    IntegerMeans(h, slot.h);
    IntegerMeans(t[colon + 1..], slot.m);
    TimeIsOf(t, checkTime, slot, t[..colon], plus, h, t[colon + 1..]);
  }

  lemma SameHours(t: string, colon: nat, h: string, h': string)
    requires colon < |t| && t[colon] == ':' && (t[0] == '+' ==> colon > 0)
    requires h == if t[0] == '+' then t[1..colon] else t[..colon]
    requires h' == if t[..colon] != "" && t[..colon][0] == '+' then t[..colon][1..] else t[..colon]
    ensures h == h'
  {
  }

  lemma TimeIsOf(t: string, checkTime: bool, slot: TimeSlot, front: string, plus: string, h: string, m: string)
    requires t == front + (":" + m) && ':' !in front && front == plus + h
    requires plus in {"", "+"} && (plus == "" && h != "" ==> h[0] != '+')
    requires IsInteger(h, slot.h) && IsInteger(m, slot.m) && |m| == 2
    requires checkTime ==> |h| == 2 && 0 <= slot.h <= 23 && 0 <= slot.m <= 59
    ensures IsTime(t, checkTime, slot)
  {
    hide IsInteger;
    assert t == plus + (h + (":" + m));
    assert forall c :: c in h ==> c in front;
    assert IsTimeOf(t, checkTime, slot, plus, h, m);
  }

  /** A text is read as a time exactly when it is one, and for the time it says. */
  lemma TimeMeans(t: string, checkTime: bool, slot: TimeSlot)
    ensures GetTime(t, checkTime) == Got(slot) <==> IsTime(t, checkTime, slot)
  {
    hide GetTime, IsTimeOf;
    if GetTime(t, checkTime) == Got(slot) {
      TimeOf(t, checkTime, slot);
    }
    if plus, h, m :| IsTimeOf(t, checkTime, slot, plus, h, m) {
      TimeReads(t, checkTime, slot, plus, h, m);
    }
  }

  // ----- durations

  ghost predicate IsDuration(t: string, v: int) {
    exists sign, h, m, s, x, y, z :: IsDurationOf(t, v, sign, h, m, s, x, y, z)
  }

  ghost predicate IsDurationOf(t: string, v: int, sign: string, h: string, m: string, s: string,
                               x: int, y: int, z: int)
  {
    && t == sign + (h + (":" + (m + (":" + s)))) && sign in {"", "-"} && (sign == "" && h != "" ==> h[0] != '-')
    && ':' !in h && ':' !in m && IsInteger(h, x) && IsInteger(m, y) && IsInteger(s, z)
    && v == (if sign == "-" then -1 else 1) * (3600 * x + 60 * y + z)
  }

  ghost predicate IsHms(t: string, v: int, h: string, m: string, s: string, x: int, y: int, z: int) {
    && t == h + (":" + (m + (":" + s))) && ':' !in h && ':' !in m
    && IsInteger(h, x) && IsInteger(m, y) && IsInteger(s, z) && v == 3600 * x + 60 * y + z
  }

  lemma ColonAfter(t: string, n: nat, j: nat, m: string, s: string)
    requires n <= |t| && t[n..] == m + (":" + s) && ':' !in m && j == n + |m|
    ensures FindOf(t, ":", n) == j < |t| && t[n..j] == m && t[j + 1..] == s
  {
    hide FindOf;
    var u := t[n..];
    forall k | n <= k < n + |m|
      ensures t[k] != ':'
    {
      assert t[k] == u[k - n] == m[k - n];
      assert m[k - n] in m;
    }
    assert t[j] == u[|m|] == ':';
    FindAt(t, ":", n, j);
    assert t[n..j] == u[..|m|] == m;
    assert t[j + 1..] == u[|m| + 1..] == s;
  }

  lemma Colons(t: string, h: string, b: string, m: string, s: string) returns (n: nat, j: nat)
    requires t == h + (":" + b) && ':' !in h && b == m + (":" + s) && ':' !in m
    ensures n == FindOf(t, ":", 0) + 1 <= |t| && t[..n - 1] == h
    ensures j == FindOf(t, ":", n) < |t| && n <= j && t[n..j] == m && t[j + 1..] == s
  {
    hide FindOf;
    AtColon(t, h, b);
    n := |h| + 1;
    j := n + |m|;
    ColonAfter(t, n, j, m, s);
  }

  lemma HmsReads(t: string, v: int, h: string, m: string, s: string, x: int, y: int, z: int)
    requires IsHms(t, v, h, m, s, x, y, z)
    ensures HmsValue(t) == Got(v)
  {
    hide IsInteger, ParseInt, FindOf;
    IntegerMeans(h, x);
    IntegerMeans(m, y);
    IntegerMeans(s, z);
    var n, j := Colons(t, h, m + (":" + s), m, s);
  }

  lemma TwoColons(t: string, i: nat, j: nat)
    requires i < j < |t| && t[i] == ':' && t[j] == ':'
    requires (forall k :: 0 <= k < i ==> t[k] != ':') && forall k :: i < k < j ==> t[k] != ':'
    ensures t == t[..i] + (":" + (t[i + 1..j] + (":" + t[j + 1..]))) && ':' !in t[..i] && ':' !in t[i + 1..j]
  {
  }

  lemma HmsGives(t: string, v: int) returns (i: nat, j: nat)
    requires HmsValue(t) == Got(v)
    ensures i < |t| && i == FindOf(t, ":", 0) && i < j < |t| && j == FindOf(t, ":", i + 1)
    ensures ParseInt(t[..i]).Some? && ParseInt(t[i + 1..j]).Some? && ParseInt(t[j + 1..]).Some?
    ensures v == 3600 * ParseInt(t[..i]).value + 60 * ParseInt(t[i + 1..j]).value + ParseInt(t[j + 1..]).value
  {
    hide ParseInt, FindOf;
    i := FindOf(t, ":", 0);
    j := FindOf(t, ":", i + 1);
  }

  lemma HmsOf(t: string, v: int) returns (h: string, m: string, s: string, x: int, y: int, z: int)
    requires HmsValue(t) == Got(v)
    ensures IsHms(t, v, h, m, s, x, y, z)
  {
    hide *;
    var i, j := HmsGives(t, v);
    FoundFirst(t, ':', 0);
    FoundFirst(t, ':', i + 1);
    TwoColons(t, i, j);
    h, m, s := t[..i], t[i + 1..j], t[j + 1..];
    x, y, z := ParseInt(h).value, ParseInt(m).value, ParseInt(s).value;
    IntegerMeans(h, x);
    IntegerMeans(m, y);
    IntegerMeans(s, z);
    HmsIsOf(t, v, h, m, s, x, y, z);
  }

  lemma HmsIsOf(t: string, v: int, h: string, m: string, s: string, x: int, y: int, z: int)
    requires t == h + (":" + (m + (":" + s))) && ':' !in h && ':' !in m
    requires IsInteger(h, x) && IsInteger(m, y) && IsInteger(s, z) && v == 3600 * x + 60 * y + z
    ensures IsHms(t, v, h, m, s, x, y, z)
  {
    hide IsInteger;
  }

  lemma WithoutMinus(sign: string, u: string)
    requires sign in {"", "-"} && (sign == "" && u != "" ==> u[0] != '-')
    ensures DurationFromText(sign + u) ==
      match HmsValue(u)
      case Got(n) => Got((if sign == "-" then -1 else 1) * n)
      case Thrown => Thrown
  {
    hide HmsValue;
    var t := sign + u;
    if sign == "-" {
      assert t[0] == '-' && t[1..] == u;
    } else {
      assert t == u;
    }
  }

  lemma MinusOf(t: string) returns (sign: string, u: string)
    ensures t == sign + u && sign in {"", "-"} && (sign == "" && u != "" ==> u[0] != '-')
  {
    if t != "" && t[0] == '-' {
      sign, u := "-", t[1..];
    } else {
      sign, u := "", t;
    }
  }

  /** A text is read as a duration exactly when it is one, and for the duration it says. */
  lemma DurationMeans(t: string, v: int)
    ensures DurationFromText(t) == Got(v) <==> IsDuration(t, v)
  {
    hide IsInteger, HmsValue, DurationFromText;
    if DurationFromText(t) == Got(v) {
      var sign, u := MinusOf(t);
      WithoutMinus(sign, u);
      var h, m, s, x, y, z := HmsOf(u, if sign == "-" then -v else v);
      FirstOf(h, ":" + (m + (":" + s)));
      assert IsDurationOf(t, v, sign, h, m, s, x, y, z);
    }
    if sign, h, m, s, x, y, z :| IsDurationOf(t, v, sign, h, m, s, x, y, z) {
      var u := h + (":" + (m + (":" + s)));
      HmsReads(u, 3600 * x + 60 * y + z, h, m, s, x, y, z);
      FirstOf(h, ":" + (m + (":" + s)));
      WithoutMinus(sign, u);
    }
  }

  lemma FirstOf(h: string, more: string)
    ensures h != "" ==> (h + more)[0] == h[0]
    ensures h == "" && more != "" ==> (h + more)[0] == more[0]
  {
  }

  // ----- the printed forms

  /** At least two digits, and no zero too many. */
  ghost predicate IsPadded(t: string, n: nat) {
    IsNumeral(t, n) && |t| >= 2 && (|t| > 2 ==> t[0] != '0')
  }

  lemma {:induction false} NatTextStarts(n: nat)
    requires n > 0
    ensures NatText(n)[0] != '0' && IsNumeral(NatText(n), n)
  {
    DigitsRoundTrip(n);
    NumeralMeans(NatText(n), n);
    hide IsNumeral, DigitsValue;
    if n >= 10 {
      NatTextStarts(n / 10);
      assert NatText(n)[0] == NatText(n / 10)[0];
    }
  }

  lemma PaddedIs(n: nat)
    ensures IsPadded(TwoDigits(n), n)
  {
    if n > 0 {
      NatTextStarts(n);
    }
    if n < 10 {
      var c := "0123456789"[n];
      DigitMeans(c, n);
      assert NatText(n) == [c] && TwoDigits(n) == "0" + [c];
      Zero([c], n);
    } else {
      assert TwoDigits(n) == NatText(n);
    }
  }

  lemma Zero(t: string, n: nat)
    requires n < 10 && t == ["0123456789"[n]]
    ensures IsNumeral("0" + t, n)
  {
    var u := "0" + t;
    assert u[..1] == "0" && "0"[..0] == "";
    assert DigitIs('0', 0) && DigitIs(u[1], n);
    assert IsNumeral("", 0);
    assert IsNumeral("0", 0);
  }

  /** A padded numeral is the printed one: there is only one for each number. */
  lemma {:induction false} PaddedIsPrinted(t: string, n: nat)
    requires IsPadded(t, n)
    ensures t == TwoDigits(n)
  {
    PaddedIs(n);
    OnlyPadded(t, TwoDigits(n), n);
  }

  lemma OneDigit(c: char, d: char, x: nat, y: nat, n: nat)
    requires DigitIs(c, x) && DigitIs(d, y) && x <= n && y <= n && (n - x) % 10 == 0 && (n - y) % 10 == 0
    ensures c == d && x == y
  {
  }

  lemma LastDigit(t: string, n: nat) returns (d: nat)
    requires IsNumeral(t, n) && t != ""
    ensures DigitIs(t[|t| - 1], d) && d <= n && (n - d) % 10 == 0 && IsNumeral(t[..|t| - 1], (n - d) / 10)
    ensures t == t[..|t| - 1] + [t[|t| - 1]]
  {
    hide DigitIs;
    d :| DigitIs(t[|t| - 1], d) && d <= n && (n - d) % 10 == 0 && IsNumeral(t[..|t| - 1], (n - d) / 10);
  }

  lemma {:induction false} SameLength(t: string, u: string, n: nat)
    requires IsNumeral(t, n) && IsNumeral(u, n) && |t| == |u|
    ensures t == u
    decreases |t|
  {
    hide DigitIs, IsNumeral;
    if t != "" {
      var k := |t| - 1;
      var x := LastDigit(t, n);
      var y := LastDigit(u, n);
      OneDigit(t[k], u[k], x, y, n);
      SameLength(t[..k], u[..k], (n - x) / 10);
    }
  }

  /** A longer numeral of the same number begins with a zero. */
  lemma {:induction false} LongerHasZero(t: string, u: string, n: nat)
    requires IsNumeral(t, n) && IsNumeral(u, n) && |t| < |u|
    ensures u[0] == '0'
    decreases |u|
  {
    hide DigitIs;
    var k := |u| - 1;
    var y := LastDigit(u, n);
    if t != "" {
      var x := LastDigit(t, n);
      OneDigit(t[|t| - 1], u[k], x, y, n);
      LongerHasZero(t[..|t| - 1], u[..k], (n - y) / 10);
    } else if k > 0 {
      LongerHasZero("", u[..k], (n - y) / 10);
    } else {
      ZeroDigit(u[0], y);
    }
  }

  lemma ZeroDigit(c: char, y: nat)
    requires DigitIs(c, y) && y == 0
    ensures c == '0'
  {
  }

  lemma OnlyPadded(t: string, u: string, n: nat)
    requires IsPadded(t, n) && IsPadded(u, n)
    ensures t == u
  {
    hide IsNumeral;
    if |t| < |u| {
      LongerHasZero(t, u, n);
    } else if |u| < |t| {
      LongerHasZero(u, t, n);
    } else {
      SameLength(t, u, n);
    }
  }

  ghost predicate IsPrintedSlot(text: string, t: TimeSlot)
    requires t.Proper()
  {
    exists h, m :: text == h + (":" + m) && IsPadded(h, t.h) && IsPadded(m, t.m)
  }

  /** A slot is printed as its hours and minutes, padded, and in no other way. */
  lemma SlotIsPrinted(t: TimeSlot, text: string)
    requires t.Proper()
    ensures SlotText(t) == text <==> IsPrintedSlot(text, t)
  {
    hide IsPadded, TwoDigits;
    PaddedIs(t.h);
    PaddedIs(t.m);
    if h, m :| text == h + (":" + m) && IsPadded(h, t.h) && IsPadded(m, t.m) {
      PaddedIsPrinted(h, t.h);
      PaddedIsPrinted(m, t.m);
    }
    assert SlotText(t) == TwoDigits(t.h) + (":" + TwoDigits(t.m));
  }

  lemma NoSlotIsPrinted(t: TimeSlot)
    requires t.IsNull()
    ensures SlotText(t) == "00:00"
  {
  }

  /** A duration is printed with a minus sign if and only if it is negative, and its hours, minutes and
      seconds, padded, with less than sixty minutes and seconds. */
  ghost predicate IsPrintedDuration(text: string, seconds: int) {
    exists h, m, s, x: nat, y: nat, z: nat :: IsPrintedOf(text, seconds, h, m, s, x, y, z)
  }

  ghost predicate IsPrintedOf(text: string, seconds: int, h: string, m: string, s: string, x: nat, y: nat, z: nat) {
    && text == (if seconds < 0 then "-" else "") + (h + (":" + (m + (":" + s))))
    && IsPadded(h, x) && IsPadded(m, y) && IsPadded(s, z) && y < 60 && z < 60
    && 3600 * x + 60 * y + z == if seconds < 0 then -seconds else seconds
  }

  lemma HmsIs(n: nat)
    ensures Hms(n) == TwoDigits(n / 3600) + (":" + (TwoDigits(n / 60 % 60) + (":" + TwoDigits(n % 60))))
  {
    hide TwoDigits;
  }

  lemma DurationTextIs(seconds: int)
    ensures DurationText(seconds) ==
            (if seconds < 0 then "-" else "") + Hms(if seconds < 0 then -seconds else seconds)
  {
    hide Hms;
  }

  lemma HmsIsPrinted(n: nat, seconds: int)
    requires n == if seconds < 0 then -seconds else seconds
    ensures IsPrintedDuration((if seconds < 0 then "-" else "") + Hms(n), seconds)
  {
    HmsParts(n);
    HmsIs(n);
    PaddedIs(n / 3600);
    PaddedIs(n / 60 % 60);
    PaddedIs(n % 60);
    hide IsPadded, TwoDigits, Hms, ParseInt;
    assert IsPrintedOf((if seconds < 0 then "-" else "") + Hms(n), seconds,
                       TwoDigits(n / 3600), TwoDigits(n / 60 % 60), TwoDigits(n % 60),
                       n / 3600, n / 60 % 60, n % 60);
  }

  lemma PrintedIsHms(n: nat, h: string, m: string, s: string, x: nat, y: nat, z: nat)
    requires IsPadded(h, x) && IsPadded(m, y) && IsPadded(s, z) && y < 60 && z < 60 && 3600 * x + 60 * y + z == n
    ensures h + (":" + (m + (":" + s))) == Hms(n)
  {
    Digits60(n, x, y, z);
    PaddedIsPrinted(h, x);
    PaddedIsPrinted(m, y);
    PaddedIsPrinted(s, z);
    hide IsPadded, TwoDigits, Hms;
    HmsIs(n);
  }

  lemma DurationIsPrinted(seconds: int, text: string)
    ensures DurationText(seconds) == text <==> IsPrintedDuration(text, seconds)
  {
    hide IsPadded, TwoDigits, Hms, DurationText;
    var n: nat := if seconds < 0 then -seconds else seconds;
    DurationTextIs(seconds);
    HmsIsPrinted(n, seconds);
    if h, m, s, x: nat, y: nat, z: nat :| IsPrintedOf(text, seconds, h, m, s, x, y, z) {
      PrintedIsHms(n, h, m, s, x, y, z);
    }
  }

  lemma Sixty(n: nat, q: nat, r: nat)
    requires n == 60 * q + r && r < 60
    ensures q == n / 60 && r == n % 60
  {
  }

  lemma Digits60(n: nat, x: nat, y: nat, z: nat)
    requires 3600 * x + 60 * y + z == n && y < 60 && z < 60
    ensures x == n / 3600 && y == n / 60 % 60 && z == n % 60
  {
    Sixty(n, 60 * x + y, z);
    Sixty(n / 60, x, y);
    assert n / 3600 == x;
  }

  // ----- the state tokens that are printed

  predicate StartsWith(t: string, p: string) { p <= t }

  /** Nothing is printed for the state of a definition; otherwise a mark, and one token for each thing
      that differs from it, which tells it. */
  lemma StateIsTold(s: Series, free: bool)
    ensures
      var ts := StateTokens(s, free);
      && (ts == [] <==> !free && s.valid && s.next == s.start && s.relDuration == 0)
      && (ts != [] ==> ts[0] == "#")
      && ("free" in ts <==> free) && ("isValid:false" in ts <==> !s.valid)
      && ((exists t :: t in ts && StartsWith(t, "nextTimeSlot/")) <==> s.next != s.start)
      && ((exists t :: t in ts && StartsWith(t, "relativeDuration/")) <==> s.relDuration != 0)
      && forall t <- ts ::
           t in {"#", "free", "isValid:false", "nextTimeSlot/" + SlotText(s.next),
                 "relativeDuration/" + DurationText(s.relDuration)}
  {
    hide SlotText, DurationText;
    var ts := StateTokens(s, free);
    var a, b := "nextTimeSlot/" + SlotText(s.next), "relativeDuration/" + DurationText(s.relDuration);
    assert a != "" && b != "" && a[0] == 'n' && b[0] == 'r';
    assert StartsWith(a, "nextTimeSlot/") && StartsWith(b, "relativeDuration/");
    StateHolds(s, free, a, b);
    hide StateTokens, StartsWith;
    forall t | t in ts
      ensures StartsWith(t, "nextTimeSlot/") ==> t == a
      ensures StartsWith(t, "relativeDuration/") ==> t == b
    {
      if StartsWith(t, "nextTimeSlot/") {
        FirstLetter(t, "nextTimeSlot/");
      }
      if StartsWith(t, "relativeDuration/") {
        FirstLetter(t, "relativeDuration/");
      }
    }
  }

  lemma StateHolds(s: Series, free: bool, a: string, b: string)
    requires a == "nextTimeSlot/" + SlotText(s.next) && b == "relativeDuration/" + DurationText(s.relDuration)
    ensures
      var ts := StateTokens(s, free);
      && (ts == [] <==> !HasState(s, free)) && (ts != [] ==> ts[0] == "#")
      && forall t :: t in ts <==>
           && HasState(s, free)
           && (|| t == "#" || (free && t == "free") || (!s.valid && t == "isValid:false")
               || (s.next != s.start && t == a) || (s.relDuration != 0 && t == b))
  {
    hide SlotText, DurationText;
  }

  lemma FirstLetter(t: string, p: string)
    requires p != "" && StartsWith(t, p)
    ensures t != "" && t[0] == p[0]
  {
  }

  /** They stand in this order, each once. */
  lemma StateInOrder(s: Series, free: bool)
    ensures
      var ts := StateTokens(s, free);
      var a, b := if free then 2 else 1, if s.valid then 0 else 1;
      HasState(s, free) ==>
        && |ts| == a + b + (if s.next != s.start then 1 else 0) + (if s.relDuration != 0 then 1 else 0)
        && (free ==> ts[1] == "free") && (!s.valid ==> ts[a] == "isValid:false")
        && (s.next != s.start ==> ts[a + b] == "nextTimeSlot/" + SlotText(s.next))
        && (s.relDuration != 0 ==> ts[|ts| - 1] == "relativeDuration/" + DurationText(s.relDuration))
  {
    hide SlotText, DurationText;
  }

  /** The definition is printed as its start, with a plus sign in front if it is relative, and its end and its
      increment, if it has one. */
  lemma DefinitionIsTold(s: Series)
    requires Inv(s)
    ensures
      var ts := DefinitionTokens(s);
      && |ts| == (if s.HasIncrement() then 3 else 1)
      && (exists t :: IsPrintedSlot(t, s.start) && ts[0] == (if s.relative then "+" else "") + t)
      && (s.HasIncrement() ==> IsPrintedSlot(ts[1], s.finish) && IsPrintedSlot(ts[2], s.incr))
  {
    hide SlotText, IsPrintedSlot;
    SlotIsPrinted(s.start, SlotText(s.start));
    if s.HasIncrement() {
      SlotIsPrinted(s.finish, SlotText(s.finish));
      SlotIsPrinted(s.incr, SlotText(s.incr));
    }
  }

  function Lengths(ts: seq<string>): nat {
    if ts == [] then 0 else |ts[0]| + Lengths(ts[1..])
  }

  lemma {:induction false} LengthsAppend(a: seq<string>, b: seq<string>)
    ensures Lengths(a + b) == Lengths(a) + Lengths(b)
  {
    if a == [] {
      assert a + b == b;
    } else {
      assert (a + b)[1..] == a[1..] + b;
      LengthsAppend(a[1..], b);
    }
  }

  lemma {:induction false} SpacedIs(ts: seq<string>)
    requires AllWords(ts)
    ensures |Spaced(ts)| == Lengths(ts) + |ts| && forall c <- Spaced(ts) :: c in BLANKS ==> c == ' '
  {
    hide Word;
    if ts != [] {
      assert AllWords(ts[1..]) && Word(ts[0]);
      SpacedIs(ts[1..]);
      WordHasNoBlank(ts[0]);
    }
  }

  lemma WordHasNoBlank(t: string)
    requires Word(t)
    ensures forall c <- t :: c !in BLANKS
  {
  }

  /** The printed line is its tokens with one space between them, and nothing else. */
  lemma LineIsTight(s: Series, free: bool)
    ensures
      var line, ts := Line(s, free), DefinitionTokens(s) + StateTokens(s, free);
      Tokens(line, BLANKS) == ts && |line| == Lengths(ts) + |ts| - 1 && forall c <- line :: c in BLANKS ==> c == ' '
  {
    var def, state := DefinitionTokens(s), StateTokens(s, free);
    DefinitionIsWords(s);
    StateIsWords(s, free);
    LineSplits(s, free);
    hide DefinitionTokens, StateTokens, Tokens, Word;
    SpacedIs(def[1..]);
    SpacedIs(state);
    WordHasNoBlank(def[0]);
    LengthsAppend(def, state);
    assert def == [def[0]] + def[1..];
  }

  // ----- state tokens and definitions that are read

  /** The text after the first slash of a token. */
  ghost predicate HasValue(token: string, value: string) {
    exists name :: token == name + ("/" + value) && '/' !in name
  }

  ghost predicate Names(token: string, name: string) { exists a, b :: token == a + (name + b) }

  /** What one token after the mark does: it makes the series expired, or sets the next slot, the relative
      duration or both, or nothing.  A token that names a value it does not hold is refused. */
  ghost predicate TokenReads(token: string, before: Series, after: Series) {
    if token == "isValid:false" then after == before.(valid := false)
    else
      && after == before.(next := after.next, relDuration := after.relDuration)
      && (if Names(token, "nextTimeSlot")
          then exists text ::
                 && HasValue(token, text) && IsTime(text, false, after.next)
                 && 0 <= after.next.h && 0 <= after.next.m
          else after.next == before.next)
      && (if Names(token, "relativeDuration")
          then exists text :: HasValue(token, text) && IsDuration(text, after.relDuration)
          else after.relDuration == before.relDuration)
  }

  lemma NamesMeans(token: string, name: string)
    ensures Names(token, name) <==> Contains(token, name)
  {
    if a, b :| token == a + (name + b) {
      assert token[|a|..|a| + |name|] == name;
      assert OccursAt(token, name, |a|);
    }
    if Contains(token, name) {
      var i :| 0 <= i <= |token| && OccursAt(token, name, i);
      assert token == token[..i] + (name + token[i + |name|..]);
    }
  }

  lemma ValueMeans(token: string, value: string)
    ensures HasValue(token, value) <==> SplitGetSecond(token, '/') == Some(value)
  {
    hide FindOf;
    FoundFirst(token, '/', 0);
    if name :| token == name + ("/" + value) && '/' !in name {
      SplitAt(token, name, '/', value);
    }
    if SplitGetSecond(token, '/') == Some(value) {
      var i := FindOf(token, "/", 0);
      SplitAround(token, '/', i);
      assert token == token[..i] + ("/" + value);
    }
  }

  lemma TokenMeans(token: string, before: Series, after: Series)
    ensures ReadToken(token, before) == Got(after) <==> TokenReads(token, before, after)
  {
    hide SplitGetSecond, GetTime, DurationFromText, Contains, IsTime, IsDuration, HasValue, Names;
    NamesMeans(token, "nextTimeSlot");
    NamesMeans(token, "relativeDuration");
    forall text
      ensures HasValue(token, text) <==> SplitGetSecond(token, '/') == Some(text)
    {
      ValueMeans(token, text);
    }
    if SplitGetSecond(token, '/').Some? {
      TimeMeans(SplitGetSecond(token, '/').value, false, after.next);
      DurationMeans(SplitGetSecond(token, '/').value, after.relDuration);
    }
  }

  /** The series before each token from k on, and after the last. */
  ghost predicate Chain(tokens: seq<string>, k: nat, states: seq<Series>) {
    && k <= |tokens| && |states| == |tokens| - k + 1
    && forall i :: k <= i < |tokens| ==> TokenReads(tokens[i], states[i - k], states[i - k + 1])
  }

  ghost predicate ChainTo(tokens: seq<string>, k: nat, before: Series, after: Series) {
    exists states :: Chain(tokens, k, states) && states[0] == before && states[|states| - 1] == after
  }

  /** The first mark at or after k is at j. */
  ghost predicate FirstMark(tokens: seq<string>, k: nat, j: nat) {
    k <= j < |tokens| && tokens[j] == "#" && forall i :: k <= i < j ==> tokens[i] != "#"
  }

  /** The state is read from all tokens behind the first mark, one after the other; without a mark there
      is none. */
  ghost predicate StateReads(tokens: seq<string>, k: nat, before: Series, after: Series) {
    if exists j: nat :: FirstMark(tokens, k, j)
    then exists j: nat :: FirstMark(tokens, k, j) && ChainTo(tokens, j + 1, before, after)
    else before == after
  }

  lemma ChainFirst(tokens: seq<string>, k: nat, before: Series, after: Series)
    requires k < |tokens|
    ensures ChainTo(tokens, k, before, after)
            <==> exists s :: TokenReads(tokens[k], before, s) && ChainTo(tokens, k + 1, s, after)
  {
    hide TokenReads;
    if ChainTo(tokens, k, before, after) {
      var states :| Chain(tokens, k, states) && states[0] == before && states[|states| - 1] == after;
      assert TokenReads(tokens[k], states[0], states[1]);
      var rest := states[1..];
      forall i | k + 1 <= i < |tokens|
        ensures TokenReads(tokens[i], rest[i - (k + 1)], rest[i - (k + 1) + 1])
      {
        assert rest[i - (k + 1)] == states[i - k] && rest[i - (k + 1) + 1] == states[i - k + 1];
      }
      assert Chain(tokens, k + 1, rest);
    }
    if s :| TokenReads(tokens[k], before, s) && ChainTo(tokens, k + 1, s, after) {
      var rest :| Chain(tokens, k + 1, rest) && rest[0] == s && rest[|rest| - 1] == after;
      var states := [before] + rest;
      forall i | k <= i < |tokens|
        ensures TokenReads(tokens[i], states[i - k], states[i - k + 1])
      {
        if i > k {
          assert states[i - k] == rest[i - (k + 1)] && states[i - k + 1] == rest[i - (k + 1) + 1];
        }
      }
      assert Chain(tokens, k, states);
    }
  }

  lemma ChainEnd(tokens: seq<string>, before: Series, after: Series)
    ensures ChainTo(tokens, |tokens|, before, after) <==> before == after
  {
    if before == after {
      assert Chain(tokens, |tokens|, [before]);
    }
  }

  lemma {:induction false} TokensMean(tokens: seq<string>, i: nat, before: Series, after: Series)
    requires i <= |tokens|
    ensures StateFrom(tokens, i, true, before) == Got(after) <==> ChainTo(tokens, i, before, after)
    decreases |tokens| - i
  {
    hide ReadToken, TokenReads, ChainTo;
    if i == |tokens| {
      ChainEnd(tokens, before, after);
    } else {
      ChainFirst(tokens, i, before, after);
      forall s
        ensures ReadToken(tokens[i], before) == Got(s) <==> TokenReads(tokens[i], before, s)
      {
        TokenMeans(tokens[i], before, s);
      }
      var r := ReadToken(tokens[i], before);
      if r.Got? {
        TokensMean(tokens, i + 1, r.value, after);
      }
    }
  }

  lemma NoMarkHere(tokens: seq<string>, k: nat, before: Series, after: Series)
    requires k < |tokens| && tokens[k] != "#"
    ensures StateReads(tokens, k, before, after) <==> StateReads(tokens, k + 1, before, after)
  {
    hide ChainTo;
    var m := k + 1;
    forall j: nat
      ensures FirstMark(tokens, k, j) <==> FirstMark(tokens, m, j)
    {
      assert FirstMark(tokens, k, j) ==> j != k;
    }
  }

  lemma {:induction false} StateMeans(tokens: seq<string>, k: nat, before: Series, after: Series)
    requires k <= |tokens|
    ensures StateFrom(tokens, k, false, before) == Got(after) <==> StateReads(tokens, k, before, after)
    decreases |tokens| - k
  {
    hide ReadToken, ChainTo;
    if k < |tokens| {
      if tokens[k] == "#" {
        TokensMean(tokens, k + 1, before, after);
        assert FirstMark(tokens, k, k);
        assert forall j: nat :: FirstMark(tokens, k, j) ==> j == k;
      } else {
        StateMeans(tokens, k + 1, before, after);
        NoMarkHere(tokens, k, before, after);
      }
    }
  }

  /** The definition at the front of the tokens from `index` on, and where it ends: a start, relative
      with a plus sign, alone at the end of the line or before a comment, or with an end and an increment. */
  ghost predicate Defines(tokens: seq<string>, index: nat, k: nat, s: Series)
    requires index < |tokens| && forall k :: 0 <= k < |tokens| ==> tokens[k] != []
  {
    && (s.relative <==> tokens[index][0] == '+')
    && IsTime(if s.relative then tokens[index][1..] else tokens[index], true, s.start)
    && if index + 1 < |tokens| && tokens[index + 1][0] != '#' then
         && k == index + 3 <= |tokens| && IsTime(tokens[index + 1], true, s.finish)
         && IsTime(tokens[index + 2], true, s.incr)
         && FreshSeries(s.start, s.finish, s.incr, s.relative) == Ok(s)
       else k == index + 1 && FreshSingle(s.start, s.relative) == Ok(s)
  }

  lemma FreshIs(start: TimeSlot, finish: TimeSlot, incr: TimeSlot, relative: bool)
    ensures
      var r := FreshSeries(start, finish, incr, relative);
      r.Ok? ==>
        r.value.start == start && r.value.finish == finish && r.value.incr == incr && r.value.relative == relative
    ensures
      var r := FreshSingle(start, relative);
      r.Ok? ==> r.value.start == start && r.value.relative == relative
  {
    hide CheckSlots, LastSlot, TestTimeSlot;
  }

  /** The definition and where it ends, as the program finds them. */
  function Defined(index: nat, tokens: seq<string>): Outcome<(nat, Series)>
    requires index < |tokens| && forall k :: 0 <= k < |tokens| ==> tokens[k] != []
  {
    var relative := tokens[index][0] == '+';
    match GetTime(if relative then tokens[index][1..] else tokens[index], true)
    case Thrown => Thrown
    case Got(start) =>
      var i := index + 1;
      if i < |tokens| && tokens[i][0] != '#' then
        if i + 1 >= |tokens| then Thrown
        else
          match (GetTime(tokens[i], true), GetTime(tokens[i + 1], true))
          case (Got(finish), Got(incr)) => With(index + 3, FreshSeries(start, finish, incr, relative))
          case _ => Thrown
      else With(index + 1, FreshSingle(start, relative))
  }

  function With(k: nat, r: TimeSeriesModel.Result<Series>): Outcome<(nat, Series)> {
    match r
    case Ok(s) => Got((k, s))
    case Err(_) => Thrown
  }

  lemma MarkIsNoTime()
    ensures GetTime("#", true) == Thrown
  {
    FoundFirst("#", ':', 0);
  }

  lemma CreateIs(index: nat, tokens: seq<string>, readState: bool)
    requires index < |tokens| && forall k :: 0 <= k < |tokens| ==> tokens[k] != []
    ensures Defined(index, tokens).Got? ==> Defined(index, tokens).value.0 <= |tokens|
    ensures
      Create(index, tokens, readState) ==
        match Defined(index, tokens)
        case Thrown => Thrown
        case Got((k, s)) => if readState then StateFrom(tokens, k, false, s) else Got(s)
  {
    hide GetTime, ReadToken, FreshSeries, FreshSingle;
    var relative := tokens[index][0] == '+';
    var start := GetTime(if relative then tokens[index][1..] else tokens[index], true);
    if start.Got? {
      if index + 1 < |tokens| && tokens[index + 1][0] != '#' {
        if index + 2 < |tokens| {
          var finish, incr := GetTime(tokens[index + 1], true), GetTime(tokens[index + 2], true);
          if finish.Got? && incr.Got? {
            var made := FreshSeries(start.value, finish.value, incr.value, relative);
            assert Defined(index, tokens) == With(index + 3, made);
            MarkIsNoTime();
          }
        }
      } else {
        assert Defined(index, tokens) == With(index + 1, FreshSingle(start.value, relative));
      }
    }
  }

  lemma SeriesDefined(index: nat, tokens: seq<string>, k: nat, s: Series)
    requires index + 1 < |tokens| && forall k :: 0 <= k < |tokens| ==> tokens[k] != []
    requires tokens[index + 1][0] != '#'
    ensures Defined(index, tokens) == Got((k, s)) <==> Defines(tokens, index, k, s)
  {
    hide GetTime, IsTime, FreshSeries;
    var relative := tokens[index][0] == '+';
    var first := if relative then tokens[index][1..] else tokens[index];
    TimeMeans(first, true, s.start);
    if index + 2 < |tokens| {
      TimeMeans(tokens[index + 1], true, s.finish);
      TimeMeans(tokens[index + 2], true, s.incr);
      var a, b, c := GetTime(first, true), GetTime(tokens[index + 1], true), GetTime(tokens[index + 2], true);
      if a.Got? && b.Got? && c.Got? {
        FreshIs(a.value, b.value, c.value, relative);
      }
    }
  }

  lemma SingleDefined(index: nat, tokens: seq<string>, k: nat, s: Series)
    requires index < |tokens| && forall k :: 0 <= k < |tokens| ==> tokens[k] != []
    requires index + 1 < |tokens| ==> tokens[index + 1][0] == '#'
    ensures Defined(index, tokens) == Got((k, s)) <==> Defines(tokens, index, k, s)
  {
    hide GetTime, IsTime, FreshSingle;
    var relative := tokens[index][0] == '+';
    var first := if relative then tokens[index][1..] else tokens[index];
    TimeMeans(first, true, s.start);
    if GetTime(first, true).Got? {
      FreshIs(GetTime(first, true).value, NULL_SLOT, NULL_SLOT, relative);
    }
  }

  lemma DefinedMeans(index: nat, tokens: seq<string>, k: nat, s: Series)
    requires index < |tokens| && forall k :: 0 <= k < |tokens| ==> tokens[k] != []
    ensures Defined(index, tokens) == Got((k, s)) <==> Defines(tokens, index, k, s)
  {
    hide Defined, Defines;
    if index + 1 < |tokens| && tokens[index + 1][0] != '#' {
      SeriesDefined(index, tokens, k, s);
    } else {
      SingleDefined(index, tokens, k, s);
    }
  }

  /** What the tokens of a line define: without the state or with it, exactly as the tokens say. */
  lemma CreateMeans(index: nat, tokens: seq<string>, readState: bool, s: Series)
    requires index < |tokens| && forall k :: 0 <= k < |tokens| ==> tokens[k] != []
    ensures
      Create(index, tokens, readState) == Got(s)
      <==> exists k: nat, def ::
             Defines(tokens, index, k, def) && if readState then StateReads(tokens, k, def, s) else s == def
  {
    hide Create, Defines, Defined, StateFrom, StateReads;
    CreateIs(index, tokens, readState);
    if Defined(index, tokens).Got? {
      var (k, def) := Defined(index, tokens).value;
      DefinedMeans(index, tokens, k, def);
      StateMeans(tokens, k, def, s);
    }
    forall k: nat, def
      ensures Defines(tokens, index, k, def) <==> Defined(index, tokens) == Got((k, def))
    {
      DefinedMeans(index, tokens, k, def);
    }
  }
}
