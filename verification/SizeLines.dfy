/** What a chunk size line says, by a grammar of numerals: the conversion of the standard library to an
    unsigned long, base 16. */
module SizeLines {
  import opened Chunked

  /** A hexadecimal digit, in either case, and its value. */
  ghost predicate DigitIs(c: char, d: nat) {
    || (d < 10 && c == "0123456789"[d])
    || (10 <= d < 16 && (c == "abcdef"[d - 10] || c == "ABCDEF"[d - 10]))
  }

  ghost predicate IsDigit(c: char) { exists d :: DigitIs(c, d) }

  /** A numeral, most significant digit first, leading zeros allowed. */
  ghost predicate IsNumeral(t: string, n: nat)
    decreases |t|
  {
    if t == "" then n == 0
    else
      exists d: nat {:trigger DigitIs(t[|t| - 1], d)} ::
        DigitIs(t[|t| - 1], d) && d <= n && (n - d) % 16 == 0 && IsNumeral(t[..|t| - 1], (n - d) / 16)
  }

  predicate IsBlank(c: char) { c in " \t\n\r" || c as int == 11 || c as int == 12 }

  /** Blanks, an optional sign, an optional 0x, digits, and anything that does not go on with them. */
  datatype SizeText = SizeText(blanks: string, sign: string, prefix: string, digits: string, tail: string)

  ghost predicate SizeTextOk(l: SizeText) {
    && (forall c <- l.blanks :: IsBlank(c)) && l.sign in {"", "+", "-"} && l.prefix in {"", "0x", "0X"}
    && l.digits != "" && (forall c <- l.digits :: IsDigit(c)) && (l.tail == "" || !IsDigit(l.tail[0]))
    // a lone zero before an x and a digit is the prefix
    && (l.prefix == "" && l.digits == "0" ==>
          !(|l.tail| >= 2 && (l.tail[0] == 'x' || l.tail[0] == 'X') && IsDigit(l.tail[1])))
  }

  function TextOf(l: SizeText): string { l.blanks + (l.sign + (l.prefix + (l.digits + l.tail))) }

  /** Out of range is the largest value; a minus sign counts down from the end of the range. */
  function InRange(negative: bool, n: nat): nat {
    if n > 0xffff_ffff_ffff_ffff then 0xffff_ffff_ffff_ffff
    else if negative && n > 0 then 0x1_0000_0000_0000_0000 - n
    else n
  }

  /** The line says n. */
  ghost predicate Says(line: string, v: nat) {
    exists l, n :: SizeTextOk(l) && TextOf(l) == line && IsNumeral(l.digits, n) && v == InRange(l.sign == "-", n)
  }

  // ----- digits and numerals

  lemma DecimalDigits(d: nat)
    requires d < 10
    ensures "0123456789"[d] == '0' + d as char
  {
  }

  lemma LetterDigits(d: nat)
    requires d < 6
    ensures "abcdef"[d] == 'a' + d as char && "ABCDEF"[d] == 'A' + d as char
  {
  }

  lemma DigitMeans(c: char, d: nat)
    ensures DigitIs(c, d) <==> HexDigit(c) && HexValue(c) == d
  {
    if d < 10 {
      DecimalDigits(d);
    } else if d < 16 {
      LetterDigits(d - 10);
    }
  }

  lemma IsDigitMeans(c: char)
    ensures IsDigit(c) <==> HexDigit(c)
  {
    if HexDigit(c) {
      DigitMeans(c, HexValue(c));
    }
    if d :| DigitIs(c, d) {
      DigitMeans(c, d);
    }
  }

  lemma {:induction false} NumeralMeans(t: string, n: nat)
    ensures IsNumeral(t, n) <==> AllHex(t) && HexNumber(t) == n
    decreases |t|
  {
    hide DigitIs;
    if t != "" {
      var front, c := t[..|t| - 1], t[|t| - 1];
      if AllHex(t) && HexNumber(t) == n {
        var d := HexValue(c);
        NumeralMeans(front, HexNumber(front));
        DigitMeans(c, d);
        assert (n - d) / 16 == HexNumber(front);
      }
      if d: nat :| DigitIs(c, d) && d <= n && (n - d) % 16 == 0 && IsNumeral(front, (n - d) / 16) {
        NumeralMeans(front, (n - d) / 16);
        DigitMeans(c, d);
        assert t == front + [c];
      }
    }
  }

  lemma AllDigits(t: string)
    ensures (forall c <- t :: IsDigit(c)) <==> AllHex(t)
  {
    forall c | c in t
      ensures IsDigit(c) <==> HexDigit(c)
    {
      IsDigitMeans(c);
    }
  }

  // ----- a line of the grammar is read as it says

  lemma {:induction false} CStringAppend(a: string, b: string)
    requires forall c <- a :: c != '\0'
    ensures CString(a + b) == a + CString(b)
  {
    if a == "" {
      assert a + b == b;
    } else {
      assert a[0] in a;
      assert (a + b)[1..] == a[1..] + b;
      assert forall c :: c in a[1..] ==> c in a;
      CStringAppend(a[1..], b);
    }
  }

  lemma CStringHead(s: string)
    ensures CString(s) <= s
    ensures CString(s) != "" ==> CString(s)[0] == s[0]
    ensures |CString(s)| >= 2 ==> CString(s)[1] == s[1]
    ensures |CString(s)| < |s| ==> s[|CString(s)|] == '\0'
  {
    if s != "" && s[0] != '\0' {
      CStringHead(s[1..]);
    }
  }

  lemma {:induction false} SkipBlanksOf(blanks: string, rest: string)
    requires (forall c <- blanks :: IsBlank(c)) && (rest == "" || !IsSpace(rest[0]))
    ensures SkipSpaces(blanks + rest) == rest
  {
    if blanks == "" {
      assert blanks + rest == rest;
    } else {
      assert blanks[0] in blanks;
      assert (blanks + rest)[1..] == blanks[1..] + rest;
      SkipBlanksOf(blanks[1..], rest);
    }
  }

  /** The conversion after blanks: sign, prefix and digits of a C string. */
  function Convert(s: string): Number {
    var negative := s != "" && s[0] == '-';
    var t := if s != "" && (s[0] == '-' || s[0] == '+') then s[1..] else s;
    ConvertUnsigned(t, negative)
  }

  function ConvertUnsigned(t: string, negative: bool): Number {
    var u := if |t| >= 3 && t[0] == '0' && (t[1] == 'x' || t[1] == 'X') && HexDigit(t[2]) then t[2..] else t;
    var digits := HexPrefix(u);
    if digits == "" then NoNumber else Number(InRange(negative, HexNumber(digits)))
  }

  lemma StrToUlConverts(line: string)
    ensures StrToUl(line) == Convert(SkipSpaces(CString(line)))
  {
    hide CString, SkipSpaces, HexPrefix, HexNumber;
  }

  lemma DigitsConvert(prefix: string, digits: string, tail: string, negative: bool)
    requires prefix in {"", "0x", "0X"} && digits != "" && AllHex(digits) && (tail == "" || !HexDigit(tail[0]))
    requires prefix == "" && digits == "0" ==>
      !(|tail| >= 2 && (tail[0] == 'x' || tail[0] == 'X') && HexDigit(tail[1]))
    ensures ConvertUnsigned(prefix + (digits + tail), negative) == Number(InRange(negative, HexNumber(digits)))
  {
    var u := digits + tail;
    HexPrefixStops(digits, tail);
    hide HexNumber, HexPrefix, InRange, HexDigit, ConvertUnsigned, AllHex;
    if prefix == "" {
      assert prefix + u == u;
      NotPrefixed(digits, tail);
      ConvertOf(u, u, negative);
    } else {
      Prefixed(prefix, digits, tail);
      ConvertOf(prefix + u, u, negative);
    }
  }

  lemma ConvertOf(t: string, u: string, negative: bool)
    requires u == if |t| >= 3 && t[0] == '0' && (t[1] == 'x' || t[1] == 'X') && HexDigit(t[2]) then t[2..] else t
    requires HexPrefix(u) != ""
    ensures ConvertUnsigned(t, negative) == Number(InRange(negative, HexNumber(HexPrefix(u))))
  {
    hide HexNumber, HexPrefix, InRange, HexDigit;
  }

  lemma Prefixed(prefix: string, digits: string, tail: string)
    requires prefix in {"0x", "0X"} && digits != "" && AllHex(digits)
    ensures
      var t := prefix + (digits + tail);
      |t| >= 3 && t[0] == '0' && (t[1] == 'x' || t[1] == 'X') && HexDigit(t[2]) && t[2..] == digits + tail
  {
    var t := prefix + (digits + tail);
    assert t[0] == prefix[0] && t[1] == prefix[1] && t[2] == digits[0];
  }

  lemma NotPrefixed(digits: string, tail: string)
    requires digits != "" && AllHex(digits)
    requires digits == "0" ==> !(|tail| >= 2 && (tail[0] == 'x' || tail[0] == 'X') && HexDigit(tail[1]))
    ensures
      var t := digits + tail;
      !(|t| >= 3 && t[0] == '0' && (t[1] == 'x' || t[1] == 'X') && HexDigit(t[2]))
  {
    var t := digits + tail;
    assert t[0] == digits[0];
    if |digits| >= 2 {
      assert t[1] == digits[1] && HexDigit(digits[1]);
    } else {
      assert |tail| >= 1 ==> t[1] == tail[0];
      assert |tail| >= 2 ==> t[2] == tail[1];
      assert t[0] == '0' ==> digits == "0";
    }
  }

  lemma SignConverts(sign: string, rest: string)
    requires sign in {"", "+", "-"} && rest != "" && HexDigit(rest[0])
    ensures Convert(sign + rest) == ConvertUnsigned(rest, sign == "-")
    ensures sign + rest != "" && !IsSpace((sign + rest)[0])
  {
    hide ConvertUnsigned;
    var s := sign + rest;
    if sign == "" {
      assert s == rest;
    } else {
      assert s[0] == sign[0] && s[1..] == rest;
    }
  }

  lemma FirstOfNumber(prefix: string, digits: string, tail: string)
    requires prefix in {"", "0x", "0X"} && digits != "" && AllHex(digits)
    ensures prefix + (digits + tail) != "" && HexDigit((prefix + (digits + tail))[0])
  {
    var t := prefix + (digits + tail);
    if prefix == "" {
      assert t[0] == digits[0];
    } else {
      assert t[0] == prefix[0] == '0';
    }
  }

  lemma LineReads(l: SizeText, n: nat)
    requires SizeTextOk(l) && IsNumeral(l.digits, n)
    ensures StrToUl(TextOf(l)) == Number(InRange(l.sign == "-", n))
  {
    AllDigits(l.digits);
    NumeralMeans(l.digits, n);
    var tail := CString(l.tail);
    CutTail(l);
    StrToUlConverts(TextOf(l));
    var rest := l.prefix + (l.digits + tail);
    TailIsCut(l, tail);
    hide IsNumeral, DigitIs, IsDigit, HexNumber, StrToUl, CString, SkipSpaces, Convert, ConvertUnsigned;
    FirstOfNumber(l.prefix, l.digits, tail);
    SignConverts(l.sign, rest);
    SkipBlanksOf(l.blanks, l.sign + rest);
    DigitsConvert(l.prefix, l.digits, tail, l.sign == "-");
  }

  lemma TailIsCut(l: SizeText, tail: string)
    requires SizeTextOk(l) && tail == CString(l.tail)
    ensures tail == "" || !HexDigit(tail[0])
    ensures l.prefix == "" && l.digits == "0" ==>
      !(|tail| >= 2 && (tail[0] == 'x' || tail[0] == 'X') && HexDigit(tail[1]))
  {
    CStringHead(l.tail);
    if l.tail != "" {
      IsDigitMeans(l.tail[0]);
    }
    if |l.tail| >= 2 {
      IsDigitMeans(l.tail[1]);
    }
    hide IsDigit;
  }

  /** A NUL can only stand after the digits. */
  lemma CutTail(l: SizeText)
    requires SizeTextOk(l)
    ensures CString(TextOf(l)) == l.blanks + (l.sign + (l.prefix + (l.digits + CString(l.tail))))
  {
    AllDigits(l.digits);
    forall c | c in l.digits
      ensures c != '\0'
    {
      assert IsDigit(c);
      IsDigitMeans(c);
    }
    hide IsDigit;
    CStringAppend(l.digits, l.tail);
    CStringAppend(l.prefix, l.digits + l.tail);
    CStringAppend(l.sign, l.prefix + (l.digits + l.tail));
    CStringAppend(l.blanks, l.sign + (l.prefix + (l.digits + l.tail)));
  }

  // ----- every line that is read is of the grammar

  lemma {:induction false} BlanksOf(s: string) returns (blanks: string)
    ensures s == blanks + SkipSpaces(s) && forall c <- blanks :: IsBlank(c)
  {
    blanks := "";
    if s != "" && IsSpace(s[0]) {
      var more := BlanksOf(s[1..]);
      blanks := [s[0]] + more;
      assert s == [s[0]] + s[1..];
    }
  }

  lemma {:induction false} PrefixStops(u: string)
    ensures u == HexPrefix(u) + u[|HexPrefix(u)|..]
    ensures |HexPrefix(u)| < |u| ==> !HexDigit(u[|HexPrefix(u)|])
  {
    if u != "" && HexDigit(u[0]) {
      PrefixStops(u[1..]);
    }
  }

  ghost predicate PartsOk(prefix: string, digits: string, tail: string) {
    && prefix in {"", "0x", "0X"} && digits != "" && AllHex(digits) && (tail == "" || !HexDigit(tail[0]))
    && (prefix == "" && digits == "0" ==>
          !(|tail| >= 2 && (tail[0] == 'x' || tail[0] == 'X') && HexDigit(tail[1])))
  }

  /** The digits at the front of a text, and what does not go on with them. */
  lemma DigitsOf(u: string, behind: string) returns (digits: string, tail: string)
    requires HexPrefix(u) != "" && (behind == "" || behind[0] == '\0')
    ensures digits == HexPrefix(u) && u + behind == digits + tail && AllHex(digits)
    ensures tail == u[|digits|..] + behind && (tail == "" || !HexDigit(tail[0]))
  {
    digits := HexPrefix(u);
    PrefixStops(u);
    hide HexPrefix;
    var more := u[|digits|..];
    tail := more + behind;
    assert more != "" ==> tail[0] == more[0];
  }

  /** The parts of a C string that converts, and of what stands behind its end. */
  lemma PartsOf(t: string, negative: bool, behind: string) returns (prefix: string, digits: string, tail: string)
    requires ConvertUnsigned(t, negative).Number? && (behind == "" || behind[0] == '\0')
    ensures t + behind == prefix + (digits + tail) && PartsOk(prefix, digits, tail)
  {
    hide HexPrefix, HexNumber, InRange;
    if |t| >= 3 && t[0] == '0' && (t[1] == 'x' || t[1] == 'X') && HexDigit(t[2]) {
      prefix := t[..2];
      digits, tail := DigitsOf(t[2..], behind);
      assert t + behind == prefix + (t[2..] + behind);
      assert prefix == ['0', t[1]];
    } else {
      prefix := "";
      digits, tail := DigitsOf(t, behind);
      assert t + behind == "" + (t + behind);
      LoneZero(t, digits, tail, behind);
    }
  }

  lemma LoneZero(t: string, digits: string, tail: string, behind: string)
    requires t + behind == digits + tail && |digits| <= |t| && (behind == "" || behind[0] == '\0')
    requires !(|t| >= 3 && t[0] == '0' && (t[1] == 'x' || t[1] == 'X') && HexDigit(t[2]))
    ensures digits == "0" ==> !(|tail| >= 2 && (tail[0] == 'x' || tail[0] == 'X') && HexDigit(tail[1]))
  {
    var all := t + behind;
    if digits == "0" && |tail| >= 2 {
      assert all[0] == '0' && all[1] == tail[0] && all[2] == tail[1];
      assert |t| == 1 ==> all[1] == behind[0];
      assert |t| == 2 ==> all[2] == behind[0];
    }
  }

  lemma SignOf(t: string) returns (sign: string, u: string)
    ensures t == sign + u && sign in {"", "+", "-"} && Convert(t) == ConvertUnsigned(u, t != "" && t[0] == '-')
  {
    hide ConvertUnsigned;
    if t != "" && (t[0] == '-' || t[0] == '+') {
      sign, u := [t[0]], t[1..];
    } else {
      sign, u := "", t;
    }
  }

  lemma LineOf(line: string) returns (l: SizeText)
    requires StrToUl(line).Number?
    ensures SizeTextOk(l) && TextOf(l) == line
  {
    hide *;
    StrToUlConverts(line);
    CStringHead(line);
    var s := CString(line);
    var behind := line[|s|..];
    assert line == s + behind && (behind == "" || behind[0] == '\0');
    var blanks := BlanksOf(s);
    var t := SkipSpaces(s);
    var sign, u := SignOf(t);
    var prefix, digits, tail := PartsOf(u, t != "" && t[0] == '-', behind);
    LineIs(line, blanks, sign, u, behind);
    l := Assembled(blanks, sign, prefix, digits, tail);
  }

  lemma Assembled(blanks: string, sign: string, prefix: string, digits: string, tail: string) returns (l: SizeText)
    requires (forall c <- blanks :: IsBlank(c)) && sign in {"", "+", "-"} && PartsOk(prefix, digits, tail)
    ensures SizeTextOk(l) && TextOf(l) == blanks + (sign + (prefix + (digits + tail)))
  {
    l := SizeText(blanks, sign, prefix, digits, tail);
    AllDigits(digits);
    if tail != "" {
      IsDigitMeans(tail[0]);
    }
    if |tail| >= 2 {
      IsDigitMeans(tail[1]);
    }
    hide IsDigit, HexDigit;
  }

  lemma LineIs(line: string, blanks: string, sign: string, u: string, behind: string)
    requires line == blanks + (sign + u) + behind
    ensures line == blanks + (sign + (u + behind))
  {
  }

  /** The conversion of a size line gives v exactly when the line says so, for every line: in either case of
      the digits, with leading zeros, blanks, a sign and 0x, and whatever follows the digits; it gives no
      number exactly when the line says none. */
  lemma SizeLineSays(line: string, v: nat)
    ensures StrToUl(line) == Number(v) <==> Says(line, v)
    ensures StrToUl(line) == NoNumber <==> !exists w: nat :: Says(line, w)
  {
    hide StrToUl, SizeTextOk, TextOf, IsNumeral, InRange;
    if StrToUl(line).Number? {
      var l := LineOf(line);
      var n := NumeralOf(l);
      LineReads(l, n);
      assert Says(line, StrToUl(line).value);
    }
    forall w: nat | Says(line, w)
      ensures StrToUl(line) == Number(w)
    {
      var l, n :| SizeTextOk(l) && TextOf(l) == line && IsNumeral(l.digits, n) && w == InRange(l.sign == "-", n);
      LineReads(l, n);
    }
  }

  lemma NumeralOf(l: SizeText) returns (n: nat)
    requires SizeTextOk(l)
    ensures IsNumeral(l.digits, n)
  {
    AllDigits(l.digits);
    n := HexNumber(l.digits);
    NumeralMeans(l.digits, n);
  }

  // ----- the numeral that is printed

  /** Digits in lower case, and no zero too many. */
  ghost predicate IsPrinted(t: string, n: nat) {
    && t != "" && IsNumeral(t, n) && (|t| > 1 ==> t[0] != '0')
    && forall c <- t :: c in "0123456789" || c in "abcdef"
  }

  lemma PrintedDigit(c: char, d: nat)
    ensures d < 16 && HexChar(d) == c <==> DigitIs(c, d) && (c in "0123456789" || c in "abcdef")
  {
    if 10 <= d < 16 {
      LetterDigits(d - 10);
      assert "ABCDEF"[d - 10] < 'a' && "ABCDEF"[d - 10] > '9';
    }
    HexCharAt(d);
  }

  lemma HexCharAt(d: nat)
    ensures d < 10 ==> HexChar(d) == "0123456789"[d]
    ensures 10 <= d < 16 ==> HexChar(d) == "abcdef"[d - 10]
  {
  }

  lemma {:induction false} HexIsPrinted(n: nat)
    ensures IsPrinted(Hex(n), n)
  {
    HexRoundTrip(n);
    NumeralMeans(Hex(n), n);
    hide IsNumeral, DigitIs, HexNumber, AllHex;
    PrintedDigit(HexChar(n % 16), n % 16);
    if n >= 16 {
      HexIsPrinted(n / 16);
    }
  }

  /** The printed size is the one numeral of that kind for the number. */
  lemma {:induction false} PrintedSize(n: nat, t: string)
    ensures Hex(n) == t <==> IsPrinted(t, n)
    decreases |t|
  {
    hide DigitIs, HexChar;
    HexIsPrinted(n);
    if IsPrinted(t, n) {
      var front, c := t[..|t| - 1], t[|t| - 1];
      var d: nat :| DigitIs(c, d) && d <= n && (n - d) % 16 == 0 && IsNumeral(front, (n - d) / 16);
      assert c in t;
      PrintedDigit(c, d);
      assert t == front + [c];
      if front == "" {
        assert n == d;
      } else {
        FrontIsPrinted(t, front, (n - d) / 16);
        PrintedSize((n - d) / 16, front);
        ZeroIsPrinted(front);
      }
    }
  }

  lemma FrontIsPrinted(t: string, front: string, m: nat)
    requires |t| > 1 && front == t[..|t| - 1] && t[0] != '0' && IsNumeral(front, m)
    requires forall c <- t :: c in "0123456789" || c in "abcdef"
    ensures IsPrinted(front, m) && front[0] != '0'
  {
    assert forall c :: c in front ==> c in t;
  }

  lemma ZeroIsPrinted(t: string)
    requires t != "" && t[0] != '0'
    ensures Hex(0) != t
  {
    assert Hex(0)[0] == '0';
  }
}
