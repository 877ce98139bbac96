/** The streaming base64 encoder against the block definition of section 4 of RFC 4648. */
module Base64 {
  import opened Wrappers

  type Byte = b: int | 0 <= b < 256

  const UPPER := "ABCDEFGHIJKLMNOPQRSTUVWXYZ"
  const LOWER := "abcdefghijklmnopqrstuvwxyz"
  const DIGITS := "0123456789"
  const ALPHABET := UPPER + LOWER + DIGITS + "+/"

  function Digit(n: int): char
    requires 0 <= n < 64
  {
    ALPHABET[n]
  }

  // ----- the definition: three bytes make four characters

  function EncodeBlock(s: seq<Byte>): (t: string)
    requires 1 <= |s| <= 3
    ensures |t| == 4
  {
    if |s| == 1 then
      [Digit(s[0] / 4), Digit(s[0] % 4 * 16), '=', '=']
    else if |s| == 2 then
      [Digit(s[0] / 4), Digit(s[0] % 4 * 16 + s[1] / 16), Digit(s[1] % 16 * 4), '=']
    else
      [Digit(s[0] / 4), Digit(s[0] % 4 * 16 + s[1] / 16), Digit(s[1] % 16 * 4 + s[2] / 64), Digit(s[2] % 64)]
  }

  function Encode(s: seq<Byte>): string
    decreases |s|
  {
    if s == [] then ""
    else if |s| <= 3 then EncodeBlock(s)
    else EncodeBlock(s[..3]) + Encode(s[3..])
  }

  /** Four characters for every three bytes begun. */
  lemma {:induction false} EncodedLength(s: seq<Byte>)
    ensures |Encode(s)| == 4 * ((|s| + 2) / 3)
    decreases |s|
  {
    hide EncodeBlock;
    if |s| > 3 {
      EncodedLength(s[3..]);
    }
  }

  // ----- a decoder

  function Value(c: char): Option<int> {
    if 'A' <= c <= 'Z' then Some((c - 'A') as int)
    else if 'a' <= c <= 'z' then Some((c - 'a') as int + 26)
    else if '0' <= c <= '9' then Some((c - '0') as int + 52)
    else if c == '+' then Some(62)
    else if c == '/' then Some(63)
    else None
  }

  lemma UpperLetter(n: int)
    requires 0 <= n < 26
    ensures UPPER[n] == 'A' + n as char
  {
  }

  lemma LowerLetter(n: int)
    requires 0 <= n < 26
    ensures LOWER[n] == 'a' + n as char
  {
  }

  lemma DecimalDigit(n: int)
    requires 0 <= n < 10
    ensures DIGITS[n] == '0' + n as char
  {
  }

  lemma DigitIs(n: int)
    requires 0 <= n < 64
    ensures Digit(n) ==
      if n < 26 then UPPER[n] else if n < 52 then LOWER[n - 26] else if n < 62 then DIGITS[n - 52] else "+/"[n - 62]
  {
    Indexed(UPPER, LOWER, DIGITS, "+/", n);
    assert |UPPER| == 26 && |LOWER| == 26 && |DIGITS| == 10;
  }

  lemma ValueOfDigit(n: int)
    requires 0 <= n < 64
    ensures Value(Digit(n)) == Some(n) && Digit(n) != '='
  {
    hide Digit;
    DigitIs(n);
    if n < 26 {
      UpperLetter(n);
    } else if n < 52 {
      LowerLetter(n - 26);
    } else if n < 62 {
      DecimalDigit(n - 52);
    }
  }

  lemma Indexed(a: string, b: string, c: string, d: string, n: int)
    requires 0 <= n < |a| + |b| + |c| + |d|
    ensures (a + b + c + d)[n] ==
      if n < |a| then a[n]
      else if n < |a| + |b| then b[n - |a|]
      else if n < |a| + |b| + |c| then c[n - |a| - |b|]
      else d[n - |a| - |b| - |c|]
  {
  }

  function FirstOctet(a: int, b: int): Byte { (a * 4 + b / 16) % 256 }

  function SecondOctet(b: int, c: int): Byte { (b % 16 * 16 + c / 4) % 256 }

  function ThirdOctet(c: int, d: int): Byte { (c % 4 * 64 + d) % 256 }

  /** One block of four characters, the last one or two of which may be padding. */
  function DecodeBlock(t: string): Option<seq<Byte>>
    requires |t| == 4
  {
    var a, b, c, d := Value(t[0]), Value(t[1]), Value(t[2]), Value(t[3]);
    if a.None? || b.None? then None
    else
      var b0 := FirstOctet(a.value, b.value);
      if t[2] == '=' then if t[3] == '=' then Some([b0]) else None
      else if c.None? then None
      else
        var b1 := SecondOctet(b.value, c.value);
        if t[3] == '=' then Some([b0, b1])
        else if d.None? then None
        else Some([b0, b1, ThirdOctet(c.value, d.value)])
  }

  /** Padding only in the last block. */
  function Decode(t: string): Option<seq<Byte>>
    decreases |t|
  {
    if |t| == 0 then Some([])
    else if |t| < 4 then None
    else
      match (DecodeBlock(t[..4]), Decode(t[4..]))
      case (Some(x), Some(y)) => if |x| < 3 && |t| > 4 then None else Some(x + y)
      case _ => None
  }

  lemma BlockOfOne(a: Byte)
    ensures DecodeBlock(EncodeBlock([a])) == Some([a])
  {
    hide Digit, Value, FirstOctet, SecondOctet, ThirdOctet;
    ValueOfDigit(a / 4);
    ValueOfDigit(a % 4 * 16);
    SplitTwo(a, 0);
    assert 0 / 16 == 0 && a % 4 * 16 + 0 == a % 4 * 16;
  }

  lemma BlockOfTwo(a: Byte, b: Byte)
    ensures DecodeBlock(EncodeBlock([a, b])) == Some([a, b])
  {
    hide Digit, Value, FirstOctet, SecondOctet, ThirdOctet;
    ValueOfDigit(a / 4);
    ValueOfDigit(a % 4 * 16 + b / 16);
    ValueOfDigit(b % 16 * 4);
    SplitTwo(a, b);
  }

  lemma BlockOfThree(a: Byte, b: Byte, c: Byte)
    ensures DecodeBlock(EncodeBlock([a, b, c])) == Some([a, b, c])
  {
    hide Digit, Value, FirstOctet, SecondOctet, ThirdOctet;
    ValueOfDigit(a / 4);
    ValueOfDigit(a % 4 * 16 + b / 16);
    ValueOfDigit(b % 16 * 4 + c / 64);
    ValueOfDigit(c % 64);
    SplitTwo(a, b);
    SplitThree(a, b, c);
  }

  lemma BlockRoundTrip(s: seq<Byte>)
    requires 1 <= |s| <= 3
    ensures DecodeBlock(EncodeBlock(s)) == Some(s)
  {
    hide EncodeBlock, DecodeBlock;
    if |s| == 1 {
      BlockOfOne(s[0]);
      assert s == [s[0]];
    } else if |s| == 2 {
      BlockOfTwo(s[0], s[1]);
      assert s == [s[0], s[1]];
    } else {
      BlockOfThree(s[0], s[1], s[2]);
      assert s == [s[0], s[1], s[2]];
    }
  }

  lemma Sixteens(l: int, u: int)
    requires 0 <= u < 16
    ensures (l * 16 + u) / 16 == l && (l * 16 + u) % 16 == u
  {
  }

  lemma Fours(l: int, u: int)
    requires 0 <= u < 4
    ensures (l * 4 + u) / 4 == l && (l * 4 + u) % 4 == u
  {
  }

  lemma SplitTwo(a: Byte, b: Byte)
    ensures FirstOctet(a / 4, a % 4 * 16 + b / 16) == a
    ensures SecondOctet(a % 4 * 16 + b / 16, b % 16 * 4) == b
  {
    Sixteens(a % 4, b / 16);
    Fours(b % 16, 0);
  }

  lemma SplitThree(a: Byte, b: Byte, c: Byte)
    ensures SecondOctet(a % 4 * 16 + b / 16, b % 16 * 4 + c / 64) == b
    ensures ThirdOctet(b % 16 * 4 + c / 64, c % 64) == c
  {
    Sixteens(a % 4, b / 16);
    Fours(b % 16, c / 64);
  }

  /** Decoding an encoded byte string gives it back. */
  lemma {:induction false} DecodeEncode(s: seq<Byte>)
    ensures Decode(Encode(s)) == Some(s)
    decreases |s|
  {
    hide EncodeBlock, DecodeBlock;
    if 1 <= |s| <= 3 {
      BlockRoundTrip(s);
      var t := Encode(s);
      assert t[..4] == t && t[4..] == [] && s + [] == s;
    } else if |s| > 3 {
      BlockRoundTrip(s[..3]);
      DecodeEncode(s[3..]);
      var t, head := Encode(s), EncodeBlock(s[..3]);
      assert t[..4] == head && t[4..] == Encode(s[3..]);
      assert s[..3] + s[3..] == s;
    }
  }

  // ----- the streaming encoder

  /** Signed 32-bit wrap-around. */
  function Wrap32(n: int): int {
    var m := n % 0x1_0000_0000;
    if m < 0x8000_0000 then m else m - 0x1_0000_0000
  }

  function Pow2(n: nat): (r: nat)
    ensures r > 0
  {
    if n == 0 then 1 else 2 * Pow2(n - 1)
  }

  /** The character for the six bits of `val` that are `shift` places up. */
  function CharAt(val: int, shift: nat): char {
    Digit(SixBits(val, Pow2(shift)))
  }

  /** Six bits of `val`, from the place value `p` up. */
  function SixBits(val: int, p: int): (n: int)
    requires p > 0
    ensures 0 <= n < 64
  {
    val / p % 64
  }

  lemma CharAtIs(val: int, shift: nat, p: int)
    requires (shift == 0 && p == 1) || (shift == 2 && p == 4) || (shift == 4 && p == 16) || (shift == 6 && p == 64)
    ensures Pow2(shift) == p && CharAt(val, shift) == Digit(SixBits(val, p))
  {
    hide Digit;
    assert Pow2(0) == 1 && Pow2(1) == 2 && Pow2(2) == 4 && Pow2(3) == 8 && Pow2(4) == 16;
    assert Pow2(5) == 32 && Pow2(6) == 64;
  }

  /** Only the low bits of the accumulator matter, and wrap-around leaves them alone. */
  lemma LowBits(val: int, c: Byte) returns (q: int)
    ensures Wrap32(val * 256 + c) == 4096 * q + (val % 16 * 256 + c)
  {
    var n := val * 256 + c;
    assert n == 4096 * (val / 16) + val % 16 * 256 + c;
    var k := n / 0x1_0000_0000 + if n % 0x1_0000_0000 < 0x8000_0000 then 0 else 1;
    assert Wrap32(n) == n - 0x1_0000_0000 * k;
    q := val / 16 - 1048576 * k;
  }

  lemma Quarters(q: int, a: int, c: Byte)
    requires 0 <= a < 16
    ensures (4096 * q + (a * 256 + c)) / 4 == 64 * (16 * q + a) + c / 4
    ensures (4096 * q + (a * 256 + c)) / 16 == 64 * (4 * q) + (a * 16 + c / 16)
    ensures (4096 * q + (a * 256 + c)) / 64 == 64 * q + (a * 4 + c / 64)
  {
  }

  lemma DropMultiple(k: int, r: int)
    ensures (64 * k + r) % 64 == r % 64
  {
  }

  /** The six-bit groups read off the accumulator, in terms of the byte and the bits held. */
  lemma Sextets(val: int, c: Byte)
    ensures
      var v := Wrap32(val * 256 + c);
      && SixBits(v, 4) == c / 4
      && SixBits(v, 16) == val % 4 * 16 + c / 16
      && SixBits(v, 64) == val % 16 * 4 + c / 64
      && SixBits(v, 1) == c % 64
      && Low(v, 4) == Low(c, 4) && Low(v, 16) == Low(c, 16)
  {
    hide Wrap32, SixBits, Low;
    var q := LowBits(val, c);
    SextetsOf(q, val % 16, c);
    LowestBits(q, val % 16, c);
    SixteensAndFours(val);
  }

  lemma SixteensAndFours(val: int)
    ensures val % 16 % 4 == val % 4
  {
  }

  function Low(v: int, p: int): int
    requires p > 0
  {
    v % p
  }

  lemma SextetsOf(q: int, a: int, c: Byte)
    requires 0 <= a < 16
    ensures
      var v := 4096 * q + (a * 256 + c);
      SixBits(v, 4) == c / 4 && SixBits(v, 16) == a % 4 * 16 + c / 16 && SixBits(v, 64) == a * 4 + c / 64
  {
    Quarters(q, a, c);
    LowSextet(16 * q + a, c / 4);
    DropMultiple(4 * q, a * 16 + c / 16);
    SmallSextet(a, c / 16);
    LowSextet(q, a * 4 + c / 64);
  }

  lemma LowSextet(k: int, r: int)
    requires 0 <= r < 64
    ensures (64 * k + r) % 64 == r
  {
    DropMultiple(k, r);
  }

  lemma SmallSextet(a: int, b: int)
    requires 0 <= a < 16 && 0 <= b < 16
    ensures (a * 16 + b) % 64 == a % 4 * 16 + b
  {
  }

  lemma LowestBits(q: int, a: int, c: Byte)
    ensures
      var v := 4096 * q + (a * 256 + c);
      SixBits(v, 1) == c % 64 && Low(v, 4) == Low(c, 4) && Low(v, 16) == Low(c, 16)
  {
    DropMultiple(64 * q + 4 * a, c);
    DropSixteens(256 * q + 16 * a, c);
    DropFours(1024 * q + 64 * a, c);
  }

  lemma DropSixteens(k: int, r: int)
    ensures (16 * k + r) % 16 == r % 16
  {
  }

  lemma DropFours(k: int, r: int)
    ensures (4 * k + r) % 4 == r % 4
  {
  }

  /** The characters written for the bytes of a block that is not complete. */
  function Partial(rest: seq<Byte>): string
    requires |rest| <= 2
  {
    if |rest| == 0 then ""
    else if |rest| == 1 then [Digit(rest[0] / 4)]
    else [Digit(rest[0] / 4), Digit(rest[0] % 4 * 16 + rest[1] / 16)]
  }

  /** The bits held for the bytes of a block that is not complete. */
  predicate Holds(rest: seq<Byte>, val: int, valb: int)
    requires |rest| <= 2
  {
    && valb == -6 + 2 * |rest|
    && (|rest| == 1 ==> Low(val, 4) == rest[0] % 4)
    && (|rest| == 2 ==> Low(val, 16) == rest[1] % 16)
  }

  /** The characters of the first `k` turns of the inner loop. */
  function Emitted(val: int, valb: int, k: nat): string
    requires 6 * (k - 1) <= valb
  {
    if k == 0 then "" else Emitted(val, valb, k - 1) + [CharAt(val, valb - 6 * (k - 1))]
  }

  /** One byte more: what the inner loop writes completes or prolongs the block. */
  lemma ByteStep(rest: seq<Byte>, val: int, valb: int, c: Byte)
    requires |rest| <= 2 && Holds(rest, val, valb)
    ensures
      var v := Wrap32(val * 256 + c);
      if |rest| < 2
      then Partial(rest) + Emitted(v, valb + 8, 1) == Partial(rest + [c]) && Holds(rest + [c], v, valb + 2)
      else Partial(rest) + Emitted(v, valb + 8, 2) == EncodeBlock(rest + [c])
  {
    hide Digit, CharAt, Wrap32, SixBits;
    var v := Wrap32(val * 256 + c);
    Sextets(val, c);
    assert Emitted(v, valb + 8, 1) == [CharAt(v, valb + 8)];
    if |rest| == 0 {
      CharAtIs(v, 2, 4);
      assert rest + [c] == [c];
    } else if |rest| == 1 {
      CharAtIs(v, 4, 16);
      assert rest + [c] == [rest[0], c];
    } else {
      CharAtIs(v, 0, 1);
      CharAtIs(v, 6, 64);
      assert rest + [c] == [rest[0], rest[1], c];
      assert Emitted(v, 6, 2) == [CharAt(v, 6)] + [CharAt(v, 0)];
    }
  }

  lemma {:induction false} EncodeAppendBlock(full: seq<Byte>, block: seq<Byte>)
    requires |full| % 3 == 0 && 1 <= |block| <= 3
    ensures Encode(full + block) == Encode(full) + EncodeBlock(block)
    decreases |full|
  {
    hide EncodeBlock;
    if full == [] {
      assert full + block == block;
    } else if |full| == 3 {
      assert (full + block)[..3] == full && (full + block)[3..] == block;
    } else {
      assert (full + block)[..3] == full[..3] && (full + block)[3..] == full[3..] + block;
      EncodeAppendBlock(full[3..], block);
    }
  }

  /** The last characters: the bits held back, and padding. */
  lemma LastStep(rest: seq<Byte>, val: int, valb: int)
    requires 1 <= |rest| <= 2 && Holds(rest, val, valb)
    ensures
      var t := Partial(rest) + [CharAt(Wrap32(val * 256), valb + 8)];
      EncodeBlock(rest) == if |rest| == 1 then t + "==" else t + "="
  {
    hide Digit, CharAt, Wrap32, SixBits;
    var v := Wrap32(val * 256);
    Sextets(val, 0);
    assert val * 256 + 0 == val * 256;
    if |rest| == 1 { CharAtIs(v, 4, 16); } else { CharAtIs(v, 6, 64); }
  }

  function Pads(n: nat): (t: string)
    ensures |t| == n
  {
    if n == 0 then "" else ['='] + Pads(n - 1)
  }

  lemma EncodeNothing()
    ensures Encode([]) == "" && Partial([]) == "" && Pads(0) == "" && Pads(1) == "=" && Pads(2) == "=="
  {
  }

  method Base64Encode(input: seq<Byte>) returns (out: string)
    ensures out == Encode(input)
  {
    hide Encode, EncodeBlock, Digit, Partial, Wrap32, CharAt, Pads;
    out := "";
    var val := 0;
    var valb := -6;
    ghost var full: seq<Byte>, rest: seq<Byte> := [], [];
    EncodeNothing();
    var i := 0;
    while i < |input|
      invariant 0 <= i <= |input|
      invariant full + rest == input[..i] && |full| % 3 == 0 && |rest| <= 2
      invariant Holds(rest, val, valb)
      invariant out == Encode(full) + Partial(rest)
    {
      var c := input[i];
      assert input[..i + 1] == full + (rest + [c]);
      out, val, valb := EncodeByte(out, val, valb, c, full, rest);
      if |rest| < 2 {
        rest := rest + [c];
      } else {
        full, rest := full + (rest + [c]), [];
      }
      i := i + 1;
    }
    assert input[..|input|] == input;
    ghost var pads := FinishBlock(out, val, valb, full, rest);
    if valb > -6 {
      out := out + [CharAt(Wrap32(val * 256), valb + 8)];
    }
    while |out| % 4 != 0
      invariant 0 <= pads <= 2 && (|out| + pads) % 4 == 0 && out + Pads(pads) == Encode(input)
      decreases pads
    {
      PadStep(out, pads);
      out := out + ['='];
      pads := pads - 1;
    }
    EncodeNothing();
  }

  lemma PadStep(out: string, n: nat)
    requires n > 0
    ensures out + Pads(n) == out + ['='] + Pads(n - 1)
  {
  }

  /** What is still to be written after the last byte, and how much padding. */
  lemma FinishBlock(out: string, val: int, valb: int, full: seq<Byte>, rest: seq<Byte>) returns (pads: nat)
    requires |full| % 3 == 0 && |rest| <= 2 && Holds(rest, val, valb) && out == Encode(full) + Partial(rest)
    ensures pads <= 2
    ensures
      var t := if valb > -6 then out + [CharAt(Wrap32(val * 256), valb + 8)] else out;
      (|t| + pads) % 4 == 0 && t + Pads(pads) == Encode(full + rest)
  {
    hide Encode, EncodeBlock, Digit, Wrap32, CharAt, Pads, Partial;
    EncodeNothing();
    var t := if valb > -6 then out + [CharAt(Wrap32(val * 256), valb + 8)] else out;
    if rest == [] {
      assert full + rest == full;
      pads := 0;
    } else {
      LastStep(rest, val, valb);
      EncodeAppendBlock(full, rest);
      pads := if |rest| == 1 then 2 else 1;
      var u := Partial(rest) + [CharAt(Wrap32(val * 256), valb + 8)];
      assert Encode(full) + (u + Pads(pads)) == t + Pads(pads);
    }
    assert t + Pads(pads) == Encode(full + rest);
    EncodedLength(full + rest);
  }

  /** One turn of the outer loop. */
  method EncodeByte(before: string, val0: int, valb0: int, c: Byte, ghost full: seq<Byte>, ghost rest: seq<Byte>)
    returns (out: string, val: int, valb: int)
    requires |full| % 3 == 0 && |rest| <= 2 && Holds(rest, val0, valb0) && before == Encode(full) + Partial(rest)
    ensures |rest| < 2 ==> out == Encode(full) + Partial(rest + [c]) && Holds(rest + [c], val, valb)
    ensures |rest| == 2 ==> out == Encode(full + (rest + [c])) + Partial([]) && Holds([], val, valb)
  {
    hide Encode, EncodeBlock, Digit, Partial, Wrap32, CharAt;
    ByteStep(rest, val0, valb0, c);
    val := Wrap32(val0 * 256 + c);
    valb := valb0 + 8;
    ghost var start, k := valb, 0;
    out := before;
    while valb >= 0
      invariant 0 <= k <= 2 && valb == start - 6 * k && -6 <= valb
      invariant out == before + Emitted(val, start, k)
      decreases valb + 6
    {
      out := out + [CharAt(val, valb)];
      valb := valb - 6;
      k := k + 1;
    }
    if |rest| == 2 {
      EncodeAppendBlock(full, rest + [c]);
      EncodeNothing();
    }
  }
}
