/** The encoding is the only canonical text that decodes to the bytes: its unused bits are zero, as section
    3.5 of RFC 4648 asks. */
module Base64Laws {
  import opened Base64
  import opened Wrappers

  /** The bits of the last character before the padding that stand for nothing. */
  predicate PadBitsAreZero(t: string) {
    |t| >= 4 ==>
      && (t[|t| - 2] == '=' ==> Value(t[|t| - 3]).Some? && Value(t[|t| - 3]).value % 16 == 0)
      && (t[|t| - 2] != '=' && t[|t| - 1] == '=' ==> Value(t[|t| - 2]).Some? && Value(t[|t| - 2]).value % 4 == 0)
  }

  lemma DigitOfValue(c: char)
    requires Value(c).Some?
    ensures 0 <= Value(c).value < 64 && Digit(Value(c).value) == c && c != '='
  {
    var n := Value(c).value;
    hide Digit;
    DigitIs(n);
    if n < 26 {
      UpperLetter(n);
    } else if n < 52 {
      LowerLetter(n - 26);
    } else if n < 62 {
      DecimalDigit(n - 52);
    }
  }

  lemma FirstBits(a: int, b: int)
    requires 0 <= a < 64 && 0 <= b < 64
    ensures FirstOctet(a, b) / 4 == a && FirstOctet(a, b) % 4 * 16 == b / 16 * 16
  {
    assert FirstOctet(a, b) == a * 4 + b / 16;
    Fours(a, b / 16);
  }

  lemma SecondBits(b: int, c: int)
    requires 0 <= b < 64 && 0 <= c < 64
    ensures SecondOctet(b, c) / 16 == b % 16 && SecondOctet(b, c) % 16 * 4 == c / 4 * 4
  {
    assert SecondOctet(b, c) == b % 16 * 16 + c / 4;
    Sixteens(b % 16, c / 4);
  }

  lemma ThirdBits(c: int, d: int)
    requires 0 <= c < 64 && 0 <= d < 64
    ensures ThirdOctet(c, d) / 64 == c % 4 && ThirdOctet(c, d) % 64 == d
  {
  }

  lemma BlockIsCanonical(t: string, s: seq<Byte>)
    requires |t| == 4 && DecodeBlock(t) == Some(s) && PadBitsAreZero(t)
    ensures 1 <= |s| <= 3 && EncodeBlock(s) == t
  {
    hide Digit, FirstOctet, SecondOctet, ThirdOctet;
    DigitOfValue(t[0]);
    DigitOfValue(t[1]);
    var a, b := Value(t[0]).value, Value(t[1]).value;
    FirstBits(a, b);
    assert t == [t[0], t[1], t[2], t[3]];
    if t[2] != '=' {
      DigitOfValue(t[2]);
      var c := Value(t[2]).value;
      SecondBits(b, c);
      if t[3] != '=' {
        DigitOfValue(t[3]);
        ThirdBits(c, Value(t[3]).value);
      }
    }
    hide Value;
  }

  /** The last block holds the unused bits; those before it are full. */
  lemma PadBitsOfRest(t: string)
    requires |t| >= 8 && PadBitsAreZero(t)
    ensures PadBitsAreZero(t[4..])
  {
    var u := t[4..];
    assert u[|u| - 1] == t[|t| - 1] && u[|u| - 2] == t[|t| - 2] && u[|u| - 3] == t[|t| - 3];
  }

  lemma FullBlock(t: string)
    requires |t| == 4 && DecodeBlock(t).Some? && |DecodeBlock(t).value| == 3
    ensures PadBitsAreZero(t)
  {
  }

  lemma {:induction false} DecodedIsEncoded(t: string, s: seq<Byte>)
    requires Decode(t) == Some(s) && PadBitsAreZero(t)
    ensures Encode(s) == t
    decreases |t|
  {
    hide DecodeBlock, EncodeBlock, PadBitsAreZero;
    if |t| > 0 {
      var x, y := DecodeBlock(t[..4]).value, Decode(t[4..]).value;
      assert t == t[..4] + t[4..] && s == x + y;
      if |t| == 4 {
        assert t[..4] == t && t[4..] == "";
        BlockIsCanonical(t, x);
        assert s == x;
      } else {
        LongerThanABlock(t);
        BlockLength(t[..4]);
        FullBlock(t[..4]);
        BlockIsCanonical(t[..4], x);
        PadBitsOfRest(t);
        DecodedIsEncoded(t[4..], y);
        NotEmpty(t[4..], y);
        assert s[..3] == x && s[3..] == y;
      }
    }
  }

  lemma BlockLength(t: string)
    requires |t| == 4 && DecodeBlock(t).Some?
    ensures 1 <= |DecodeBlock(t).value| <= 3
  {
    hide Value;
  }

  lemma LongerThanABlock(t: string)
    requires Decode(t).Some? && |t| > 4
    ensures |t| >= 8
  {
    hide DecodeBlock;
  }

  lemma NotEmpty(t: string, s: seq<Byte>)
    requires Decode(t) == Some(s) && t != ""
    ensures s != []
  {
    BlockLength(t[..4]);
    hide DecodeBlock;
  }

  lemma EncodedBlockIsCanonical(s: seq<Byte>)
    requires 1 <= |s| <= 3
    ensures PadBitsAreZero(EncodeBlock(s)) && (|s| == 3 ==> EncodeBlock(s)[2] != '=' && EncodeBlock(s)[3] != '=')
  {
    hide Digit, Value;
    if |s| == 1 {
      ValueOfDigit(s[0] % 4 * 16);
    } else if |s| == 2 {
      ValueOfDigit(s[1] % 16 * 4);
    } else {
      ValueOfDigit(s[1] % 16 * 4 + s[2] / 64);
      ValueOfDigit(s[2] % 64);
    }
  }

  lemma {:induction false} EncodedIsCanonical(s: seq<Byte>)
    ensures PadBitsAreZero(Encode(s))
    decreases |s|
  {
    hide EncodeBlock, Value;
    if 1 <= |s| <= 3 {
      EncodedBlockIsCanonical(s);
    } else if |s| > 3 {
      EncodedIsCanonical(s[3..]);
      EncodedLength(s[3..]);
      var t, u := Encode(s), Encode(s[3..]);
      assert t[4..] == u;
      assert u[|u| - 1] == t[|t| - 1] && u[|u| - 2] == t[|t| - 2] && u[|u| - 3] == t[|t| - 3];
    }
  }

  /** A text is the encoding of the bytes if and only if it decodes to them and its unused bits are zero. */
  lemma EncodingIsExact(s: seq<Byte>, t: string)
    ensures Encode(s) == t <==> Decode(t) == Some(s) && PadBitsAreZero(t)
  {
    hide *;
    DecodeEncode(s);
    EncodedIsCanonical(s);
    if Decode(t) == Some(s) && PadBitsAreZero(t) {
      DecodedIsEncoded(t, s);
    }
  }
}
