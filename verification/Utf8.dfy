/** What a valid text is: the encoding of a sequence of Unicode scalar values, and its code points are those (sections
    3 and 4 of RFC 3629). The scanner of AccessResource reads exactly what this encoder writes. */
module Utf8 {
  import opened Common
  import opened AccessResource

  predicate Scalar(p: nat) {
    p < 0xD800 || 0xE000 <= p < 0x11_0000
  }

  function Byte(n: nat): char
    requires n < 0x100
  {
    n as char
  }

  /** One character: a lead byte and up to three bytes with six bits each. */
  function Utf8Of(p: nat): string
    requires Scalar(p)
  {
    if p < 0x80 then [Byte(p)]
    else if p < 0x800 then [Byte(192 + p / 64), Byte(128 + p % 64)]
    else if p < 0x1_0000 then [Byte(224 + p / 4096), Byte(128 + p / 64 % 64), Byte(128 + p % 64)]
    else [Byte(240 + p / 262144), Byte(128 + p / 4096 % 64), Byte(128 + p / 64 % 64), Byte(128 + p % 64)]
  }

  predicate Scalars(points: seq<nat>) {
    forall i | 0 <= i < |points| :: Scalar(points[i])
  }

  function Utf8Text(points: seq<nat>): string
    requires Scalars(points)
  {
    if points == [] then "" else Utf8Of(points[0]) + Utf8Text(points[1..])
  }

  lemma LowDigit(q: nat, r: nat)
    requires r < 64
    ensures (q * 64 + r) / 64 == q && (q * 64 + r) % 64 == r
  {
  }

  lemma Shifted(p: nat)
    ensures p / 64 / 64 == p / 4096 && p / 4096 / 64 == p / 262144
  {
  }

  /** The digits of a number to the base 64. */
  lemma DigitsOf(a: nat, b: nat, c: nat, d: nat)
    requires b < 64 && c < 64 && d < 64
    ensures var p := a * 262144 + b * 4096 + c * 64 + d;
            && p / 262144 == a && p / 4096 % 64 == b && p / 64 % 64 == c && p % 64 == d
            && p / 4096 == a * 64 + b && p / 64 == a * 4096 + b * 64 + c
  {
    LowDigit(a * 4096 + b * 64 + c, d);
    LowDigit(a * 64 + b, c);
    LowDigit(a, b);
    Shifted(a * 262144 + b * 4096 + c * 64 + d);
  }

  lemma TwoBytesAreWritten(a: nat, b: nat)
    requires 2 <= a < 32 && b < 64
    ensures Scalar(a * 64 + b) && Utf8Of(a * 64 + b) == [Byte(192 + a), Byte(128 + b)]
  {
    DigitsOf(0, 0, a, b);
  }

  lemma ThreeBytesAreWritten(a: nat, b: nat, c: nat)
    requires a < 16 && b < 64 && c < 64 && (a == 0 ==> b >= 32) && (a == 13 ==> b < 32)
    ensures Scalar(a * 4096 + b * 64 + c)
    ensures Utf8Of(a * 4096 + b * 64 + c) == [Byte(224 + a), Byte(128 + b), Byte(128 + c)]
  {
    DigitsOf(0, a, b, c);
  }

  lemma FourBytesAreWritten(a: nat, b: nat, c: nat, d: nat)
    requires a <= 4 && b < 64 && c < 64 && d < 64 && (a == 0 ==> b >= 16) && (a == 4 ==> b < 16)
    ensures Scalar(a * 262144 + b * 4096 + c * 64 + d)
    ensures Utf8Of(a * 262144 + b * 4096 + c * 64 + d)
         == [Byte(240 + a), Byte(128 + b), Byte(128 + c), Byte(128 + d)]
  {
    DigitsOf(a, b, c, d);
  }

  /** The sequence of a valid text is the encoding of its code point. */
  lemma SequenceIsEncoded(s: string, i: nat)
    requires i < |s| && SequenceLength(s, i) > 0
    ensures var n := SequenceLength(s, i);
            Scalar(CodePoint(s, i, n)) && s[i..i + n] == Utf8Of(CodePoint(s, i, n))
  {
    hide Utf8Of, Scalar;
    var n := SequenceLength(s, i);
    if n == 1 {
      OneByteIsWritten(s[i] as int);
      assert s[i..i + 1] == [s[i]];
    } else if n == 2 {
      TwoBytesAreWritten(s[i] as int - 192, s[i + 1] as int - 128);
      assert s[i..i + 2] == [s[i], s[i + 1]];
    } else if n == 3 {
      ThreeBytesAreWritten(s[i] as int - 224, s[i + 1] as int - 128, s[i + 2] as int - 128);
      assert s[i..i + 3] == [s[i], s[i + 1], s[i + 2]];
    } else {
      FourBytesAreWritten(s[i] as int - 240, s[i + 1] as int - 128, s[i + 2] as int - 128, s[i + 3] as int - 128);
      assert s[i..i + 4] == [s[i], s[i + 1], s[i + 2], s[i + 3]];
    }
  }

  lemma OneByteIsWritten(p: nat)
    requires p < 0x80
    ensures Scalar(p) && Utf8Of(p) == [Byte(p)]
  {
  }

  lemma HasDigits(p: nat) returns (a: nat, b: nat, c: nat, d: nat)
    ensures b < 64 && c < 64 && d < 64 && p == a * 262144 + b * 4096 + c * 64 + d
  {
    var u, v := p / 64, p / 64 / 64;
    a, b, c, d := v / 64, v % 64, u % 64, p % 64;
  }

  lemma TwoBytesAreRead(a: nat, b: nat, rest: string)
    requires 2 <= a < 32 && b < 64
    ensures var s := [Byte(192 + a), Byte(128 + b)] + rest;
            SequenceLength(s, 0) == 2 && CodePoint(s, 0, 2) == a * 64 + b
  {
  }

  lemma ThreeBytesAreRead(a: nat, b: nat, c: nat, rest: string)
    requires a < 16 && b < 64 && c < 64 && (a == 0 ==> b >= 32) && (a == 13 ==> b < 32)
    ensures var s := [Byte(224 + a), Byte(128 + b), Byte(128 + c)] + rest;
            SequenceLength(s, 0) == 3 && CodePoint(s, 0, 3) == a * 4096 + b * 64 + c
  {
  }

  lemma FourBytesAreRead(a: nat, b: nat, c: nat, d: nat, rest: string)
    requires a <= 4 && b < 64 && c < 64 && d < 64 && (a == 0 ==> b >= 16) && (a == 4 ==> b < 16)
    ensures var s := [Byte(240 + a), Byte(128 + b), Byte(128 + c), Byte(128 + d)] + rest;
            SequenceLength(s, 0) == 4 && CodePoint(s, 0, 4) == a * 262144 + b * 4096 + c * 64 + d
  {
  }

  /** What the encoder writes for a character is read as one sequence, with this code point. */
  lemma EncodedIsSequence(p: nat, rest: string)
    requires Scalar(p)
    ensures var s := Utf8Of(p) + rest;
            SequenceLength(s, 0) == |Utf8Of(p)| && CodePoint(s, 0, |Utf8Of(p)|) == p
  {
    if p >= 0x80 {
      hide SequenceLength, CodePoint;
      var a, b, c, d := HasDigits(p);
      DigitsOf(a, b, c, d);
      if p < 0x800 {
        TwoBytesAreRead(c + 64 * b, d, rest);
      } else if p < 0x1_0000 {
        ThreeBytesAreRead(b, c, d, rest);
      } else {
        FourBytesAreRead(a, b, c, d, rest);
      }
    }
  }

  lemma TextStep(p: nat, points: seq<nat>)
    requires Scalar(p) && Scalars(points)
    ensures Scalars([p] + points) && Utf8Text([p] + points) == Utf8Of(p) + Utf8Text(points)
  {
    assert ([p] + points)[1..] == points;
  }

  lemma PointsStep(s: string, i: nat)
    requires i < |s| && ValidUtf8From(s, i)
    ensures var n := SequenceLength(s, i);
            && n > 0 && ValidUtf8From(s, i + n) && s[i..] == s[i..i + n] + s[i + n..]
            && CodePointsFrom(s, i) == [CodePoint(s, i, n)] + CodePointsFrom(s, i + n)
  {
    hide SequenceLength, CodePoint;
  }

  lemma {:induction false} TextFrom(s: string, i: nat)
    requires i <= |s| && ValidUtf8From(s, i)
    ensures Scalars(CodePointsFrom(s, i)) && Utf8Text(CodePointsFrom(s, i)) == s[i..]
    decreases |s| - i
  {
    if i < |s| {
      PointsStep(s, i);
      hide SequenceLength, CodePoint, Utf8Of, Scalar, Scalars, Utf8Text, CodePointsFrom, ValidUtf8From;
      var n := SequenceLength(s, i);
      SequenceIsEncoded(s, i);
      TextFrom(s, i + n);
      TextStep(CodePoint(s, i, n), CodePointsFrom(s, i + n));
    }
  }

  /** A valid text is the encoding of its code points, all of which are scalar values. */
  lemma ValidTextIsEncoded(s: string)
    requires ValidUtf8(s)
    ensures Scalars(CodePointsFrom(s, 0)) && Utf8Text(CodePointsFrom(s, 0)) == s
  {
    TextFrom(s, 0);
    assert s[0..] == s;
  }

  /** Every sequence of scalar values has a valid text, from which it is read back. */
  lemma {:induction false} EncodedTextIsValid(points: seq<nat>)
    requires Scalars(points)
    ensures ValidUtf8(Utf8Text(points)) && CodePointsFrom(Utf8Text(points), 0) == points
  {
    if points != [] {
      var unit, rest := Utf8Of(points[0]), Utf8Text(points[1..]);
      EncodedTextIsValid(points[1..]);
      EncodedIsSequence(points[0], rest);
      hide SequenceLength, CodePoint, Utf8Of;
      Utf8Shift(unit, rest, 0);
    }
  }
}
