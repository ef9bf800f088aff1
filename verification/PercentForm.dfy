/** The percent-encoded form (section 2 of RFC 3986) on the alphabets themselves: what the encoder writes, and exactly
    what the decoder reads (encode_id, src/access_resource.cpp, and percent_decode, src/access_options.cpp). */
module PercentForm {
  import opened Common
  import opened AccessResource

  const CAPITALS: string := "ABCDEFGHIJKLMNOPQRSTUVWXYZ"
  const SMALLS: string := "abcdefghijklmnopqrstuvwxyz"
  const DIGITS: string := "0123456789"
  const UPPER_DIGITS: string := "0123456789ABCDEF"
  const LOWER_DIGITS: string := "0123456789abcdef"

  /** The value of a hexadecimal digit, in any case. */
  predicate IsDigit(c: char, value: nat) {
    value < 16 && (UPPER_DIGITS[value] == c || LOWER_DIGITS[value] == c)
  }

  lemma HexValueMeaning(c: char)
    ensures forall v: nat :: IsDigit(c, v) <==> HexValue(c) == v
  {
  }

  predicate InUnreserved(c: char) {
    c in CAPITALS || c in SMALLS || c in DIGITS || c in "-._~"
  }

  lemma CapitalsAre(c: char)
    ensures c in CAPITALS <==> 'A' <= c <= 'Z'
  {
    assert 'A' <= c <= 'Z' ==> CAPITALS[c as int - 65] == c;
  }

  lemma SmallsAre(c: char)
    ensures c in SMALLS <==> 'a' <= c <= 'z'
  {
    assert 'a' <= c <= 'z' ==> SMALLS[c as int - 97] == c;
  }

  lemma DigitsAre(c: char)
    ensures c in DIGITS <==> '0' <= c <= '9'
  {
    assert '0' <= c <= '9' ==> DIGITS[c as int - 48] == c;
  }

  lemma UnreservedMeaning(c: char)
    ensures Unreserved(c) <==> InUnreserved(c)
  {
    hide CAPITALS, SMALLS, DIGITS;
    CapitalsAre(c);
    SmallsAre(c);
    DigitsAre(c);
  }

  /** One byte is written as itself when it is unreserved, else as its two digits in capital letters. */
  lemma EncodedByteMeaning(c: char)
    requires c as int < 256
    ensures InUnreserved(c) ==> EncodedByte(c) == [c]
    ensures !InUnreserved(c) ==>
              EncodedByte(c) == ['%', UPPER_DIGITS[c as int / 16], UPPER_DIGITS[c as int % 16]]
  {
    hide InUnreserved;
    UnreservedMeaning(c);
  }

  // ---- what is read ----

  /** A piece of a text: a character, or a percent sign with two digits. */
  datatype Piece = Plain(c: char) | Escape(high: char, low: char)

  ghost predicate Reads(p: Piece, c: char) {
    match p
    case Plain(d) => d != '%' && c == d
    case Escape(h, l) => exists v: nat, w: nat :: IsDigit(h, v) && IsDigit(l, w) && c as int == v * 16 + w
  }

  function PieceText(p: Piece): string {
    match p
    case Plain(c) => [c]
    case Escape(h, l) => ['%', h, l]
  }

  function PiecesText(pieces: seq<Piece>): string {
    if pieces == [] then "" else PieceText(pieces[0]) + PiecesText(pieces[1..])
  }

  /** The characters that the pieces stand for, one for each. */
  ghost predicate AllRead(pieces: seq<Piece>, out: string) {
    |pieces| == |out| && forall i | 0 <= i < |out| :: Reads(pieces[i], out[i])
  }

  lemma OnePieceIsDecoded(p: Piece, c: char, rest: string)
    requires Reads(p, c) && Decoded(rest).Some?
    ensures Decoded(PieceText(p) + rest) == Some([c] + Decoded(rest).value)
  {
    hide HexValue, Decoded, IsDigit;
    match p {
      case Plain(d) => DecodePlain(d, rest);
      case Escape(h, l) =>
        HexValueMeaning(h);
        HexValueMeaning(l);
        DecodeEscape(h, l, rest);
    }
  }

  /** A text of pieces is decoded to what they stand for. */
  lemma {:induction false} PiecesAreDecoded(pieces: seq<Piece>, out: string)
    requires AllRead(pieces, out)
    ensures Decoded(PiecesText(pieces)) == Some(out)
  {
    if pieces != [] {
      hide Decoded, Reads;
      PiecesAreDecoded(pieces[1..], out[1..]);
      OnePieceIsDecoded(pieces[0], out[0], PiecesText(pieces[1..]));
      assert out == [out[0]] + out[1..];
    }
  }

  /** The first piece of a text that is decoded. */
  lemma FirstPiece(text: string) returns (p: Piece, rest: string)
    requires text != "" && Decoded(text).Some?
    ensures text == PieceText(p) + rest && Decoded(rest).Some? && Decoded(text).value != ""
    ensures Reads(p, Decoded(text).value[0]) && Decoded(rest).value == Decoded(text).value[1..]
  {
    hide HexValue, IsDigit;
    if text[0] == '%' {
      p, rest := Escape(text[1], text[2]), text[3..];
      HexValueMeaning(text[1]);
      HexValueMeaning(text[2]);
      assert IsDigit(text[1], HexValue(text[1])) && IsDigit(text[2], HexValue(text[2]));
      assert text == ['%', text[1], text[2]] + text[3..];
    } else {
      p, rest := Plain(text[0]), text[1..];
    }
  }

  /** Nothing else is decoded: a text that is decoded is made of pieces that stand for the result. */
  lemma {:induction false} DecodedIsOfPieces(text: string) returns (pieces: seq<Piece>)
    requires Decoded(text).Some?
    ensures PiecesText(pieces) == text && AllRead(pieces, Decoded(text).value)
    decreases |text|
  {
    pieces := [];
    if text != "" {
      var p, rest := FirstPiece(text);
      var more := DecodedIsOfPieces(rest);
      hide Decoded, Reads;
      pieces := [p] + more;
      assert pieces[1..] == more;
    }
  }
}
