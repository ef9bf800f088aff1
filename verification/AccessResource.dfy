/** src/access_resource.cpp: the ids of the nodes, their encoded form, the path of a resource and the labels;
    with the percent decoder of src/access_options.cpp, which undoes the encoding. */
module AccessResource {
  import opened Common

  const MAX_ID_BYTES := 256
  const MAX_LABEL_CHARS := 60

  datatype Node = Node(kind: string, id: string)
  datatype Resource = Resource(kind: string, id: string, ancestors: seq<Node>)

  // ---- UTF-8 (section 4 of RFC 3629), as src/json_text.hpp reads it ----

  predicate Continuation(s: string, k: nat) {
    k < |s| && 0x80 <= s[k] as int < 0xC0
  }

  /** The length of the valid sequence that starts at `i`, or 0. */
  function SequenceLength(s: string, i: nat): (n: nat)
    requires i < |s|
    ensures n <= 4 && i + n <= |s|
  {
    var c := s[i] as int;
    if c <= 0x7F then 1
    else if 0xC2 <= c <= 0xDF then
      if Continuation(s, i + 1) then 2 else 0
    else if 0xE0 <= c <= 0xEF then
      if !Continuation(s, i + 1) || !Continuation(s, i + 2) then 0
      else if c == 0xE0 && s[i + 1] as int < 0xA0 then 0
      else if c == 0xED && s[i + 1] as int >= 0xA0 then 0
      else 3
    else if 0xF0 <= c <= 0xF4 then
      if !Continuation(s, i + 1) || !Continuation(s, i + 2) || !Continuation(s, i + 3) then 0
      else if c == 0xF0 && s[i + 1] as int < 0x90 then 0
      else if c == 0xF4 && s[i + 1] as int >= 0x90 then 0
      else 4
    else 0
  }

  predicate ValidUtf8From(s: string, i: nat)
    requires i <= |s|
    decreases |s| - i
  {
    i == |s| || (SequenceLength(s, i) > 0 && ValidUtf8From(s, i + SequenceLength(s, i)))
  }

  predicate ValidUtf8(s: string) {
    ValidUtf8From(s, 0)
  }

  /** The code point of the sequence of `n` bytes at `i` (the bit layout of section 3 of RFC 3629). */
  function CodePoint(s: string, i: nat, n: nat): nat
    requires 1 <= n <= 4 && i + n <= |s| && SequenceLength(s, i) == n
  {
    var c := s[i] as int;
    if n == 1 then c
    else if n == 2 then (c - 0xC0) * 0x40 + (s[i + 1] as int - 0x80)
    else if n == 3 then (c - 0xE0) * 0x1000 + (s[i + 1] as int - 0x80) * 0x40 + (s[i + 2] as int - 0x80)
    else
      (c - 0xF0) * 0x40000 + (s[i + 1] as int - 0x80) * 0x1000 + (s[i + 2] as int - 0x80) * 0x40
      + (s[i + 3] as int - 0x80)
  }

  function CodePointsFrom(s: string, i: nat): seq<nat>
    requires i <= |s| && ValidUtf8From(s, i)
    decreases |s| - i
  {
    if i == |s| then []
    else
      var n := SequenceLength(s, i);
      [CodePoint(s, i, n)] + CodePointsFrom(s, i + n)
  }

  /** The C0 controls, DEL and the C1 controls. */
  predicate ControlPoint(p: nat) {
    p < 0x20 || 0x7F <= p <= 0x9F
  }

  // ---- the ids ----

  predicate ControlByteAt(id: string, at: nat)
    requires at < |id|
  {
    var c := id[at] as int;
    c < 0x20 || c == 0x7F || (c == 0xC2 && at + 1 < |id| && id[at + 1] as int <= 0x9F)
  }

  predicate ValidId(id: string) {
    && 1 <= |id| <= MAX_ID_BYTES
    && ValidUtf8(id)
    && forall at | 0 <= at < |id| :: !ControlByteAt(id, at)
  }

  method IsValidId(id: string) returns (ok: bool)
    ensures ok == ValidId(id)
  {
    if |id| == 0 || |id| > MAX_ID_BYTES {
      return false;
    }
    var i := 0;
    while i < |id|
      invariant i <= |id|
      invariant ValidUtf8(id) == ValidUtf8From(id, i)
    {
      var n := SequenceLength(id, i);
      if n == 0 {
        return false;
      }
      i := i + n;
    }
    var at := 0;
    while at < |id|
      invariant at <= |id|
      invariant forall k | 0 <= k < at :: !ControlByteAt(id, k)
    {
      var c := id[at] as int;
      assert ControlByteAt(id, at) <==>
          c < 0x20 || c == 0x7F || (c == 0xC2 && at + 1 < |id| && id[at + 1] as int <= 0x9F);
      if c < 0x20 || c == 0x7F {
        return false;
      }
      if c == 0xC2 && at + 1 < |id| && id[at + 1] as int <= 0x9F {
        return false;
      }
      at := at + 1;
    }
    return true;
  }

  lemma ControlSequence(s: string, i: nat)
    requires i < |s| && SequenceLength(s, i) > 0
    ensures var n := SequenceLength(s, i);
            && (ControlByteAt(s, i) <==> ControlPoint(CodePoint(s, i, n)))
            && forall at | i < at < i + n :: !ControlByteAt(s, at)
  {
  }

  /** The byte test of ValidId finds exactly the control characters of a valid text. */
  lemma {:induction false} ControlBytesAreControlPoints(s: string, i: nat)
    requires i <= |s| && ValidUtf8From(s, i)
    ensures (forall at | i <= at < |s| :: !ControlByteAt(s, at)) <==>
            (forall p | p in CodePointsFrom(s, i) :: !ControlPoint(p))
    decreases |s| - i
  {
    if i < |s| {
      var n := SequenceLength(s, i);
      ControlSequence(s, i);
      hide ControlByteAt, SequenceLength, CodePoint, ControlPoint;
      ControlBytesAreControlPoints(s, i + n);
      var tail := CodePointsFrom(s, i + n);
      assert forall p :: p in CodePointsFrom(s, i) <==> p == CodePoint(s, i, n) || p in tail;
    }
  }

  /** What the id of a node is: 1 to 256 bytes of UTF-8 whose characters are not controls. */
  lemma ValidIdMeaning(id: string)
    ensures ValidId(id) <==>
            && 1 <= |id| <= 256
            && ValidUtf8(id)
            && forall p | p in CodePointsFrom(id, 0) :: !ControlPoint(p)
  {
    if ValidUtf8(id) {
      ControlBytesAreControlPoints(id, 0);
    }
  }

  lemma {:induction false} ValidTextIsBytes(s: string, i: nat)
    requires i <= |s| && ValidUtf8From(s, i)
    ensures forall k | i <= k < |s| :: s[k] as int < 256
    decreases |s| - i
  {
    if i < |s| {
      ValidTextIsBytes(s, i + SequenceLength(s, i));
    }
  }

  lemma ValidIdIsBytes(id: string)
    requires ValidId(id)
    ensures IsBytes(id) && id != ""
  {
    ValidTextIsBytes(id, 0);
  }

  // ---- the labels ----

  /** The characters of the text, with a space for each control character. */
  function Blanked(points: seq<nat>): seq<nat> {
    seq(|points|, i requires 0 <= i < |points| => if ControlPoint(points[i]) then 0x20 else points[i])
  }

  /** The label read from `at`: at most `room` characters, each control character as a space. */
  function LabelFrom(text: string, at: nat, room: nat): (out: string)
    requires at <= |text| && ValidUtf8From(text, at)
    ensures |out| <= 4 * room
    decreases |text| - at
  {
    if at == |text| || room == 0 then []
    else
      var n := SequenceLength(text, at);
      LabelUnit(text, at) + LabelFrom(text, at + n, room - 1)
  }

  predicate LeadsControl(text: string, at: nat)
    requires at < |text| && SequenceLength(text, at) > 0
  {
    ControlPoint(CodePoint(text, at, SequenceLength(text, at)))
  }

  function LabelUnit(text: string, at: nat): (unit: string)
    requires at < |text| && SequenceLength(text, at) > 0
    ensures 1 <= |unit| <= 4
  {
    if LeadsControl(text, at) then [' '] else text[at..at + SequenceLength(text, at)]
  }

  /** The length that the lead byte announces, and the control test on the first two bytes of a sequence. */
  function LeadLength(c: int): nat {
    if c < 0x80 then 1 else if c < 0xE0 then 2 else if c < 0xF0 then 3 else 4
  }

  predicate ControlUnit(unit: string)
    requires unit != []
  {
    var c := unit[0] as int;
    c < 0x20 || c == 0x7F || (c == 0xC2 && |unit| == 2 && unit[1] as int <= 0x9F)
  }

  lemma LeadByte(text: string, at: nat)
    requires at < |text| && SequenceLength(text, at) > 0
    ensures SequenceLength(text, at) == LeadLength(text[at] as int)
    ensures LeadsControl(text, at) <==> ControlUnit(text[at..at + SequenceLength(text, at)])
  {
  }

  /** A unit of a label is one sequence; its code point is the one of the text, or a space. */
  lemma LabelUnitPoint(text: string, at: nat)
    requires at < |text| && SequenceLength(text, at) > 0
    ensures var unit := LabelUnit(text, at);
            && SequenceLength(unit, 0) == |unit|
            && CodePoint(unit, 0, |unit|) ==
               if LeadsControl(text, at) then 0x20 else CodePoint(text, at, SequenceLength(text, at))
  {
    var n := SequenceLength(text, at);
    var unit := text[at..at + n];
    assert forall k | 0 <= k < n :: unit[k] == text[at + k];
    assert SequenceLength(unit, 0) == n;
  }

  function Label(text: string): (out: string)
    ensures |out| <= 240
  {
    if ValidUtf8(text) then LabelFrom(text, 0, MAX_LABEL_CHARS) else []
  }

  lemma LabelStep(text: string, at: nat, room: nat, out: string)
    requires at < |text| && ValidUtf8From(text, at) && room > 0
    ensures SequenceLength(text, at) > 0 && ValidUtf8From(text, at + SequenceLength(text, at))
    ensures out + LabelFrom(text, at, room)
         == (out + LabelUnit(text, at)) + LabelFrom(text, at + SequenceLength(text, at), room - 1)
  {
    ConcatAssociative(out, LabelUnit(text, at), LabelFrom(text, at + SequenceLength(text, at), room - 1));
  }

  /** One character of the label and the bytes of the text that it takes. */
  method CutUnit(text: string, at: nat) returns (piece: string, length: nat)
    requires at < |text| && SequenceLength(text, at) > 0
    ensures length == SequenceLength(text, at)
    ensures piece == LabelUnit(text, at)
  {
    hide SequenceLength;
    LeadByte(text, at);
    length := LeadLength(text[at] as int);
    var unit := text[at..at + length];
    piece := if ControlUnit(unit) then " " else unit;
  }

  method CutLabel(text: string) returns (out: string)
    ensures out == Label(text)
  {
    hide *;
    out := "";
    LabelStart(text);
    if ValidUtf8(text) {
      var chars, at := 0, 0;
      while at < |text| && chars < MAX_LABEL_CHARS
        invariant at <= |text| && ValidUtf8From(text, at)
        invariant chars <= MAX_LABEL_CHARS
        invariant Label(text) == out + LabelFrom(text, at, MAX_LABEL_CHARS - chars)
      {
        LabelStep(text, at, MAX_LABEL_CHARS - chars, out);
        var piece, length := CutUnit(text, at);
        out, at, chars := out + piece, at + length, chars + 1;
      }
      LabelEnd(text, at, MAX_LABEL_CHARS - chars);
      assert out + "" == out;
    }
  }

  lemma LabelStart(text: string)
    ensures !ValidUtf8(text) ==> Label(text) == ""
    ensures ValidUtf8(text) ==> ValidUtf8From(text, 0) && Label(text) == "" + LabelFrom(text, 0, MAX_LABEL_CHARS)
  {
  }

  lemma LabelEnd(text: string, at: nat, room: nat)
    requires at <= |text| && ValidUtf8From(text, at) && (at == |text| || room == 0)
    ensures LabelFrom(text, at, room) == []
  {
  }

  lemma {:induction false} Utf8Shift(a: string, b: string, i: nat)
    requires i <= |b|
    ensures ValidUtf8From(a + b, |a| + i) <==> ValidUtf8From(b, i)
    ensures ValidUtf8From(b, i) ==> CodePointsFrom(a + b, |a| + i) == CodePointsFrom(b, i)
    decreases |b| - i
  {
    if i < |b| {
      var n := SequenceLength(b, i);
      assert SequenceLength(a + b, |a| + i) == n;
      if n > 0 {
        Utf8Shift(a, b, i + n);
        assert CodePoint(a + b, |a| + i, n) == CodePoint(b, i, n);
      }
    }
  }

  /** A whole sequence in front of a valid text puts its code point in front. */
  lemma Utf8Prepend(unit: string, rest: string)
    requires unit != [] && SequenceLength(unit, 0) == |unit| && ValidUtf8(rest)
    ensures ValidUtf8(unit + rest)
    ensures CodePointsFrom(unit + rest, 0) == [CodePoint(unit, 0, |unit|)] + CodePointsFrom(rest, 0)
  {
    var n := |unit|;
    Utf8Shift(unit, rest, 0);
    assert SequenceLength(unit + rest, 0) == n;
    assert CodePoint(unit + rest, 0, n) == CodePoint(unit, 0, n);
  }

  lemma BlankedPrefix(p: nat, tail: seq<nat>, room: nat)
    requires room > 0
    ensures Blanked(([p] + tail)[..Min(room, 1 + |tail|)])
         == [if ControlPoint(p) then 0x20 else p] + Blanked(tail[..Min(room - 1, |tail|)])
  {
    assert ([p] + tail)[..Min(room, 1 + |tail|)] == [p] + tail[..Min(room - 1, |tail|)];
  }

  lemma {:induction false} LabelPoints(text: string, at: nat, room: nat)
    requires at <= |text| && ValidUtf8From(text, at)
    ensures ValidUtf8(LabelFrom(text, at, room))
    ensures var points := CodePointsFrom(text, at);
            CodePointsFrom(LabelFrom(text, at, room), 0) == Blanked(points[..Min(room, |points|)])
    decreases |text| - at
  {
    hide SequenceLength, CodePoint;
    if at < |text| && room > 0 {
      var n := SequenceLength(text, at);
      var p := CodePoint(text, at, n);
      LabelPoints(text, at + n, room - 1);
      LabelUnitPoint(text, at);
      Utf8Prepend(LabelUnit(text, at), LabelFrom(text, at + n, room - 1));
      BlankedPrefix(p, CodePointsFrom(text, at + n), room);
    }
  }

  /** A label is valid UTF-8: the first 60 characters of the text, and a space for each control character.
      A text that is not UTF-8 has the empty label, and a label is empty in no other case than that or an empty text. */
  lemma LabelMeaning(text: string)
    ensures ValidUtf8(Label(text))
    ensures ValidUtf8(text) ==>
              var points := CodePointsFrom(text, 0);
              CodePointsFrom(Label(text), 0) == Blanked(points[..Min(60, |points|)])
    ensures forall p | p in CodePointsFrom(Label(text), 0) :: !ControlPoint(p)
    ensures Label(text) == [] <==> text == [] || !ValidUtf8(text)
  {
    if ValidUtf8(text) {
      LabelPoints(text, 0, MAX_LABEL_CHARS);
    }
  }

  // ---- the encoded form of an id (section 2.1 of RFC 3986) ----

  predicate Unreserved(c: char) {
    'A' <= c <= 'Z' || 'a' <= c <= 'z' || '0' <= c <= '9' || c == '-' || c == '.' || c == '_' || c == '~'
  }

  const HEX: string := "0123456789ABCDEF"

  function HexValue(c: char): (value: int)
    ensures value < 16
  {
    if '0' <= c <= '9' then c as int - '0' as int
    else if 'A' <= c <= 'F' then c as int - 'A' as int + 10
    else if 'a' <= c <= 'f' then c as int - 'a' as int + 10
    else -1
  }

  function EncodedByte(c: char): string {
    if Unreserved(c) then [c] else ['%', HEX[c as int / 16 % 16], HEX[c as int % 16]]
  }

  function Encoded(id: string): string {
    if id == [] then [] else EncodedByte(id[0]) + Encoded(id[1..])
  }

  lemma {:induction false} EncodedAppend(a: string, c: char)
    ensures Encoded(a + [c]) == Encoded(a) + EncodedByte(c)
  {
    if a == [] {
      assert a + [c] == [c] && [c][1..] == [];
    } else {
      assert (a + [c])[1..] == a[1..] + [c];
      EncodedAppend(a[1..], c);
    }
  }

  method EncodeId(id: string) returns (out: string)
    ensures out == Encoded(id)
  {
    out := [];
    for i := 0 to |id|
      invariant out == Encoded(id[..i])
    {
      EncodedAppend(id[..i], id[i]);
      assert id[..i] + [id[i]] == id[..i + 1];
      var c := id[i];
      if Unreserved(c) {
        out := out + [c];
      } else {
        out := out + ['%'];
        out := out + [HEX[c as int / 16 % 16]];
        out := out + [HEX[c as int % 16]];
      }
    }
    assert id[..|id|] == id;
  }

  /** One %XX decoding; None for a "%" without two hexadecimal digits. */
  function Decoded(text: string): Option<string> {
    if text == [] then Some([])
    else if text[0] != '%' then
      match Decoded(text[1..])
      case None => None
      case Some(rest) => Some([text[0]] + rest)
    else if |text| < 3 || HexValue(text[1]) < 0 || HexValue(text[2]) < 0 then None
    else
      match Decoded(text[3..])
      case None => None
      case Some(rest) => Some([(HexValue(text[1]) * 16 + HexValue(text[2])) as char] + rest)
  }

  function Prefixed(out: string, rest: Option<string>): Option<string> {
    match rest
    case None => None
    case Some(r) => Some(out + r)
  }

  lemma DecodedPlainStep(out: string, text: string, at: nat)
    requires at < |text| && text[at] != '%'
    ensures Prefixed(out, Decoded(text[at..])) == Prefixed(out + [text[at]], Decoded(text[at + 1..]))
  {
    assert text[at..][1..] == text[at + 1..];
    if Decoded(text[at + 1..]).Some? {
      ConcatAssociative(out, [text[at]], Decoded(text[at + 1..]).value);
    }
  }

  lemma DecodedEscapeStep(out: string, text: string, at: nat)
    requires at < |text| && text[at] == '%'
    ensures (at + 2 >= |text| || HexValue(text[at + 1]) < 0 || HexValue(text[at + 2]) < 0) ==>
              Decoded(text[at..]) == None
    ensures at + 2 < |text| && HexValue(text[at + 1]) >= 0 && HexValue(text[at + 2]) >= 0 ==>
              var c := (HexValue(text[at + 1]) * 16 + HexValue(text[at + 2])) as char;
              Prefixed(out, Decoded(text[at..])) == Prefixed(out + [c], Decoded(text[at + 3..]))
  {
    hide HexValue;
    if at + 2 < |text| && HexValue(text[at + 1]) >= 0 && HexValue(text[at + 2]) >= 0 {
      assert text[at..][3..] == text[at + 3..];
      if Decoded(text[at + 3..]).Some? {
        var c := (HexValue(text[at + 1]) * 16 + HexValue(text[at + 2])) as char;
        ConcatAssociative(out, [c], Decoded(text[at + 3..]).value);
      }
    }
  }

  method PercentDecode(text: string) returns (ok: bool, out: string)
    ensures ok <==> Decoded(text).Some?
    ensures ok ==> Decoded(text) == Some(out)
  {
    assert text[0..] == text;
    assert Decoded(text).Some? ==> "" + Decoded(text).value == Decoded(text).value;
    assert Decoded(text) == Prefixed("", Decoded(text[0..]));
    hide Decoded, HexValue;
    out := "";
    var at := 0;
    while at < |text|
      invariant at <= |text|
      invariant Decoded(text) == Prefixed(out, Decoded(text[at..]))
    {
      if text[at] != '%' {
        DecodedPlainStep(out, text, at);
        out := out + [text[at]];
        at := at + 1;
      } else {
        DecodedEscapeStep(out, text, at);
        if at + 2 >= |text| {
          return false, out;
        }
        var high, low := HexValue(text[at + 1]), HexValue(text[at + 2]);
        if high < 0 || low < 0 {
          return false, out;
        }
        out := out + [(high * 16 + low) as char];
        at := at + 3;
      }
    }
    DecodedEmpty(text[at..]);
    assert out + "" == out;
    return true, out;
  }

  lemma DecodedEmpty(text: string)
    requires text == []
    ensures Decoded(text) == Some([])
  {
  }

  lemma HexRoundTrip(n: nat)
    requires n < 16
    ensures HexValue(HEX[n]) == n
    ensures Unreserved(HEX[n])
  {
  }

  lemma DecodeEscape(h: char, l: char, rest: string)
    requires HexValue(h) >= 0 && HexValue(l) >= 0 && Decoded(rest).Some?
    ensures Decoded(['%', h, l] + rest) == Some([(HexValue(h) * 16 + HexValue(l)) as char] + Decoded(rest).value)
  {
    hide HexValue;
    var e := ['%', h, l] + rest;
    assert e[3..] == rest;
  }

  lemma DecodeOneByte(c: char, rest: string)
    requires c as int < 256 && Decoded(rest).Some?
    ensures Decoded(EncodedByte(c) + rest) == Some([c] + Decoded(rest).value)
  {
    hide Decoded, HexValue;
    if Unreserved(c) {
      DecodePlain(c, rest);
    } else {
      EscapeDigits(c);
      DecodeEscape(HEX[c as int / 16 % 16], HEX[c as int % 16], rest);
    }
  }

  lemma EscapeDigits(c: char)
    requires c as int < 256
    ensures var h, l := HexValue(HEX[c as int / 16 % 16]), HexValue(HEX[c as int % 16]);
            h >= 0 && l >= 0 && h * 16 + l == c as int
  {
    hide HexValue;
    HexRoundTrip(c as int / 16 % 16);
    HexRoundTrip(c as int % 16);
  }

  lemma DecodePlain(c: char, rest: string)
    requires Decoded(rest).Some?
    ensures c != '%' ==> Decoded([c] + rest) == Some([c] + Decoded(rest).value)
  {
    assert ([c] + rest)[1..] == rest;
  }

  lemma {:induction false} DecodeUndoesEncode(id: string)
    requires IsBytes(id)
    ensures Decoded(Encoded(id)) == Some(id)
  {
    hide EncodedByte, HexValue;
    if id != [] {
      assert forall d | d in id[1..] :: d in id;
      DecodeUndoesEncode(id[1..]);
      assert id[0] in id;
      DecodeOneByte(id[0], Encoded(id[1..]));
      assert [id[0]] + id[1..] == id;
    }
  }

  /** The encoded form uses only the unreserved characters and the percent sign. */
  lemma {:induction false} EncodedAlphabet(id: string)
    ensures forall c | c in Encoded(id) :: Unreserved(c) || c == '%'
  {
    if id != [] {
      EncodedAlphabet(id[1..]);
      HexRoundTrip(id[0] as int / 16 % 16);
      HexRoundTrip(id[0] as int % 16);
    }
  }

  // ---- the path of a resource ----

  function Segment(n: Node): string {
    n.kind + ":" + Encoded(n.id)
  }

  /** The segments of a chain with a slash between them. */
  function Joined(chain: seq<Node>): string {
    if chain == [] then ""
    else
      var last := |chain| - 1;
      if last == 0 then Segment(chain[0]) else Joined(chain[..last]) + ['/'] + Segment(chain[last])
  }

  function Chain(r: Resource): seq<Node> {
    r.ancestors + [Node(r.kind, r.id)]
  }

  function Path(r: Resource): string {
    Joined(Chain(r))
  }

  /** What the types of the nodes are free of: the two separators of a path and the separator of a cache key. */
  predicate CleanKind(kind: string) {
    ':' !in kind && '/' !in kind && '\U{1f}' !in kind
  }

  predicate CleanNode(n: Node) {
    CleanKind(n.kind) && IsBytes(n.id)
  }

  predicate CleanChain(chain: seq<Node>) {
    forall n | n in chain :: CleanNode(n)
  }

  method ResourcePath(r: Resource) returns (out: string)
    ensures out == Path(r)
  {
    hide Segment;
    out := "";
    for i := 0 to |r.ancestors|
      invariant out == Joined(r.ancestors[..i])
      invariant out == "" <==> i == 0
    {
      assert r.ancestors[..i + 1][..i] == r.ancestors[..i];
      out := AppendNode(out, r.ancestors[i]);
    }
    assert r.ancestors[..|r.ancestors|] == r.ancestors == Chain(r)[..|r.ancestors|];
    out := AppendNode(out, Node(r.kind, r.id));
  }

  method AppendNode(path: string, n: Node) returns (out: string)
    ensures out == (if path == "" then Segment(n) else path + ['/'] + Segment(n))
    ensures out != ""
  {
    out := path;
    if out != "" {
      out := out + ['/'];
    }
    var id := EncodeId(n.id);
    out := out + (n.kind + ":" + id);
  }

  lemma SegmentAlphabet(n: Node)
    requires CleanNode(n)
    ensures '/' !in Segment(n) && '\U{1f}' !in Segment(n) && ':' !in Encoded(n.id)
  {
    EncodedAlphabet(n.id);
  }

  lemma SegmentInjective(a: Node, b: Node)
    requires CleanNode(a) && CleanNode(b)
    requires Segment(a) == Segment(b)
    ensures a == b
  {
    SplitUnique(a.kind, Encoded(a.id), b.kind, Encoded(b.id), ':');
    DecodeUndoesEncode(a.id);
    DecodeUndoesEncode(b.id);
  }

  lemma SlashesSeparate(chain: seq<Node>)
    requires chain != [] && CleanChain(chain)
    ensures '/' in Joined(chain) <==> |chain| > 1
  {
    var last := |chain| - 1;
    SegmentAlphabet(chain[last]);
    if last > 0 {
      assert Joined(chain)[|Joined(chain[..last])|] == '/';
    }
  }

  lemma LastSegments(a: seq<Node>, b: seq<Node>)
    requires |a| > 1 && |b| > 1 && CleanChain(a) && CleanChain(b)
    requires Joined(a) == Joined(b)
    ensures Joined(a[..|a| - 1]) == Joined(b[..|b| - 1])
    ensures Segment(a[|a| - 1]) == Segment(b[|b| - 1])
  {
    hide Segment;
    var i, j := |a| - 1, |b| - 1;
    SegmentAlphabet(a[i]);
    SegmentAlphabet(b[j]);
    SplitUniqueLast(Joined(a[..i]), Segment(a[i]), Joined(b[..j]), Segment(b[j]), '/');
  }

  lemma {:induction false} JoinedInjective(a: seq<Node>, b: seq<Node>)
    requires a != [] && b != [] && CleanChain(a) && CleanChain(b)
    requires Joined(a) == Joined(b)
    ensures a == b
  {
    hide Segment;
    SlashesSeparate(a);
    SlashesSeparate(b);
    var i, j := |a| - 1, |b| - 1;
    assert a == a[..i] + [a[i]] && b == b[..j] + [b[j]];
    if i > 0 {
      LastSegments(a, b);
      JoinedInjective(a[..i], b[..j]);
    }
    SegmentInjective(a[i], b[j]);
  }

  /** Two resources with the same path are the same resource, with the same chain of ancestors. */
  lemma PathInjective(a: Resource, b: Resource)
    requires CleanChain(Chain(a)) && CleanChain(Chain(b))
    requires Path(a) == Path(b)
    ensures a == b
  {
    JoinedInjective(Chain(a), Chain(b));
    assert Chain(a)[..|a.ancestors|] == a.ancestors;
    assert Chain(b)[..|b.ancestors|] == b.ancestors;
    assert Chain(a)[|a.ancestors|] == Chain(b)[|b.ancestors|];
  }

  lemma {:induction false} JoinedHasNoUnitSeparator(chain: seq<Node>)
    requires CleanChain(chain)
    ensures '\U{1f}' !in Joined(chain)
  {
    if chain != [] {
      var last := |chain| - 1;
      SegmentAlphabet(chain[last]);
      JoinedHasNoUnitSeparator(chain[..last]);
    }
  }
}
