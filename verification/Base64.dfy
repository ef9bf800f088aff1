/** base64url (section 5 of RFC 4648), in the four forms that the source writes: the block encoder and the checking
    decoder of the cursor (src/access_options.cpp), and the encoder and the decoder with a 32-bit accumulator that
    wraps (src/access_identity.cpp). All four are tied to one reading: a text is a numeral in base 64, its bytes are a
    numeral in base 256, and the text is the bytes shifted by the unused bits. */
module Base64 {
  import opened Common
  import opened AccessResource

  const WORD := 0x1_0000_0000

  // ---- numerals ----

  predicate Below(digits: seq<int>, base: nat) {
    forall i | 0 <= i < |digits| :: 0 <= digits[i] < base
  }

  function Numeral(base: nat, digits: seq<int>): int {
    if digits == [] then 0 else Numeral(base, digits[..|digits| - 1]) * base + digits[|digits| - 1]
  }

  lemma NumeralNext(base: nat, digits: seq<int>, d: int)
    ensures Numeral(base, digits + [d]) == Numeral(base, digits) * base + d
    ensures Below(digits, base) && 0 <= d < base ==> Below(digits + [d], base)
  {
    assert (digits + [d])[..|digits|] == digits;
  }

  lemma {:induction false} MulMonotone(a: int, b: int, k: nat)
    requires a <= b
    ensures a * k <= b * k
    decreases b - a
  {
    if a < b {
      MulMonotone(a, b - 1, k);
      assert b * k == (b - 1) * k + k;
    }
  }

  lemma QuotientUnique(base: nat, a: int, x: int, b: int, y: int)
    requires 0 <= x < base && 0 <= y < base && a * base + x == b * base + y
    ensures a == b && x == y
  {
    assert (a + 1) * base == a * base + base;
    assert (b + 1) * base == b * base + base;
    if a < b {
      MulMonotone(a + 1, b, base);
    } else if b < a {
      MulMonotone(b + 1, a, base);
    }
  }

  /** Numerals of one length are equal only when their digits are. */
  lemma {:induction false} NumeralUnique(base: nat, a: seq<int>, b: seq<int>)
    requires Below(a, base) && Below(b, base) && |a| == |b|
    requires Numeral(base, a) == Numeral(base, b)
    ensures a == b
  {
    if a != [] {
      var last := |a| - 1;
      QuotientUnique(base, Numeral(base, a[..last]), a[last], Numeral(base, b[..last]), b[last]);
      NumeralUnique(base, a[..last], b[..last]);
      assert a == a[..last] + [a[last]] && b == b[..last] + [b[last]];
    }
  }

  // ---- the reference: base 64 as shifted base 256 ----

  /** 2 to the power of a number of pending bits. */
  function Unit(bits: nat): (u: nat)
    ensures u >= 1
  {
    if bits == 0 then 1 else 2 * Unit(bits - 1)
  }

  lemma Units()
    ensures Unit(0) == 1 && Unit(2) == 4 && Unit(4) == 16 && Unit(6) == 64
    ensures Unit(8) == 256 && Unit(10) == 1024 && Unit(12) == 4096
  {
    assert Unit(1) == 2 && Unit(3) == 8 && Unit(5) == 32 && Unit(7) == 128 && Unit(9) == 512 && Unit(11) == 2048;
  }

  /** The sextets hold the bytes, then `pending` bits with the value `rest`. */
  predicate Holds(sextets: seq<int>, data: seq<int>, pending: nat, rest: int) {
    && Below(sextets, 64) && Below(data, 256)
    && 6 * |sextets| == 8 * |data| + pending
    && 0 <= rest < Unit(pending)
    && Numeral(64, sextets) == Numeral(256, data) * Unit(pending) + rest
  }

  /** The encoding: fewer than six unused bits, all zero. */
  predicate Encodes(data: seq<int>, sextets: seq<int>) {
    exists pending: nat | pending < 6 :: Holds(sextets, data, pending, 0)
  }

  lemma EncodingUnique(data: seq<int>, a: seq<int>, b: seq<int>)
    requires Encodes(data, a) && Encodes(data, b)
    ensures a == b
  {
    NumeralUnique(64, a, b);
  }

  /** What a decoder reads from an encoding is the data, and its unused bits are zero. */
  lemma ReadsBack(data: seq<int>, sextets: seq<int>, out: seq<int>, pending: nat, rest: int)
    requires Encodes(data, sextets) && Holds(sextets, out, pending, rest) && pending < 8
    ensures out == data && rest == 0 && pending < 6
  {
    QuotientUnique(Unit(pending), Numeral(256, data), 0, Numeral(256, out), rest);
    NumeralUnique(256, data, out);
  }

  // ---- the alphabet ----

  /** The table A-Z a-z 0-9 - _. */
  function Alphabet(v: int): (c: char)
    requires 0 <= v < 64
    ensures CharValue(c, true) == v
  {
    if v < 26 then ('A' as int + v) as char
    else if v < 52 then ('a' as int + v - 26) as char
    else if v < 62 then ('0' as int + v - 52) as char
    else if v == 62 then '-'
    else '_'
  }

  /** The value of a character, or -1 (base64_value of src/access_identity.cpp). */
  function CharValue(c: char, url: bool): (v: int)
    ensures -1 <= v < 64
  {
    if 'A' <= c <= 'Z' then c as int - 'A' as int
    else if 'a' <= c <= 'z' then c as int - 'a' as int + 26
    else if '0' <= c <= '9' then c as int - '0' as int + 52
    else if url && c == '-' then 62
    else if url && c == '_' then 63
    else if !url && c == '+' then 62
    else if !url && c == '/' then 63
    else -1
  }

  function Text(sextets: seq<int>): string
    requires Below(sextets, 64)
  {
    seq(|sextets|, i requires 0 <= i < |sextets| => Alphabet(sextets[i]))
  }

  function Values(text: string, url: bool): seq<int> {
    seq(|text|, i requires 0 <= i < |text| => CharValue(text[i], url))
  }

  lemma ValuesOfText(sextets: seq<int>)
    requires Below(sextets, 64)
    ensures Values(Text(sextets), true) == sextets
  {
    assert forall i | 0 <= i < |sextets| :: Values(Text(sextets), true)[i] == CharValue(Alphabet(sextets[i]), true);
  }

  function Codes(id: string): seq<int> {
    seq(|id|, i requires 0 <= i < |id| => id[i] as int)
  }

  lemma CodesInjective(a: string, b: string)
    requires Codes(a) == Codes(b)
    ensures a == b
  {
    assert |a| == |Codes(a)| == |Codes(b)| == |b|;
    forall i | 0 <= i < |a| ensures a[i] == b[i] {
      assert Codes(a)[i] == Codes(b)[i];
    }
  }

  lemma BytesAreBelow(id: string)
    requires IsBytes(id)
    ensures Below(Codes(id), 256)
  {
    forall i | 0 <= i < |id| ensures Codes(id)[i] < 256 {
      assert id[i] in id;
    }
  }

  // ---- the block encoder (access_options_cursor_encode) ----

  /** The four sextets of a 24-bit word. */
  function First(v: int): int { v / 0x40000 % 64 }
  function Second(v: int): int { v / 0x1000 % 64 }
  function Third(v: int): int { v / 64 % 64 }
  function Fourth(v: int): int { v % 64 }

  lemma WordDigits(v: int)
    requires 0 <= v < 0x1000000
    ensures 0 <= First(v) < 64 && 0 <= Second(v) < 64 && 0 <= Third(v) < 64 && 0 <= Fourth(v) < 64
    ensures First(v) * 0x40000 + Second(v) * 0x1000 + Third(v) * 64 + Fourth(v) == v
  {
    var a, r0 := v / 64, v % 64;
    var b, r1 := a / 64, a % 64;
    var c, r2 := b / 64, b % 64;
    assert v == b * 0x1000 + (r1 * 64 + r0) && v / 0x1000 == b;
    assert v == c * 0x40000 + (r2 * 0x1000 + r1 * 64 + r0) && v / 0x40000 == c;
  }

  /** The loop of the block encoder: four sextets for each three bytes. */
  function Blocks(data: seq<int>): seq<int>
    requires |data| % 3 == 0
  {
    if data == [] then []
    else
      var n := |data|;
      Blocks(data[..n - 3]) + Block(data[n - 3] * 0x10000 + data[n - 2] * 0x100 + data[n - 1])
  }

  function Block(v: int): seq<int> {
    [First(v)] + [Second(v)] + [Third(v)] + [Fourth(v)]
  }

  /** The rest: two sextets for one byte, three for two. */
  function Rest(rest: seq<int>): seq<int> {
    if |rest| == 1 then
      var v := rest[0] * 0x10000;
      [First(v)] + [Second(v)]
    else if |rest| == 2 then
      var v := rest[0] * 0x10000 + rest[1] * 0x100;
      [First(v)] + [Second(v)] + [Third(v)]
    else []
  }

  function Whole(data: seq<int>): nat {
    |data| - |data| % 3
  }

  function Sextets(data: seq<int>): seq<int> {
    Blocks(data[..Whole(data)]) + Rest(data[Whole(data)..])
  }

  lemma ThreeBytes(front: seq<int>, x: int, y: int, z: int)
    requires Below(front, 256) && 0 <= x < 256 && 0 <= y < 256 && 0 <= z < 256
    ensures Numeral(256, front + [x] + [y] + [z]) == Numeral(256, front) * 0x1000000 + x * 0x10000 + y * 0x100 + z
  {
    hide Numeral;
    NumeralNext(256, front, x);
    NumeralNext(256, front + [x], y);
    NumeralNext(256, front + [x] + [y], z);
  }

  lemma BlockNumeral(s: seq<int>, v: int)
    requires Below(s, 64) && 0 <= v < 0x1000000
    ensures Below(s + Block(v), 64)
    ensures Numeral(64, s + Block(v)) == Numeral(64, s) * 0x1000000 + v
  {
    hide Numeral;
    WordDigits(v);
    var a, b, c, d := First(v), Second(v), Third(v), Fourth(v);
    hide First, Second, Third, Fourth;
    NumeralNext(64, s, a);
    NumeralNext(64, s + [a], b);
    NumeralNext(64, s + [a] + [b], c);
    NumeralNext(64, s + [a] + [b] + [c], d);
    assert s + Block(v) == s + [a] + [b] + [c] + [d];
  }

  lemma {:induction false} WholeBlocks(data: seq<int>)
    requires Below(data, 256) && |data| % 3 == 0
    ensures Below(Blocks(data), 64) && 6 * |Blocks(data)| == 8 * |data|
    ensures Numeral(64, Blocks(data)) == Numeral(256, data)
  {
    hide First, Second, Third, Fourth;
    if data != [] {
      var n := |data|;
      var front, x, y, z := data[..n - 3], data[n - 3], data[n - 2], data[n - 1];
      WholeBlocks(front);
      hide Numeral;
      ThreeBytes(front, x, y, z);
      assert data == front + [x] + [y] + [z];
      BlockNumeral(Blocks(front), x * 0x10000 + y * 0x100 + z);
    }
  }

  lemma HoldsWith(sextets: seq<int>, data: seq<int>, pending: nat, unit: int)
    requires Below(sextets, 64) && Below(data, 256) && 6 * |sextets| == 8 * |data| + pending
    requires unit == Unit(pending) && Numeral(64, sextets) == Numeral(256, data) * unit
    ensures Holds(sextets, data, pending, 0)
  {
  }

  lemma OneByteDigits(x: int)
    requires 0 <= x < 256
    ensures var v := x * 0x10000;
            0 <= First(v) < 64 && 0 <= Second(v) < 64 && First(v) * 64 + Second(v) == x * 16
  {
    var v := x * 0x10000;
    assert v == (x * 16) * 0x1000 && Third(v) * 64 + Fourth(v) == 0;
    hide First, Second, Third, Fourth;
    WordDigits(v);
  }

  lemma TwoByteDigits(x: int, y: int)
    requires 0 <= x < 256 && 0 <= y < 256
    ensures var v := x * 0x10000 + y * 0x100;
            && 0 <= First(v) < 64 && 0 <= Second(v) < 64 && 0 <= Third(v) < 64
            && (First(v) * 64 + Second(v)) * 64 + Third(v) == (x * 256 + y) * 4
  {
    var v := x * 0x10000 + y * 0x100;
    assert v == (x * 1024 + y * 4) * 64 && Fourth(v) == 0;
    hide First, Second, Third, Fourth;
    WordDigits(v);
  }

  /** Two sextets after whole blocks hold one byte and four zero bits. */
  lemma OneByteHolds(front: seq<int>, s: seq<int>, x: int)
    requires Below(front, 256) && Below(s, 64) && 6 * |s| == 8 * |front| && Numeral(64, s) == Numeral(256, front)
    requires 0 <= x < 256
    ensures Holds(s + Rest([x]), front + [x], 4, 0)
  {
    hide Numeral, Unit, Holds, First, Second;
    var a, b := First(x * 0x10000), Second(x * 0x10000);
    OneByteDigits(x);
    NumeralNext(256, front, x);
    NumeralNext(64, s, a);
    NumeralNext(64, s + [a], b);
    Units();
    HoldsWith(s + [a] + [b], front + [x], 4, 16);
    assert s + Rest([x]) == s + [a] + [b];
  }

  lemma TwoBytesNumeral(front: seq<int>, s: seq<int>, x: int, y: int, a: int, b: int, c: int)
    requires Below(front, 256) && Below(s, 64) && 6 * |s| == 8 * |front| && Numeral(64, s) == Numeral(256, front)
    requires 0 <= x < 256 && 0 <= y < 256 && 0 <= a < 64 && 0 <= b < 64 && 0 <= c < 64
    requires (a * 64 + b) * 64 + c == (x * 256 + y) * 4
    ensures Below(s + [a] + [b] + [c], 64) && Below(front + [x] + [y], 256)
    ensures Numeral(64, s + [a] + [b] + [c]) == Numeral(256, front + [x] + [y]) * 4
  {
    hide Numeral, Below;
    NumeralNext(256, front, x);
    NumeralNext(256, front + [x], y);
    NumeralNext(64, s, a);
    NumeralNext(64, s + [a], b);
    NumeralNext(64, s + [a] + [b], c);
  }

  /** Three sextets after whole blocks hold two bytes and two zero bits. */
  lemma TwoBytesHold(front: seq<int>, s: seq<int>, x: int, y: int)
    requires Below(front, 256) && Below(s, 64) && 6 * |s| == 8 * |front| && Numeral(64, s) == Numeral(256, front)
    requires 0 <= x < 256 && 0 <= y < 256
    ensures Holds(s + Rest([x, y]), front + [x] + [y], 2, 0)
  {
    hide Numeral, Unit, Holds, First, Second, Third, Below;
    var v := x * 0x10000 + y * 0x100;
    assert s + Rest([x, y]) == s + [First(v)] + [Second(v)] + [Third(v)];
    hide Rest;
    TwoByteDigits(x, y);
    TwoBytesNumeral(front, s, x, y, First(v), Second(v), Third(v));
    Units();
    HoldsWith(s + [First(v)] + [Second(v)] + [Third(v)], front + [x] + [y], 2, 4);
  }

  /** The block encoder is the base 64 numeral of the bytes. */
  lemma SextetsEncode(data: seq<int>)
    requires Below(data, 256)
    ensures Encodes(data, Sextets(data))
  {
    hide Numeral, Holds, Blocks, Rest;
    var k := Whole(data);
    var front, rest := data[..k], data[k..];
    WholeBlocks(front);
    if |rest| == 0 {
      Units();
      NoRest();
      assert front == data && Sextets(data) == Blocks(front);
      HoldsWith(Blocks(front), data, 0, 1);
    } else if |rest| == 1 {
      assert rest == [data[k]] && data == front + [data[k]];
      OneByteHolds(front, Blocks(front), data[k]);
    } else {
      assert rest == [data[k], data[k + 1]] && data == front + [data[k]] + [data[k + 1]];
      TwoBytesHold(front, Blocks(front), data[k], data[k + 1]);
    }
  }

  lemma NoRest()
    ensures Rest([]) == []
  {
  }

  function UrlText(data: seq<int>): string
    requires Below(data, 256)
  {
    SextetsEncode(data);
    Text(Sextets(data))
  }

  function CursorText(id: string): string
    requires IsBytes(id)
  {
    BytesAreBelow(id);
    UrlText(Codes(id))
  }

  lemma CursorTextInjective(a: string, b: string)
    requires IsBytes(a) && IsBytes(b) && CursorText(a) == CursorText(b)
    ensures a == b
  {
    hide Sextets, Encodes;
    BytesAreBelow(a);
    BytesAreBelow(b);
    UrlTextInjective(Codes(a), Codes(b));
    CodesInjective(a, b);
  }

  lemma UrlTextInjective(a: seq<int>, b: seq<int>)
    requires Below(a, 256) && Below(b, 256) && UrlText(a) == UrlText(b)
    ensures a == b
  {
    hide Sextets;
    SextetsEncode(a);
    SextetsEncode(b);
    ValuesOfText(Sextets(a));
    ValuesOfText(Sextets(b));
    var pending: nat :| pending < 6 && Holds(Sextets(b), b, pending, 0);
    ReadsBack(a, Sextets(a), b, pending, 0);
  }

  /** The characters of the first `n` sextets of a 24-bit word. */
  function WordText(v: int, n: nat): string {
    if n == 2 then [Alphabet(First(v)), Alphabet(Second(v))]
    else if n == 3 then [Alphabet(First(v)), Alphabet(Second(v)), Alphabet(Third(v))]
    else [Alphabet(First(v)), Alphabet(Second(v)), Alphabet(Third(v)), Alphabet(Fourth(v))]
  }

  lemma BlockStep(data: seq<int>, at: nat, v: int)
    requires Below(data, 256) && at + 3 <= |data| && at % 3 == 0
    requires v == data[at] * 0x10000 + data[at + 1] * 0x100 + data[at + 2]
    requires Below(Blocks(data[..at]), 64)
    ensures Below(Blocks(data[..at + 3]), 64)
    ensures Text(Blocks(data[..at + 3])) == Text(Blocks(data[..at])) + WordText(v, 4)
  {
    WordDigits(v);
    hide First, Second, Third, Fourth;
    var longer := data[..at + 3];
    assert longer[..at] == data[..at];
    assert Blocks(longer) == Blocks(data[..at]) + Block(v);
    TextAppend(Blocks(data[..at]), Block(v));
  }

  lemma SextetsBelow(data: seq<int>)
    requires Below(data, 256)
    ensures Below(Sextets(data), 64)
  {
    SextetsEncode(data);
  }

  lemma RestStep(data: seq<int>, at: nat, v: int)
    requires Below(data, 256) && at == Whole(data) && Below(Blocks(data[..at]), 64)
    requires |data| - at == 1 ==> v == data[at] * 0x10000
    requires |data| - at == 2 ==> v == data[at] * 0x10000 + data[at + 1] * 0x100
    ensures Below(Sextets(data), 64)
    ensures Text(Sextets(data)) ==
            Text(Blocks(data[..at])) + (if |data| == at then "" else WordText(v, if |data| - at == 1 then 2 else 3))
  {
    hide Numeral, Blocks, Encodes;
    SextetsBelow(data);
    if |data| > at {
      WordDigits(v);
      hide First, Second, Third, Fourth;
      TextAppend(Blocks(data[..at]), Rest(data[at..]));
    } else {
      assert data[at..] == [] && Sextets(data) == Blocks(data[..at]) + [];
    }
  }

  method CursorEncode(id: string) returns (out: string)
    requires IsBytes(id)
    ensures out == CursorText(id)
  {
    hide Blocks, Rest, WordText, Numeral, Text;
    BytesAreBelow(id);
    ghost var data := Codes(id);
    out := "";
    var at := 0;
    NoBlocks(data);
    while at + 2 < |id|
      invariant at <= |id| && at % 3 == 0
      invariant Below(Blocks(data[..at]), 64) && out == Text(Blocks(data[..at]))
    {
      var v := id[at] as int * 0x10000 + id[at + 1] as int * 0x100 + id[at + 2] as int;
      BlockStep(data, at, v);
      out := out + WordText(v, 4);
      at := at + 3;
    }
    if |id| - at == 1 {
      var v := id[at] as int * 0x10000;
      RestStep(data, at, v);
      out := out + WordText(v, 2);
    } else if |id| - at == 2 {
      var v := id[at] as int * 0x10000 + id[at + 1] as int * 0x100;
      RestStep(data, at, v);
      out := out + WordText(v, 3);
    } else {
      RestStep(data, at, 0);
      assert out + "" == out;
    }
  }

  lemma NoBlocks(data: seq<int>)
    ensures Below(Blocks(data[..0]), 64) && Text(Blocks(data[..0])) == ""
  {
  }

  lemma TextAppend(s: seq<int>, more: seq<int>)
    requires Below(s, 64) && Below(more, 64)
    ensures Below(s + more, 64) && Text(s + more) == Text(s) + Text(more)
  {
  }

  // ---- the accumulators ----

  lemma ModUnique(x: int, m: int, q: int, r: int)
    requires x == q * m + r && 0 <= r < m
    ensures x % m == r && x / m == q
  {
    QuotientUnique(m, x / m, x % m, q, r);
  }

  lemma ShiftCase(buffer: int, u: nat, k: nat, t: nat, v: int)
    requires 0 <= buffer && u >= 1 && k >= 1 && t >= 1 && t * (u * k) == WORD && 0 <= v < k
    ensures (buffer * k % WORD + v) % (u * k) == buffer % u * k + v
  {
    var wrapped, p, r := buffer * k / WORD, buffer / u, buffer % u;
    assert buffer == p * u + r;
    assert buffer * k == p * (u * k) + r * k;
    assert wrapped * WORD == (wrapped * t) * (u * k);
    assert (p - wrapped * t) * (u * k) == p * (u * k) - (wrapped * t) * (u * k);
    MulMonotone(r, u - 1, k);
    assert (u - 1) * k == u * k - k;
    MulMonotone(0, r, k);
    ModUnique(buffer * k % WORD + v, u * k, p - wrapped * t, r * k + v);
  }

  /** Shifting `width` bits into a word that wraps keeps the pending bits: at most 14 of the 32 are ever pending. */
  lemma ShiftIn(buffer: int, pending: nat, width: nat, v: int)
    requires 0 <= buffer < WORD && pending in {0, 2, 4, 6} && width in {6, 8} && 0 <= v < Unit(width)
    ensures var next := buffer * Unit(width) % WORD + v;
            0 <= next < WORD && next % Unit(pending + width) == buffer % Unit(pending) * Unit(width) + v
  {
    Units();
    assert Unit(14) == 16384 by {
      assert Unit(13) == 8192;
    }
    hide Unit;
    var k, u := Unit(width), Unit(pending);
    assert u * k == Unit(pending + width);
    var t := if width == 6 then 0x4000000 / u else 0x1000000 / u;
    assert t * (u * k) == WORD;
    ShiftCase(buffer, u, k, t, v);
    WrapBound(buffer, k, WORD / k, v);
  }

  lemma WrapBound(buffer: int, k: nat, t: nat, v: int)
    requires 0 <= buffer && k >= 1 && t * k == WORD && 0 <= v < k
    ensures 0 <= buffer * k % WORD + v < WORD
  {
    var q, r := buffer / t, buffer % t;
    assert buffer * k == q * WORD + r * k by {
      assert buffer == q * t + r;
      assert (q * t) * k == q * (t * k);
    }
    MulMonotone(r, t - 1, k);
    assert (t - 1) * k == t * k - k;
    MulMonotone(0, r, k);
    ModUnique(buffer * k, WORD, q, r * k);
  }

  lemma TakeCase(buffer: int, u: nat, k: nat)
    requires 0 <= buffer && u >= 1 && k >= 1
    ensures buffer % (u * k) == buffer / u % k * u + buffer % u
  {
    var a := buffer / u;
    assert buffer == a * u + buffer % u && a == a / k * k + a % k;
    assert a * u == a / k * (u * k) + a % k * u;
    MulMonotone(a % k, k - 1, u);
    assert (k - 1) * u == u * k - u;
    MulMonotone(0, a % k, u);
    ModUnique(buffer, u * k, a / k, a % k * u + buffer % u);
  }

  /** Taking the top `width` pending bits leaves the others. */
  lemma TakeOut(buffer: int, left: nat, width: nat)
    requires 0 <= buffer && left in {0, 2, 4, 6} && width in {6, 8}
    ensures var top := buffer / Unit(left) % Unit(width);
            buffer % Unit(left + width) == top * Unit(left) + buffer % Unit(left)
  {
    Units();
    assert Unit(14) == 16384 by {
      assert Unit(13) == 8192;
    }
    hide Unit;
    assert Unit(left) * Unit(width) == Unit(left + width);
    TakeCase(buffer, Unit(left), Unit(width));
  }

  lemma {:induction false} UnitAdd(a: nat, b: nat)
    ensures Unit(a + b) == Unit(a) * Unit(b)
  {
    if b > 0 {
      UnitAdd(a, b - 1);
    }
  }

  // ---- the encoder with an accumulator (base64url_encode) ----

  /** The bytes hold the sextets, then `bits` pending bits with the value `rest`. */
  predicate Written(sextets: seq<int>, data: seq<int>, bits: nat, rest: int) {
    && Below(sextets, 64) && Below(data, 256)
    && 6 * |sextets| + bits == 8 * |data|
    && 0 <= rest < Unit(bits)
    && Numeral(64, sextets) * Unit(bits) + rest == Numeral(256, data)
  }

  lemma Regroup(n: int, base: int, top: int, u: int, below: int)
    ensures (n * base + top) * u + below == n * (u * base) + (top * u + below)
  {
    calc {
      (n * base + top) * u;
      (n * base) * u + top * u;
      n * (u * base) + top * u;
    }
  }

  lemma WriteByte(sextets: seq<int>, data: seq<int>, bits: nat, rest: int, d: int)
    requires Written(sextets, data, bits, rest) && 0 <= d < 256
    ensures Written(sextets, data + [d], bits + 8, rest * 256 + d)
  {
    hide Numeral;
    Units();
    UnitAdd(bits, 8);
    hide Unit;
    NumeralNext(256, data, d);
    assert Numeral(64, sextets) * (Unit(bits) * 256) == (Numeral(64, sextets) * Unit(bits)) * 256;
    MulMonotone(rest, Unit(bits) - 1, 256);
  }

  lemma WriteSextet(sextets: seq<int>, data: seq<int>, bits: nat, rest: int, top: int, below: int)
    requires Written(sextets, data, bits + 6, rest)
    requires 0 <= top < 64 && 0 <= below < Unit(bits) && rest == top * Unit(bits) + below
    ensures Written(sextets + [top], data, bits, below)
  {
    hide Numeral;
    Units();
    UnitAdd(bits, 6);
    hide Unit;
    NumeralNext(64, sextets, top);
    Regroup(Numeral(64, sextets), 64, top, Unit(bits), below);
  }

  lemma WriteEnd(sextets: seq<int>, data: seq<int>, bits: nat, rest: int)
    requires Written(sextets, data, bits, rest) && bits in {0, 2, 4}
    ensures bits == 0 ==> Encodes(data, sextets)
    ensures bits > 0 ==> 0 <= rest * Unit(6 - bits) < 64 && Encodes(data, sextets + [rest * Unit(6 - bits)])
  {
    hide Numeral;
    Units();
    if bits == 0 {
      assert Holds(sextets, data, 0, 0);
    } else {
      UnitAdd(bits, 6 - bits);
      var u, w := Unit(bits), Unit(6 - bits);
      hide Unit;
      MulMonotone(rest, u - 1, w);
      assert (u - 1) * w == 64 - w;
      MulMonotone(0, rest, w);
      NumeralNext(64, sextets, rest * w);
      var n := Numeral(64, sextets);
      assert (n * u + rest) * w == n * (u * w) + rest * w;
      assert Holds(sextets + [rest * w], data, 6 - bits, 0);
    }
  }

  method UrlEncode(data: seq<int>) returns (out: string)
    requires Below(data, 256)
    ensures out == UrlText(data)
  {
    hide Written, Unit, Encodes, Sextets, Text, Numeral;
    ghost var s: seq<int> := [];
    var buffer, bits := 0, 0;
    out := "";
    WriteStart(data);
    for i := 0 to |data|
      invariant Below(s, 64) && out == Text(s)
      invariant 0 <= buffer < WORD && bits in {0, 2, 4}
      invariant Written(s, data[..i], bits, buffer % Unit(bits))
    {
      Units();
      WriteByte(s, data[..i], bits, buffer % Unit(bits), data[i]);
      assert data[..i] + [data[i]] == data[..i + 1];
      ShiftIn(buffer, bits, 8, data[i]);
      buffer := buffer * 0x100 % WORD + data[i];
      bits := bits + 8;
      while bits >= 6
        invariant Below(s, 64) && out == Text(s)
        invariant bits in {0, 2, 4, 6, 8, 10, 12}
        invariant Written(s, data[..i + 1], bits, buffer % Unit(bits))
      {
        bits := bits - 6;
        var sextet := buffer / Unit(bits) % 64;
        TakeOut(buffer, bits, 6);
        WriteSextet(s, data[..i + 1], bits, buffer % Unit(bits + 6), sextet, buffer % Unit(bits));
        TextAppend(s, [sextet]);
        TextOne(sextet);
        s := s + [sextet];
        out := out + [Alphabet(sextet)];
      }
    }
    assert data[..|data|] == data;
    SextetsEncode(data);
    SextetsBelow(data);
    WriteEnd(s, data, bits, buffer % Unit(bits));
    if bits > 0 {
      LastSextet(buffer, bits);
      var last := buffer * Unit(6 - bits) % WORD % 64;
      TextAppend(s, [last]);
      TextOne(last);
      EncodingUnique(data, Sextets(data), s + [last]);
      out := out + [Alphabet(last)];
    } else {
      EncodingUnique(data, Sextets(data), s);
    }
  }

  lemma TextOne(v: int)
    requires 0 <= v < 64
    ensures Below([v], 64) && Text([v]) == [Alphabet(v)]
  {
  }

  lemma WriteStart(data: seq<int>)
    ensures Below([], 64) && Text([]) == "" && Written([], data[..0], 0, 0 % Unit(0))
  {
  }

  lemma LastSextet(buffer: int, bits: nat)
    requires 0 <= buffer < WORD && bits in {2, 4}
    ensures buffer * Unit(6 - bits) % WORD % 64 == buffer % Unit(bits) * Unit(6 - bits)
  {
    Units();
    var u, k := Unit(bits), Unit(6 - bits);
    hide Unit;
    ShiftCase(buffer, u, k, WORD / 64, 0);
  }

  // ---- the decoders ----

  lemma ReadSextet(sextets: seq<int>, data: seq<int>, bits: nat, rest: int, v: int)
    requires Holds(sextets, data, bits, rest) && 0 <= v < 64
    ensures Holds(sextets + [v], data, bits + 6, rest * 64 + v)
  {
    hide Numeral;
    Units();
    UnitAdd(bits, 6);
    hide Unit;
    NumeralNext(64, sextets, v);
    assert (Numeral(256, data) * Unit(bits)) * 64 == Numeral(256, data) * (Unit(bits) * 64);
    MulMonotone(rest, Unit(bits) - 1, 64);
  }

  lemma ReadByte(sextets: seq<int>, data: seq<int>, bits: nat, rest: int, top: int, below: int)
    requires Holds(sextets, data, bits + 8, rest)
    requires 0 <= top < 256 && 0 <= below < Unit(bits) && rest == top * Unit(bits) + below
    ensures Holds(sextets, data + [top], bits, below)
  {
    hide Numeral;
    Units();
    UnitAdd(bits, 8);
    hide Unit;
    NumeralNext(256, data, top);
    Regroup(Numeral(256, data), 256, top, Unit(bits), below);
  }

  /** One character of a decoder: six bits into the word, and a byte out of it when eight are pending. */
  method ReadStep(buffer0: int, bits0: nat, v: int, ghost sextets: seq<int>, ghost data: seq<int>)
    returns (buffer: int, bits: nat, byte: Option<int>, ghost read: seq<int>)
    requires 0 <= buffer0 < WORD && bits0 in {0, 2, 4, 6} && 0 <= v < 64
    requires Holds(sextets, data, bits0, buffer0 % Unit(bits0))
    ensures 0 <= buffer < WORD && bits in {0, 2, 4, 6}
    ensures byte.Some? ==> 0 <= byte.value < 256
    ensures read == if byte.Some? then data + [byte.value] else data
    ensures Holds(sextets + [v], read, bits, buffer % Unit(bits))
  {
    hide Holds, Unit, Numeral;
    Units();
    ReadSextet(sextets, data, bits0, buffer0 % Unit(bits0), v);
    ShiftIn(buffer0, bits0, 6, v);
    buffer := buffer0 * 64 % WORD + v;
    bits := bits0 + 6;
    byte, read := None, data;
    if bits >= 8 {
      bits := bits - 8;
      var b := buffer / Unit(bits) % 256;
      TakeOut(buffer, bits, 8);
      ReadByte(sextets + [v], data, bits, buffer % Unit(bits + 8), b, buffer % Unit(bits));
      byte, read := Some(b), data + [b];
    }
  }

  /** The text without its padding: at most two "=" at the end, in the standard form. */
  function Body(text: string, url: bool): string {
    var n := |text|;
    if url || n == 0 || text[n - 1] != '=' then text
    else if n == 1 || text[n - 2] != '=' then text[..n - 1]
    else text[..n - 2]
  }

  predicate WellSpelled(text: string, url: bool) {
    && (url || |text| % 4 == 0)
    && |Body(text, url)| % 4 != 1
    && forall i | 0 <= i < |Body(text, url)| :: CharValue(Body(text, url)[i], url) >= 0
  }

  method Decode(text: string, url: bool) returns (ok: bool, out: seq<int>)
    ensures ok <==> WellSpelled(text, url)
    ensures ok ==> exists pending: nat, rest | pending < 8 :: Holds(Values(Body(text, url), url), out, pending, rest)
    ensures forall data | Below(data, 256) && url && text == UrlText(data) :: ok && out == data
  {
    hide Holds, Unit, Numeral, Sextets, Text, CharValue;
    ok, out := WellFormedLength(text, url), [];
    var body := Body(text, url);
    var buffer, bits, i := 0, 0, 0;
    HoldsNothing();
    while ok && i < |body|
      invariant i <= |body| && 0 <= buffer < WORD && bits in {0, 2, 4, 6}
      invariant ok ==> WellFormedLength(text, url) && forall k | 0 <= k < i :: CharValue(body[k], url) >= 0
      invariant ok ==> Holds(Values(body, url)[..i], out, bits, buffer % Unit(bits))
      invariant !ok ==> !WellSpelled(text, url)
      decreases |body| - i, ok
    {
      var v := CharValue(body[i], url);
      if v < 0 {
        ok := false;
      } else {
        var byte: Option<int>;
        ghost var read;
        assert Values(body, url)[..i + 1] == Values(body, url)[..i] + [v];
        buffer, bits, byte, read := ReadStep(buffer, bits, v, Values(body, url)[..i], out);
        if byte.Some? {
          out := out + [byte.value];
        }
        i := i + 1;
      }
    }
    if ok {
      assert Values(body, url)[..|body|] == Values(body, url);
    }
    forall data | Below(data, 256) && url && text == UrlText(data) ensures ok && out == data {
      UrlTextIsWellSpelled(data);
      UrlTextReadsBack(data, out, bits, buffer % Unit(bits));
    }
  }

  lemma UrlTextReadsBack(data: seq<int>, out: seq<int>, bits: nat, rest: int)
    requires Below(data, 256) && bits in {0, 2, 4, 6}
    requires Holds(Values(Body(UrlText(data), true), true), out, bits, rest)
    ensures out == data
  {
    hide Holds, Unit, Numeral, Sextets, CharValue;
    SextetsEncode(data);
    SextetsBelow(data);
    ValuesOfText(Sextets(data));
    ReadsBack(data, Sextets(data), out, bits, rest);
  }

  predicate WellFormedLength(text: string, url: bool) {
    (url || |text| % 4 == 0) && |Body(text, url)| % 4 != 1
  }

  lemma HoldsNothing()
    ensures Holds([], [], 0, 0 % Unit(0))
    ensures forall s: seq<int> :: s[..0] == []
  {
  }

  lemma UrlTextIsWellSpelled(data: seq<int>)
    requires Below(data, 256)
    ensures WellSpelled(UrlText(data), true)
  {
    hide Sextets, Numeral, CharValue;
    SextetsEncode(data);
    ValuesOfText(Sextets(data));
    var text := UrlText(data);
    assert forall i | 0 <= i < |text| :: CharValue(text[i], true) == Values(text, true)[i] == Sextets(data)[i];
    var pending: nat :| pending < 6 && Holds(Sextets(data), data, pending, 0);
  }

  lemma CodesAppend(id: string, v: int)
    requires 0 <= v < 256 && IsBytes(id)
    ensures Codes(id + [v as char]) == Codes(id) + [v] && IsBytes(id + [v as char])
  {
  }

  /** Whatever a decoder read from the text of an id is that id. */
  lemma CursorReadsBack(i: string, id: string, pending: nat, rest: int)
    requires IsBytes(i) && pending < 8 && Holds(Values(CursorText(i), true), Codes(id), pending, rest)
    ensures id == i && rest == 0
  {
    hide Holds, Encodes, Sextets, Text, Values;
    BytesAreBelow(i);
    SextetsEncode(Codes(i));
    SextetsBelow(Codes(i));
    ValuesOfText(Sextets(Codes(i)));
    ReadsBack(Codes(i), Sextets(Codes(i)), Codes(id), pending, rest);
    CodesInjective(id, i);
  }

  lemma CursorOfId(i: string)
    requires IsBytes(i) && i != ""
    ensures CursorText(i) != "" && |CursorText(i)| % 4 != 1 && WellSpelled(CursorText(i), true)
    ensures 6 * |CursorText(i)| < 8 * |i| + 6
  {
    hide Numeral, CharValue, Blocks, Rest;
    BytesAreBelow(i);
    UrlTextIsWellSpelled(Codes(i));
    SextetsEncode(Codes(i));
    var pending: nat :| pending < 6 && Holds(Sextets(Codes(i)), Codes(i), pending, 0);
  }

  /** The cursor decoder accepts exactly the texts of the valid ids, and gives the id. */
  method CursorDecode(cursor: string) returns (ok: bool, id: string)
    ensures ok ==> IsBytes(id) && ValidId(id) && cursor == CursorText(id)
    ensures forall i | IsBytes(i) && ValidId(i) && cursor == CursorText(i) :: ok && id == i
  {
    hide Holds, Unit, Numeral, Sextets, Text, CharValue, ValidId, Encodes;
    ok, id := cursor != "" && |cursor| % 4 != 1, "";
    var bits, count, i := 0, 0, 0;
    HoldsNothing();
    assert Codes("") == [];
    while ok && i < |cursor|
      invariant i <= |cursor| && 0 <= bits < WORD && count in {0, 2, 4, 6} && IsBytes(id)
      invariant ok ==> Holds(Values(cursor, true)[..i], Codes(id), count, bits % Unit(count))
      invariant !ok ==> cursor == "" || |cursor| % 4 == 1 || !WellSpelled(cursor, true)
      decreases |cursor| - i, ok
    {
      var v := CharValue(cursor[i], true);
      if v < 0 {
        assert Body(cursor, true)[i] == cursor[i];
        ok := false;
      } else {
        var byte: Option<int>;
        ghost var read;
        assert Values(cursor, true)[..i + 1] == Values(cursor, true)[..i] + [v];
        bits, count, byte, read := ReadStep(bits, count, v, Values(cursor, true)[..i], Codes(id));
        if byte.Some? {
          CodesAppend(id, byte.value);
          id := id + [byte.value as char];
        }
        i := i + 1;
      }
    }
    ghost var spelled := ok;
    assert ok ==> Values(cursor, true)[..i] == Values(cursor, true);
    // The unused bits are zero: only one text gives one id.
    if ok && count > 0 && bits % Unit(count) != 0 {
      ok := false;
    }
    var again := CursorEncode(id);
    ok := ok && ValidId(id) && again == cursor;
    forall j | IsBytes(j) && ValidId(j) && cursor == CursorText(j) ensures ok && id == j {
      ValidIdNotEmpty(j);
      CursorOfId(j);
      CursorReadsBack(j, id, count, bits % Unit(count));
    }
  }

  lemma ValidIdNotEmpty(id: string)
    ensures ValidId(id) ==> id != ""
  {
  }
}
