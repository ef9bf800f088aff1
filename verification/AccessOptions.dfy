/** The query of the options route (access_options_parse, src/access_options.cpp): the parameters, the path of the
    parent in the tree of the resource types, the limit and the cursor. */
module AccessOptions {
  import opened Common
  import opened AccessResource
  import opened Base64
  import opened OptionsPage

  const MAX_SEARCH_BYTES := 256
  const MAX_CURSOR_BYTES := 512

  datatype Refusal = Repeated(name: string) | BadEscape(name: string) | TypeRequired | ParentEmpty | ParentSegment
                   | ParentType | ParentId | TypeNotChild | BadSearch | BadLimit | BadCursor
  datatype Result<+T> = Ok(value: T) | Refuse(error: Refusal)

  /** What the query asks: the children of one type of a node, one page of them. */
  datatype Request = Request(parent: seq<Node>, kind: string, page: Query)

  // ---- splitting ----

  function IndexOf(text: string, c: char): (i: nat)
    ensures i <= |text| && c !in text[..i]
    ensures i < |text| ==> text[i] == c
  {
    if text == [] || text[0] == c then 0
    else
      assert forall k | 0 <= k < IndexOf(text[1..], c) :: text[1..][..IndexOf(text[1..], c)][k] == text[k + 1];
      1 + IndexOf(text[1..], c)
  }

  lemma IndexOfUnique(text: string, c: char, i: nat)
    requires i <= |text| && c !in text[..i] && (i < |text| ==> text[i] == c)
    ensures IndexOf(text, c) == i
  {
    var j := IndexOf(text, c);
    forall k | 0 <= k < i ensures text[k] != c {
      assert text[..i][k] in text[..i];
    }
    forall k | 0 <= k < j ensures text[k] != c {
      assert text[..j][k] in text[..j];
    }
  }

  /** The pieces between the separators. */
  function Split(text: string, sep: char): (pieces: seq<string>)
    ensures pieces != []
    decreases |text|
  {
    var i := IndexOf(text, sep);
    if i == |text| then [text] else [text[..i]] + Split(text[i + 1..], sep)
  }

  lemma SplitOne(text: string, sep: char)
    requires sep !in text
    ensures Split(text, sep) == [text]
  {
    assert text[..|text|] == text;
    IndexOfUnique(text, sep, |text|);
  }

  lemma {:induction false} SplitAppend(a: string, b: string, sep: char)
    requires sep !in b
    ensures Split(a + [sep] + b, sep) == Split(a, sep) + [b]
    decreases |a|
  {
    hide IndexOf;
    var i := IndexOf(a, sep);
    PartsOfAppend(a, b, sep);
    if i == |a| {
      SplitOne(b, sep);
    } else {
      SplitAppend(a[i + 1..], b, sep);
    }
  }

  lemma PartsOfAppend(a: string, b: string, sep: char)
    ensures var i, text := IndexOf(a, sep), a + [sep] + b;
            && i <= |a| && i < |text| && IndexOf(text, sep) == i && text[..i] == a[..i]
            && (if i == |a| then text[i + 1..] == b && a[..i] == a else text[i + 1..] == a[i + 1..] + [sep] + b)
  {
    hide IndexOf;
    var i := IndexOf(a, sep);
    CutAt(a, b, sep, i);
    IndexOfUnique(a + [sep] + b, sep, i);
  }

  /** The parts of a text around a place that is not beyond its separator. */
  lemma CutAt(a: string, b: string, sep: char, i: nat)
    requires i <= |a|
    ensures var text := a + [sep] + b;
            && |text| == |a| + 1 + |b| && text[..i] == a[..i] && text[i] == (if i == |a| then sep else a[i])
            && (if i == |a| then text[i + 1..] == b && a[..i] == a else text[i + 1..] == a[i + 1..] + [sep] + b)
  {
    var text := a + [sep] + b;
    if i == |a| {
      assert text[i + 1..] == b;
    } else {
      assert text[i + 1..] == a[i + 1..] + [sep] + b;
    }
  }

  lemma SplitStep(text: string, sep: char, start: nat, end: nat)
    requires start <= end <= |text| && sep !in text[start..end] && (end < |text| ==> text[end] == sep)
    ensures Split(text[start..], sep) ==
            [text[start..end]] + (if end == |text| then [] else Split(text[end + 1..], sep))
  {
    hide IndexOf;
    var rest, i := text[start..], end - start;
    assert rest[..i] == text[start..end];
    IndexOfUnique(rest, sep, i);
    if end < |text| {
      assert rest[i + 1..] == text[end + 1..];
    } else {
      assert rest[..i] == rest;
    }
  }

  /** std::string::find of one character. */
  method Find(text: string, c: char, from: nat) returns (end: nat)
    requires from <= |text|
    ensures from <= end <= |text| && c !in text[from..end] && (end < |text| ==> text[end] == c)
  {
    end := from;
    while end < |text| && text[end] != c
      invariant from <= end <= |text| && c !in text[from..end]
    {
      end := end + 1;
    }
  }

  // ---- the parameters ----

  predicate Known(name: string) {
    name == "parent" || name == "type" || name == "q" || name == "limit" || name == "after"
  }

  /** The parameter that a piece names, when it names a known one. */
  function NameOf(piece: string): Option<string> {
    if piece == "" then None
    else
      var name := Decoded(piece[..IndexOf(piece, '=')]);
      if name.Some? && Known(name.value) then name else None
  }

  /** Its value; a piece without "=" has the empty value. */
  function ValueOf(piece: string): Option<string> {
    var equal := IndexOf(piece, '=');
    if equal == |piece| then Some("") else Decoded(piece[equal + 1..])
  }

  type Slots = map<string, string>

  function Step(slots: Slots, piece: string): Result<Slots> {
    var name := NameOf(piece);
    if name.None? then Ok(slots)
    else if name.value in slots then Refuse(Repeated(name.value))
    else if ValueOf(piece).None? then Refuse(BadEscape(name.value))
    else Ok(slots[name.value := ValueOf(piece).value])
  }

  function SlotsOf(pieces: seq<string>): Result<Slots> {
    if pieces == [] then Ok(map[])
    else
      var before := SlotsOf(pieces[..|pieces| - 1]);
      if before.Refuse? then before else Step(before.value, pieces[|pieces| - 1])
  }

  lemma SlotsOfAppend(pieces: seq<string>, piece: string)
    ensures SlotsOf(pieces + [piece]) ==
            if SlotsOf(pieces).Refuse? then SlotsOf(pieces) else Step(SlotsOf(pieces).value, piece)
  {
    assert (pieces + [piece])[..|pieces|] == pieces;
  }

  lemma {:induction false} RefusedStays(seen: seq<string>, rest: seq<string>)
    requires SlotsOf(seen).Refuse?
    ensures SlotsOf(seen + rest) == SlotsOf(seen)
  {
    hide SlotsOf, Step;
    if rest == [] {
      assert seen + rest == seen;
    } else {
      RefusedStays(seen, rest[..|rest| - 1]);
      SlotsOfAppend(seen + rest[..|rest| - 1], rest[|rest| - 1]);
      assert seen + rest == seen + rest[..|rest| - 1] + [rest[|rest| - 1]];
    }
  }

  /** One piece of the query: it is ignored, refused, or fills the slot of its parameter. */
  method ReadPiece(slots: Slots, piece: string) returns (result: Result<Slots>)
    ensures result == Step(slots, piece)
  {
    hide Decoded;
    result := Ok(slots);
    if piece != "" {
      var equal := Find(piece, '=', 0);
      assert piece[0..equal] == piece[..equal];
      IndexOfUnique(piece, '=', equal);
      var ok, name := PercentDecode(piece[..equal]);
      if ok && Known(name) {
        var good, value := true, "";
        if equal < |piece| {
          good, value := PercentDecode(piece[equal + 1..]);
        }
        result := if name in slots then Refuse(Repeated(name))
                  else if !good then Refuse(BadEscape(name)) else Ok(slots[name := value]);
      }
    }
  }

  method ReadSlots(raw: string) returns (result: Result<Slots>)
    ensures result == SlotsOf(Split(raw, '&'))
  {
    hide Split, IndexOf, Step, SlotsOf;
    result := Ok(map[]);
    EmptySlots();
    var start := 0;
    ghost var seen: seq<string> := [];
    assert raw[0..] == raw;
    ghost var rest := Split(raw, '&');
    while start <= |raw| && result.Ok?
      invariant start <= |raw| + 1
      invariant rest == if start <= |raw| then Split(raw[start..], '&') else []
      invariant Split(raw, '&') == seen + rest
      invariant result == SlotsOf(seen)
    {
      var end := Find(raw, '&', start);
      SplitStep(raw, '&', start, end);
      var piece := raw[start..end];
      SlotsOfAppend(seen, piece);
      result := ReadPiece(result.value, piece);
      ghost var more := if end == |raw| then [] else Split(raw[end + 1..], '&');
      ConcatAssociative(seen, [piece], more);
      seen, rest := seen + [piece], more;
      start := end + 1;
    }
    if result.Refuse? {
      RefusedStays(seen, rest);
    } else {
      assert seen + [] == seen;
    }
  }

  lemma EmptySlots()
    ensures SlotsOf([]) == Ok(map[])
  {
  }

  /** Accepted parameters: each known name at most once, each with the decoded value of its piece; all other pieces
      are ignored. */
  lemma {:induction false} SlotsMeaning(pieces: seq<string>)
    requires SlotsOf(pieces).Ok?
    ensures var slots := SlotsOf(pieces).value;
            && (forall name | name in slots :: Known(name) && Names(pieces, name))
            && (forall i | 0 <= i < |pieces| && NameOf(pieces[i]).Some? ::
                  var name := NameOf(pieces[i]).value; name in slots && ValueOf(pieces[i]) == Some(slots[name]))
    ensures forall i, j | 0 <= i < j < |pieces| && NameOf(pieces[i]).Some? :: NameOf(pieces[i]) != NameOf(pieces[j])
  {
    hide NameOf, ValueOf;
    if pieces != [] {
      var last := |pieces| - 1;
      var before := pieces[..last];
      SlotsMeaning(before);
      assert pieces == before + [pieces[last]];
      NameIsKnown(pieces[last]);
      forall name | name in SlotsOf(pieces).value ensures Names(pieces, name) {
        if name in SlotsOf(before).value {
          var i :| 0 <= i < |before| && NameOf(before[i]) == Some(name);
          assert NameOf(pieces[i]) == Some(name);
        } else {
          assert NameOf(pieces[last]) == Some(name);
        }
      }
    }
  }

  predicate Names(pieces: seq<string>, name: string) {
    exists i | 0 <= i < |pieces| :: NameOf(pieces[i]) == Some(name)
  }

  lemma NameIsKnown(piece: string)
    ensures NameOf(piece).Some? ==> Known(NameOf(piece).value)
  {
  }

  // ---- the path of the parent ----

  /** The tree of the resource types (access_resource_types): the type above a type. */
  function Above(kind: string): Option<string> {
    if kind == "host" then Some("service") else if kind == "database" then Some("host") else None
  }

  function KindBelow(chain: seq<Node>): string {
    if chain == [] then "service" else chain[|chain| - 1].kind
  }

  /** A chain from the first level below the service, down the tree. */
  predicate InTree(chain: seq<Node>) {
    && (forall n | n in chain :: ValidId(n.id))
    && (forall i | 0 <= i < |chain| :: BelowThe(chain, i))
  }

  predicate BelowThe(chain: seq<Node>, i: nat)
    requires i < |chain|
  {
    Above(chain[i].kind) == Some(KindBelow(chain[..i]))
  }

  /** A chain and the type of its children: the hosts of the service, or the databases of one host. */
  predicate DownTheTree(chain: seq<Node>, kind: string) {
    || (chain == [] && kind == "host")
    || (|chain| == 1 && chain[0].kind == "host" && ValidId(chain[0].id) && kind == "database")
  }

  lemma TreeMeaning(chain: seq<Node>, kind: string)
    ensures InTree(chain) && Above(kind) == Some(KindBelow(chain)) <==> DownTheTree(chain, kind)
  {
    hide ValidId;
    if InTree(chain) {
      assert |chain| > 2 ==> BelowThe(chain, 2);
      assert |chain| > 1 ==> BelowThe(chain, 1);
      assert |chain| > 0 ==> BelowThe(chain, 0);
    }
  }

  function NodeOf(segment: string, above: string): Result<Node> {
    var colon := IndexOf(segment, ':');
    if colon == |segment| then Refuse(ParentSegment)
    else if Above(segment[..colon]) != Some(above) then Refuse(ParentType)
    else
      var id := Decoded(segment[colon + 1..]);
      if id.None? || !ValidId(id.value) then Refuse(ParentId) else Ok(Node(segment[..colon], id.value))
  }

  function ChainOf(segments: seq<string>): Result<seq<Node>> {
    if segments == [] then Ok([])
    else
      var before := ChainOf(segments[..|segments| - 1]);
      if before.Refuse? then before
      else
        var node := NodeOf(segments[|segments| - 1], KindBelow(before.value));
        if node.Refuse? then Refuse(node.error) else Ok(before.value + [node.value])
  }

  lemma ChainOfAppend(segments: seq<string>, s: string)
    ensures ChainOf(segments).Refuse? ==> ChainOf(segments + [s]) == ChainOf(segments)
    ensures ChainOf(segments).Ok? ==>
              var node := NodeOf(s, KindBelow(ChainOf(segments).value));
              ChainOf(segments + [s]) ==
                if node.Refuse? then Refuse(node.error) else Ok(ChainOf(segments).value + [node.value])
  {
    assert (segments + [s])[..|segments|] == segments;
  }

  lemma {:induction false} RefusedChainStays(seen: seq<string>, rest: seq<string>)
    requires ChainOf(seen).Refuse?
    ensures ChainOf(seen + rest) == ChainOf(seen)
  {
    hide ChainOf, NodeOf;
    if rest == [] {
      assert seen + rest == seen;
    } else {
      RefusedChainStays(seen, rest[..|rest| - 1]);
      ChainOfAppend(seen + rest[..|rest| - 1], rest[|rest| - 1]);
      assert seen + rest == seen + rest[..|rest| - 1] + [rest[|rest| - 1]];
    }
  }

  method ReadNode(segment: string, above: string) returns (result: Result<Node>)
    ensures result == NodeOf(segment, above)
  {
    hide Decoded, ValidId;
    var colon := Find(segment, ':', 0);
    assert segment[0..colon] == segment[..colon];
    IndexOfUnique(segment, ':', colon);
    result := Refuse(ParentSegment);
    if colon < |segment| {
      result := Refuse(ParentType);
      if Above(segment[..colon]) == Some(above) {
        result := Refuse(ParentId);
        var ok, id := PercentDecode(segment[colon + 1..]);
        if ok {
          var valid := IsValidId(id);
          if valid {
            result := Ok(Node(segment[..colon], id));
          }
        }
      }
    }
  }

  method ReadParent(text: string) returns (result: Result<seq<Node>>)
    ensures result == ChainOf(Split(text, '/'))
  {
    hide Split, IndexOf, NodeOf, ChainOf;
    result := Ok([]);
    EmptyChain();
    var above := "service";
    var from := 0;
    ghost var seen: seq<string> := [];
    ghost var rest := Split(text, '/');
    assert text[0..] == text;
    while from <= |text| && result.Ok?
      invariant from <= |text| + 1
      invariant rest == if from <= |text| then Split(text[from..], '/') else []
      invariant Split(text, '/') == seen + rest
      invariant result == ChainOf(seen)
      invariant result.Ok? ==> above == KindBelow(result.value)
    {
      var slash := Find(text, '/', from);
      SplitStep(text, '/', from, slash);
      var segment := text[from..slash];
      ChainOfAppend(seen, segment);
      var node := ReadNode(segment, above);
      result := if node.Refuse? then Refuse(node.error) else Ok(result.value + [node.value]);
      above := if node.Refuse? then above else node.value.kind;
      ghost var more := if slash == |text| then [] else Split(text[slash + 1..], '/');
      ConcatAssociative(seen, [segment], more);
      seen, rest := seen + [segment], more;
      from := slash + 1;
    }
    if result.Refuse? {
      RefusedChainStays(seen, rest);
    } else {
      assert seen + [] == seen;
    }
  }

  lemma EmptyChain()
    ensures ChainOf([]) == Ok([])
  {
  }

  lemma TreeIsShallow(chain: seq<Node>)
    requires InTree(chain)
    ensures |chain| <= 2
    ensures |chain| == 2 ==> chain[1].kind == "database"
  {
    hide ValidId;
    assert |chain| > 2 ==> BelowThe(chain, 2);
    assert |chain| > 1 ==> BelowThe(chain, 1);
    assert |chain| > 0 ==> BelowThe(chain, 0);
  }

  /** Whatever path is accepted, its chain goes down the tree with valid ids. */
  lemma {:induction false} AcceptedChainInTree(segments: seq<string>)
    requires ChainOf(segments).Ok?
    ensures InTree(ChainOf(segments).value) && |ChainOf(segments).value| == |segments| <= 2
  {
    hide IndexOf, Decoded, ValidId;
    if segments != [] {
      var last := |segments| - 1;
      AcceptedChainInTree(segments[..last]);
      var before, chain := ChainOf(segments[..last]).value, ChainOf(segments).value;
      assert chain[..last] == before;
      forall i | 0 <= i < |chain| ensures BelowThe(chain, i) {
        if i < last {
          assert BelowThe(before, i) && before[..i] == chain[..i];
        }
      }
      TreeIsShallow(chain);
    }
  }

  lemma KindIsClean(kind: string)
    requires Above(kind).Some?
    ensures ':' !in kind && '/' !in kind
  {
  }

  lemma NodeReadsBack(n: Node)
    requires Above(n.kind).Some? && ValidId(n.id)
    ensures NodeOf(Segment(n), Above(n.kind).value) == Ok(n)
    ensures '/' !in Segment(n)
  {
    hide ValidId, Decoded, Encoded, IndexOf, Above;
    KindIsClean(n.kind);
    ValidIdIsBytes(n.id);
    EncodedAlphabet(n.id);
    DecodeUndoesEncode(n.id);
    var segment := Segment(n);
    assert segment[..|n.kind|] == n.kind && segment[|n.kind| + 1..] == Encoded(n.id);
    IndexOfUnique(segment, ':', |n.kind|);
  }

  /** The encoded path of a chain parses back to the chain. */
  lemma {:induction false} PathReadsBack(chain: seq<Node>)
    requires chain != [] && InTree(chain)
    ensures ChainOf(Split(Joined(chain), '/')) == Ok(chain)
  {
    hide NodeOf, Split, Segment, ValidId, Above, ChainOf;
    var last := |chain| - 1;
    var n := chain[last];
    assert n in chain && BelowThe(chain, last);
    NodeReadsBack(n);
    EmptyChain();
    if last == 0 {
      SplitOne(Segment(n), '/');
      ChainOfAppend([], Segment(n));
      assert [] + [Segment(n)] == [Segment(n)] && [] + [n] == chain && chain[..0] == [];
    } else {
      var before := chain[..last];
      assert InTree(before) by {
        assert forall m | m in before :: m in chain;
        forall i | 0 <= i < last ensures BelowThe(before, i) {
          assert BelowThe(chain, i) && before[..i] == chain[..i];
        }
      }
      PathReadsBack(before);
      SplitAppend(Joined(before), Segment(n), '/');
      ChainOfAppend(Split(Joined(before), '/'), Segment(n));
      assert before + [n] == chain;
    }
  }

  // ---- the other values ----

  predicate IsCursorOf(text: string, id: string) {
    IsBytes(id) && ValidId(id) && text == CursorText(id)
  }

  /** The id that a cursor names. */
  ghost function CursorId(text: string): Option<string> {
    if exists id :: IsCursorOf(text, id) then
      var id :| IsCursorOf(text, id);
      Some(id)
    else None
  }

  function Number(text: string): nat {
    if text == [] then 0
    else Number(text[..|text| - 1]) * 10 + Max(0, text[|text| - 1] as int - '0' as int)
  }

  predicate Digits(text: string) {
    forall c | c in text :: '0' <= c <= '9'
  }

  function LimitOf(text: string): Option<nat> {
    if text == "" || |text| > 9 || !Digits(text) || Number(text) < 1 then None
    else Some(Min(Number(text), MAX_ITEMS))
  }

  method ReadLimit(text: string) returns (limit: Option<nat>)
    ensures limit == LimitOf(text)
  {
    limit := None;
    if text != "" && |text| <= 9 {
      var i, number, digits := 0, 0, true;
      while i < |text| && digits
        invariant i <= |text|
        invariant digits ==> Digits(text[..i]) && number == Number(text[..i])
        invariant !digits ==> !Digits(text)
        decreases |text| - i, digits
      {
        var c := text[i];
        assert c in text;
        if '0' <= c <= '9' {
          assert text[..i + 1] == text[..i] + [c];
          number := number * 10 + (c as int - '0' as int);
          i := i + 1;
        } else {
          digits := false;
        }
      }
      assert text[..|text|] == text;
      if digits && number >= 1 {
        limit := Some(Min(number, MAX_ITEMS));
      }
    }
  }

  /** The whole number in decimal digits. */
  function Decimal(n: nat): string {
    (if n < 10 then "" else Decimal(n / 10)) + [('0' as int + n % 10) as char]
  }

  lemma {:induction false} NumberOfDecimal(n: nat)
    ensures Digits(Decimal(n)) && Number(Decimal(n)) == n && Decimal(n) != ""
    ensures n < 100 ==> |Decimal(n)| <= 2
  {
    var text := Decimal(n);
    if n >= 10 {
      NumberOfDecimal(n / 10);
      assert text[..|text| - 1] == Decimal(n / 10);
    } else {
      assert text[..|text| - 1] == "";
    }
  }

  lemma {:induction false} CursorIsUnique(text: string, id: string)
    requires IsCursorOf(text, id)
    ensures CursorId(text) == Some(id)
  {
    hide CursorText, ValidId;
    var other :| IsCursorOf(text, other) && CursorId(text) == Some(other);
    assert IsCursorOf(text, other);
    CursorTextInjective(id, other);
  }

  method ReadCursor(text: string) returns (id: Option<string>)
    ensures id == CursorId(text)
  {
    hide CursorText, ValidId;
    var ok, found := CursorDecode(text);
    id := None;
    if ok {
      CursorIsUnique(text, found);
      id := Some(found);
    }
  }

  // ---- the whole query ----

  function OptionAt(slots: Slots, name: string): Option<string> {
    if name in slots then Some(slots[name]) else None
  }

  predicate SearchFits(text: string) {
    |text| <= MAX_SEARCH_BYTES && ValidUtf8(text)
  }

  /** What the parameters mean; the first rule that is broken is the refusal. */
  ghost function RequestOf(slots: Slots): Result<Request> {
    var kind, parent := OptionAt(slots, "type"), OptionAt(slots, "parent");
    var q, limit, after := OptionAt(slots, "q"), OptionAt(slots, "limit"), OptionAt(slots, "after");
    if kind.None? || kind.value == "" then Refuse(TypeRequired)
    else if parent == Some("") then Refuse(ParentEmpty)
    else
      var chain := if parent.None? then Ok([]) else ChainOf(Split(parent.value, '/'));
      if chain.Refuse? then Refuse(chain.error)
      else if Above(kind.value) != Some(KindBelow(chain.value)) then Refuse(TypeNotChild)
      else if q.Some? && !SearchFits(q.value) then Refuse(BadSearch)
      else if limit.Some? && LimitOf(limit.value).None? then Refuse(BadLimit)
      else if after.Some? && (|after.value| > MAX_CURSOR_BYTES || CursorId(after.value).None?) then Refuse(BadCursor)
      else Ok(Request(chain.value, kind.value,
                      Query(if q.Some? then q.value else "",
                            if limit.Some? then LimitOf(limit.value).value else MAX_ITEMS,
                            if after.Some? then CursorId(after.value) else None)))
  }

  ghost function ParseOf(raw: string): Result<Request> {
    var slots := SlotsOf(Split(raw, '&'));
    if slots.Refuse? then Refuse(slots.error) else RequestOf(slots.value)
  }

  method ReadSearch(text: string) returns (ok: bool)
    ensures ok == SearchFits(text)
  {
    ok := |text| <= MAX_SEARCH_BYTES && ValidUtf8(text);
  }

  /** The page part of the query: the search text, the limit and the cursor. */
  method ReadPage(slots: Slots) returns (result: Result<Query>)
    ensures result ==
      var q, limit, after := OptionAt(slots, "q"), OptionAt(slots, "limit"), OptionAt(slots, "after");
      if q.Some? && !SearchFits(q.value) then Refuse(BadSearch)
      else if limit.Some? && LimitOf(limit.value).None? then Refuse(BadLimit)
      else if after.Some? && (|after.value| > MAX_CURSOR_BYTES || CursorId(after.value).None?) then Refuse(BadCursor)
      else Ok(Query(if q.Some? then q.value else "",
                    if limit.Some? then LimitOf(limit.value).value else MAX_ITEMS,
                    if after.Some? then CursorId(after.value) else None))
  {
    hide SearchFits, LimitOf, CursorId;
    var page := Query("", MAX_ITEMS, None);
    if "q" in slots {
      var fits := ReadSearch(slots["q"]);
      if !fits {
        return Refuse(BadSearch);
      }
      page := page.(q := slots["q"]);
    }
    if "limit" in slots {
      var limit := ReadLimit(slots["limit"]);
      if limit.None? {
        return Refuse(BadLimit);
      }
      page := page.(limit := limit.value);
    }
    if "after" in slots {
      if |slots["after"]| > MAX_CURSOR_BYTES {
        return Refuse(BadCursor);
      }
      var id := ReadCursor(slots["after"]);
      if id.None? {
        return Refuse(BadCursor);
      }
      page := page.(after := id);
    }
    return Ok(page);
  }

  method Parse(raw: string) returns (result: Result<Request>)
    ensures result == ParseOf(raw)
  {
    hide SearchFits, LimitOf, CursorId, Split, SlotsOf, ChainOf, Above;
    var slots := ReadSlots(raw);
    if slots.Refuse? {
      return Refuse(slots.error);
    }
    var values := slots.value;
    if "type" !in values || values["type"] == "" {
      return Refuse(TypeRequired);
    }
    var chain: Result<seq<Node>> := Ok([]);
    if "parent" in values {
      if values["parent"] == "" {
        return Refuse(ParentEmpty);
      }
      chain := ReadParent(values["parent"]);
      if chain.Refuse? {
        return Refuse(chain.error);
      }
    }
    if Above(values["type"]) != Some(KindBelow(chain.value)) {
      return Refuse(TypeNotChild);
    }
    var page := ReadPage(values);
    if page.Refuse? {
      return Refuse(page.error);
    }
    return Ok(Request(chain.value, values["type"], page.value));
  }

  /** What the page code can rely on: the chain goes down the tree, the type is a child of its end, the search text,
      the limit and the cursor are in their bounds. */
  lemma AcceptedIsWellFormed(raw: string)
    requires ParseOf(raw).Ok?
    ensures var r := ParseOf(raw).value;
            && DownTheTree(r.parent, r.kind)
            && |r.page.q| <= 256 && ValidUtf8(r.page.q)
            && 1 <= r.page.limit <= 50
            && (r.page.after.Some? ==> ValidId(r.page.after.value))
  {
    hide Split, SlotsOf, ChainOf, ValidId, CursorText;
    var slots := SlotsOf(Split(raw, '&')).value;
    if "parent" in slots {
      AcceptedChainInTree(Split(slots["parent"], '/'));
    }
    TreeMeaning(ParseOf(raw).value.parent, ParseOf(raw).value.kind);
  }

  // ---- a request that a caller writes ----

  datatype Param = Param(name: string, value: string)

  function ParamText(p: Param): string {
    Encoded(p.name) + "=" + Encoded(p.value)
  }

  function QueryText(params: seq<Param>): string {
    if params == [] then ""
    else if |params| == 1 then ParamText(params[0])
    else QueryText(params[..|params| - 1]) + ['&'] + ParamText(params[|params| - 1])
  }

  function Values(params: seq<Param>): Slots {
    if params == [] then map[]
    else Values(params[..|params| - 1])[params[|params| - 1].name := params[|params| - 1].value]
  }

  predicate Writable(params: seq<Param>) {
    && (forall p | p in params :: Known(p.name) && IsBytes(p.value))
    && (forall i, j | 0 <= i < j < |params| :: params[i].name != params[j].name)
  }

  lemma KnownIsBytes(name: string)
    requires Known(name)
    ensures IsBytes(name)
  {
  }

  lemma ParamReadsBack(p: Param)
    requires Known(p.name) && IsBytes(p.value)
    ensures '&' !in ParamText(p) && NameOf(ParamText(p)) == Some(p.name) && ValueOf(ParamText(p)) == Some(p.value)
  {
    hide Decoded, Encoded, IndexOf, Known;
    KnownIsBytes(p.name);
    EncodedAlphabet(p.name);
    EncodedAlphabet(p.value);
    DecodeUndoesEncode(p.name);
    DecodeUndoesEncode(p.value);
    var text, n := ParamText(p), |Encoded(p.name)|;
    assert text[..n] == Encoded(p.name) && text[n + 1..] == Encoded(p.value);
    IndexOfUnique(text, '=', n);
  }

  lemma {:induction false} ValuesHaveTheNames(params: seq<Param>, name: string)
    ensures name in Values(params) <==> exists i | 0 <= i < |params| :: params[i].name == name
  {
    if params != [] {
      var last := |params| - 1;
      ValuesHaveTheNames(params[..last], name);
      if exists i | 0 <= i < |params| :: params[i].name == name {
        var i :| 0 <= i < |params| && params[i].name == name;
        assert i < last ==> params[..last][i].name == name;
      }
    }
  }

  lemma NothingReadsBack()
    ensures SlotsOf(Split("", '&')) == Ok(map[])
  {
    hide Split, SlotsOf, NameOf;
    EmptySlots();
    SplitOne("", '&');
    SlotsOfAppend([], "");
    assert [] + [""] == [""];
    EmptyPieceIsIgnored();
  }

  /** One more parameter whose name is new. */
  lemma OneMoreReadsBack(params: seq<Param>)
    requires Writable(params) && params != []
    requires |params| > 1 ==>
               SlotsOf(Split(QueryText(params[..|params| - 1]), '&')) == Ok(Values(params[..|params| - 1]))
    ensures SlotsOf(Split(QueryText(params), '&')) == Ok(Values(params))
  {
    hide Split, SlotsOf, NameOf, ValueOf, ParamText, Known, IsBytes;
    var last := |params| - 1;
    var before, p := params[..last], params[last];
    assert p in params;
    ParamReadsBack(p);
    ValuesHaveTheNames(before, p.name);
    if last == 0 {
      EmptySlots();
      SplitOne(ParamText(p), '&');
      SlotsOfAppend([], ParamText(p));
      assert [] + [ParamText(p)] == [ParamText(p)];
    } else {
      SplitAppend(QueryText(before), ParamText(p), '&');
      SlotsOfAppend(Split(QueryText(before), '&'), ParamText(p));
    }
  }

  lemma WritablePart(params: seq<Param>)
    requires Writable(params) && params != []
    ensures Writable(params[..|params| - 1])
  {
    assert forall p | p in params[..|params| - 1] :: p in params;
  }

  /** Every list of known parameters that a caller writes percent-encoded is read back with its exact values. */
  lemma {:induction false} ParametersReadBack(params: seq<Param>)
    requires Writable(params)
    ensures SlotsOf(Split(QueryText(params), '&')) == Ok(Values(params))
  {
    hide Split, SlotsOf, Writable;
    if params == [] {
      NothingReadsBack();
    } else {
      WritablePart(params);
      ParametersReadBack(params[..|params| - 1]);
      OneMoreReadsBack(params);
    }
  }

  lemma EmptyPieceIsIgnored()
    ensures NameOf("") == None
  {
  }

  /** How a caller writes a request. */
  function ParamsOf(r: Request): seq<Param> {
    (if r.parent == [] then [] else [Param("parent", Joined(r.parent))])
    + [Param("type", r.kind), Param("q", r.page.q), Param("limit", Decimal(r.page.limit))]
    + (if r.page.after.None? then [] else [Param("after", CursorOf(r.page.after.value))])
  }

  predicate WellFormed(r: Request) {
    && DownTheTree(r.parent, r.kind)
    && |r.page.q| <= 256 && ValidUtf8(r.page.q)
    && 1 <= r.page.limit <= 50
    && (r.page.after.Some? ==> ValidId(r.page.after.value))
  }

  lemma CursorFits(id: string)
    requires ValidId(id)
    ensures IsCursorOf(CursorOf(id), id) && CursorId(CursorOf(id)) == Some(id)
    ensures 0 < |CursorOf(id)| <= MAX_CURSOR_BYTES && IsBytes(CursorOf(id))
  {
    hide CursorText, ValidId, CursorId, CharValue;
    ValidIdIsBytes(id);
    CursorOfId(id);
    IdLength(id);
    CursorIsUnique(CursorText(id), id);
    SpelledIsBytes(CursorText(id));
  }

  lemma IdLength(id: string)
    requires ValidId(id)
    ensures |id| <= 256
  {
  }

  lemma SpelledIsBytes(text: string)
    requires WellSpelled(text, true)
    ensures IsBytes(text)
  {
    assert Body(text, true) == text;
  }

  lemma JoinedIsBytes(chain: seq<Node>)
    requires InTree(chain)
    ensures IsBytes(Joined(chain)) && (chain != [] ==> Joined(chain) != "")
  {
    hide ValidId, Encoded;
    TreeIsShallow(chain);
    if |chain| > 0 {
      EncodedAlphabet(chain[0].id);
      assert BelowThe(chain, 0);
    }
    if |chain| > 1 {
      EncodedAlphabet(chain[1].id);
    }
  }

  lemma DecimalIsBytes(n: nat)
    requires 1 <= n <= 50
    ensures IsBytes(Decimal(n)) && LimitOf(Decimal(n)) == Some(n)
  {
    hide Decimal, Number;
    NumberOfDecimal(n);
  }

  lemma PartsAreBytes(r: Request)
    requires WellFormed(r)
    ensures IsBytes(Joined(r.parent)) && IsBytes(r.kind) && IsBytes(r.page.q) && IsBytes(Decimal(r.page.limit))
    ensures r.page.after.Some? ==> IsBytes(CursorOf(r.page.after.value))
  {
    hide CursorOf, Joined, Decimal, ValidId, InTree, LimitOf, IsBytes, ValidUtf8, Above, CursorId, DownTheTree;
    TreeMeaning(r.parent, r.kind);
    JoinedIsBytes(r.parent);
    DecimalIsBytes(r.page.limit);
    SearchIsBytes(r.page.q);
    KindIsBytes(r.kind);
    if r.page.after.Some? {
      CursorFits(r.page.after.value);
    }
  }

  lemma ParamsWritable(r: Request)
    requires WellFormed(r)
    ensures Writable(ParamsOf(r))
  {
    PartsAreBytes(r);
    ParamNamesDiffer(r);
    hide WellFormed, CursorOf, Joined, Decimal, IsBytes;
    forall p | p in ParamsOf(r) ensures Known(p.name) && IsBytes(p.value) {
    }
  }

  lemma ParamNamesDiffer(r: Request)
    ensures var params := ParamsOf(r); forall i, j | 0 <= i < j < |params| :: params[i].name != params[j].name
  {
    hide CursorOf, Joined, Decimal;
  }

  lemma SearchIsAccepted(q: string)
    requires |q| <= 256 && ValidUtf8(q)
    ensures SearchFits(q)
  {
  }

  lemma SearchIsBytes(q: string)
    requires SearchFits(q)
    ensures IsBytes(q)
  {
    ValidTextIsBytes(q, 0);
  }

  lemma KindIsBytes(kind: string)
    requires Above(kind).Some?
    ensures IsBytes(kind) && kind != ""
  {
  }

  lemma {:induction false} ValueAt(params: seq<Param>, k: nat)
    requires k < |params| && forall i | k < i < |params| :: params[i].name != params[k].name
    ensures OptionAt(Values(params), params[k].name) == Some(params[k].value)
  {
    if k < |params| - 1 {
      ValueAt(params[..|params| - 1], k);
    }
  }

  /** The slots of a written request, one by one. */
  lemma ParamsValues(r: Request)
    requires WellFormed(r)
    ensures var slots := Values(ParamsOf(r));
            && OptionAt(slots, "type") == Some(r.kind)
            && OptionAt(slots, "parent") == (if r.parent == [] then None else Some(Joined(r.parent)))
            && OptionAt(slots, "q") == Some(r.page.q)
            && OptionAt(slots, "limit") == Some(Decimal(r.page.limit))
            && OptionAt(slots, "after") == (if r.page.after.None? then None else Some(CursorOf(r.page.after.value)))
  {
    hide CursorOf, Joined, Decimal, ValidId, InTree, Above, SearchFits, Values;
    var params := ParamsOf(r);
    var k := if r.parent == [] then 0 else 1;
    assert params[k].name == "type" && params[k + 1].name == "q" && params[k + 2].name == "limit";
    if r.parent != [] {
      ValueAt(params, 0);
    } else {
      ValuesHaveTheNames(params, "parent");
    }
    ValueAt(params, k);
    ValueAt(params, k + 1);
    ValueAt(params, k + 2);
    if r.page.after.Some? {
      ValueAt(params, k + 3);
    } else {
      ValuesHaveTheNames(params, "after");
    }
  }

  /** Every well-formed request that a caller writes is accepted and read back as it is: in particular the parent as
      its encoded path, and the cursor of the page before as the id that it names. */
  lemma RequestReadsBack(r: Request)
    requires WellFormed(r)
    ensures ParseOf(QueryText(ParamsOf(r))) == Ok(r)
  {
    hide ValidUtf8, CursorOf, Joined, Decimal, ValidId, InTree, Above, SearchFits, Values, ParamsOf, QueryText,
         SlotsOf, Split, ChainOf, CursorId, LimitOf, DownTheTree;
    TreeMeaning(r.parent, r.kind);
    SearchIsAccepted(r.page.q);
    ParamsWritable(r);
    ParametersReadBack(ParamsOf(r));
    ParamsValues(r);
    DecimalIsBytes(r.page.limit);
    KindIsBytes(r.kind);
    EmptyChain();
    if r.parent != [] {
      JoinedIsBytes(r.parent);
      PathReadsBack(r.parent);
    }
    if r.page.after.Some? {
      CursorFits(r.page.after.value);
    }
  }

  /** Every cursor that a page gives is accepted, and names the last id that the page examined (or its own start, when
      it examined none). */
  lemma EmittedCursorIsAccepted(list: seq<Candidate>, query: Query, vis: string -> bool, end: nat, page: Page)
    requires AllValid(list) && (query.after.Some? ==> ValidId(query.after.value))
    requires PageOf(list, query, vis, end, page) && page.next != ""
    ensures |page.next| <= MAX_CURSOR_BYTES
    ensures CursorId(page.next) == if end > 0 then Some(list[end - 1].id) else query.after
  {
    hide CursorOf, ValidId, Shown, PageBytes, Limit, CursorId;
    if end > 0 {
      CursorFits(list[end - 1].id);
    } else {
      CursorFits(query.after.value);
    }
  }
}
