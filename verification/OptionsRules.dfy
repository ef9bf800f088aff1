/** What the parameters of the options ask for (access_options_parse, src/access_options.cpp), on the parameters
    themselves: a query is accepted exactly when they ask for a request, and refused for the first rule that they
    break. */
module OptionsRules {
  import opened Common
  import opened AccessResource
  import opened Base64
  import opened OptionsPage
  import opened AccessOptions

  /** A path to a host: "host:" and the percent-encoded id. */
  predicate HostPath(text: string, form: string, id: string) {
    text == "host:" + form && '/' !in form && Decoded(form) == Some(id) && ValidId(id)
  }

  predicate Zeros(text: string) {
    forall c | c in text :: c == '0'
  }

  /** A whole number from 1 in at most nine decimal digits; more than fifty is fifty. */
  ghost predicate IsLimit(text: string, limit: nat) {
    |text| <= 9 && exists zeros, n: nat :: Spells(text, zeros, n) && n >= 1 && limit == Min(n, 50)
  }

  predicate Spells(text: string, zeros: string, n: nat) {
    Zeros(zeros) && text == zeros + Decimal(n)
  }

  /** The hosts of the service, or the databases of one host. */
  ghost predicate AsksAbout(slots: Slots, parent: seq<Node>, kind: string) {
    && OptionAt(slots, "type") == Some(kind)
    && if "parent" !in slots then parent == [] && kind == "host"
       else
         && kind == "database"
         && exists form, id :: HostPath(slots["parent"], form, id) && parent == [Node("host", id)]
  }

  ghost predicate AsksForPage(slots: Slots, page: Query) {
    && (if "q" in slots then page.q == slots["q"] && |page.q| <= 256 && ValidUtf8(page.q) else page.q == "")
    && (if "limit" in slots then IsLimit(slots["limit"], page.limit) else page.limit == 50)
    && (if "after" in slots then
          |slots["after"]| <= 512 && page.after.Some? && IsCursorOf(slots["after"], page.after.value)
        else page.after == None)
  }

  // ---- the pieces of a query ----

  /** A piece names a known parameter before its first "=", and has what follows as its value, or nothing. */
  lemma PieceMeaning(form: string, value: string)
    requires '=' !in form
    ensures forall n :: NameOf(form) == Some(n) <==>
              Decoded(form) == Some(n) && n in ["parent", "type", "q", "limit", "after"]
    ensures NameOf(form + "=" + value) == NameOf(form)
    ensures ValueOf(form) == Some("") && ValueOf(form + "=" + value) == Decoded(value)
  {
    hide IndexOf;
    var piece := form + "=" + value;
    assert piece[..|form|] == form && piece[|form| + 1..] == value && form[..|form|] == form;
    IndexOfUnique(piece, '=', |form|);
    IndexOfUnique(form, '=', |form|);
    assert Decoded("") == Some("");
    hide Decoded;
  }

  predicate Repeats(pieces: seq<string>, k: nat)
    requires k < |pieces|
  {
    exists j | 0 <= j < k :: NameOf(pieces[j]) == NameOf(pieces[k])
  }

  /** A piece that is refused: it names a known parameter for the second time, or its value does not decode. */
  predicate BadPiece(pieces: seq<string>, k: nat)
    requires k < |pieces|
  {
    NameOf(pieces[k]).Some? && (Repeats(pieces, k) || ValueOf(pieces[k]).None?)
  }

  function PieceReason(pieces: seq<string>, k: nat): Refusal
    requires k < |pieces| && NameOf(pieces[k]).Some?
  {
    if Repeats(pieces, k) then Repeated(NameOf(pieces[k]).value) else BadEscape(NameOf(pieces[k]).value)
  }

  /** The pieces are refused for the first bad one, and never without one. */
  predicate RefusedAt(pieces: seq<string>, k: nat, error: Refusal) {
    && k < |pieces| && BadPiece(pieces, k) && error == PieceReason(pieces, k)
    && forall j | 0 <= j < k :: !BadPiece(pieces, j)
  }

  lemma {:induction false} RefusedForAPiece(pieces: seq<string>)
    ensures SlotsOf(pieces).Refuse? ==> exists k: nat :: RefusedAt(pieces, k, SlotsOf(pieces).error)
    ensures SlotsOf(pieces).Ok? ==> forall k | 0 <= k < |pieces| :: !BadPiece(pieces, k)
  {
    hide NameOf, ValueOf;
    if pieces != [] {
      var last := |pieces| - 1;
      var before := pieces[..last];
      RefusedForAPiece(before);
      forall k: nat | k < last ensures BadPiece(before, k) <==> BadPiece(pieces, k) {
        SameUpTo(pieces, before, k);
      }
      if SlotsOf(before).Refuse? {
        var k: nat :| RefusedAt(before, k, SlotsOf(before).error);
        SameUpTo(pieces, before, k);
        assert RefusedAt(pieces, k, SlotsOf(pieces).error);
      } else {
        LastIsBad(pieces);
        if BadPiece(pieces, last) {
          assert RefusedAt(pieces, last, SlotsOf(pieces).error);
        }
      }
    }
  }

  lemma SameUpTo(pieces: seq<string>, before: seq<string>, k: nat)
    requires before <= pieces && k < |before|
    ensures Repeats(pieces, k) <==> Repeats(before, k)
    ensures BadPiece(pieces, k) <==> BadPiece(before, k)
    ensures BadPiece(pieces, k) ==> PieceReason(pieces, k) == PieceReason(before, k)
  {
    hide NameOf, ValueOf;
    assert forall j | 0 <= j <= k :: before[j] == pieces[j];
  }

  lemma LastIsBad(pieces: seq<string>)
    requires pieces != [] && SlotsOf(pieces[..|pieces| - 1]).Ok?
    ensures SlotsOf(pieces).Refuse? <==> BadPiece(pieces, |pieces| - 1)
    ensures SlotsOf(pieces).Refuse? ==> SlotsOf(pieces).error == PieceReason(pieces, |pieces| - 1)
  {
    hide NameOf, ValueOf;
    var last := |pieces| - 1;
    var before := pieces[..last];
    SlotsMeaning(before);
    if NameOf(pieces[last]).Some? {
      var name := NameOf(pieces[last]).value;
      if name in SlotsOf(before).value {
        var i :| 0 <= i < |before| && NameOf(before[i]) == Some(name);
        assert NameOf(pieces[i]) == NameOf(pieces[last]);
      } else {
        forall j | 0 <= j < last ensures NameOf(pieces[j]) != NameOf(pieces[last]) {
          assert before[j] == pieces[j];
        }
      }
    }
  }

  // ---- the number of a text ----

  lemma {:induction false} ZerosAreNothing(zeros: string, text: string)
    requires Zeros(zeros)
    ensures Number(zeros + text) == Number(text)
  {
    if text != "" {
      var last := |text| - 1;
      assert (zeros + text)[..|zeros + text| - 1] == zeros + text[..last];
      ZerosAreNothing(zeros, text[..last]);
    } else {
      assert zeros + text == zeros;
      NumberOfZeros(zeros);
    }
  }

  lemma {:induction false} NumberOfZeros(zeros: string)
    requires Zeros(zeros)
    ensures Number(zeros) == 0
  {
    if zeros != "" {
      var front := zeros[..|zeros| - 1];
      forall c | c in front ensures c == '0' {
        assert c in zeros;
      }
      assert zeros[|zeros| - 1] in zeros;
      NumberOfZeros(front);
    }
  }

  lemma DigitOfDecimal(n: nat, d: nat)
    requires n >= 1 && d < 10
    ensures Decimal(n * 10 + d) == Decimal(n) + [('0' as int + d) as char]
  {
  }

  lemma OneMoreDigit(front: string, zeros: string, n: nat, d: nat) returns (more: string)
    requires Spells(front, zeros, n) && d < 10
    ensures Spells(front + [('0' as int + d) as char], more, n * 10 + d)
  {
    if n >= 1 {
      DigitOfDecimal(n, d);
      hide Decimal;
      more := zeros;
      ConcatAssociative(zeros, Decimal(n), [('0' as int + d) as char]);
    } else {
      assert Decimal(0) == "0" && Decimal(d) == [('0' as int + d) as char];
      more := front;
    }
  }

  /** Every text of digits is the decimal form of its number, after zeros. */
  lemma {:induction false} DigitsAreDecimal(text: string) returns (zeros: string)
    requires Digits(text) && text != ""
    ensures Spells(text, zeros, Number(text))
  {
    hide Spells, Decimal;
    var last := |text| - 1;
    var front, c := text[..last], text[last];
    assert c in text && text == front + [c];
    var d := c as int - '0' as int;
    if front == "" {
      zeros := OneDigit(d);
    } else {
      forall e | e in front ensures e in text {
      }
      var before := DigitsAreDecimal(front);
      zeros := OneMoreDigit(front, before, Number(front), d);
    }
  }

  lemma OneDigit(d: nat) returns (zeros: string)
    requires d < 10
    ensures Spells([('0' as int + d) as char], zeros, d)
  {
    zeros := "";
  }

  lemma LimitMeaning(text: string)
    ensures forall limit: nat :: LimitOf(text) == Some(limit) <==> IsLimit(text, limit)
  {
    hide Decimal, Number;
    forall zeros, n: nat | Spells(text, zeros, n) ensures Digits(text) && Number(text) == n && text != "" {
      NumberOfDecimal(n);
      ZerosAreNothing(zeros, Decimal(n));
    }
    if text != "" && Digits(text) {
      var zeros := DigitsAreDecimal(text);
    }
  }

  // ---- the path of the parent ----

  lemma {:induction false} OneNodeEach(segments: seq<string>)
    requires ChainOf(segments).Ok?
    ensures |ChainOf(segments).value| == |segments|
  {
    hide NodeOf;
    if segments != [] {
      OneNodeEach(segments[..|segments| - 1]);
    }
  }

  lemma OnePiece(text: string, sep: char)
    requires |Split(text, sep)| == 1
    ensures sep !in text && Split(text, sep) == [text]
  {
    assert text[..|text|] == text;
  }

  lemma HostNode(text: string)
    ensures forall n :: NodeOf(text, "service") == Ok(n) <==>
              exists form, id ::
                n == Node("host", id) && text == "host:" + form && Decoded(form) == Some(id) && ValidId(id)
  {
    hide ValidId, Decoded, IndexOf;
    var colon := IndexOf(text, ':');
    if colon < |text| {
      assert text == text[..colon] + [':'] + text[colon + 1..];
    }
    forall form | text == "host:" + form ensures colon == 4 && text[..4] == "host" && text[5..] == form {
      assert text[..4] == "host";
      IndexOfUnique(text, ':', 4);
    }
    forall n | NodeOf(text, "service") == Ok(n) ensures text == "host:" + text[5..] && n.kind == "host" {
      assert text[..colon] + [':'] == "host:";
    }
  }

  /** A path of one host. */
  lemma OneHost(text: string, parent: seq<Node>)
    requires ChainOf(Split(text, '/')) == Ok(parent) && |parent| == 1
    ensures exists form, id :: HostPath(text, form, id) && parent == [Node("host", id)]
  {
    hide ValidId, Decoded, IndexOf, Split, NodeOf;
    OneNodeEach(Split(text, '/'));
    OnePiece(text, '/');
    EmptyChain();
    assert [text][..0] == [];
    HostNode(text);
    var form, id :| parent[0] == Node("host", id) && text == "host:" + form && Decoded(form) == Some(id) && ValidId(id);
    assert forall c | c in form :: c in text;
    assert HostPath(text, form, id);
  }

  lemma HostIsRead(text: string, form: string, id: string)
    requires HostPath(text, form, id)
    ensures ChainOf(Split(text, '/')) == Ok([Node("host", id)])
  {
    hide ValidId, Decoded, IndexOf, Split, NodeOf;
    SplitOne(text, '/');
    EmptyChain();
    HostNode(text);
    assert NodeOf(text, "service") == Ok(Node("host", id));
    ChainOfAppend([], text);
    assert KindBelow([]) == "service" && [] + [text] == [text];
    assert [] + [Node("host", id)] == [Node("host", id)];
  }

  /** A path that is accepted and has a child type is the path of a host. */
  lemma ParentMeaning(text: string, parent: seq<Node>, kind: string)
    ensures ChainOf(Split(text, '/')) == Ok(parent) && Above(kind) == Some(KindBelow(parent)) <==>
              kind == "database" && exists form, id :: HostPath(text, form, id) && parent == [Node("host", id)]
  {
    hide ValidId, Decoded, Split, ChainOf, HostPath;
    var segments := Split(text, '/');
    if ChainOf(segments) == Ok(parent) && Above(kind) == Some(KindBelow(parent)) {
      AcceptedChainInTree(segments);
      TreeMeaning(parent, kind);
      OneNodeEach(segments);
      OneHost(text, parent);
    }
    forall form, id | HostPath(text, form, id) ensures ChainOf(segments) == Ok([Node("host", id)]) {
      HostIsRead(text, form, id);
    }
  }

  // ---- the whole query ----

  lemma AboutMeaning(slots: Slots, parent: seq<Node>, kind: string)
    ensures AsksAbout(slots, parent, kind) <==>
              && OptionAt(slots, "type") == Some(kind)
              && (if "parent" in slots then ChainOf(Split(slots["parent"], '/')) == Ok(parent) else parent == [])
              && Above(kind) == Some(KindBelow(parent))
  {
    hide HostPath, ChainOf, Split;
    if "parent" in slots {
      ParentMeaning(slots["parent"], parent, kind);
    }
  }

  lemma PageMeaning(slots: Slots, page: Query)
    ensures AsksForPage(slots, page) <==>
              && page.q == (if "q" in slots then slots["q"] else "")
              && ("q" in slots ==> SearchFits(slots["q"]))
              && (if "limit" in slots then LimitOf(slots["limit"]) == Some(page.limit) else page.limit == MAX_ITEMS)
              && (if "after" in slots then
                    |slots["after"]| <= MAX_CURSOR_BYTES && page.after.Some? && CursorId(slots["after"]) == page.after
                  else page.after == None)
  {
    hide ValidUtf8, LimitOf, IsLimit, IsCursorOf;
    if "limit" in slots {
      LimitMeaning(slots["limit"]);
    }
    if "after" in slots && page.after.Some? {
      CursorMeaning(slots["after"], page.after.value);
    }
  }

  lemma CursorMeaning(text: string, id: string)
    ensures CursorId(text) == Some(id) <==> IsCursorOf(text, id)
  {
    hide IsCursorOf;
    if IsCursorOf(text, id) {
      CursorIsUnique(text, id);
    }
  }

  /** A path of the parent is not empty. */
  lemma PathIsSome(slots: Slots, parent: seq<Node>, kind: string)
    requires AsksAbout(slots, parent, kind)
    ensures kind != "" && OptionAt(slots, "parent") != Some("")
  {
    hide Decoded, ValidId;
  }

  /** A query is accepted exactly when its parameters ask for the request: about the hosts, or about the databases of a
      host, with the search text, the limit and the cursor that they say, or none of them and fifty. */
  lemma AcceptedExactly(raw: string, r: Request)
    ensures ParseOf(raw) == Ok(r) <==>
              && SlotsOf(Split(raw, '&')).Ok?
              && AsksAbout(SlotsOf(Split(raw, '&')).value, r.parent, r.kind)
              && AsksForPage(SlotsOf(Split(raw, '&')).value, r.page)
  {
    hide SlotsOf, Split, ChainOf, AsksAbout, AsksForPage, SearchFits, LimitOf, CursorId, Above;
    var slots := SlotsOf(Split(raw, '&'));
    if slots.Ok? {
      AboutMeaning(slots.value, r.parent, r.kind);
      PageMeaning(slots.value, r.page);
      if AsksAbout(slots.value, r.parent, r.kind) {
        PathIsSome(slots.value, r.parent, r.kind);
      }
    }
  }

  // ---- the refusals ----

  /** What the parameters must keep, in their order. */
  ghost predicate KeepsRule(slots: Slots, k: nat) {
    match k
    case 0 => "type" in slots && slots["type"] != ""
    case 1 => "parent" in slots ==> slots["parent"] != ""
    case 2 => "parent" in slots ==> ChainOf(Split(slots["parent"], '/')).Ok?
    case 3 => exists parent, kind :: AsksAbout(slots, parent, kind)
    case 4 => "q" in slots ==> |slots["q"]| <= 256 && ValidUtf8(slots["q"])
    case 5 => "limit" in slots ==> exists limit: nat :: IsLimit(slots["limit"], limit)
    case 6 => "after" in slots ==> |slots["after"]| <= 512 && exists id :: IsCursorOf(slots["after"], id)
    case _ => true
  }

  function ReasonOf(slots: Slots, k: nat): Refusal {
    match k
    case 0 => TypeRequired
    case 1 => ParentEmpty
    case 2 =>
      var chain := if "parent" in slots then ChainOf(Split(slots["parent"], '/')) else Ok([]);
      if chain.Refuse? then chain.error else ParentSegment
    case 3 => TypeNotChild
    case 4 => BadSearch
    case 5 => BadLimit
    case _ => BadCursor
  }

  ghost predicate FirstBroken(slots: Slots, k: nat) {
    k < 7 && !KeepsRule(slots, k) && forall j: nat | j < k :: KeepsRule(slots, j)
  }

  lemma RulesAre(slots: Slots)
    ensures KeepsRule(slots, 0) && KeepsRule(slots, 1) && KeepsRule(slots, 2) ==>
              (KeepsRule(slots, 3) <==>
                 var chain := if "parent" in slots then ChainOf(Split(slots["parent"], '/')).value else [];
                 Above(slots["type"]) == Some(KindBelow(chain)))
    ensures KeepsRule(slots, 4) <==> ("q" in slots ==> SearchFits(slots["q"]))
    ensures KeepsRule(slots, 5) <==> ("limit" in slots ==> LimitOf(slots["limit"]).Some?)
    ensures KeepsRule(slots, 6) <==>
              ("after" in slots ==> |slots["after"]| <= MAX_CURSOR_BYTES && CursorId(slots["after"]).Some?)
  {
    hide ValidUtf8, LimitOf, IsLimit, IsCursorOf, ChainOf, Split, AsksAbout, Above;
    if "limit" in slots {
      LimitMeaning(slots["limit"]);
    }
    forall parent, kind ensures AsksAbout(slots, parent, kind) <==>
        && OptionAt(slots, "type") == Some(kind)
        && (if "parent" in slots then ChainOf(Split(slots["parent"], '/')) == Ok(parent) else parent == [])
        && Above(kind) == Some(KindBelow(parent))
    {
      AboutMeaning(slots, parent, kind);
    }
  }

  /** A query whose parameters could be read is refused for the first rule that they break. */
  lemma RefusedForTheFirst(raw: string)
    requires SlotsOf(Split(raw, '&')).Ok? && ParseOf(raw).Refuse?
    ensures var slots := SlotsOf(Split(raw, '&')).value;
            exists k: nat :: FirstBroken(slots, k) && ParseOf(raw).error == ReasonOf(slots, k)
  {
    hide KeepsRule, SlotsOf, Split, RequestOf, ReasonOf;
    var slots := SlotsOf(Split(raw, '&')).value;
    var k := FirstOf(slots);
    if k < 4 {
      RefusedAbout(slots, k);
    } else {
      RefusedPage(slots, k);
    }
  }

  lemma RefusedAbout(slots: Slots, k: nat)
    requires k < 4 && FirstBroken(slots, k)
    ensures RequestOf(slots) == Refuse(ReasonOf(slots, k))
  {
    RulesAre(slots);
    FirstThree(slots);
    assert k > 0 ==> KeepsRule(slots, 0);
    assert k > 1 ==> KeepsRule(slots, 1);
    assert k > 2 ==> KeepsRule(slots, 2);
    hide KeepsRule, Split, ChainOf, SearchFits, LimitOf, CursorId, Above, AsksAbout;
    assert k == 0 || k == 1 || k == 2 || k == 3;
  }

  /** The branches of the parser once the parent and the type are good. */
  lemma PageBranches(slots: Slots)
    requires KeepsRule(slots, 0) && KeepsRule(slots, 1) && KeepsRule(slots, 2) && KeepsRule(slots, 3)
    ensures var result := RequestOf(slots);
            if !KeepsRule(slots, 4) then result == Refuse(BadSearch)
            else if !KeepsRule(slots, 5) then result == Refuse(BadLimit)
            else if !KeepsRule(slots, 6) then result == Refuse(BadCursor)
            else result.Ok?
  {
    RulesAre(slots);
    FirstThree(slots);
    hide KeepsRule, Split, ChainOf, SearchFits, LimitOf, CursorId, Above;
  }

  lemma RefusedPage(slots: Slots, k: nat)
    requires 4 <= k <= 7 && (k < 7 ==> FirstBroken(slots, k)) && forall j: nat | j < k :: KeepsRule(slots, j)
    ensures k < 7 ==> RequestOf(slots) == Refuse(ReasonOf(slots, k))
    ensures k == 7 ==> RequestOf(slots).Ok?
  {
    hide KeepsRule, RequestOf, Split, ChainOf;
    assert KeepsRule(slots, 0) && KeepsRule(slots, 1) && KeepsRule(slots, 2) && KeepsRule(slots, 3);
    assert k > 4 ==> KeepsRule(slots, 4);
    assert k > 5 ==> KeepsRule(slots, 5);
    assert k > 6 ==> KeepsRule(slots, 6);
    PageBranches(slots);
    assert k == 4 || k == 5 || k == 6 || k == 7;
  }

  lemma FirstThree(slots: Slots)
    ensures KeepsRule(slots, 0) <==> OptionAt(slots, "type").Some? && slots["type"] != ""
    ensures KeepsRule(slots, 1) <==> OptionAt(slots, "parent") != Some("")
    ensures KeepsRule(slots, 2) <==> ("parent" in slots ==> ChainOf(Split(slots["parent"], '/')).Ok?)
  {
    hide Split, ChainOf;
  }

  lemma FirstOf(slots: Slots) returns (k: nat)
    ensures k <= 7 && (k < 7 ==> FirstBroken(slots, k)) && (k == 7 ==> forall j: nat | j < 7 :: KeepsRule(slots, j))
  {
    hide KeepsRule;
    k := 0;
    while k < 7 && KeepsRule(slots, k)
      invariant k <= 7 && forall j: nat | j < k :: KeepsRule(slots, j)
    {
      k := k + 1;
    }
  }

  /** Why a segment of the path is refused: no colon; a type before the first colon that is not the child; or an id
      that does not decode to a valid one. */
  lemma SegmentRefusals(segment: string, above: string)
    ensures NodeOf(segment, above) == Refuse(ParentSegment) <==> ':' !in segment
    ensures NodeOf(segment, above) == Refuse(ParentType) <==>
              ':' in segment && Above(segment[..IndexOf(segment, ':')]) != Some(above)
    ensures NodeOf(segment, above).Refuse? ==> NodeOf(segment, above).error in {ParentSegment, ParentType, ParentId}
  {
    hide Above, Decoded, ValidId, IndexOf;
  }
}
