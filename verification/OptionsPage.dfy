/** One page of the options and the chain of pages that the cursors make (access_options_page,
    src/access_options.cpp). */
module OptionsPage {
  import opened Common
  import opened AccessResource
  import opened OptionsOrder
  import opened Base64

  const MAX_ITEMS := 50
  const MAX_BYTES := 61440
  const MAX_QUESTIONS := 200

  datatype Candidate = Candidate(id: string, caption: string)
  datatype Item = Item(id: string, caption: string)
  datatype Query = Query(q: string, limit: nat, after: Option<string>)
  datatype Page = Page(items: seq<Item>, next: string, failed: bool, questions: nat)

  // ---- the list of a query ----

  predicate Ascending(list: seq<Candidate>) {
    forall i, j | 0 <= i < j < |list| :: Less(list[i].id, list[j].id)
  }

  /** Sorted as std::sort leaves it: nothing comes before an element to its left. */
  predicate Sorted(list: seq<Candidate>) {
    forall i, j | 0 <= i < j < |list| :: !Less(list[j].id, list[i].id)
  }

  function Inserted(list: seq<Candidate>, c: Candidate): seq<Candidate> {
    if list == [] || !Less(c.id, list[|list| - 1].id) then list + [c]
    else Inserted(list[..|list| - 1], c) + [list[|list| - 1]]
  }

  /** A sorted arrangement of the candidates. */
  function Arranged(candidates: seq<Candidate>): seq<Candidate> {
    if candidates == [] then []
    else Inserted(Arranged(candidates[..|candidates| - 1]), candidates[|candidates| - 1])
  }

  /** The first of each run of equal ids. */
  function Uniqued(list: seq<Candidate>): seq<Candidate> {
    if |list| <= 1 then list
    else
      var last := |list| - 1;
      Uniqued(list[..last]) + (if list[last].id == list[last - 1].id then [] else [list[last]])
  }

  predicate OccursAt(text: string, needle: string, i: int) {
    0 <= i <= |text| - |needle| && text[i..i + |needle|] == needle
  }

  predicate Contains(text: string, needle: string) {
    exists i | 0 <= i <= |text| :: OccursAt(text, needle, i)
  }

  predicate Matches(needle: string, c: Candidate) {
    needle == "" || Contains(Lower(c.id), needle) || Contains(Lower(c.caption), needle)
  }

  /** The text has the search text at this place, in any case of the ASCII letters. */
  predicate FoundAt(text: string, q: string, i: nat) {
    i + |q| <= |text| && SameLetters(text[i..i + |q|], q)
  }

  /** The search text is somewhere in the id or in the caption, in any case of the ASCII letters. */
  ghost predicate Finds(q: string, c: Candidate) {
    || q == ""
    || (exists i: nat :: FoundAt(c.id, q, i))
    || (exists i: nat :: FoundAt(c.caption, q, i))
  }

  lemma ContainsIgnoresCase(text: string, q: string)
    ensures Contains(Lower(text), Lower(q)) <==> exists i: nat :: FoundAt(text, q, i)
  {
    if Contains(Lower(text), Lower(q)) {
      var i :| 0 <= i <= |Lower(text)| && OccursAt(Lower(text), Lower(q), i);
      LowerOfPart(text, q, i);
      assert FoundAt(text, q, i);
    }
    if i: nat :| FoundAt(text, q, i) {
      LowerOfPart(text, q, i);
      assert OccursAt(Lower(text), Lower(q), i);
    }
  }

  lemma LowerOfPart(text: string, q: string, i: nat)
    requires i + |q| <= |text|
    ensures Lower(text)[i..i + |q|] == Lower(q) <==> SameLetters(text[i..i + |q|], q)
  {
    LowerMeaning(text[i..i + |q|], q);
    assert Lower(text[i..i + |q|]) == Lower(text)[i..i + |q|];
  }

  lemma SearchIgnoresCase(q: string, c: Candidate)
    ensures Matches(Lower(q), c) <==> Finds(q, c)
  {
    ContainsIgnoresCase(c.id, q);
    ContainsIgnoresCase(c.caption, q);
    hide Contains, FoundAt;
  }

  function ValidCandidate(): Candidate -> bool {
    (c: Candidate) => ValidId(c.id)
  }

  function MatchesSearch(q: string): Candidate -> bool {
    (c: Candidate) => Matches(Lower(q), c)
  }

  function IsAfter(after: Option<string>): Candidate -> bool {
    (c: Candidate) => after.None? || Less(after.value, c.id)
  }

  /** The candidates that a query without a cursor goes through: valid, sorted, each id once, with the search text. */
  function FullList(candidates: seq<Candidate>, q: string): seq<Candidate> {
    Filter(Uniqued(Arranged(Filter(candidates, ValidCandidate()))), MatchesSearch(q))
  }

  /** The candidates of one page. */
  function ListAfter(candidates: seq<Candidate>, q: string, after: Option<string>): seq<Candidate> {
    Filter(FullList(candidates, q), IsAfter(after))
  }

  lemma {:induction false} InsertedMembers(list: seq<Candidate>, c: Candidate)
    ensures |Inserted(list, c)| == |list| + 1
    ensures forall d :: d in Inserted(list, c) <==> d in list || d == c
  {
    hide Less;
    if list != [] && Less(c.id, list[|list| - 1].id) {
      InsertedMembers(list[..|list| - 1], c);
      assert list == list[..|list| - 1] + [list[|list| - 1]];
    }
  }

  lemma SortedAppend(list: seq<Candidate>, c: Candidate)
    requires Sorted(list) && forall d | d in list :: !Less(c.id, d.id)
    ensures Sorted(list + [c])
  {
    hide Less;
    assert forall k | 0 <= k < |list| :: list[k] in list;
  }

  /** Nothing before the last element of a sorted list is above something that the last one is not above. */
  lemma LastIsHighest(list: seq<Candidate>, c: Candidate)
    requires Sorted(list) && list != [] && !Less(c.id, list[|list| - 1].id)
    ensures forall d | d in list :: !Less(c.id, d.id)
  {
    hide Less;
    var last := list[|list| - 1];
    forall d | d in list ensures !Less(c.id, d.id) {
      var k :| 0 <= k < |list| && list[k] == d;
      LessIsStrictTotal(c.id, d.id, last.id);
      LessIsStrictTotal(d.id, last.id, c.id);
      LessIsStrictTotal(last.id, d.id, c.id);
    }
  }

  lemma {:induction false} InsertedSorted(list: seq<Candidate>, c: Candidate)
    requires Sorted(list)
    ensures Sorted(Inserted(list, c))
  {
    hide Less;
    if list != [] && Less(c.id, list[|list| - 1].id) {
      var last := list[|list| - 1];
      var front := list[..|list| - 1];
      InsertedSorted(front, c);
      InsertedMembers(front, c);
      LessIsStrictTotal(c.id, last.id, c.id);
      assert forall d | d in front :: !Less(last.id, d.id);
      SortedAppend(Inserted(front, c), last);
    } else if list != [] {
      LastIsHighest(list, c);
      SortedAppend(list, c);
    }
  }

  lemma {:induction false} ArrangedSorted(candidates: seq<Candidate>)
    ensures Sorted(Arranged(candidates)) && |Arranged(candidates)| == |candidates|
    ensures forall d :: d in Arranged(candidates) <==> d in candidates
  {
    hide Inserted;
    if candidates != [] {
      var last := |candidates| - 1;
      ArrangedSorted(candidates[..last]);
      InsertedSorted(Arranged(candidates[..last]), candidates[last]);
      InsertedMembers(Arranged(candidates[..last]), candidates[last]);
      assert candidates == candidates[..last] + [candidates[last]];
    }
  }

  lemma AscendingAppend(list: seq<Candidate>, c: Candidate)
    requires Ascending(list) && (list != [] ==> Less(list[|list| - 1].id, c.id))
    ensures Ascending(list + [c])
  {
    hide Less;
    forall k | 0 <= k < |list| ensures Less(list[k].id, c.id) {
      LessIsStrictTotal(list[k].id, list[|list| - 1].id, c.id);
    }
  }

  /** Equal ids are neighbours in a sorted list, so each id is left once. */
  lemma {:induction false} UniquedAscending(list: seq<Candidate>)
    requires Sorted(list)
    ensures Ascending(Uniqued(list))
    ensures list != [] ==> Uniqued(list) != [] && Uniqued(list)[|Uniqued(list)| - 1].id == list[|list| - 1].id
  {
    hide Less;
    if |list| > 1 {
      var last := |list| - 1;
      UniquedAscending(list[..last]);
      if list[last].id != list[last - 1].id {
        LessIsStrictTotal(list[last - 1].id, list[last].id, list[last].id);
        AscendingAppend(Uniqued(list[..last]), list[last]);
      }
    }
  }

  lemma {:induction false} UniquedMembers(list: seq<Candidate>)
    ensures forall c | c in Uniqued(list) :: c in list
    ensures forall c | c in list :: HasId(Uniqued(list), c.id)
  {
    if |list| > 1 {
      var last := |list| - 1;
      var front, kept := list[..last], Uniqued(list[..last]);
      UniquedMembers(front);
      assert list == front + [list[last]];
      if list[last].id == list[last - 1].id {
        assert front[last - 1] in front;
      } else {
        forall c | c in list ensures HasId(kept + [list[last]], c.id) {
          HasIdAppend(kept, list[last], c.id);
        }
      }
    }
  }

  predicate HasId(list: seq<Candidate>, id: string) {
    exists c | c in list :: c.id == id
  }

  lemma HasIdAppend(list: seq<Candidate>, c: Candidate, id: string)
    ensures HasId(list + [c], id) <==> HasId(list, id) || c.id == id
  {
    if HasId(list, id) {
      var d :| d in list && d.id == id;
      assert d in list + [c];
    }
    assert c in list + [c];
  }

  lemma {:induction false} FilterAscending(list: seq<Candidate>, keep: Candidate -> bool)
    requires Ascending(list)
    ensures Ascending(Filter(list, keep))
  {
    hide Less;
    if list != [] {
      var last := |list| - 1;
      FilterAscending(list[..last], keep);
      FilterMembers(list[..last], keep);
      var kept := Filter(list[..last], keep);
      assert forall k | 0 <= k < |kept| :: kept[k] in list[..last];
    }
  }

  /** The ids, each of a candidate: the valid ones, each once, in the order. */
  lemma UniqueListMeaning(candidates: seq<Candidate>)
    ensures var unique := Uniqued(Arranged(Filter(candidates, ValidCandidate())));
            && Ascending(unique)
            && (forall c | c in unique :: c in candidates && ValidId(c.id))
            && (forall c | c in candidates && ValidId(c.id) :: HasId(unique, c.id))
  {
    hide Less, ValidId, Uniqued, HasId;
    var valid := Filter(candidates, ValidCandidate());
    FilterMembers(candidates, ValidCandidate());
    ArrangedSorted(valid);
    UniquedAscending(Arranged(valid));
    UniquedMembers(Arranged(valid));
  }

  /** What a query goes through: candidates with a valid id, each id once, in the order. Without a search text it is
      every valid id; with one, and with one candidate for each id, it is exactly the candidates that hold the text in
      any case of its letters. */
  lemma FullListMeaning(candidates: seq<Candidate>, q: string)
    ensures var list := FullList(candidates, q);
            && Ascending(list)
            && (forall c | c in list :: c in candidates && ValidId(c.id) && Finds(q, c))
            && (q == "" ==> forall c | c in candidates && ValidId(c.id) :: HasId(list, c.id))
            && ((forall c, d | c in candidates && d in candidates && c.id == d.id :: c == d) ==>
                  forall c | c in candidates && ValidId(c.id) && Finds(q, c) :: c in list)
  {
    hide Less, ValidId, Matches, Finds, Uniqued, HasId, Filter;
    forall c: Candidate ensures Matches(Lower(q), c) <==> Finds(q, c) {
      SearchIgnoresCase(q, c);
    }
    UniqueListMeaning(candidates);
    var unique := Uniqued(Arranged(Filter(candidates, ValidCandidate())));
    FilterAscending(unique, MatchesSearch(q));
    FilterMembers(unique, MatchesSearch(q));
    if q == "" {
      EmptySearch(unique);
    }
    if forall c, d | c in candidates && d in candidates && c.id == d.id :: c == d {
      forall c | c in candidates && ValidId(c.id) ensures c in unique {
        SameCandidate(candidates, unique, c);
      }
    }
  }

  lemma SameCandidate(candidates: seq<Candidate>, unique: seq<Candidate>, c: Candidate)
    requires forall d, e | d in candidates && e in candidates && d.id == e.id :: d == e
    requires (forall d | d in unique :: d in candidates) && c in candidates && HasId(unique, c.id)
    ensures c in unique
  {
    var d :| d in unique && d.id == c.id;
    assert d == c;
  }

  lemma EmptySearch(list: seq<Candidate>)
    ensures Filter(list, MatchesSearch("")) == list
  {
    hide Contains;
    assert Lower("") == "";
    FilterAll(list, MatchesSearch(""));
  }

  lemma UpToIsNotAfter(list: seq<Candidate>, k: nat)
    requires Ascending(list) && k < |list|
    ensures forall c | c in list[..k + 1] :: !Less(list[k].id, c.id)
    ensures forall c | c in list[k + 1..] :: Less(list[k].id, c.id)
  {
    hide Less;
    forall c | c in list[..k + 1] ensures !Less(list[k].id, c.id) {
      var i :| 0 <= i <= k && list[i] == c;
      LessIsStrictTotal(list[k].id, c.id, c.id);
    }
  }

  /** After the id of an element of an ascending list comes the rest of the list. */
  lemma AfterIsTheRest(list: seq<Candidate>, k: nat)
    requires Ascending(list) && k < |list|
    ensures Filter(list, IsAfter(Some(list[k].id))) == list[k + 1..]
  {
    hide Less, Filter, Ascending;
    var keep := IsAfter(Some(list[k].id));
    UpToIsNotAfter(list, k);
    FilterConcat(list[..k + 1], list[k + 1..], keep);
    FilterNothing(list[..k + 1], keep);
    FilterAll(list[k + 1..], keep);
    assert list == list[..k + 1] + list[k + 1..];
    assert [] + list[k + 1..] == list[k + 1..];
  }

  lemma {:induction false} FilterNothing(list: seq<Candidate>, keep: Candidate -> bool)
    requires forall c | c in list :: !keep(c)
    ensures Filter(list, keep) == []
  {
    if list != [] {
      FilterNothing(list[..|list| - 1], keep);
    }
  }

  // ---- one page ----

  /** The label of an item: the cut label, or the cut id when there is none. */
  function ItemOf(c: Candidate): Item {
    Item(c.id, if Label(c.caption) == "" then Label(c.id) else Label(c.caption))
  }

  /** The bytes that the page accounts for an item. */
  function ItemBytes(item: Item): nat {
    48 + 6 * (|item.id| + |item.caption|)
  }

  function PageBytes(items: seq<Item>): nat {
    if items == [] then 32 else PageBytes(items[..|items| - 1]) + ItemBytes(items[|items| - 1])
  }

  /** The items of the candidates that the subject can see. */
  function Shown(list: seq<Candidate>, vis: string -> bool): seq<Item> {
    if list == [] then []
    else
      var last := list[|list| - 1];
      Shown(list[..|list| - 1], vis) + (if vis(last.id) then [ItemOf(last)] else [])
  }

  lemma {:induction false} ShownConcat(a: seq<Candidate>, b: seq<Candidate>, vis: string -> bool)
    ensures Shown(a + b, vis) == Shown(a, vis) + Shown(b, vis)
  {
    hide ItemOf;
    if b == [] {
      assert a + b == a;
    } else {
      var last := |b| - 1;
      ShownConcat(a, b[..last], vis);
      assert (a + b)[..|a| + last] == a + b[..last];
    }
  }

  function Ids(list: seq<Candidate>): seq<string> {
    seq(|list|, i requires 0 <= i < |list| => list[i].id)
  }

  function Visible(ids: seq<string>, vis: string -> bool): seq<bool> {
    seq(|ids|, i requires 0 <= i < |ids| => vis(ids[i]))
  }

  predicate AllValid(list: seq<Candidate>) {
    forall c | c in list :: ValidId(c.id)
  }

  function Limit(q: Query): (l: nat)
    ensures 1 <= l <= 50
  {
    Max(1, Min(q.limit, MAX_ITEMS))
  }

  /** The cursor of an id (a text of bytes, which every valid id is). */
  function CursorOf(id: string): string {
    if IsBytes(id) then CursorText(id) else ""
  }

  function NextCursor(list: seq<Candidate>, end: nat, after: Option<string>): string
    requires end <= |list|
  {
    if 0 < end < |list| then CursorOf(list[end - 1].id)
    else if end == 0 && list != [] && after.Some? then CursorOf(after.value)
    else ""
  }

  /** What a page holds that examined the first `end` candidates of its list: exactly the visible ones among them,
      within the three bounds, with the cursor of the last examined one while some are left. */
  predicate PageOf(list: seq<Candidate>, query: Query, vis: string -> bool, end: nat, page: Page) {
    && !page.failed
    && end <= |list|
    && page.items == Shown(list[..end], vis)
    && |page.items| <= Limit(query)
    && page.questions <= MAX_QUESTIONS
    && PageBytes(page.items) <= MAX_BYTES
    && page.next == NextCursor(list, end, query.after)
  }

  predicate StopsForABound(list: seq<Candidate>, query: Query, perId: nat, vis: string -> bool, end: nat, page: Page) {
    end < |list| ==>
      || |page.items| == Limit(query)
      || page.questions + perId > MAX_QUESTIONS
      || (vis(list[end].id) && PageBytes(page.items) + ItemBytes(ItemOf(list[end])) > MAX_BYTES)
  }

  /** The texts of the items, one after the other. */
  function AllTexts(items: seq<Item>): string {
    if items == [] then ""
    else AllTexts(items[..|items| - 1]) + items[|items| - 1].id + items[|items| - 1].caption
  }

  /** The size of a page: 32 bytes, 48 for each item and 6 for each byte of a text, which may need an escape. */
  function PageSize(items: seq<Item>): nat {
    32 + 48 * |items| + 6 * |AllTexts(items)|
  }

  /** At least one item and at most fifty, or what the query asks for in between. */
  predicate IsRoom(limit: nat, room: nat) {
    1 <= room <= 50 && (1 <= limit <= 50 ==> room == limit) && (limit > 50 ==> room == 50) && (limit == 0 ==> room == 1)
  }

  /** The three bounds of a page, and that it stops before the end of its list for one of them only. */
  ghost predicate PageBounds(list: seq<Candidate>, query: Query, perId: nat, vis: string -> bool, end: nat, page: Page)
  {
    exists room :: IsRoom(query.limit, room) && end <= |list|
      && |page.items| <= room && page.questions <= 200 && PageSize(page.items) <= 61440
      && (end < |list| ==>
            || |page.items| == room
            || page.questions + Max(1, perId) > 200
            || (vis(list[end].id) && PageSize(page.items + [ItemOf(list[end])]) > 61440))
  }

  /** The items of a page: for each visible candidate its id with its caption, or with its id where the caption makes
      no label; and never an empty label. */
  predicate IsItemOf(item: Item, c: Candidate) {
    && item.id == c.id && item.caption != ""
    && (if c.caption == "" || !ValidUtf8(c.caption) then item.caption == Label(c.id)
        else item.caption == Label(c.caption))
  }

  lemma {:induction false} PageBytesAre(items: seq<Item>)
    ensures PageBytes(items) == PageSize(items)
  {
    if items != [] {
      PageBytesAre(items[..|items| - 1]);
    }
  }

  lemma ItemOfMeaning(c: Candidate)
    requires ValidId(c.id)
    ensures IsItemOf(ItemOf(c), c)
  {
    hide Label;
    LabelMeaning(c.id);
    LabelMeaning(c.caption);
  }

  lemma BoundsOfThePage(list: seq<Candidate>, query: Query, perId: nat, vis: string -> bool, end: nat, page: Page)
    requires PageOf(list, query, vis, end, page)
    requires StopsForABound(list, query, Max(1, perId), vis, end, page)
    ensures PageBounds(list, query, perId, vis, end, page)
  {
    hide ItemOf, ItemBytes, Shown, NextCursor, PageSize;
    PageBytesAre(page.items);
    if end < |list| {
      var more := page.items + [ItemOf(list[end])];
      PageBytesAre(more);
      assert more[..|page.items|] == page.items;
    }
    assert IsRoom(query.limit, Limit(query));
  }

  // ---- the code ----

  method KeepValid(candidates: seq<Candidate>) returns (valid: seq<Candidate>)
    ensures valid == Filter(candidates, ValidCandidate())
  {
    hide ValidId;
    valid := [];
    var i := 0;
    while i < |candidates|
      invariant i <= |candidates|
      invariant valid == Filter(candidates[..i], ValidCandidate())
    {
      var ok := IsValidId(candidates[i].id);
      assert candidates[..i + 1][..i] == candidates[..i];
      valid := if ok then valid + [candidates[i]] else valid;
      i := i + 1;
    }
    assert candidates[..i] == candidates;
  }

  method Unique(list: seq<Candidate>) returns (unique: seq<Candidate>)
    ensures unique == Uniqued(list)
  {
    unique := [];
    var i := 0;
    while i < |list|
      invariant i <= |list|
      invariant unique == Uniqued(list[..i])
    {
      assert list[..i + 1][..i] == list[..i];
      unique := if i > 0 && list[i].id == list[i - 1].id then unique else unique + [list[i]];
      i := i + 1;
    }
    assert list[..i] == list;
  }

  method Find(text: string, needle: string) returns (found: bool)
    ensures found == Contains(text, needle)
  {
    found := false;
    var i := 0;
    while !found && i + |needle| <= |text|
      invariant found ==> Contains(text, needle)
      invariant !found ==> i <= |text| + 1 && forall k | 0 <= k < i :: !OccursAt(text, needle, k)
      decreases |text| - i, !found
    {
      assert OccursAt(text, needle, i) <==> text[i..i + |needle|] == needle;
      if text[i..i + |needle|] == needle {
        found := true;
      } else {
        i := i + 1;
      }
    }
  }

  method HoldsText(needle: string, c: Candidate) returns (holds: bool)
    ensures holds == Matches(needle, c)
  {
    hide Contains;
    holds := needle == "";
    if !holds {
      holds := Find(Lower(c.id), needle);
    }
    if !holds {
      holds := Find(Lower(c.caption), needle);
    }
  }

  method Select(unique: seq<Candidate>, query: Query) returns (list: seq<Candidate>)
    ensures list == Filter(Filter(unique, MatchesSearch(query.q)), IsAfter(query.after))
  {
    hide Less, Matches;
    var needle := Lower(query.q);
    list := [];
    ghost var searched := [];
    var i := 0;
    while i < |unique|
      invariant i <= |unique|
      invariant searched == Filter(unique[..i], MatchesSearch(query.q))
      invariant list == Filter(searched, IsAfter(query.after))
    {
      var c := unique[i];
      var after := true;
      if query.after.Some? {
        after := ComesBefore(query.after.value, c.id);
      }
      var holds := HoldsText(needle, c);
      assert unique[..i + 1][..i] == unique[..i];
      assert (searched + [c])[..|searched|] == searched;
      searched := if holds then searched + [c] else searched;
      list := if holds && after then list + [c] else list;
      i := i + 1;
    }
    assert unique[..i] == unique;
  }

  /** The candidates of one page. std::sort is Arranged here. */
  method CandidateList(candidates: seq<Candidate>, query: Query) returns (list: seq<Candidate>)
    ensures list == ListAfter(candidates, query.q, query.after)
  {
    hide Filter, Arranged, Uniqued;
    var valid := KeepValid(candidates);
    var unique := Unique(Arranged(valid));
    list := Select(unique, query);
  }

  /** What the PDP says about a group: a decision for each id by the visibility, or no valid answer. */
  method Ask(ids: seq<string>, vis: string -> bool, answers: seq<string> -> bool) returns (visible: Option<seq<bool>>)
    ensures answers(ids) ==> visible == Some(Visible(ids, vis))
    ensures !answers(ids) ==> visible.None? || |visible.value| != |ids|
  {
    if answers(ids) {
      visible := Some(Visible(ids, vis));
    } else {
      visible :| visible.None? || |visible.value| != |ids|;
    }
  }

  /** The PDP gives no valid answer to some group of neighbours in the list. */
  predicate SomeGroupUnanswered(list: seq<Candidate>, answers: seq<string> -> bool) {
    exists i, j | 0 <= i < j <= |list| :: !answers(Ids(list[i..j]))
  }

  lemma ShownStep(list: seq<Candidate>, k: nat, vis: string -> bool)
    requires k < |list|
    ensures Shown(list[..k + 1], vis) == Shown(list[..k], vis) + (if vis(list[k].id) then [ItemOf(list[k])] else [])
  {
    assert list[..k + 1][..k] == list[..k];
  }

  lemma PageBytesStep(items: seq<Item>, item: Item)
    ensures PageBytes(items + [item]) == PageBytes(items) + ItemBytes(item)
  {
    assert (items + [item])[..|items|] == items;
  }

  lemma FirstItemFits(c: Candidate)
    requires ValidId(c.id)
    ensures 32 + ItemBytes(ItemOf(c)) <= MAX_BYTES
  {
    hide ValidUtf8;
  }

  lemma VisibleAt(list: seq<Candidate>, at: nat, group: nat, vis: string -> bool, k: nat)
    requires at + group <= |list| && k < group
    ensures |Visible(Ids(list[at..at + group]), vis)| == group
    ensures Visible(Ids(list[at..at + group]), vis)[k] == vis(list[at + k].id)
  {
  }

  lemma EmptyPage(list: seq<Candidate>, vis: string -> bool)
    ensures [] == Shown(list[..0], vis) && PageBytes([]) == 32
  {
  }

  lemma GroupLength(list: seq<Candidate>, vis: string -> bool)
    ensures |Ids(list)| == |list| == |Visible(Ids(list), vis)|
  {
  }

  /** The answers of one group: the visible ids become items until one does not fit. */
  method Examine(list: seq<Candidate>, at: nat, group: nat, visible: seq<bool>, items0: seq<Item>, bytes0: nat,
                 ghost vis: string -> bool)
    returns (items: seq<Item>, bytes: nat, end: nat, full: bool)
    requires at + group <= |list| && AllValid(list)
    requires visible == Visible(Ids(list[at..at + group]), vis)
    requires items0 == Shown(list[..at], vis) && bytes0 == PageBytes(items0) <= MAX_BYTES
    ensures at <= end <= at + group && items == Shown(list[..end], vis)
    ensures |items| <= |items0| + group && bytes == PageBytes(items) <= MAX_BYTES
    ensures !full ==> end == at + group
    ensures full ==> end < at + group && items != [] && vis(list[end].id)
                     && bytes + ItemBytes(ItemOf(list[end])) > MAX_BYTES
  {
    hide Shown, ItemOf, ItemBytes, PageBytes, ValidId, Visible, Ids;
    items, bytes, end, full := items0, bytes0, at, false;
    var i := 0;
    while i < group && !full
      invariant i <= group && end == at + i
      invariant items == Shown(list[..end], vis)
      invariant |items| <= |items0| + i && bytes == PageBytes(items) <= MAX_BYTES
      invariant full ==> i < group && items != [] && vis(list[end].id)
                         && bytes + ItemBytes(ItemOf(list[end])) > MAX_BYTES
      decreases group - i, !full
    {
      VisibleAt(list, at, group, vis, i);
      ShownStep(list, at + i, vis);
      if visible[i] {
        var item := MakeItem(list[at + i]);
        if bytes + ItemBytes(item) > MAX_BYTES && items != [] {
          full := true;
        } else {
          PageBytesStep(items, item);
          if items == [] {
            RoomForOne(items, list[at + i]);
          }
          items, bytes := items + [item], bytes + ItemBytes(item);
        }
      }
      if !full {
        i, end := i + 1, end + 1;
      }
    }
  }

  lemma RoomForOne(items: seq<Item>, c: Candidate)
    requires items == []
    requires ValidId(c.id)
    ensures PageBytes(items) + ItemBytes(ItemOf(c)) <= MAX_BYTES
  {
    FirstItemFits(c);
  }

  method MakeItem(c: Candidate) returns (item: Item)
    ensures item == ItemOf(c)
  {
    hide Label;
    var text := CutLabel(c.caption);
    if text == "" {
      text := CutLabel(c.id);
    }
    item := Item(c.id, text);
  }

  lemma RoomForQuestions(questions: nat, perId: nat, room: nat, group: nat)
    requires perId > 0 && questions <= MAX_QUESTIONS && room == (MAX_QUESTIONS - questions) / perId
    requires group <= room
    ensures questions + group * perId <= MAX_QUESTIONS
    ensures room == 0 <==> questions + perId > MAX_QUESTIONS
  {
    assert room * perId <= MAX_QUESTIONS - questions < (room + 1) * perId;
    MulMonotone(group, room, perId);
  }

  lemma ListAfterFacts(candidates: seq<Candidate>, q: string, after: Option<string>)
    ensures AllValid(ListAfter(candidates, q, after)) && Ascending(ListAfter(candidates, q, after))
  {
    hide Filter, Less, ValidId, Matches, HasId;
    FullListMeaning(candidates, q);
    FilterAscending(FullList(candidates, q), IsAfter(after));
    FilterMembers(FullList(candidates, q), IsAfter(after));
  }

  method EncodedCursor(id: string) returns (cursor: string)
    requires IsBytes(id)
    ensures cursor == CursorOf(id)
  {
    hide CursorText;
    cursor := CursorEncode(id);
  }

  /** The cursor of the page that examined `end` candidates. */
  method Cursor(list: seq<Candidate>, end: nat, after: Option<string>) returns (next: string)
    requires end <= |list| && AllValid(list) && (after.Some? ==> ValidId(after.value))
    ensures next == NextCursor(list, end, after)
  {
    hide ValidId, CursorOf, CursorText, IsBytes;
    next := "";
    if end < |list| && end > 0 {
      ValidIdIsBytes(list[end - 1].id);
      next := EncodedCursor(list[end - 1].id);
    }
    if end == 0 && list != [] && after.Some? {
      ValidIdIsBytes(after.value);
      next := EncodedCursor(after.value);
    }
  }

  /** The local variables of the page loop; `end` counts the candidates examined. */
  datatype Walk = Walk(items: seq<Item>, bytes: nat, questions: nat, at: nat, end: nat, full: bool, failed: bool)

  predicate Examined(list: seq<Candidate>, limit: nat, perId: nat, vis: string -> bool, w: Walk) {
    && w.end <= w.at <= |list| && |w.items| <= limit && w.questions <= MAX_QUESTIONS
    && w.items == Shown(list[..w.end], vis) && w.bytes == PageBytes(w.items) <= MAX_BYTES
    && (!w.full ==> w.end == w.at)
    && (w.full ==> w.end < |list| && vis(list[w.end].id) && w.bytes + ItemBytes(ItemOf(list[w.end])) > MAX_BYTES)
    && (w.full ==> w.end > 0)
    && (if w.end == 0 then w.questions == 0 && w.items == [] else perId <= MAX_QUESTIONS)
  }

  /** The PDP was asked about the first candidates, each one once, with `perId` questions about each; about no more than
      the examined ones unless the page is full. */
  predicate AskedInOrder(list: seq<Candidate>, perId: nat, asked: seq<string>, w: Walk) {
    && |asked| <= |list| && asked == Ids(list[..|asked|])
    && w.questions == |asked| * perId
    && (!w.failed ==> |asked| == w.at)
  }

  lemma NothingAsked(list: seq<Candidate>, perId: nat)
    ensures AskedInOrder(list, perId, [], Walk([], 32, 0, 0, 0, false, false))
  {
  }

  lemma MoreTimes(a: nat, b: nat, k: nat)
    ensures (a + b) * k == a * k + b * k
  {
  }

  lemma MoreAsked(list: seq<Candidate>, perId: nat, asked: seq<string>, w: Walk, group: nat, next: Walk)
    requires AskedInOrder(list, perId, asked, w) && !w.failed && w.at + group <= |list|
    requires next.questions == w.questions + group * perId && (!next.failed ==> next.at == w.at + group)
    ensures AskedInOrder(list, perId, asked + Ids(list[w.at..w.at + group]), next)
  {
    MoreTimes(|asked|, group, perId);
    assert list[..w.at + group] == list[..w.at] + list[w.at..w.at + group];
  }

  /** One round of the page loop: a group of ids in one question list. */
  method AskGroup(list: seq<Candidate>, limit: nat, perId: nat, vis: string -> bool, answers: seq<string> -> bool,
                  w: Walk, group: nat)
    returns (next: Walk, ghost ids: seq<string>)
    requires AllValid(list) && perId > 0 && Examined(list, limit, perId, vis, w) && !w.full && !w.failed
    requires 0 < group <= Min(limit - |w.items|, |list| - w.at) && w.questions + group * perId <= MAX_QUESTIONS
    requires perId <= MAX_QUESTIONS
    ensures next.questions == w.questions + group * perId <= MAX_QUESTIONS
    ensures ids == Ids(list[w.at..w.at + group])
    ensures if next.failed then next.at == w.at && SomeGroupUnanswered(list, answers)
            else Examined(list, limit, perId, vis, next) && next.at == w.at + group && next.end > 0
  {
    hide Shown, ItemOf, ItemBytes, PageBytes, ValidId, Visible, Ids, AllValid;
    var ids_ := Ids(list[w.at..w.at + group]);
    var visible := Ask(ids_, vis, answers);
    ids := ids_;
    assert !answers(ids_) ==> SomeGroupUnanswered(list, answers);
    var questions := w.questions + group * perId;
    GroupLength(list[w.at..w.at + group], vis);
    next := w.(questions := questions, failed := true);
    if visible.Some? && |visible.value| == group {
      var items, bytes, end, full := Examine(list, w.at, group, visible.value, w.items, w.bytes, vis);
      EmptyPage(list, vis);
      next := Walk(items, bytes, questions, w.at + group, end, full, false);
    }
  }

  /** The rounds until the list ends, the page is full, or the questions about one more id do not fit. */
  method WalkList(list: seq<Candidate>, limit: nat, perId: nat, vis: string -> bool, answers: seq<string> -> bool)
    returns (w: Walk, ghost asked: seq<string>)
    requires AllValid(list) && perId > 0 && limit > 0
    ensures w.questions <= MAX_QUESTIONS && AskedInOrder(list, perId, asked, w)
    ensures w.failed ==> SomeGroupUnanswered(list, answers)
    ensures !w.failed ==> Examined(list, limit, perId, vis, w)
    ensures !w.failed && w.end < |list| ==> w.full || |w.items| == limit || w.questions + perId > MAX_QUESTIONS
  {
    hide Shown, ItemOf, ItemBytes, PageBytes, ValidId, AllValid, SomeGroupUnanswered, AskedInOrder;
    NothingAsked(list, perId);
    w, asked := Walk([], 32, 0, 0, 0, false, false), [];
    var room := true;
    EmptyPage(list, vis);
    while w.at < |list| && |w.items| < limit && !w.full && room && !w.failed
      invariant w.questions <= MAX_QUESTIONS && AskedInOrder(list, perId, asked, w)
      invariant w.failed ==> SomeGroupUnanswered(list, answers)
      invariant !w.failed ==> Examined(list, limit, perId, vis, w)
      invariant !room ==> w.questions + perId > MAX_QUESTIONS
      decreases |list| - w.at, !w.failed, room
    {
      var fits := (MAX_QUESTIONS - w.questions) / perId;
      var group := Min(fits, Min(limit - |w.items|, |list| - w.at));
      RoomForQuestions(w.questions, perId, fits, group);
      if fits == 0 {
        room := false;
      } else {
        ghost var before, ids := w, [];
        w, ids := AskGroup(list, limit, perId, vis, answers, w, group);
        MoreAsked(list, perId, asked, before, group, w);
        asked := asked + ids;
      }
    }
  }

  /** The number of questions of a page is that of the questions about the ids that were asked, the first ones of the
      list, each one once. */
  predicate CountsTheAsked(list: seq<Candidate>, questionsPerId: nat, asked: seq<string>, page: Page) {
    && |asked| <= |list| && asked == Ids(list[..|asked|])
    && page.questions == |asked| * Max(1, questionsPerId) <= 200
  }

  /** One page. It either failed, because the PDP gave no valid answer, and then it shows nothing at all, or it is the
      page of the candidates that it examined; it stops early for one of the bounds only; and it examines at least one
      candidate exactly when the questions about one id fit. */
  method MakePage(candidates: seq<Candidate>, query: Query, questionsPerId: nat, vis: string -> bool,
                  answers: seq<string> -> bool)
    returns (page: Page, end: nat, ghost asked: seq<string>)
    requires query.after.Some? ==> ValidId(query.after.value)
    ensures CountsTheAsked(ListAfter(candidates, query.q, query.after), questionsPerId, asked, page)
    ensures page.failed ==> page.items == [] && page.next == "" && page.questions <= MAX_QUESTIONS
    ensures page.failed ==> SomeGroupUnanswered(ListAfter(candidates, query.q, query.after), answers)
    ensures var list := ListAfter(candidates, query.q, query.after);
            !page.failed ==>
              && PageOf(list, query, vis, end, page)
              && PageBounds(list, query, questionsPerId, vis, end, page)
              && (list != [] ==> (end > 0 <==> questionsPerId <= 200))
              && end <= |asked|
  {
    hide Shown, ItemOf, ItemBytes, PageBytes, ValidId, ListAfter, NextCursor, Limit, AllValid, SomeGroupUnanswered,
         PageBounds;
    var list := CandidateList(candidates, query);
    ListAfterFacts(candidates, query.q, query.after);
    var w;
    w, asked := WalkList(list, Limit(query), Max(1, questionsPerId), vis, answers);
    end := w.end;
    page := Page([], "", true, w.questions);
    if !w.failed {
      var next := Cursor(list, end, query.after);
      page := Page(w.items, next, false, w.questions);
      BoundsOfThePage(list, query, questionsPerId, vis, end, page);
    }
  }
}
