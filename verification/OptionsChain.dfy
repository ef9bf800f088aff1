/** The chain of the pages that the cursors make: all pages together are one unpaged filter. */
module OptionsChain {
  import opened Common
  import opened AccessResource
  import opened OptionsOrder
  import opened Base64
  import opened OptionsPage

  /** One request of a chain and what the page examined. */
  datatype Turn = Turn(query: Query, page: Page, end: nat)

  /** A page as MakePage gives it while the questions about one id fit. */
  predicate Answered(candidates: seq<Candidate>, q: string, vis: string -> bool, t: Turn) {
    var list := ListAfter(candidates, q, t.query.after);
    t.query.q == q && PageOf(list, t.query, vis, t.end, t.page) && (list != [] ==> t.end > 0)
  }

  /** The next request continues after the id that its cursor decodes to (CursorDecode). */
  predicate Continues(t: Turn, u: Turn) {
    && t.page.next != ""
    && u.query.after.Some?
    && IsBytes(u.query.after.value) && ValidId(u.query.after.value)
    && t.page.next == CursorText(u.query.after.value)
  }

  /** Requests with one search text and any limits, each after the cursor of the page before. */
  predicate IsChain(candidates: seq<Candidate>, q: string, vis: string -> bool, turns: seq<Turn>) {
    && (forall i | 0 <= i < |turns| :: Answered(candidates, q, vis, turns[i]))
    && (turns != [] ==> turns[0].query.after.None?)
    && (forall i | 0 <= i < |turns| - 1 :: Continues(turns[i], turns[i + 1]))
  }

  function Total(turns: seq<Turn>): nat {
    if turns == [] then 0 else Total(turns[..|turns| - 1]) + turns[|turns| - 1].end
  }

  function AllItems(turns: seq<Turn>): seq<Item> {
    if turns == [] then [] else AllItems(turns[..|turns| - 1]) + turns[|turns| - 1].page.items
  }

  lemma CursorNamesTheId(id: string, next: string, after: string)
    requires ValidId(id) && next == CursorOf(id)
    requires IsBytes(after) && next == CursorText(after)
    ensures after == id
  {
    hide CursorText, ValidId;
    ValidIdIsBytes(id);
    CursorTextInjective(id, after);
  }

  lemma CursorOfValidId(id: string)
    requires ValidId(id)
    ensures CursorOf(id) != ""
  {
    hide CursorText, ValidId;
    ValidIdIsBytes(id);
    CursorOfId(id);
  }

  lemma FirstList(candidates: seq<Candidate>, q: string)
    ensures ListAfter(candidates, q, None) == FullList(candidates, q)
  {
    hide Filter;
    FilterAll(FullList(candidates, q), IsAfter(None));
  }

  lemma NextList(candidates: seq<Candidate>, q: string, k: nat)
    requires 0 < k <= |FullList(candidates, q)|
    ensures ListAfter(candidates, q, Some(FullList(candidates, q)[k - 1].id)) == FullList(candidates, q)[k..]
  {
    hide Filter, Less, ValidId, Matches, HasId, Ascending;
    FullListMeaning(candidates, q);
    AfterIsTheRest(FullList(candidates, q), k - 1);
  }

  lemma FullIdsValid(candidates: seq<Candidate>, q: string, k: nat)
    requires k < |FullList(candidates, q)|
    ensures ValidId(FullList(candidates, q)[k].id)
  {
    hide Filter, Less, ValidId, Matches, HasId, Ascending;
    FullListMeaning(candidates, q);
  }

  /** The page over the list from `k` examined up to `k + end` of the full list. */
  lemma PageOfTheRest(full: seq<Candidate>, k: nat, t: Turn, vis: string -> bool)
    requires k <= |full| && PageOf(full[k..], t.query, vis, t.end, t.page) && (full[k..] != [] ==> t.end > 0)
    ensures k + t.end <= |full|
    ensures Shown(full[..k], vis) + t.page.items == Shown(full[..k + t.end], vis)
    ensures t.page.next == if k + t.end < |full| then CursorOf(full[k + t.end - 1].id) else ""
    ensures k < |full| ==> t.end > 0
  {
    hide Shown, CursorOf, Limit, PageBytes;
    var end := t.end;
    ShownConcat(full[..k], full[k..k + end], vis);
    assert full[k..][..end] == full[k..k + end];
    assert full[..k] + full[k..k + end] == full[..k + end];
    if k + end < |full| {
      assert full[k..][end - 1] == full[k + end - 1];
    }
  }

  /** What a chain has shown so far is what the unpaged filter shows of the candidates examined so far; every page but
      the one of an empty list moves on, and the cursor is empty exactly when nothing is left. */
  predicate SoFar(full: seq<Candidate>, vis: string -> bool, turns: seq<Turn>)
    requires turns != []
  {
    var k := Total(turns);
    && k <= |full|
    && AllItems(turns) == Shown(full[..k], vis)
    && (if full == [] then |turns| == 1 else |turns| <= k)
    && turns[|turns| - 1].page.next == (if 0 < k < |full| then CursorOf(full[k - 1].id) else "")
  }

  lemma FirstTurn(candidates: seq<Candidate>, q: string, vis: string -> bool, turns: seq<Turn>)
    requires IsChain(candidates, q, vis, turns) && |turns| == 1
    ensures SoFar(FullList(candidates, q), vis, turns)
  {
    hide Shown, CursorOf, FullList, ListAfter, Limit, PageBytes, NextCursor;
    var full := FullList(candidates, q);
    assert Answered(candidates, q, vis, turns[0]);
    FirstList(candidates, q);
    assert full[0..] == full && full[..0] == [] && turns[..0] == [];
    assert PageOf(full, turns[0].query, vis, turns[0].end, turns[0].page);
    PageOfTheRest(full, 0, turns[0], vis);
    NothingShown(turns[0].page.items, vis);
    assert Total(turns) == Total([]) + turns[0].end && AllItems(turns) == AllItems([]) + turns[0].page.items;
  }

  lemma NextTurn(candidates: seq<Candidate>, q: string, vis: string -> bool, before: seq<Turn>, t: Turn)
    requires before != [] && SoFar(FullList(candidates, q), vis, before)
    requires Answered(candidates, q, vis, t) && Continues(before[|before| - 1], t)
    ensures SoFar(FullList(candidates, q), vis, before + [t])
  {
    hide Shown, CursorOf, FullList, ListAfter, ValidId, CursorText, Limit, PageBytes, NextCursor, IsBytes;
    var full, k := FullList(candidates, q), Total(before);
    FullIdsValid(candidates, q, k - 1);
    CursorNamesTheId(full[k - 1].id, before[|before| - 1].page.next, t.query.after.value);
    NextList(candidates, q, k);
    PageOfTheRest(full, k, t, vis);
    assert (before + [t])[..|before|] == before;
  }

  lemma {:induction false} ChainSoFar(candidates: seq<Candidate>, q: string, vis: string -> bool, turns: seq<Turn>)
    requires IsChain(candidates, q, vis, turns) && turns != []
    ensures SoFar(FullList(candidates, q), vis, turns)
  {
    hide FullList, Answered, SoFar, Continues;
    var last := |turns| - 1;
    if last == 0 {
      FirstTurn(candidates, q, vis, turns);
    } else {
      var before := turns[..last];
      assert Continues(turns[last - 1], turns[last]);
      ChainSoFar(candidates, q, vis, before);
      NextTurn(candidates, q, vis, before, turns[last]);
      assert before + [turns[last]] == turns;
    }
  }

  lemma NothingShown(items: seq<Item>, vis: string -> bool)
    ensures Shown([], vis) == [] && [] + items == items
  {
  }

  /** A chain that came to its end has shown exactly the unpaged filter, and no chain has more pages than candidates. */
  lemma {:induction false} ChainIsTheFilter(candidates: seq<Candidate>, q: string, vis: string -> bool,
                                        turns: seq<Turn>)
    requires IsChain(candidates, q, vis, turns) && turns != []
    ensures turns[|turns| - 1].page.next == "" ==> AllItems(turns) == Shown(FullList(candidates, q), vis)
    ensures turns[|turns| - 1].page.next != "" ==> Total(turns) < |FullList(candidates, q)|
    ensures |turns| <= Max(1, |FullList(candidates, q)|)
  {
    hide Shown, CursorOf, PageOf, FullList, ListAfter, ValidId, CursorText, IsChain;
    ChainSoFar(candidates, q, vis, turns);
    var full, k := FullList(candidates, q), Total(turns);
    if k < |full| {
      FullIdsValid(candidates, q, k - 1);
      CursorOfValidId(full[k - 1].id);
    } else {
      assert full[..k] == full;
    }
  }

  /** The items of an ascending list: the visible ids of the list, each once, in the order. */
  lemma {:induction false} ShownMeaning(list: seq<Candidate>, vis: string -> bool)
    requires Ascending(list)
    ensures forall i, j | 0 <= i < j < |Shown(list, vis)| :: Less(Shown(list, vis)[i].id, Shown(list, vis)[j].id)
    ensures forall item :: item in Shown(list, vis) <==> ItemShows(list, vis, item)
  {
    hide Less, ItemOf;
    if list != [] {
      var last := |list| - 1;
      ShownMeaning(list[..last], vis);
      var items := Shown(list[..last], vis);
      forall item ensures item in Shown(list, vis) <==> ItemShows(list, vis, item) {
        ItemShowsStep(list, vis, item);
      }
      forall i | 0 <= i < |items| ensures Less(items[i].id, list[last].id) {
        assert ItemShows(list[..last], vis, items[i]);
        ItemIsBefore(list, vis, items[i]);
      }
      ItemOfKeepsTheId(list[last]);
    }
  }

  /** Each item of a list is one of its visible candidates, with a label that is not empty. */
  lemma ItemsAreLabelled(list: seq<Candidate>, vis: string -> bool, item: Item)
    requires Ascending(list) && AllValid(list) && item in Shown(list, vis)
    ensures exists c | c in list :: vis(c.id) && IsItemOf(item, c)
  {
    hide Shown, ItemOf, IsItemOf, Less, ValidId;
    ShownMeaning(list, vis);
    var c :| c in list && vis(c.id) && item == ItemOf(c);
    ItemOfMeaning(c);
  }

  predicate ItemShows(list: seq<Candidate>, vis: string -> bool, item: Item) {
    exists c | c in list :: vis(c.id) && item == ItemOf(c)
  }

  lemma ItemOfKeepsTheId(c: Candidate)
    ensures ItemOf(c).id == c.id
  {
  }

  lemma ItemShowsStep(list: seq<Candidate>, vis: string -> bool, item: Item)
    requires list != []
    ensures var last := |list| - 1;
            ItemShows(list, vis, item) <==>
              ItemShows(list[..last], vis, item) || (vis(list[last].id) && item == ItemOf(list[last]))
  {
    hide ItemOf;
    var last := |list| - 1;
    assert forall c :: c in list <==> c in list[..last] || c == list[last];
  }

  lemma ItemIsBefore(list: seq<Candidate>, vis: string -> bool, item: Item)
    requires list != [] && Ascending(list) && ItemShows(list[..|list| - 1], vis, item)
    ensures Less(item.id, list[|list| - 1].id)
  {
    hide Less, ItemOf;
    var c :| c in list[..|list| - 1] && vis(c.id) && item == ItemOf(c);
    ItemOfKeepsTheId(c);
    var i :| 0 <= i < |list| - 1 && list[i] == c;
  }

  /** When one id needs more than 200 questions, a page examines nothing: the first one shows nothing and gives no
      cursor, and a later one gives its own cursor again. So a page without a cursor is complete exactly when the
      questions about one id fit, or when nothing was left that the subject can see. */
  lemma CompleteExactlyWhenOneIdFits(list: seq<Candidate>, query: Query, questionsPerId: nat, vis: string -> bool,
                                     end: nat, page: Page)
    requires PageOf(list, query, vis, end, page) && AllValid(list)
    requires list != [] ==> (end > 0 <==> questionsPerId <= 200)
    requires query.after.Some? ==> ValidId(query.after.value)
    ensures page.next == "" ==>
              (page.items == Shown(list, vis) <==> questionsPerId <= 200 || Shown(list, vis) == [])
    ensures questionsPerId > 200 ==> page.items == []
    ensures questionsPerId > 200 && list != [] ==>
              page.next == if query.after.Some? then CursorOf(query.after.value) else ""
  {
    hide CursorOf, ValidId, Limit, PageBytes, Shown;
    NothingShown([], vis);
    assert list[..0] == [];
    if 0 < end < |list| {
      CursorOfValidId(list[end - 1].id);
    } else if end == |list| {
      assert list[..end] == list;
    } else if query.after.Some? {
      CursorOfValidId(query.after.value);
    }
  }

  /** The silent loss, on the smallest input: one visible candidate, 201 questions about it, and every question would
      be answered. */
  method TooManyQuestionsLoseTheList(vis: string -> bool) returns (page: Page)
    requires vis("a")
    ensures !page.failed && page.items == [] && page.next == ""
    ensures exists item :: item in Shown(FullList([Candidate("a", "")], ""), vis)
  {
    hide Shown, FullList, ListAfter, CursorOf, PageOf, SomeGroupUnanswered;
    var candidates, query := [Candidate("a", "")], Query("", 50, None);
    var end;
    ghost var asked;
    page, end, asked := MakePage(candidates, query, 201, vis, _ => true);
    EveryoneAnswers(ListAfter(candidates, "", None), _ => true);
    ListAfterFacts(candidates, "", None);
    NothingExamined(ListAfter(candidates, "", None), query, vis, end, page);
    OneIsShown(vis);
  }

  lemma EveryoneAnswers(list: seq<Candidate>, answers: seq<string> -> bool)
    requires forall ids :: answers(ids)
    ensures !SomeGroupUnanswered(list, answers)
  {
  }

  lemma NothingExamined(list: seq<Candidate>, query: Query, vis: string -> bool, end: nat, page: Page)
    requires PageOf(list, query, vis, end, page) && AllValid(list) && query.after.None?
    requires list != [] ==> end == 0
    ensures page.items == [] && page.next == ""
  {
    hide CursorOf, ValidId, Limit, PageBytes;
    CompleteExactlyWhenOneIdFits(list, query, 201, vis, end, page);
  }

  lemma OneIsShown(vis: string -> bool)
    requires vis("a")
    ensures ItemOf(Candidate("a", "")) in Shown(FullList([Candidate("a", "")], ""), vis)
  {
    hide Shown, FullList, ItemOf;
    var a := Candidate("a", "");
    var list := FullList([a], "");
    FullListMeaning([a], "");
    assert ValidId("a");
    assert a in [a] && HasId(list, "a");
    ShownMeaning(list, vis);
    assert a in list;
    assert ItemShows(list, vis, ItemOf(a));
  }
}
