/** The Resource Search: the paged search of the client (PdpClient::search_resources, src/access_pdp.cpp) and the
    databases that it shows (src/access_search.cpp, used by src/api_resources.cpp). */
module AccessSearch {
  import opened Common
  import opened AccessResource
  import opened PdpModel

  // ---- the pages of one search ----

  /** What one page request gives: a failure, or ids and the token of the next page ("" on the last one). */
  datatype Page = BadPage | Page(ids: seq<string>, next: string)

  datatype SearchResult = SearchResult(ok: bool, truncated: bool, ids: seq<string>)

  const NO_RESULT := SearchResult(false, false, [])

  /** The PDP: any page for the request number, the token and the limit. */
  type PageServer = (nat, string, nat) -> Page

  function AllIds(pages: seq<Page>): seq<string> {
    if pages == [] then []
    else
      var last := pages[|pages| - 1];
      AllIds(pages[..|pages| - 1]) + (if last.Page? then last.ids else [])
  }

  function Tokens(pages: seq<Page>): set<string> {
    if pages == [] then {}
    else
      var last := pages[|pages| - 1];
      Tokens(pages[..|pages| - 1]) + (if last.Page? then {last.next} else {})
  }

  /** The token of the next request: none for the first, else the one of the page before. */
  function NextToken(pages: seq<Page>): string {
    if pages == [] || pages[|pages| - 1].BadPage? then "" else pages[|pages| - 1].next
  }

  function Room(maxItems: nat, ids: seq<string>): nat {
    if maxItems > |ids| then maxItems - |ids| else 0
  }

  /** The requests of a search: each one follows the token of a page that is not the last, and asks for the room that
      is left. */
  predicate Follows(serve: PageServer, maxItems: nat, pages: seq<Page>) {
    pages == [] ||
    var front := pages[..|pages| - 1];
    && Follows(serve, maxItems, front)
    && (front != [] ==> NextToken(front) != "")
    && pages[|pages| - 1] == serve(|front|, NextToken(front), Max(maxItems, |AllIds(front)|) - |AllIds(front)|)
  }

  predicate LastPage(pages: seq<Page>) {
    pages != [] && pages[|pages| - 1].Page? && pages[|pages| - 1].next == ""
  }

  /** The last page has a token that an earlier page had. */
  predicate TokenRepeats(pages: seq<Page>) {
    pages != [] && pages[|pages| - 1].Page? && pages[|pages| - 1].next in Tokens(pages[..|pages| - 1])
  }

  /** Adds the ids of a page while there is room. */
  method TakeIds(ids0: seq<string>, page: seq<string>, maxItems: nat) returns (ids: seq<string>, truncated: bool)
    requires |ids0| <= maxItems
    ensures truncated <==> |ids0| + |page| > maxItems
    ensures ids == ids0 + page[..Min(|page|, maxItems - |ids0|)]
  {
    ids, truncated := ids0, false;
    var i := 0;
    while i < |page| && !truncated
      invariant i <= |page| && ids == ids0 + page[..i] && |ids| <= maxItems
      invariant truncated ==> |ids| == maxItems && i < |page|
      decreases |page| - i, !truncated
    {
      if |ids| >= maxItems {
        truncated := true;
      } else {
        ids := ids + [page[i]];
        i := i + 1;
      }
    }
  }

  /** What a search that met these pages gives: it is whole only when the last page was reached and every id of every
      page is in it, it is cut only at one of its bounds, and it fails only on a bad page or on a token that comes
      again. */
  predicate Concludes(maxPages: nat, maxItems: nat, pages: seq<Page>, out: SearchResult)
    requires pages != []
  {
    && |out.ids| <= maxItems
    && (out.ok ==> out.ids <= AllIds(pages))
    && (out.ok && !out.truncated ==> LastPage(pages) && out.ids == AllIds(pages))
    && (out.ok && out.truncated ==> |pages| == Max(maxPages, 1) || |out.ids| == maxItems)
    && (!out.ok ==> !out.truncated && out.ids == [])
    && (!out.ok <==> pages[|pages| - 1].BadPage? || (TokenRepeats(pages) && |AllIds(pages)| < maxItems))
  }

  /** The search goes on after these pages. */
  predicate GoesOn(maxItems: nat, pages: seq<Page>, ids: seq<string>, token: string, seen: set<string>) {
    && ids == AllIds(pages) && |ids| <= maxItems && seen == Tokens(pages) && token == NextToken(pages) && "" !in seen
    && (pages != [] ==> token != "" && token in seen && pages[|pages| - 1].Page? && !TokenRepeats(pages))
  }

  /** Follows the pages, and stops within its two bounds. */
  method SearchResources(maxPages: nat, maxItems: nat, serve: PageServer) returns (out: SearchResult, pages: seq<Page>)
    ensures 1 <= |pages| <= Max(maxPages, 1)
    ensures Follows(serve, maxItems, pages)
    ensures Concludes(maxPages, maxItems, pages, out)
  {
    hide AllIds, Tokens, Follows, Concludes, TokenRepeats;
    var ids, token: string, seen: set<string> := [], "", {};
    pages := [];
    NoPages(serve, maxItems);
    var n, done := 0, false;
    out := SearchResult(true, true, []);
    while n < Max(maxPages, 1) && !done
      invariant n == |pages| <= Max(maxPages, 1) && Follows(serve, maxItems, pages)
      invariant done ==> n > 0 && Concludes(maxPages, maxItems, pages, out)
      invariant !done ==> GoesOn(maxItems, pages, ids, token, seen)
      decreases Max(maxPages, 1) - n, !done
    {
      var page := serve(n, token, Room(maxItems, ids));
      PageNext(serve, maxItems, pages, page);
      out, done, ids, token, seen := TakePage(maxPages, maxItems, page, pages, ids, token, seen);
      pages := pages + [page];
      n := n + 1;
    }
    if !done {
      out := SearchResult(true, true, ids);
      AtTheBound(maxPages, maxItems, pages, ids, token, seen);
    }
  }

  lemma AtTheBound(maxPages: nat, maxItems: nat, pages: seq<Page>, ids: seq<string>, token: string, seen: set<string>)
    requires GoesOn(maxItems, pages, ids, token, seen) && |pages| == Max(maxPages, 1)
    ensures Concludes(maxPages, maxItems, pages, SearchResult(true, true, ids))
  {
    hide AllIds, Tokens;
  }

  /** What one page adds: the search ends, or its ids and its token go on. */
  method TakePage(maxPages: nat, maxItems: nat, page: Page, ghost pages: seq<Page>, ids0: seq<string>,
                  token0: string, seen0: set<string>)
    returns (out: SearchResult, done: bool, ids: seq<string>, token: string, seen: set<string>)
    requires GoesOn(maxItems, pages, ids0, token0, seen0)
    requires AllIds(pages + [page]) == AllIds(pages) + (if page.Page? then page.ids else [])
    requires Tokens(pages + [page]) == Tokens(pages) + (if page.Page? then {page.next} else {})
    ensures done ==> Concludes(maxPages, maxItems, pages + [page], out)
    ensures !done ==> GoesOn(maxItems, pages + [page], ids, token, seen)
  {
    hide AllIds, Tokens;
    out, done, ids, token, seen := NO_RESULT, true, ids0, token0, seen0;
    ghost var all := pages + [page];
    assert all[..|pages|] == pages && all[|pages|] == page;
    if page.Page? {
      var more, truncated := TakeIds(ids0, page.ids, maxItems);
      assert page.ids[..|page.ids|] == page.ids;
      assert more <= AllIds(all);
      if page.next == "" {
        out := SearchResult(true, truncated, more);
      } else if truncated || |more| >= maxItems {
        out := SearchResult(true, true, more);
      } else if page.next !in seen0 && page.next != token0 {
        done, seen, ids, token := false, seen0 + {page.next}, more, page.next;
      }
    }
  }

  lemma NoPages(serve: PageServer, maxItems: nat)
    ensures AllIds([]) == [] && Tokens([]) == {} && Follows(serve, maxItems, [])
  {
  }

  lemma PageNext(serve: PageServer, maxItems: nat, pages: seq<Page>, page: Page)
    requires Follows(serve, maxItems, pages) && (pages != [] ==> NextToken(pages) != "")
    requires page == serve(|pages|, NextToken(pages), Room(maxItems, AllIds(pages)))
    ensures Follows(serve, maxItems, pages + [page])
    ensures AllIds(pages + [page]) == AllIds(pages) + (if page.Page? then page.ids else [])
    ensures Tokens(pages + [page]) == Tokens(pages) + (if page.Page? then {page.next} else {})
  {
    assert (pages + [page])[..|pages|] == pages;
  }

  // ---- the databases of a host ----

  /** A grant: an action on a node of the tree, given by its whole chain. */
  datatype Grant = Grant(action: string, node: seq<Node>)

  /** The PDP: a grant covers its node and everything below it; the match "subtree" also looks below the resource. */
  predicate Decides(grants: set<Grant>, q: Question) {
    exists g | g in grants :: g.action == q.action &&
      (g.node <= Chain(q.resource) || (q.how == Subtree && Chain(q.resource) <= g.node))
  }

  function HostResource(service: string, host: string): Resource {
    Resource("host", host, [Node("service", service)])
  }

  function DatabaseResource(service: string, host: string, database: string): Resource {
    Resource("database", database, [Node("service", service), Node("host", host)])
  }

  datatype SearchOutcome = Unused | Covered | Ids(ids: set<string>) | Fallback

  /** The actions, each once, in order. */
  method Once(actions: seq<string>) returns (names: seq<string>)
    ensures forall a :: a in names <==> a in actions
    ensures forall i, j | 0 <= i < j < |names| :: names[i] != names[j]
  {
    names := [];
    for i := 0 to |actions|
      invariant forall a :: a in names <==> a in actions[..i]
      invariant forall k, m | 0 <= k < m < |names| :: names[k] != names[m]
    {
      if actions[i] !in names {
        names := names + [actions[i]];
      }
    }
    assert actions[..|actions|] == actions;
  }

  function HostQuestions(service: string, host: string, names: seq<string>): (qs: seq<Question>)
    ensures |qs| == |names|
  {
    seq(|names|, i requires 0 <= i < |names| => Question(names[i], HostResource(service, host), OnNode))
  }

  /** A result of SearchResources for the pages of this server. */
  ghost predicate Searched(maxPages: nat, maxItems: nat, serve: PageServer, r: SearchResult) {
    exists pages | pages != [] :: Follows(serve, maxItems, pages) && Concludes(maxPages, maxItems, pages, r)
  }

  /** The searches that were made: for the first actions, in their order. */
  ghost predicate AllSearched(maxPages: nat, maxItems: nat, servers: string -> PageServer, names: seq<string>,
                              results: seq<SearchResult>) {
    |results| <= |names| && forall i | 0 <= i < |results| :: Searched(maxPages, maxItems, servers(names[i]), results[i])
  }

  predicate Whole(r: SearchResult) {
    r.ok && !r.truncated
  }

  /** The search gives no result: the decisions of the host are not complete, or one failed, or none allows and one
      search failed or was cut. */
  predicate FallsBack(decisions: seq<Decision>, count: nat, results: seq<SearchResult>) {
    || |decisions| != count
    || (exists d | d in decisions :: d.failed)
    || ((forall d | d in decisions :: !d.allowed) && exists r | r in results :: !Whole(r))
  }

  /** The outcome over `names`, the actions each once: a fallback exactly when there is no result, covered when the host
      itself is allowed, else the ids of the whole searches of all actions together. */
  ghost predicate Gives(usable: bool, actions: seq<string>, names: seq<string>, decisions: seq<Decision>,
                        results: seq<SearchResult>, out: SearchOutcome) {
    && (forall a :: a in names <==> a in actions)
    && (out == Unused <==> !usable)
    && (out == Fallback <==> usable && FallsBack(decisions, |names|, results))
    && (out == Covered ==>
          && |decisions| == |names| && results == [] && (forall d | d in decisions :: !d.failed)
          && exists i | 0 <= i < |names| :: decisions[i].allowed)
    && (out.Ids? ==>
          && |decisions| == |names| == |results| && (forall d | d in decisions :: !d.failed && !d.allowed)
          && (forall r | r in results :: Whole(r))
          && (forall id :: id in out.ids <==> exists r | r in results :: id in r.ids))
  }

  /** One evaluation on the host for each action, and then one search for each action, until one is not whole. */
  method SearchDatabases(enabled: bool, announced: bool, service: string, host: string, subject: string,
                         actions: seq<string>, decide: seq<Question> -> seq<Decision>, maxPages: nat, maxItems: nat,
                         servers: string -> PageServer)
    returns (out: SearchOutcome, names: seq<string>, results: seq<SearchResult>)
    ensures var usable := enabled && subject != "" && actions != [] && host != "" && ValidId(host) && announced;
            && Gives(usable, actions, names, decide(HostQuestions(service, host, names)), results, out)
            && AllSearched(maxPages, maxItems, servers, names, results)
  {
    hide Searched;
    results := [];
    names := Once(actions);
    if !enabled || subject == "" || actions == [] || host == "" || !ValidId(host) || !announced {
      return Unused, names, [];
    }
    var decisions := decide(HostQuestions(service, host, names));
    if |decisions| != |names| || exists i | 0 <= i < |decisions| :: decisions[i].failed {
      return Fallback, names, [];
    }
    assert forall d | d in decisions :: !d.failed;
    if exists i | 0 <= i < |decisions| :: decisions[i].allowed {
      return Covered, names, [];
    }
    var ids: set<string> := {};
    for i := 0 to |names|
      invariant |results| == i && AllSearched(maxPages, maxItems, servers, names, results)
      invariant forall r | r in results :: Whole(r)
      invariant forall id :: id in ids <==> exists r | r in results :: id in r.ids
    {
      var found := Search(maxPages, maxItems, servers(names[i]));
      OneMore(results, found);
      results := results + [found];
      if !Whole(found) {
        return Fallback, names, results;
      }
      ids := ids + set id | id in found.ids;
    }
    out := Ids(ids);
  }

  lemma OneMore(results: seq<SearchResult>, found: SearchResult)
    ensures forall r :: r in results + [found] <==> r in results || r == found
  {
  }

  method Search(maxPages: nat, maxItems: nat, serve: PageServer) returns (r: SearchResult)
    ensures Searched(maxPages, maxItems, serve, r)
  {
    hide Follows, Concludes;
    var pages;
    r, pages := SearchResources(maxPages, maxItems, serve);
  }

  /** The decisions of the host agree with the PDP wherever they are not failures. */
  predicate FaithfulDecisions(grants: set<Grant>, questions: seq<Question>, decisions: seq<Decision>) {
    |decisions| == |questions| ==>
      forall i | 0 <= i < |questions| && !decisions[i].failed :: decisions[i].allowed == Decides(grants, questions[i])
  }

  /** A whole search result holds the ids that the PDP allows among those that it knows. It knows at least the ids of
      its own grants. */
  ghost predicate FaithfulSearch(grants: set<Grant>, service: string, host: string, action: string, r: SearchResult) {
    r.ok && !r.truncated ==>
      && (forall id | id in r.ids :: Decides(grants, Question(action, DatabaseResource(service, host, id), OnNode)))
      && (forall id | Grant(action, Chain(DatabaseResource(service, host, id))) in grants :: id in r.ids)
  }

  /** The grants are on nodes of the tree: the service, a host or a database. */
  predicate TreeGrants(grants: set<Grant>) {
    forall g | g in grants :: |g.node| <= 3
  }

  /** The evaluations for one database show it when the PDP allows one of the actions with the match "subtree". */
  predicate ShownByEvaluations(grants: set<Grant>, service: string, host: string, actions: seq<string>,
                               database: string) {
    exists i | 0 <= i < |actions| ::
      Decides(grants, Question(actions[i], DatabaseResource(service, host, database), Subtree))
  }

  predicate ShownBySearch(out: SearchOutcome, database: string)
    requires out.Covered? || out.Ids?
  {
    out.Covered? || database in out.ids
  }

  /** A grant that covers a database covers its host, or it is on the database itself. */
  lemma DatabaseGrant(grants: set<Grant>, service: string, host: string, action: string, database: string)
    requires TreeGrants(grants)
    ensures Decides(grants, Question(action, DatabaseResource(service, host, database), Subtree)) <==>
              || Decides(grants, Question(action, HostResource(service, host), OnNode))
              || Grant(action, Chain(DatabaseResource(service, host, database))) in grants
  {
    var d, h := Chain(DatabaseResource(service, host, database)), Chain(HostResource(service, host));
    assert h == d[..2] && |d| == 3;
    if Decides(grants, Question(action, DatabaseResource(service, host, database), Subtree)) {
      var g :| g in grants && g.action == action && (g.node <= d || d <= g.node);
      if |g.node| == 3 {
        assert g == Grant(action, d);
      } else {
        assert g.node <= h;
      }
    }
    if Decides(grants, Question(action, HostResource(service, host), OnNode)) {
      var g :| g in grants && g.action == action && g.node <= h;
      assert g.node <= d;
    }
  }

  /** The pages of a PDP are complete: whoever follows them to the last one has the ids that the PDP allows among those
      that it knows, and all ids of its own grants. */
  ghost predicate CompletePages(grants: set<Grant>, service: string, host: string, action: string, serve: PageServer) {
    forall maxItems: nat, pages | Follows(serve, maxItems, pages) && LastPage(pages) ::
      FaithfulSearch(grants, service, host, action, SearchResult(true, false, AllIds(pages)))
  }

  /** With complete pages, what SearchResources gives as whole is all that the PDP allows. */
  lemma WholeSearchIsFaithful(grants: set<Grant>, service: string, host: string, action: string, maxPages: nat,
                              maxItems: nat, serve: PageServer, r: SearchResult)
    requires CompletePages(grants, service, host, action, serve) && Searched(maxPages, maxItems, serve, r)
    ensures FaithfulSearch(grants, service, host, action, r)
  {
    hide AllIds, Follows, LastPage, TokenRepeats, Decides;
    var pages :| pages != [] && Follows(serve, maxItems, pages) && Concludes(maxPages, maxItems, pages, r);
    if r.ok && !r.truncated {
      assert FaithfulSearch(grants, service, host, action, SearchResult(true, false, AllIds(pages)));
      assert r == SearchResult(true, false, AllIds(pages));
    }
  }

  /** From the pages of the PDP to the list of databases: with complete pages and decisions that agree with the same
      grants, a search that gives a result shows a database exactly when the evaluations would. */
  lemma CompletePagesShowTheSame(grants: set<Grant>, service: string, host: string, usable: bool, actions: seq<string>,
                                 names: seq<string>, decisions: seq<Decision>, maxPages: nat, maxItems: nat,
                                 servers: string -> PageServer, results: seq<SearchResult>, out: SearchOutcome,
                                 database: string)
    requires TreeGrants(grants) && FaithfulDecisions(grants, HostQuestions(service, host, names), decisions)
    requires forall a | a in actions :: CompletePages(grants, service, host, a, servers(a))
    requires AllSearched(maxPages, maxItems, servers, names, results)
    requires Gives(usable, actions, names, decisions, results, out) && (out.Covered? || out.Ids?)
    ensures ShownBySearch(out, database) <==> ShownByEvaluations(grants, service, host, actions, database)
  {
    hide CompletePages, Searched, FaithfulSearch, FaithfulDecisions, TreeGrants;
    forall i | 0 <= i < |results| ensures FaithfulSearch(grants, service, host, names[i], results[i]) {
      assert names[i] in names && names[i] in actions;
      WholeSearchIsFaithful(grants, service, host, names[i], maxPages, maxItems, servers(names[i]), results[i]);
    }
    SearchShowsTheSame(grants, service, host, usable, actions, names, decisions, results, out, database);
  }

  /** For every database, a search that gives a result shows it exactly when the evaluations would. */
  lemma SearchShowsTheSame(grants: set<Grant>, service: string, host: string, usable: bool, actions: seq<string>,
                           names: seq<string>, decisions: seq<Decision>, results: seq<SearchResult>,
                           out: SearchOutcome, database: string)
    requires TreeGrants(grants) && FaithfulDecisions(grants, HostQuestions(service, host, names), decisions)
    requires |results| <= |names|
    requires forall i | 0 <= i < |results| :: FaithfulSearch(grants, service, host, names[i], results[i])
    requires Gives(usable, actions, names, decisions, results, out) && (out.Covered? || out.Ids?)
    ensures ShownBySearch(out, database) <==> ShownByEvaluations(grants, service, host, actions, database)
  {
    hide Decides;
    var questions := HostQuestions(service, host, names);
    forall i | 0 <= i < |actions| ensures
      Decides(grants, Question(actions[i], DatabaseResource(service, host, database), Subtree)) <==>
        || Decides(grants, Question(actions[i], HostResource(service, host), OnNode))
        || Grant(actions[i], Chain(DatabaseResource(service, host, database))) in grants
    {
      DatabaseGrant(grants, service, host, actions[i], database);
    }
    if out.Covered? {
      var i :| 0 <= i < |names| && decisions[i].allowed;
      assert decisions[i] in decisions && names[i] in names;
      assert questions[i] == Question(names[i], HostResource(service, host), OnNode);
      var k :| 0 <= k < |actions| && actions[k] == names[i];
      assert Decides(grants, Question(actions[k], DatabaseResource(service, host, database), Subtree));
    } else {
      NoHostGrant(grants, service, host, actions, names, decisions);
      if database in out.ids {
        var r :| r in results && database in r.ids;
        var i :| 0 <= i < |results| && results[i] == r;
        assert names[i] in names;
        var k :| 0 <= k < |actions| && actions[k] == names[i];
        NodeIsSubtree(grants, actions[k], DatabaseResource(service, host, database));
      }
      if ShownByEvaluations(grants, service, host, actions, database) {
        var k :| 0 <= k < |actions|
                 && Decides(grants, Question(actions[k], DatabaseResource(service, host, database), Subtree));
        assert actions[k] in actions && actions[k] in names;
        var i :| 0 <= i < |names| && names[i] == actions[k];
        assert results[i] in results && Whole(results[i]);
        assert database in results[i].ids;
      }
    }
  }

  lemma NodeIsSubtree(grants: set<Grant>, action: string, r: Resource)
    requires Decides(grants, Question(action, r, OnNode))
    ensures Decides(grants, Question(action, r, Subtree))
  {
    var g :| g in grants && g.action == action && g.node <= Chain(r);
    var q := Question(action, r, Subtree);
    assert g.action == q.action && g.node <= Chain(q.resource);
  }

  lemma NoHostGrant(grants: set<Grant>, service: string, host: string, actions: seq<string>, names: seq<string>,
                    decisions: seq<Decision>)
    requires forall a :: a in names <==> a in actions
    requires FaithfulDecisions(grants, HostQuestions(service, host, names), decisions) && |decisions| == |names|
    requires forall d | d in decisions :: !d.failed && !d.allowed
    ensures forall a | a in actions :: !Decides(grants, Question(a, HostResource(service, host), OnNode))
  {
    hide Decides;
    var questions := HostQuestions(service, host, names);
    forall a | a in actions ensures !Decides(grants, Question(a, HostResource(service, host), OnNode)) {
      assert a in names;
      var i :| 0 <= i < |names| && names[i] == a;
      assert decisions[i] in decisions && questions[i] == Question(a, HostResource(service, host), OnNode);
    }
  }
}
