/** The body of a batch is the JSON text of its questions: the text that the planner measures is what a JSON writer
    makes of the tree of the request (request_body and write_evaluation_item, src/access_pdp.cpp). */
module PdpBody {
  import opened Common
  import opened AccessResource
  import opened PdpModel
  import opened PdpPlan

  /** The JSON value of a request. A fixed text and the name of a field need no escapes. */
  datatype Tree = Text(text: string) | Fixed(text: string) | Object(fields: seq<Field>) | List(items: seq<Tree>)
  datatype Field = Field(name: string, value: Tree)

  /** The text of a value without spaces. */
  function Written(quote: Quote, v: Tree): string
    decreases v
  {
    match v
    case Text(text) => quote(text)
    case Fixed(text) => "\"" + text + "\""
    case Object(fields) =>
      "{" + WithCommas(seq(|fields|, i requires 0 <= i < |fields| => FieldText(quote, fields[i]))) + "}"
    case List(items) =>
      "[" + WithCommas(seq(|items|, i requires 0 <= i < |items| => Written(quote, items[i]))) + "]"
  }

  function FieldText(quote: Quote, f: Field): string
    decreases f
  {
    "\"" + f.name + "\":" + Written(quote, f.value)
  }

  function EntityTree(kind: string, id: string): Tree {
    Object([Field("type", Text(kind)), Field("id", Text(id))])
  }

  function AncestorTrees(nodes: seq<Node>): seq<Tree> {
    seq(|nodes|, i requires 0 <= i < |nodes| => EntityTree(nodes[i].kind, nodes[i].id))
  }

  /** A resource has its ancestors as a property, when it has any. */
  function ResourceTree(r: Resource): Tree {
    var entity := [Field("type", Text(r.kind)), Field("id", Text(r.id))];
    if r.ancestors == [] then Object(entity)
    else Object(entity + [Field("properties", Object([Field("ancestors", List(AncestorTrees(r.ancestors)))]))])
  }

  /** A question has the context of its match, when it is about a subtree. */
  function QuestionTree(q: Question): Tree {
    var fields := [Field("action", Object([Field("name", Text(q.action))])),
                   Field("resource", ResourceTree(q.resource))];
    if q.how == Subtree then Object(fields + [Field("context", Object([Field("match", Fixed("subtree"))]))])
    else Object(fields)
  }

  function QuestionTrees(questions: seq<Question>): seq<Tree> {
    seq(|questions|, i requires 0 <= i < |questions| => QuestionTree(questions[i]))
  }

  function BatchTree(subject: string, questions: seq<Question>): Tree {
    Object([Field("subject", EntityTree("user", subject)), Field("evaluations", List(QuestionTrees(questions)))])
  }

  // ---- the text of an object by its fields ----

  lemma OneField(quote: Quote, f: Field)
    ensures Written(quote, Object([f])) == "{" + FieldText(quote, f) + "}"
  {
    assert seq(1, i requires 0 <= i < 1 => FieldText(quote, [f][i])) == [FieldText(quote, f)];
  }

  lemma OneMoreField(quote: Quote, fields: seq<Field>, f: Field)
    requires fields != []
    ensures var before := Written(quote, Object(fields));
            && |before| >= 1
            && Written(quote, Object(fields + [f])) == before[..|before| - 1] + "," + FieldText(quote, f) + "}"
  {
    var all := fields + [f];
    var texts := seq(|fields|, i requires 0 <= i < |fields| => FieldText(quote, fields[i]));
    var more := seq(|all|, i requires 0 <= i < |all| => FieldText(quote, all[i]));
    assert more == texts + [FieldText(quote, f)];
    assert more[..|fields|] == texts;
    var before := Written(quote, Object(fields));
    assert before == "{" + WithCommas(texts) + "}";
    assert before[..|before| - 1] == "{" + WithCommas(texts);
    assert Written(quote, Object(all)) == "{" + WithCommas(more) + "}";
  }

  lemma TwoFields(quote: Quote, f: Field, g: Field)
    ensures Written(quote, Object([f, g])) == "{" + FieldText(quote, f) + "," + FieldText(quote, g) + "}"
  {
    OneField(quote, f);
    OneMoreField(quote, [f], g);
    assert [f] + [g] == [f, g];
  }

  lemma ThreeFields(quote: Quote, f: Field, g: Field, h: Field)
    ensures Written(quote, Object([f, g] + [h]))
         == "{" + FieldText(quote, f) + "," + FieldText(quote, g) + "," + FieldText(quote, h) + "}"
  {
    TwoFields(quote, f, g);
    OneMoreField(quote, [f, g], h);
  }

  // ---- the text of a request ----

  /** A member of the text is a field of the tree. */
  lemma MemberIsField(quote: Quote, name: string, value: Tree)
    ensures MemberJson(name, Written(quote, value)) == FieldText(quote, Field(name, value))
  {
    hide Written;
  }

  lemma TextIsQuoted(quote: Quote, name: string, text: string)
    ensures MemberJson(name, quote(text)) == FieldText(quote, Field(name, Text(text)))
  {
    MemberIsField(quote, name, Text(text));
  }

  lemma EntityIsWritten(quote: Quote, kind: string, id: string)
    ensures EntityJson(quote, kind, id) == Written(quote, EntityTree(kind, id))
  {
    hide MemberJson, FieldText, Written;
    TextIsQuoted(quote, "type", kind);
    TextIsQuoted(quote, "id", id);
    TwoFields(quote, Field("type", Text(kind)), Field("id", Text(id)));
  }

  lemma {:induction false} CommasPrepend(first: string, rest: seq<string>)
    requires rest != []
    ensures WithCommas([first] + rest) == first + "," + WithCommas(rest)
  {
    var all, last := [first] + rest, |rest| - 1;
    assert all[..|all| - 1] == [first] + rest[..last];
    if last > 0 {
      CommasPrepend(first, rest[..last]);
    }
  }

  lemma {:induction false} AncestorsAreWritten(quote: Quote, nodes: seq<Node>)
    ensures "[" + AncestorsJson(quote, nodes) + "]" == Written(quote, List(AncestorTrees(nodes)))
  {
    var trees := AncestorTrees(nodes);
    var texts := seq(|trees|, i requires 0 <= i < |trees| => Written(quote, trees[i]));
    AncestorTexts(quote, nodes, texts);
  }

  lemma {:induction false} AncestorTexts(quote: Quote, nodes: seq<Node>, texts: seq<string>)
    requires |texts| == |nodes|
    requires forall i | 0 <= i < |nodes| :: texts[i] == Written(quote, EntityTree(nodes[i].kind, nodes[i].id))
    ensures AncestorsJson(quote, nodes) == WithCommas(texts)
  {
    hide EntityJson, Written;
    if nodes != [] {
      EntityIsWritten(quote, nodes[0].kind, nodes[0].id);
      if |nodes| > 1 {
        AncestorTexts(quote, nodes[1..], texts[1..]);
        CommasPrepend(texts[0], texts[1..]);
        assert texts == [texts[0]] + texts[1..];
      }
    }
  }

  lemma ResourceIsWritten(quote: Quote, r: Resource)
    ensures ResourceJson(quote, r) == Written(quote, ResourceTree(r))
  {
    hide MemberJson, FieldText, Written, EntityJson, AncestorsJson;
    var kind, id := Field("type", Text(r.kind)), Field("id", Text(r.id));
    if r.ancestors == [] {
      EntityIsWritten(quote, r.kind, r.id);
    } else {
      var list := List(AncestorTrees(r.ancestors));
      var ancestors := Field("ancestors", list);
      TextIsQuoted(quote, "type", r.kind);
      TextIsQuoted(quote, "id", r.id);
      AncestorsAreWritten(quote, r.ancestors);
      MemberIsField(quote, "ancestors", list);
      OneField(quote, ancestors);
      MemberIsField(quote, "properties", Object([ancestors]));
      ThreeFields(quote, kind, id, Field("properties", Object([ancestors])));
    }
  }

  lemma QuestionIsWritten(quote: Quote, q: Question)
    ensures ItemJson(quote, q) == Written(quote, QuestionTree(q))
  {
    hide MemberJson, FieldText, ResourceJson, ResourceTree;
    var name, how := Field("name", Text(q.action)), Field("match", Fixed("subtree"));
    var action, resource := Field("action", Object([name])), Field("resource", ResourceTree(q.resource));
    TextIsQuoted(quote, "name", q.action);
    OneField(quote, name);
    MemberIsField(quote, "action", Object([name]));
    ResourceIsWritten(quote, q.resource);
    MemberIsField(quote, "resource", ResourceTree(q.resource));
    if q.how == Subtree {
      assert Written(quote, Fixed("subtree")) == "\"subtree\"";
      hide Written;
      MemberIsField(quote, "match", Fixed("subtree"));
      OneField(quote, how);
      MemberIsField(quote, "context", Object([how]));
      ThreeFields(quote, action, resource, Field("context", Object([how])));
      Between("{" + FieldText(quote, action) + "," + FieldText(quote, resource), ",",
              FieldText(quote, Field("context", Object([how]))));
    } else {
      hide Written;
      TwoFields(quote, action, resource);
    }
  }

  lemma Between(a: string, b: string, c: string)
    ensures a + (b + c) == a + b + c
  {
  }

  /** The text that the planner measures is the JSON text of the subject and the questions. */
  lemma BodyIsWritten(quote: Quote, subject: string, questions: seq<Question>)
    ensures BatchBody(quote, subject, questions) == Written(quote, BatchTree(subject, questions))
  {
    hide ItemJson, EntityJson, MemberJson, FieldText, Written;
    var trees := QuestionTrees(questions);
    forall i | 0 <= i < |questions| ensures ItemJson(quote, questions[i]) == Written(quote, trees[i]) {
      QuestionIsWritten(quote, questions[i]);
    }
    ListIsWritten(quote, trees, Items(quote, questions));
    MemberIsField(quote, "evaluations", List(trees));
    EntityIsWritten(quote, "user", subject);
    MemberIsField(quote, "subject", EntityTree("user", subject));
    TwoFields(quote, Field("subject", EntityTree("user", subject)), Field("evaluations", List(trees)));
  }

  lemma ListIsWritten(quote: Quote, trees: seq<Tree>, texts: seq<string>)
    requires |texts| == |trees| && forall i | 0 <= i < |trees| :: texts[i] == Written(quote, trees[i])
    ensures Written(quote, List(trees)) == "[" + WithCommas(texts) + "]"
  {
    assert texts == seq(|trees|, i requires 0 <= i < |trees| => Written(quote, trees[i]));
  }
}
