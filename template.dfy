/*
 * The query-string builders of src/parser/template.go: the Cypher query that
 * selects the definitions of one template section, with its order clause,
 * and the two small helpers the template engine is given.
 */
module Template {
  import opened Definition
  import opened Strings

  /** Which class a template section selects, and how it hangs off its parent (template.go:62-83). */
  datatype ClassFieldSelector = ClassFieldSelector(
    className: string,
    classAlias: string,
    fields: seq<string>,
    relationship: string,
    relationshipFrom: bool,
    relationshipTo: bool,
    orderFields: seq<string>)

  /** A section of a template: its class, the aggregate classes it pulls in and its nested sections (template.go:85-95). */
  datatype TemplateSection = TemplateSection(
    sectionClass: ClassFieldSelector,
    aggregateClasses: seq<ClassFieldSelector>,
    compositeSections: seq<TemplateSection>)

  // ---------------------------------------------------------------------
  // The order clause (template.go:109-119)
  // ---------------------------------------------------------------------

  /** `class.field` for each order field, in order. */
  function OrderTerms(className: string, orderFields: seq<string>): (r: seq<string>)
    ensures |r| == |orderFields|
    ensures forall i | 0 <= i < |r| :: r[i] == className + "." + orderFields[i]
  {
    seq(|orderFields|, i requires 0 <= i < |orderFields| => className + "." + orderFields[i])
  }

  /** The order terms, comma-separated; the class is used as given, untrimmed. */
  function OrderClause(section: TemplateSection): string
  {
    Join(OrderTerms(section.sectionClass.className, section.sectionClass.orderFields), ",")
  }

  /** getOrderClause: the first field on its own, every later one after a comma. */
  method GetOrderClause(section: TemplateSection) returns (orderClause: string)
    ensures orderClause == OrderClause(section)
  {
    var cls := section.sectionClass.className;
    var fields := section.sectionClass.orderFields;
    orderClause := "";
    for i := 0 to |fields|
      invariant orderClause == Join(OrderTerms(cls, fields[..i]), ",")
    {
      assert OrderTerms(cls, fields[..i + 1]) == OrderTerms(cls, fields[..i]) + [cls + "." + fields[i]];
      if i == 0 {
        orderClause := cls + "." + fields[i];
      } else {
        JoinSnoc(OrderTerms(cls, fields[..i]), cls + "." + fields[i], ",");
        orderClause := orderClause + "," + cls + "." + fields[i];
      }
    }
    assert fields[..|fields|] == fields;
  }

  /**
   * With no commas in the class or the order fields, the order clause splits
   * on commas back into exactly one `class.field` term per order field; with
   * no order fields it is empty.
   */
  lemma {:induction false} OrderClauseSplits(section: TemplateSection)
    requires ',' !in section.sectionClass.className
    requires forall i | 0 <= i < |section.sectionClass.orderFields| :: ',' !in section.sectionClass.orderFields[i]
    ensures |section.sectionClass.orderFields| == 0 ==> OrderClause(section) == ""
    ensures |section.sectionClass.orderFields| > 0 ==>
      Split(OrderClause(section), ',') == OrderTerms(section.sectionClass.className, section.sectionClass.orderFields)
  {
    var terms := OrderTerms(section.sectionClass.className, section.sectionClass.orderFields);
    if |terms| > 0 {
      forall k | 0 <= k < |terms| ensures ',' !in terms[k] {
        assert terms[k] == section.sectionClass.className + "." + section.sectionClass.orderFields[k];
      }
      SplitJoin(terms, ',');
    }
  }

  // ---------------------------------------------------------------------
  // The section query (template.go:121-163)
  // ---------------------------------------------------------------------

  /** The trimmed class alias, or the trimmed class when the alias is blank. */
  function Alias(sel: ClassFieldSelector): (r: string)
    ensures TrimSpace(sel.classAlias) != "" ==> r == TrimSpace(sel.classAlias)
    ensures TrimSpace(sel.classAlias) == "" ==> r == TrimSpace(sel.className)
  {
    var alias := TrimSpace(sel.classAlias);
    if alias == "" then TrimSpace(sel.className) else alias
  }

  /** `(name:label)`: a node pattern (the root match clause of template.go:43 uses the class for both). */
  function Node(name: string, nodeLabel: string): (r: string)
    ensures |r| == 3 + |name| + |nodeLabel| && r[0] == '('
  {
    "(" + name + ":" + nodeLabel + ")"
  }

  /** `(P:P {ID:"id"})`: the parent definition's node pattern. */
  function ParentNode(parent: string, id: string): (r: string)
    ensures |r| > 0 && r[0] == '('
  {
    "(" + parent + ":" + parent + " {ID:\"" + id + "\"})"
  }

  /** `-[:rel]-`: an undirected relationship pattern. */
  function Link(relationship: string): (r: string)
    ensures |r| == 5 + |relationship| && r[0] == '-'
  {
    "-[:" + relationship + "]-"
  }

  /**
   * The composite match clause of template.go:44: the section node, an
   * optional `<`, the relationship, an optional `>`, then the parent node.
   */
  function CompositeMatch(alias: string, cls: string, from: string, relationship: string, to: string,
                          parent: string, id: string): string
  {
    Node(alias, cls) + (from + (Link(relationship) + (to + ParentNode(parent, id))))
  }

  /**
   * The first part of the match clause: the section class on its own when
   * the parent class is blank, otherwise the section class linked to the
   * parent definition, with an arrow head on either side as the selector asks.
   */
  function MatchHead(parentClass: string, parentID: string, sel: ClassFieldSelector): string
  {
    var cls := TrimSpace(sel.className);
    var parent := TrimSpace(parentClass);
    if parent == "" then
      Node(cls, cls)
    else
      CompositeMatch(Alias(sel), cls, if sel.relationshipFrom then "<" else "", sel.relationship,
                     if sel.relationshipTo then ">" else "", parent, TrimSpace(parentID))
  }

  /** The optional match one aggregate class adds, from the (trimmed) section class. */
  function AggregateMatch(cls: string, agg: ClassFieldSelector): string
  {
    " optional match (" + cls + ":" + cls + ")-[:" + agg.relationship + "]-(" + agg.className + ":" + agg.className + ")"
  }

  function AggregateMatches(cls: string, aggs: seq<ClassFieldSelector>): (r: seq<string>)
    ensures |r| == |aggs|
    ensures forall i | 0 <= i < |r| :: r[i] == AggregateMatch(cls, aggs[i])
  {
    seq(|aggs|, i requires 0 <= i < |aggs| => AggregateMatch(cls, aggs[i]))
  }

  function AggregateNames(aggs: seq<ClassFieldSelector>): (r: seq<string>)
    ensures |r| == |aggs|
    ensures forall i | 0 <= i < |r| :: r[i] == aggs[i].className
  {
    seq(|aggs|, i requires 0 <= i < |aggs| => aggs[i].className)
  }

  /** The match clause: the head, then one optional match per aggregate class, in list order. */
  function MatchClause(parentClass: string, parentID: string, section: TemplateSection): string
  {
    MatchHead(parentClass, parentID, section.sectionClass)
    + Join(AggregateMatches(TrimSpace(section.sectionClass.className), section.aggregateClasses), "")
  }

  /** The return clause: the alias, then the aggregate class names, comma-separated. */
  function ReturnClause(section: TemplateSection): string
  {
    Join([Alias(section.sectionClass)] + AggregateNames(section.aggregateClasses), ",")
  }

  function SectionCypher(parentClass: string, parentID: string, section: TemplateSection): string
  {
    "match " + MatchClause(parentClass, parentID, section)
    + " return " + ReturnClause(section)
    + " order by " + OrderClause(section)
  }

  /** getCypherForSection: the match, return and order clauses put together; with no order fields it ends in "order by ". */
  method GetCypherForSection(parentClass: string, parentID: string, section: TemplateSection) returns (cypher: string)
    ensures cypher == SectionCypher(parentClass, parentID, section)
  {
    var sectionClass := TrimSpace(section.sectionClass.className);
    var sectionClassAlias := TrimSpace(section.sectionClass.classAlias);
    if sectionClassAlias == "" {
      sectionClassAlias := sectionClass;
    }
    var parent := TrimSpace(parentClass);
    var returnClause := sectionClassAlias;
    var orderClause := GetOrderClause(section);
    var relationshipFrom := "";
    if section.sectionClass.relationshipFrom {
      relationshipFrom := "<";
    }
    var relationshipTo := "";
    if section.sectionClass.relationshipTo {
      relationshipTo := ">";
    }
    var matchClause;
    if parent == "" {
      matchClause := Node(sectionClass, sectionClass);
    } else {
      matchClause := CompositeMatch(sectionClassAlias, sectionClass, relationshipFrom,
        section.sectionClass.relationship, relationshipTo, parent, TrimSpace(parentID));
    }
    assert sectionClassAlias == Alias(section.sectionClass);
    assert matchClause == MatchHead(parentClass, parentID, section.sectionClass);
    matchClause, returnClause := AddAggregates(sectionClass, matchClause, returnClause, section.aggregateClasses);
    cypher := "match " + matchClause + " return " + returnClause + " order by " + orderClause;
  }

  /**
   * The loop of template.go:153-160: each aggregate class, in list order,
   * appends its optional match to the match clause and `,name` to the return
   * clause.
   */
  method AddAggregates(sectionClass: string, head: string, alias: string, aggs: seq<ClassFieldSelector>)
    returns (matchClause: string, returnClause: string)
    ensures matchClause == head + Join(AggregateMatches(sectionClass, aggs), "")
    ensures returnClause == Join([alias] + AggregateNames(aggs), ",")
  {
    matchClause, returnClause := head, alias;
    for i := 0 to |aggs|
      invariant matchClause == head + Join(AggregateMatches(sectionClass, aggs[..i]), "")
      invariant returnClause == Join([alias] + AggregateNames(aggs[..i]), ",")
    {
      var aggregateMatchClause := AggregateMatch(sectionClass, aggs[i]);
      AggregateStep(sectionClass, alias, aggs, i);
      ConcatAssoc(head, Join(AggregateMatches(sectionClass, aggs[..i]), ""), aggregateMatchClause);
      matchClause := matchClause + aggregateMatchClause;
      returnClause := returnClause + "," + aggs[i].className;
    }
    assert aggs[..|aggs|] == aggs;
  }

  /** One more aggregate class appends its optional match to the match clause and its name to the return clause. */
  lemma AggregateStep(cls: string, alias: string, aggs: seq<ClassFieldSelector>, i: nat)
    requires i < |aggs|
    ensures Join(AggregateMatches(cls, aggs[..i + 1]), "") == Join(AggregateMatches(cls, aggs[..i]), "") + AggregateMatch(cls, aggs[i])
    ensures Join([alias] + AggregateNames(aggs[..i + 1]), ",") == Join([alias] + AggregateNames(aggs[..i]), ",") + "," + aggs[i].className
  {
    assert AggregateMatches(cls, aggs[..i + 1]) == AggregateMatches(cls, aggs[..i]) + [AggregateMatch(cls, aggs[i])];
    assert [alias] + AggregateNames(aggs[..i + 1]) == ([alias] + AggregateNames(aggs[..i])) + [aggs[i].className];
    if i > 0 {
      JoinSnoc(AggregateMatches(cls, aggs[..i]), AggregateMatch(cls, aggs[i]), "");
    }
    JoinSnoc([alias] + AggregateNames(aggs[..i]), aggs[i].className, ",");
  }

  /**
   * With a blank parent class the match clause starts with the section class
   * twice: the alias, the relationship, its direction and the parent ID play
   * no part in it.
   */
  lemma RootMatchIgnoresParentAndAlias(parentClass: string, parentID: string, parentID': string,
                                       sel: ClassFieldSelector, sel': ClassFieldSelector)
    requires TrimSpace(parentClass) == "" && TrimSpace(sel.className) == TrimSpace(sel'.className)
    ensures MatchHead(parentClass, parentID, sel) == MatchHead(parentClass, parentID', sel')
    ensures MatchHead(parentClass, parentID, sel) == "(" + TrimSpace(sel.className) + ":" + TrimSpace(sel.className) + ")"
  {
  }

  lemma ConcatAssoc(a: string, b: string, c: string)
    ensures (a + b) + c == a + (b + c)
  {
  }

  /**
   * In a composite match clause, the character after the section node is `<`
   * exactly when the `from` arrow head is asked for, and the character after
   * the relationship pattern is `>` exactly when the `to` arrow head is.
   */
  lemma CompositeDirection(alias: string, cls: string, from: bool, relationship: string, to: bool, parent: string, id: string)
    ensures var head := CompositeMatch(alias, cls, if from then "<" else "", relationship, if to then ">" else "", parent, id);
      var afterNode := 3 + |alias| + |cls|;
      var afterLink := afterNode + (if from then 1 else 0) + 5 + |relationship|;
      afterLink < |head| && (head[afterNode] == '<' <==> from) && (head[afterLink] == '>' <==> to)
  {
    var open := Node(alias, cls);
    var fromHead := if from then "<" else "";
    var link := Link(relationship);
    var rest3 := (if to then ">" else "") + ParentNode(parent, id);
    var rest2 := link + rest3;
    var rest1 := fromHead + rest2;
    assert rest3[0] == (if to then '>' else '(');
    assert rest2[|link|] == rest3[0];
    assert rest1[0] == (if from then '<' else '-');
    assert rest1[|fromHead| + |link|] == rest2[|link|];
    assert (open + rest1)[|open|] == rest1[0];
    assert (open + rest1)[|open| + |fromHead| + |link|] == rest1[|fromHead| + |link|];
  }

  /**
   * With a parent class, the link is drawn pointing at the section class
   * exactly when RelationshipFrom is set, and pointing at the parent exactly
   * when RelationshipTo is set; the two are independent.
   */
  lemma LinkedMatchDirection(parentClass: string, parentID: string, sel: ClassFieldSelector)
    requires TrimSpace(parentClass) != ""
    ensures var head := MatchHead(parentClass, parentID, sel);
      var afterNode := 3 + |Alias(sel)| + |TrimSpace(sel.className)|;
      var afterLink := afterNode + (if sel.relationshipFrom then 1 else 0) + 5 + |sel.relationship|;
      afterLink < |head| && (head[afterNode] == '<' <==> sel.relationshipFrom) && (head[afterLink] == '>' <==> sel.relationshipTo)
  {
    CompositeDirection(Alias(sel), TrimSpace(sel.className), sel.relationshipFrom, sel.relationship,
                       sel.relationshipTo, TrimSpace(parentClass), TrimSpace(parentID));
  }

  /** The parent node of a composite match head: the trimmed parent class twice and the trimmed parent ID, at the very end. */
  lemma LinkedMatchEndsWithParent(parentClass: string, parentID: string, sel: ClassFieldSelector)
    requires TrimSpace(parentClass) != ""
    ensures var head := MatchHead(parentClass, parentID, sel);
      var node := ParentNode(TrimSpace(parentClass), TrimSpace(parentID));
      |node| <= |head| && head[|head| - |node|..] == node
  {
    var open := Node(Alias(sel), TrimSpace(sel.className));
    var from := if sel.relationshipFrom then "<" else "";
    var link := Link(sel.relationship);
    var to := if sel.relationshipTo then ">" else "";
    var node := ParentNode(TrimSpace(parentClass), TrimSpace(parentID));
    assert MatchHead(parentClass, parentID, sel) == open + (from + (link + (to + node)));
    ConcatAssoc(to, node, []);
    ConcatAssoc(link, to, node);
    ConcatAssoc(from, link + to, node);
    ConcatAssoc(open, from + (link + to), node);
    var front := open + (from + (link + to));
    assert open + (from + (link + (to + node))) == front + node;
    assert (front + node)[|front|..] == node;
  }

  /**
   * Adding an aggregate class at the end of the list appends exactly its
   * optional match to the match clause and `,name` to the return clause.
   */
  lemma AddAggregate(parentClass: string, parentID: string, section: TemplateSection, agg: ClassFieldSelector)
    ensures var section' := section.(aggregateClasses := section.aggregateClasses + [agg]);
      MatchClause(parentClass, parentID, section') ==
        MatchClause(parentClass, parentID, section) + AggregateMatch(TrimSpace(section.sectionClass.className), agg)
    ensures var section' := section.(aggregateClasses := section.aggregateClasses + [agg]);
      ReturnClause(section') == ReturnClause(section) + "," + agg.className
  {
    var aggs := section.aggregateClasses + [agg];
    var cls := TrimSpace(section.sectionClass.className);
    var section' := section.(aggregateClasses := aggs);
    assert aggs[..|aggs|] == aggs && aggs[..|aggs| - 1] == section.aggregateClasses;
    AggregateStep(cls, Alias(section.sectionClass), aggs, |aggs| - 1);
    var head := MatchHead(parentClass, parentID, section.sectionClass);
    var matches := Join(AggregateMatches(cls, section.aggregateClasses), "");
    assert MatchClause(parentClass, parentID, section') == head + (matches + AggregateMatch(cls, agg));
    ConcatAssoc(head, matches, AggregateMatch(cls, agg));
  }

  /**
   * With no commas in the names, the return clause splits on commas back
   * into the alias followed by the aggregate class names, in list order.
   */
  lemma ReturnClauseSplits(section: TemplateSection)
    requires ',' !in Alias(section.sectionClass)
    requires forall i | 0 <= i < |section.aggregateClasses| :: ',' !in section.aggregateClasses[i].className
    ensures Split(ReturnClause(section), ',') == [Alias(section.sectionClass)] + AggregateNames(section.aggregateClasses)
  {
    var names := [Alias(section.sectionClass)] + AggregateNames(section.aggregateClasses);
    forall k | 0 <= k < |names| ensures ',' !in names[k] {
      if k > 0 {
        assert names[k] == section.aggregateClasses[k - 1].className;
      }
    }
    SplitJoin(names, ',');
  }

  /** template_test.go:29-87: the order clauses the tests pin. */
  method OrderClauseCases() returns (single: string, multiple: string, none: string)
    ensures single == "class1.field1"
    ensures multiple == "class2.field1,class2.field2"
    ensures none == ""
  {
    single := GetOrderClause(TemplateSection(ClassFieldSelector("class1", "", [], "", false, false, ["field1"]), [], []));
    multiple := GetOrderClause(TemplateSection(ClassFieldSelector("class2", "", [], "", false, false, ["field1", "field2"]), [], []));
    none := GetOrderClause(TemplateSection(ClassFieldSelector("class3", "", [], "", false, false, []), [], []));
  }

  /** A name that trimming leaves as it is. */
  predicate Trimmed(s: string)
  {
    s != [] && !IsSpace(s[0]) && !IsSpace(s[|s| - 1])
  }

  /** With no aggregate classes the match clause is its head and the return clause the alias alone. */
  lemma NoAggregates(parentClass: string, parentID: string, section: TemplateSection)
    requires section.aggregateClasses == []
    ensures MatchClause(parentClass, parentID, section) == MatchHead(parentClass, parentID, section.sectionClass)
    ensures ReturnClause(section) == Alias(section.sectionClass)
  {
    assert [Alias(section.sectionClass)] + AggregateNames([]) == [Alias(section.sectionClass)];
  }

  lemma JoinTwo(a: string, b: string)
    ensures Join([a, b], ",") == a + "," + b
  {
    assert [a, b][1..] == [b];
  }

  /** Two order fields give two comma-separated `class.field` terms. */
  lemma TwoOrderFields(section: TemplateSection, f1: string, f2: string)
    requires section.sectionClass.orderFields == [f1, f2]
    ensures var cls := section.sectionClass.className;
      OrderClause(section) == cls + "." + f1 + "," + cls + "." + f2
  {
    var cls := section.sectionClass.className;
    var first := cls + "." + f1 + ",";
    assert OrderTerms(cls, [f1, f2]) == [cls + "." + f1, cls + "." + f2];
    JoinTwo(cls + "." + f1, cls + "." + f2);
    ConcatAssoc(first, cls + ".", f2);
    ConcatAssoc(first, cls, ".");
  }

  /**
   * template_test.go:107-121, for any class and order fields: a root section
   * with no alias and no aggregates selects its class, returns it and orders
   * by its two fields.
   */
  method RootSectionCypherCase(cls: string, f1: string, f2: string) returns (cypher: string)
    requires Trimmed(cls)
    ensures cypher == "match " + Node(cls, cls) + " return " + cls + " order by " + (cls + "." + f1 + "," + cls + "." + f2)
  {
    var section := TemplateSection(ClassFieldSelector(cls, "", [], "", false, false, [f1, f2]), [], []);
    TrimmedUnchanged(cls);
    TrimmedUnchanged("");
    NoAggregates("", "", section);
    TwoOrderFields(section, f1, f2);
    cypher := GetCypherForSection("", "", section);
  }

  /** Without arrow heads a composite match is the section node, the link and the parent node. */
  lemma UndirectedComposite(alias: string, cls: string, relationship: string, parent: string, id: string)
    ensures CompositeMatch(alias, cls, "", relationship, "", parent, id) == Node(alias, cls) + Link(relationship) + ParentNode(parent, id)
  {
    var parentNode := ParentNode(parent, id);
    var link := Link(relationship);
    assert "" + parentNode == parentNode;
    assert "" + (link + parentNode) == link + parentNode;
    ConcatAssoc(Node(alias, cls), link, parentNode);
  }

  /** With a trimmed parent, no alias and no arrow heads, the match head is the section node, the link and the parent node. */
  lemma PlainLinkedHead(parent: string, id: string, sel: ClassFieldSelector)
    requires Trimmed(sel.className) && Trimmed(parent) && Trimmed(id)
    requires sel.classAlias == "" && !sel.relationshipFrom && !sel.relationshipTo
    ensures MatchHead(parent, id, sel) == Node(sel.className, sel.className) + Link(sel.relationship) + ParentNode(parent, id)
  {
    TrimmedUnchanged(sel.className);
    TrimmedUnchanged(parent);
    TrimmedUnchanged(id);
    TrimmedUnchanged(sel.classAlias);
    LinkedHeadIsComposite(parent, id, sel);
    UndirectedComposite(sel.className, sel.className, sel.relationship, parent, id);
  }

  /** A match head under a parent that trimming leaves as it is, for a selector without alias or arrow heads. */
  lemma LinkedHeadIsComposite(parent: string, id: string, sel: ClassFieldSelector)
    requires TrimSpace(sel.className) == sel.className && TrimSpace(sel.classAlias) == ""
    requires TrimSpace(parent) == parent != "" && TrimSpace(id) == id
    requires !sel.relationshipFrom && !sel.relationshipTo
    ensures MatchHead(parent, id, sel) == CompositeMatch(sel.className, sel.className, "", sel.relationship, "", parent, id)
  {
  }

  /**
   * template_test.go:91-106, for any names: a section under a parent class,
   * with no alias, no arrow heads and no aggregates, is matched through its
   * relationship to the parent definition.
   */
  method ParentSectionCypherCase(cls: string, relationship: string, parent: string, id: string, f1: string, f2: string)
    returns (cypher: string)
    requires Trimmed(cls) && Trimmed(parent) && Trimmed(id)
    ensures cypher == "match " + (Node(cls, cls) + Link(relationship) + ParentNode(parent, id))
      + " return " + cls + " order by " + (cls + "." + f1 + "," + cls + "." + f2)
  {
    var section := TemplateSection(ClassFieldSelector(cls, "", [], relationship, false, false, [f1, f2]), [], []);
    TrimmedUnchanged(cls);
    TrimmedUnchanged("");
    PlainLinkedHead(parent, id, section.sectionClass);
    NoAggregates(parent, id, section);
    TwoOrderFields(section, f1, f2);
    cypher := GetCypherForSection(parent, id, section);
  }

  // ---------------------------------------------------------------------
  // Template helpers (template.go:193-198, 237-244)
  // ---------------------------------------------------------------------

  /** contains: whether `x` is one of the elements of `a`, stopping at the first match. */
  method Contains(a: seq<string>, x: string) returns (found: bool)
    ensures found <==> x in a
  {
    for i := 0 to |a|
      invariant x !in a[..i]
    {
      if x == a[i] {
        return true;
      }
    }
    assert a[..|a|] == a;
    return false;
  }

  /** nilToStr: nil becomes the empty string, anything else is passed through; the result is never nil. */
  function NilToStr(v: Value): (r: Value)
    ensures r != Nil
    ensures v != Nil ==> r == v
    ensures v == Nil ==> r == Str("")
  {
    if v == Nil then Str("") else v
  }
}
