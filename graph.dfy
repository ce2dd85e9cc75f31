/*
 * The Cypher statements src/graph/common.go sends to the graph database for
 * one definition (a MERGE on its class and ID that sets every field) and for
 * one reference (a directed edge between two existing nodes).
 */
module Graph {
  import opened Definition
  import opened Strings

  /** `MERGE (n:class {ID:$ID})` (common.go:28). */
  function MergePrefix(cls: string): string
  {
    "MERGE (n:" + cls + " {ID:$ID})"
  }

  /** `n.f=$f`: the field set from the query parameter of the same name (common.go:29). */
  function FieldAssignment(field: string): (r: string)
    ensures |r| == 4 + 2 * |field| && r[..2] == "n." && r[2..2 + |field|] == field
  {
    "n." + field + "=$" + field
  }

  function Assignments(order: seq<string>): (r: seq<string>)
    ensures |r| == |order|
    ensures forall i | 0 <= i < |r| :: r[i] == FieldAssignment(order[i])
  {
    seq(|order|, i requires 0 <= i < |order| => FieldAssignment(order[i]))
  }

  /** `order` lists every element of `keys` once: an order a Go map range may visit its keys in. */
  ghost predicate Enumerates(order: seq<string>, keys: set<string>)
  {
    && (forall i, j | 0 <= i < j < |order| :: order[i] != order[j])
    && (forall f :: f in order <==> f in keys)
  }

  /** The statement for a definition whose fields are visited in `order`. */
  function DefinitionCypher(cls: string, order: seq<string>): string
  {
    MergePrefix(cls) + (if |order| == 0 then "" else " SET " + Join(Assignments(order), ","))
  }

  /**
   * getDefinitionCypherString (common.go:87-103): the MERGE prefix, then,
   * when there are fields, " SET " and one assignment per field,
   * comma-separated, in map-iteration order (`order`, which the contract
   * leaves open). Only the field names are used, never the values.
   */
  method GetDefinitionCypherString(cls: string, fields: Fields) returns (cypher: string, ghost order: seq<string>)
    ensures Enumerates(order, fields.Keys)
    ensures cypher == DefinitionCypher(cls, order)
    ensures |fields| == 0 ==> cypher == MergePrefix(cls)
    ensures forall f | f in fields :: IsSubstring(FieldAssignment(f), cypher)
  {
    cypher := MergePrefix(cls);
    order := [];
    var firstValue := true;
    var pending := fields.Keys;
    while pending != {}
      invariant pending <= fields.Keys
      invariant Enumerates(order, fields.Keys - pending)
      invariant firstValue <==> |order| == 0
      invariant cypher == DefinitionCypher(cls, order)
      decreases pending
    {
      var fieldName :| fieldName in pending;
      AssignmentStep(cls, order, fieldName);
      if !firstValue {
        cypher := cypher + ",";
      } else {
        cypher := cypher + " SET ";
        firstValue := false;
      }
      cypher := cypher + FieldAssignment(fieldName);
      order := order + [fieldName];
      pending := pending - {fieldName};
    }
    assert fields.Keys - pending == fields.Keys;
    if |fields| == 0 {
      NoFieldsBarePrefix(cls, order);
    }
    forall f | f in fields ensures IsSubstring(FieldAssignment(f), cypher) {
      EveryFieldAssigned(cls, fields.Keys, order, f);
    }
  }

  /** One more field appends " SET " and its assignment to a bare prefix, or "," and its assignment otherwise. */
  lemma AssignmentStep(cls: string, order: seq<string>, field: string)
    ensures |order| == 0 ==> DefinitionCypher(cls, order + [field]) == DefinitionCypher(cls, order) + " SET " + FieldAssignment(field)
    ensures |order| > 0 ==> DefinitionCypher(cls, order + [field]) == DefinitionCypher(cls, order) + "," + FieldAssignment(field)
  {
    var prefix := MergePrefix(cls);
    assert Assignments(order + [field]) == Assignments(order) + [FieldAssignment(field)];
    if |order| == 0 {
      assert Assignments(order + [field]) == [FieldAssignment(field)];
    } else {
      var joined := Join(Assignments(order), ",");
      JoinSnoc(Assignments(order), FieldAssignment(field), ",");
      assert " SET " + (joined + "," + FieldAssignment(field)) == " SET " + joined + "," + FieldAssignment(field);
      assert prefix + (" SET " + joined + "," + FieldAssignment(field)) == prefix + (" SET " + joined) + "," + FieldAssignment(field);
    }
  }

  /** A list with no repeats that names every key once is as long as the set of keys. */
  lemma {:induction false} EnumerationSize(order: seq<string>, keys: set<string>)
    requires Enumerates(order, keys)
    ensures |order| == |keys|
  {
    if |order| > 0 {
      var last := order[|order| - 1];
      var init := order[..|order| - 1];
      assert forall f :: f in init <==> f in keys - {last} by {
        forall f ensures f in init <==> f in keys - {last} {
          if f in init {
            var i :| 0 <= i < |init| && init[i] == f;
            assert order[i] == f && i < |order| - 1;
          }
          if f in keys - {last} {
            assert f in order;
            var i :| 0 <= i < |order| && order[i] == f;
            assert i != |order| - 1;
            assert init[i] == f;
          }
        }
      }
      EnumerationSize(init, keys - {last});
    } else {
      assert forall f :: f !in keys;
      assert keys == {};
    }
  }

  /** common_test.go:30-33: with no fields the statement is the bare MERGE prefix. */
  lemma NoFieldsBarePrefix(cls: string, order: seq<string>)
    requires Enumerates(order, {})
    ensures DefinitionCypher(cls, order) == MergePrefix(cls)
  {
    EnumerationSize(order, {});
  }

  /** common_test.go:35-39: with one field the statement is the prefix, " SET " and that field's assignment. */
  lemma OneFieldSet(cls: string, field: string, order: seq<string>)
    requires Enumerates(order, {field})
    ensures DefinitionCypher(cls, order) == MergePrefix(cls) + " SET " + FieldAssignment(field)
  {
    EnumerationSize(order, {field});
    assert field in order;
    assert order == [field];
    assert Assignments(order) == [FieldAssignment(field)];
  }

  /**
   * common_test.go:41-75: with k >= 1 fields, the statement is the prefix,
   * " SET " and a comma-separated list that, when no field name contains a
   * comma, splits back into exactly k assignments, one per field.
   */
  lemma SomeFieldsSplit(cls: string, keys: set<string>, order: seq<string>)
    requires Enumerates(order, keys) && keys != {}
    requires forall f | f in keys :: ',' !in f
    ensures var list := Join(Assignments(order), ",");
      DefinitionCypher(cls, order) == MergePrefix(cls) + " SET " + list
      && Split(list, ',') == Assignments(order)
      && |Split(list, ',')| == |keys|
  {
    EnumerationSize(order, keys);
    var parts := Assignments(order);
    forall k | 0 <= k < |parts| ensures ',' !in parts[k] {
      assert order[k] in keys;
      assert parts[k] == "n." + order[k] + "=$" + order[k];
    }
    SplitJoin(parts, ',');
  }

  /** common_test.go:54-55, 72-74: every field's assignment occurs in the statement. */
  lemma EveryFieldAssigned(cls: string, keys: set<string>, order: seq<string>, field: string)
    requires Enumerates(order, keys) && field in keys
    ensures IsSubstring(FieldAssignment(field), DefinitionCypher(cls, order))
  {
    var i :| 0 <= i < |order| && order[i] == field;
    var list := Join(Assignments(order), ",");
    JoinContainsElement(Assignments(order), ",", i);
    var k :| OccursAt(FieldAssignment(field), list, k);
    var front := MergePrefix(cls) + " SET ";
    assert DefinitionCypher(cls, order) == front + list;
    OccursAfterPrefix(FieldAssignment(field), front, list, k);
  }

  lemma OccursAfterPrefix(t: string, front: string, list: string, k: int)
    requires OccursAt(t, list, k)
    ensures OccursAt(t, front + list, |front| + k)
  {
    assert (front + list)[|front| + k..|front| + k + |t|] == list[k..k + |t|];
  }

  /** `MATCH (node:cls {ID:"id"})` on a fresh line. */
  function MatchNode(node: string, cls: string, id: string): string
  {
    "\n\t\tMATCH (" + node + ":" + cls + " {ID:\"" + id + "\"})"
  }

  /** `MERGE (n1)-[:rel]->(n2);` on a fresh line. */
  function MergeEdge(rel: string): string
  {
    "\n\t\tMERGE (n1)-[:" + rel + "]->(n2);"
  }

  /**
   * The edge statement (common.go:31-34, 105-107): it first matches the
   * definition's node by class and ID, then the referenced node, and ends by
   * merging a relationship directed from the first to the second.
   */
  function GetEdgeCypherString(cls: string, id: string, ref: Reference): (cypher: string)
    ensures var head := MatchNode("n1", cls, id);
      |head| <= |cypher| && cypher[..|head|] == head
    ensures var tail := MergeEdge(ref.relationship);
      |tail| <= |cypher| && cypher[|cypher| - |tail|..] == tail
  {
    var head, middle, tail := MatchNode("n1", cls, id), MatchNode("n2", ref.className, ref.id), MergeEdge(ref.relationship);
    assert (head + middle + tail)[..|head|] == head;
    assert (head + middle + tail)[|head + middle|..] == tail;
    head + middle + tail
  }

  /**
   * The edge always points from the definition to the referenced node: the
   * RelationshipFrom and RelationshipTo flags of the reference play no part,
   * and the statement ends with the directed merge.
   */
  lemma EdgeAlwaysDirected(cls: string, id: string, ref: Reference, from: bool, to: bool)
    ensures GetEdgeCypherString(cls, id, ref) == GetEdgeCypherString(cls, id, ref.(relationshipFrom := from, relationshipTo := to))
    ensures var edge := GetEdgeCypherString(cls, id, ref);
      var merge := MergeEdge(ref.relationship);
      |merge| <= |edge| && edge[|edge| - |merge|..] == merge
  {
  }
}
