/*
 * The dictionary builder of src/parser/parse.go: loadSpecification merges one
 * decoded Specification tree into the shared Dictionary, in place, and
 * LoadDictionary folds it over every decoded document.
 *
 * Go ranges over maps in an unspecified order. Every loop over a map here
 * picks its next key with `:|`, so the methods are proved for every order, and
 * their contracts state only what holds whatever the order was.
 */
module Loader {
  import opened Definition

  /** parse.go's DictionaryDefinition: a definition flattened into the dictionary. */
  datatype Record = Record(fields: Fields, references: seq<Reference>)

  /** The contents of a Dictionary: class name, then definition ID, to record. */
  type Classes = map<string, map<string, Record>>

  /** A (class, ID) pair: the identity of a record. */
  type Key = (string, string)

  /** What loadSpecification and ValidateDictionary return: nil, or an error carrying the number of problems found. */
  datatype Outcome = Ok | ErrorsFound(count: nat)

  function FromCount(n: nat): (r: Outcome)
    ensures r.ErrorsFound? <==> n > 0
    ensures r.ErrorsFound? ==> r.count == n
  {
    if n > 0 then ErrorsFound(n) else Ok
  }

  function ErrorCount(r: Outcome): nat
  {
    if r.ErrorsFound? then r.count else 0
  }

  /** Every (class, ID) pair that has a record. */
  ghost function Keys(c: Classes): set<Key>
  {
    set cls, id | cls in c && id in c[cls] :: (cls, id)
  }

  // ---------------------------------------------------------------------
  // The shape of a specification tree
  // ---------------------------------------------------------------------

  /** `s.Definitions[id].SubDefinitions[rel]` exists. */
  predicate IsChild(s: Specification, id: string, rel: string)
  {
    id in s.definitions && rel in s.definitions[id].subDefinitions
  }

  function Sub(s: Specification, id: string, rel: string): Specification
    requires IsChild(s, id, rel)
  {
    s.definitions[id].subDefinitions[rel]
  }

  /** The reference synthesised for the definitions of the sub-specification reached through (id, rel). */
  function ParentRef(s: Specification, id: string, rel: string): Reference
  {
    Reference(s.className, id, rel, false, false)
  }

  function RefList(parentRef: Option<Reference>): seq<Reference>
  {
    if parentRef.Some? then [parentRef.value] else []
  }

  /** Every (definition ID, relationship) through which a sub-specification is reached. */
  ghost function ChildEntries(s: Specification): set<(string, string)>
  {
    set id, rel | id in s.definitions && rel in s.definitions[id].subDefinitions :: (id, rel)
  }

  /** The keys a call inserts before it recurses. */
  ghost function TopKeys(s: Specification): set<Key>
  {
    set id | id in s.definitions :: (s.className, id)
  }

  /** Every key inserted anywhere in the tree. */
  ghost function Inserted(s: Specification): set<Key>
    decreases s, 1
  {
    TopKeys(s) + InsertedBy(s, ChildEntries(s))
  }

  /** The keys inserted by the sub-specifications reached through the entries `D`. */
  ghost function InsertedBy(s: Specification, D: set<(string, string)>): set<Key>
    decreases s, 0
  {
    set e, k | e in D && e.0 in s.definitions && e.1 in s.definitions[e.0].subDefinitions
      && k in Inserted(s.definitions[e.0].subDefinitions[e.1]) :: k
  }

  /** Every class whose bucket the tree creates or touches. */
  ghost function SpecClasses(s: Specification): set<string>
    decreases s, 1
  {
    {s.className} + ClassesBy(s, ChildEntries(s))
  }

  ghost function ClassesBy(s: Specification, D: set<(string, string)>): set<string>
    decreases s, 0
  {
    set e, c | e in D && e.0 in s.definitions && e.1 in s.definitions[e.0].subDefinitions
      && c in SpecClasses(s.definitions[e.0].subDefinitions[e.1]) :: c
  }

  /**
   * Merging `s` into a dictionary holding the keys `K` reports no duplicate:
   * none of its own keys is in `K`, and each sub-specification merges cleanly
   * into `K` plus those keys, with no key shared between two sub-specifications.
   */
  ghost predicate Clean(s: Specification, K: set<Key>)
    decreases s, 1
  {
    TopKeys(s) !! K && ChildrenClean(s, ChildEntries(s), K + TopKeys(s))
  }

  ghost predicate ChildrenClean(s: Specification, D: set<(string, string)>, K: set<Key>)
    decreases s, 0
  {
    && (forall e | e in D && e.0 in s.definitions && e.1 in s.definitions[e.0].subDefinitions ::
          Clean(s.definitions[e.0].subDefinitions[e.1], K))
    && (forall e, e' | e in D && e' in D && e != e' && IsChild(s, e.0, e.1) && IsChild(s, e'.0, e'.1) ::
          Inserted(Sub(s, e.0, e.1)) !! Inserted(Sub(s, e'.0, e'.1)))
  }

  /** The record a definition of `s` holds once its own call has finished with it (before any recursion). */
  function Initial(s: Specification, parentRef: Option<Reference>, id: string): Record
    requires id in s.definitions
  {
    Record(s.definitions[id].fields, s.definitions[id].references + s.references + RefList(parentRef))
  }

  /** Somewhere in the tree, a call with this parent reference gives key `k` the record `rec`. */
  ghost predicate Placed(s: Specification, parentRef: Option<Reference>, k: Key, rec: Record)
    decreases s
  {
    || (k.0 == s.className && k.1 in s.definitions && rec == Initial(s, parentRef, k.1))
    || exists id, rel | id in s.definitions && rel in s.definitions[id].subDefinitions ::
         Placed(s.definitions[id].subDefinitions[rel], Some(ParentRef(s, id, rel)), k, rec)
  }

  /** The dictionary holds `rec`'s fields for `k`, and `rec`'s references start its reference list. */
  ghost predicate Holds(c: Classes, k: Key, rec: Record)
  {
    k.0 in c && k.1 in c[k.0] && c[k.0][k.1].fields == rec.fields && rec.references <= c[k.0][k.1].references
  }

  /** Every record of `c` outside `T` is still in `c'` with the same fields and references only appended to. */
  ghost predicate Preserved(c: Classes, c': Classes, T: set<Key>)
  {
    forall cls, id | cls in c && id in c[cls] && (cls, id) !in T ::
      Holds(c', (cls, id), c[cls][id])
  }

  // ---------------------------------------------------------------------
  // The bucket updates of one call
  // ---------------------------------------------------------------------

  /** The records made from `defs` (parse.go:105-108). */
  function NewRecords(defs: map<string, Definition>): map<string, Record>
  {
    map id | id in defs :: Record(defs[id].fields, defs[id].references)
  }

  /** `bucket` with `refs` appended to the reference list of each record whose ID is in `ids`. */
  function AppendTo(bucket: map<string, Record>, ids: set<string>, refs: seq<Reference>): map<string, Record>
  {
    map id | id in bucket :: if id in ids then bucket[id].(references := bucket[id].references + refs) else bucket[id]
  }

  class Dictionary {
    var classes: Classes

    constructor ()
      ensures classes == map[]
    {
      classes := map[];
    }

    /** Creates the class bucket on first sight of the class (parse.go:91-94). */
    method AddClass(cls: string)
      modifies this
      ensures classes == if cls in old(classes) then old(classes) else old(classes)[cls := map[]]
    {
      if cls !in classes {
        classes := classes[cls := map[]];
      }
    }

    /** Inserts or overwrites a record per definition and counts the IDs that were already there (parse.go:97-109). */
    method InsertDefinitions(cls: string, defs: map<string, Definition>) returns (duplicates: nat)
      requires cls in classes
      modifies this
      ensures classes == old(classes)[cls := old(classes)[cls] + NewRecords(defs)]
      ensures duplicates == |defs.Keys * old(classes)[cls].Keys|
    {
      var bucket := classes[cls];
      ghost var b0 := bucket;
      ghost var recs := NewRecords(defs);
      var ids := defs.Keys;
      duplicates := 0;
      InsertStart(b0, recs, defs);
      while ids != {}
        invariant ids <= recs.Keys
        invariant classes == old(classes)
        invariant bucket == b0 + (recs - ids)
        invariant duplicates == |(recs.Keys - ids) * b0.Keys|
        decreases ids
      {
        var id :| id in ids;
        InsertStep(b0, recs, ids, id, bucket, duplicates);
        if id in bucket {
          duplicates := duplicates + 1;
        }
        bucket := bucket[id := Record(defs[id].fields, defs[id].references)];
        ids := ids - {id};
      }
      InsertEnd(b0, recs, defs);
      classes := classes[cls := bucket];
    }

    /** Appends one reference to each record of the class whose ID is in `ids`. */
    method AppendToEach(cls: string, ids: set<string>, ref: Reference)
      requires cls in classes && ids <= classes[cls].Keys
      modifies this
      ensures classes == old(classes)[cls := AppendTo(old(classes)[cls], ids, [ref])]
    {
      ghost var bucket0 := classes[cls];
      var pending := ids;
      AppendNothing(bucket0, [ref]);
      assert ids - pending == {};
      while pending != {}
        invariant pending <= ids
        invariant classes == old(classes)[cls := AppendTo(bucket0, ids - pending, [ref])]
        decreases pending
      {
        var id :| id in pending;
        AppendOneMore(bucket0, ids - pending, id, [ref]);
        assert ids - (pending - {id}) == (ids - pending) + {id};
        classes := classes[cls := classes[cls][id := classes[cls][id].(references := classes[cls][id].references + [ref])]];
        pending := pending - {id};
      }
      assert ids - pending == ids;
    }

    /** Appends each specification-scoped reference, in order, to every record of the class (parse.go:112-116). */
    method AppendReferences(cls: string, refs: seq<Reference>)
      requires cls in classes
      modifies this
      ensures classes == old(classes)[cls := AppendTo(old(classes)[cls], old(classes)[cls].Keys, refs)]
    {
      ghost var bucket0 := classes[cls];
      AppendNone(bucket0, bucket0.Keys);
      assert refs[..0] == [];
      for i := 0 to |refs|
        invariant classes == old(classes)[cls := AppendTo(bucket0, bucket0.Keys, refs[..i])]
      {
        AppendToEach(cls, classes[cls].Keys, refs[i]);
        AppendTwice(bucket0, refs[..i], [refs[i]]);
        assert refs[..i + 1] == refs[..i] + [refs[i]];
      }
      assert refs[..|refs|] == refs;
    }
  }

  lemma InsertStart(b0: map<string, Record>, recs: map<string, Record>, defs: map<string, Definition>)
    requires recs == NewRecords(defs)
    ensures recs.Keys == defs.Keys
    ensures b0 == b0 + (recs - defs.Keys)
    ensures 0 == |(recs.Keys - defs.Keys) * b0.Keys|
  {
    assert recs.Keys == defs.Keys;
    var none := recs - defs.Keys;
    assert none.Keys == {};
    assert none == map[];
    assert b0 + none == b0;
    assert recs.Keys - defs.Keys == {};
  }

  lemma InsertEnd(b0: map<string, Record>, recs: map<string, Record>, defs: map<string, Definition>)
    requires recs == NewRecords(defs)
    ensures b0 + (recs - {}) == b0 + NewRecords(defs)
    ensures recs.Keys - {} == defs.Keys
  {
    assert recs - {} == recs;
  }

  /** One iteration of the insertion loop keeps its invariant. */
  lemma InsertStep(b0: map<string, Record>, recs: map<string, Record>, ids: set<string>, id: string,
                   bucket: map<string, Record>, duplicates: nat)
    requires id in ids && ids <= recs.Keys
    requires bucket == b0 + (recs - ids)
    requires duplicates == |(recs.Keys - ids) * b0.Keys|
    ensures id in bucket <==> id in b0
    ensures bucket[id := recs[id]] == b0 + (recs - (ids - {id}))
    ensures duplicates + (if id in b0 then 1 else 0) == |(recs.Keys - (ids - {id})) * b0.Keys|
  {
    MergeStep(b0, recs, ids, id);
    CountStep(recs.Keys, ids, b0.Keys, id);
  }

  lemma MergeStep(b0: map<string, Record>, recs: map<string, Record>, ids: set<string>, id: string)
    requires id in ids && id in recs
    ensures id in b0 + (recs - ids) <==> id in b0
    ensures (b0 + (recs - ids))[id := recs[id]] == b0 + (recs - (ids - {id}))
  {
    var lhs := (b0 + (recs - ids))[id := recs[id]];
    var rhs := b0 + (recs - (ids - {id}));
    assert lhs.Keys == rhs.Keys;
    forall k | k in lhs ensures lhs[k] == rhs[k] {
    }
  }

  lemma CountStep(all: set<string>, ids: set<string>, B: set<string>, id: string)
    requires id in ids && ids <= all
    ensures |(all - (ids - {id})) * B| == |(all - ids) * B| + (if id in B then 1 else 0)
  {
    var done := all - ids;
    assert all - (ids - {id}) == done + {id};
    if id in B {
      assert (done + {id}) * B == (done * B) + {id};
    } else {
      assert (done + {id}) * B == done * B;
    }
  }

  lemma AppendNothing(bucket: map<string, Record>, refs: seq<Reference>)
    ensures AppendTo(bucket, {}, refs) == bucket
  {
  }

  lemma AppendNone(bucket: map<string, Record>, ids: set<string>)
    ensures AppendTo(bucket, ids, []) == bucket
  {
    forall id | id in bucket ensures AppendTo(bucket, ids, [])[id] == bucket[id] {
      assert bucket[id].references + [] == bucket[id].references;
    }
  }

  lemma AppendOneMore(bucket: map<string, Record>, ids: set<string>, id: string, refs: seq<Reference>)
    requires id in bucket && id !in ids
    ensures var b := AppendTo(bucket, ids, refs);
      AppendTo(bucket, ids + {id}, refs) == b[id := b[id].(references := b[id].references + refs)]
  {
  }

  lemma AppendTwice(bucket: map<string, Record>, refs1: seq<Reference>, refs2: seq<Reference>)
    ensures var b := AppendTo(bucket, bucket.Keys, refs1);
      AppendTo(b, b.Keys, refs2) == AppendTo(bucket, bucket.Keys, refs1 + refs2)
  {
    var b := AppendTo(bucket, bucket.Keys, refs1);
    forall id | id in bucket ensures AppendTo(b, b.Keys, refs2)[id] == AppendTo(bucket, bucket.Keys, refs1 + refs2)[id] {
      assert bucket[id].references + refs1 + refs2 == bucket[id].references + (refs1 + refs2);
    }
  }


  // ---------------------------------------------------------------------
  // Facts about specification trees
  // ---------------------------------------------------------------------

  lemma InsertedByStep(s: Specification, D: set<(string, string)>, id: string, rel: string)
    requires IsChild(s, id, rel)
    ensures InsertedBy(s, D + {(id, rel)}) == InsertedBy(s, D) + Inserted(Sub(s, id, rel))
  {
    var ch := Sub(s, id, rel);
    forall k | k in Inserted(ch) ensures k in InsertedBy(s, D + {(id, rel)}) {
      var e := (id, rel);
      assert e in D + {(id, rel)} && k in Inserted(s.definitions[e.0].subDefinitions[e.1]);
    }
  }

  lemma ClassesByStep(s: Specification, D: set<(string, string)>, id: string, rel: string)
    requires IsChild(s, id, rel)
    ensures ClassesBy(s, D + {(id, rel)}) == ClassesBy(s, D) + SpecClasses(Sub(s, id, rel))
  {
    var ch := Sub(s, id, rel);
    forall c | c in SpecClasses(ch) ensures c in ClassesBy(s, D + {(id, rel)}) {
      var e := (id, rel);
      assert e in D + {(id, rel)} && c in SpecClasses(s.definitions[e.0].subDefinitions[e.1]);
    }
  }

  /** Merging into more keys is clean exactly when merging into fewer is and the tree's keys avoid the extra ones. */
  lemma {:induction false} CleanSplit(s: Specification, A: set<Key>, B: set<Key>)
    ensures Clean(s, A + B) <==> Clean(s, A) && Inserted(s) !! B
    decreases s, 1
  {
    var T := TopKeys(s);
    assert A + B + T == (A + T) + B;
    ChildrenCleanSplit(s, ChildEntries(s), A + T, B);
  }

  lemma {:induction false} ChildrenCleanSplit(s: Specification, D: set<(string, string)>, A: set<Key>, B: set<Key>)
    ensures ChildrenClean(s, D, A + B) <==> ChildrenClean(s, D, A) && InsertedBy(s, D) !! B
    decreases s, 0
  {
    forall e | e in D && e.0 in s.definitions && e.1 in s.definitions[e.0].subDefinitions
      ensures Clean(s.definitions[e.0].subDefinitions[e.1], A + B)
          <==> Clean(s.definitions[e.0].subDefinitions[e.1], A) && Inserted(s.definitions[e.0].subDefinitions[e.1]) !! B
    {
      CleanSplit(s.definitions[e.0].subDefinitions[e.1], A, B);
    }
    if InsertedBy(s, D) !! B {
      forall e | e in D && e.0 in s.definitions && e.1 in s.definitions[e.0].subDefinitions
        ensures Inserted(s.definitions[e.0].subDefinitions[e.1]) !! B
      {
        forall k | k in Inserted(s.definitions[e.0].subDefinitions[e.1]) ensures k in InsertedBy(s, D) {
        }
      }
    }
  }

  /**
   * Whether a tree merges cleanly into a dictionary depends only on whether
   * it is clean on its own and whether its keys avoid the dictionary's.
   */
  lemma CleanIffFresh(s: Specification, K: set<Key>)
    ensures Clean(s, K) <==> Clean(s, {}) && Inserted(s) !! K
  {
    assert {} + K == K;
    CleanSplit(s, {}, K);
  }

  /** Every key a tree places a record under is among the keys it inserts. */
  lemma {:induction false} PlacedInserted(s: Specification, parentRef: Option<Reference>, k: Key, rec: Record)
    requires Placed(s, parentRef, k, rec)
    ensures k in Inserted(s)
    decreases s
  {
    if !(k.0 == s.className && k.1 in s.definitions && rec == Initial(s, parentRef, k.1)) {
      var id, rel :| id in s.definitions && rel in s.definitions[id].subDefinitions
        && Placed(s.definitions[id].subDefinitions[rel], Some(ParentRef(s, id, rel)), k, rec);
      PlacedInserted(s.definitions[id].subDefinitions[rel], Some(ParentRef(s, id, rel)), k, rec);
      var e := (id, rel);
      assert e in ChildEntries(s) && k in Inserted(s.definitions[e.0].subDefinitions[e.1]);
    }
  }

  /** Adding one sub-specification to the finished ones: clean so far, clean on its own against `K`, and disjoint from the others. */
  lemma ChildrenCleanStep(s: Specification, D: set<(string, string)>, id: string, rel: string, K: set<Key>)
    requires IsChild(s, id, rel) && (id, rel) !in D
    ensures ChildrenClean(s, D + {(id, rel)}, K) <==>
      ChildrenClean(s, D, K) && Clean(Sub(s, id, rel), K) && Inserted(Sub(s, id, rel)) !! InsertedBy(s, D)
  {
    var e := (id, rel);
    var ch := Sub(s, id, rel);
    if ChildrenClean(s, D + {e}, K) {
      forall k | k in InsertedBy(s, D) ensures k !in Inserted(ch) {
        var e', k' :| e' in D && e'.0 in s.definitions && e'.1 in s.definitions[e'.0].subDefinitions
          && k' in Inserted(s.definitions[e'.0].subDefinitions[e'.1]) && k' == k;
        assert e' != e;
      }
    }
    if ChildrenClean(s, D, K) && Clean(ch, K) && Inserted(ch) !! InsertedBy(s, D) {
      forall e1, e2 | e1 in D + {e} && e2 in D + {e} && e1 != e2 && IsChild(s, e1.0, e1.1) && IsChild(s, e2.0, e2.1)
        ensures Inserted(Sub(s, e1.0, e1.1)) !! Inserted(Sub(s, e2.0, e2.1))
      {
        if e1 == e {
          forall k | k in Inserted(Sub(s, e2.0, e2.1)) ensures k in InsertedBy(s, D) {
            assert k in Inserted(s.definitions[e2.0].subDefinitions[e2.1]);
          }
        } else if e2 == e {
          forall k | k in Inserted(Sub(s, e1.0, e1.1)) ensures k in InsertedBy(s, D) {
            assert k in Inserted(s.definitions[e1.0].subDefinitions[e1.1]);
          }
        }
      }
    }
  }

  // ---------------------------------------------------------------------
  // Facts about dictionaries
  // ---------------------------------------------------------------------

  lemma HoldsPreserved(c: Classes, c': Classes, T: set<Key>, k: Key, rec: Record)
    requires Holds(c, k, rec) && Preserved(c, c', T) && k !in T
    ensures Holds(c', k, rec)
  {
    assert Holds(c', (k.0, k.1), c[k.0][k.1]);
  }

  lemma PreservedTrans(c: Classes, c': Classes, c'': Classes, T1: set<Key>, T2: set<Key>)
    requires Preserved(c, c', T1) && Preserved(c', c'', T2)
    ensures Preserved(c, c'', T1 + T2)
  {
    forall cls, id | cls in c && id in c[cls] && (cls, id) !in T1 + T2
      ensures Holds(c'', (cls, id), c[cls][id])
    {
      HoldsPreserved(c', c'', T2, (cls, id), c[cls][id]);
    }
  }

  // ---------------------------------------------------------------------
  // loadSpecification
  // ---------------------------------------------------------------------

  /** The IDs of `s` that were already present in its class bucket. */
  ghost function Duplicates(s: Specification, c: Classes): set<string>
  {
    set id | id in s.definitions && s.className in c && id in c[s.className]
  }

  /** The sub-specification reached through `e` exists and does not merge cleanly into a dictionary holding `K`. */
  ghost predicate ChildFails(s: Specification, e: (string, string), K: set<Key>)
  {
    IsChild(s, e.0, e.1) && !Clean(Sub(s, e.0, e.1), K)
  }

  /**
   * Which of the sub-specifications reached through `D` can have reported
   * errors, whatever order they ran in: every one that fails against `K`,
   * the keys present before any of them ran, is in `failed`, and every one in
   * `failed` fails against `K` plus the keys of all the others in `D`.
   */
  ghost predicate FailedBetween(s: Specification, K: set<Key>, D: set<(string, string)>, failed: set<(string, string)>)
  {
    && failed <= D
    && (forall e | e in D && ChildFails(s, e, K) :: e in failed)
    && (forall e | e in failed :: ChildFails(s, e, K + InsertedBy(s, D - {e})))
  }

  /**
   * parse.go:85-146. Every duplicate (class, ID) counts one error and the
   * later definition replaces the earlier one; `failed` names the
   * sub-specifications whose recursive call reported errors, and each adds
   * exactly one to this call's count, whatever that call counted.
   */
  method LoadSpecification(s: Specification, d: Dictionary?, parentRef: Option<Reference>)
    returns (r: Outcome, ghost failed: set<(string, string)>)
    modifies d
    decreases s, 2
    ensures d == null ==> r == Ok
    ensures d != null ==> d.classes.Keys == old(d.classes).Keys + SpecClasses(s)
    ensures d != null ==> Keys(d.classes) == Keys(old(d.classes)) + Inserted(s)
    ensures d != null ==> forall c | c in old(d.classes) && c !in SpecClasses(s) :: d.classes[c] == old(d.classes)[c]
    ensures d != null ==> Preserved(old(d.classes), d.classes, Inserted(s))
    ensures d != null && Clean(s, {}) ==>
      forall k, rec | Placed(s, parentRef, k, rec) :: Holds(d.classes, k, rec)
    ensures d != null ==> FailedBetween(s, Keys(old(d.classes)) + TopKeys(s), ChildEntries(s), failed)
    ensures d != null ==> r == FromCount(|Duplicates(s, old(d.classes))| + |failed|)
    ensures d != null ==> (failed != {} <==> !ChildrenClean(s, ChildEntries(s), Keys(old(d.classes)) + TopKeys(s)))
    ensures d != null ==> (r.ErrorsFound? <==> !Clean(s, Keys(old(d.classes))))
    ensures d != null && ChildEntries(s) == {} ==> TopPhaseDone(s, parentRef, old(d.classes), d.classes)
    ensures d != null ==> forall id | s.className in old(d.classes) && id in old(d.classes)[s.className] && (s.className, id) !in Inserted(s) ::
      Holds(d.classes, (s.className, id), old(d.classes)[s.className][id].(references := old(d.classes)[s.className][id].references + s.references))
  {
    failed := {};
    if d == null {
      return Ok, failed;
    }
    ghost var c0 := d.classes;
    var errorsFound := LoadTop(s, d, parentRef);
    ghost var c1 := d.classes;
    errorsFound, failed := LoadChildren(s, d, parentRef, c0, c1, errorsFound);
    OldRecordsAppended(s, parentRef, c0, c1, d.classes);
    r := if errorsFound > 0 then ErrorsFound(errorsFound) else Ok;
  }

  /** The part of loadSpecification before the recursion (parse.go:91-122): returns the number of duplicates. */
  method LoadTop(s: Specification, d: Dictionary, parentRef: Option<Reference>) returns (duplicates: nat)
    modifies d
    ensures TopPhaseDone(s, parentRef, old(d.classes), d.classes)
    ensures duplicates == |Duplicates(s, old(d.classes))|
  {
    ghost var c0 := d.classes;
    d.AddClass(s.className);
    ghost var cA := d.classes;
    duplicates := d.InsertDefinitions(s.className, s.definitions);
    ghost var cB := d.classes;
    d.AppendReferences(s.className, s.references);
    ghost var cC := d.classes;
    assert s.definitions.Keys <= cC[s.className].Keys;
    if parentRef.Some? {
      d.AppendToEach(s.className, s.definitions.Keys, parentRef.value);
    }
    TopPhase(s, parentRef, c0, cA, cB, cC, d.classes, duplicates);
  }

  /** The recursion of loadSpecification (parse.go:126-138), one definition at a time. */
  method LoadChildren(s: Specification, d: Dictionary, parentRef: Option<Reference>, ghost c0: Classes, ghost c1: Classes, errors0: nat)
    returns (errorsFound: nat, ghost failed: set<(string, string)>)
    requires TopPhaseDone(s, parentRef, c0, c1) && d.classes == c1
    requires errors0 == |Duplicates(s, c0)|
    modifies d
    decreases s, 1
    ensures d.classes.Keys == c0.Keys + SpecClasses(s)
    ensures Keys(d.classes) == Keys(c0) + Inserted(s)
    ensures forall cls | cls in c0 && cls !in SpecClasses(s) :: d.classes[cls] == c0[cls]
    ensures Preserved(c0, d.classes, Inserted(s))
    ensures Clean(s, {}) ==> forall k, rec | Placed(s, parentRef, k, rec) :: Holds(d.classes, k, rec)
    ensures FailedBetween(s, Keys(c0) + TopKeys(s), ChildEntries(s), failed)
    ensures errorsFound == |Duplicates(s, c0)| + |failed|
    ensures failed != {} <==> !ChildrenClean(s, ChildEntries(s), Keys(c0) + TopKeys(s))
    ensures errorsFound > 0 <==> !Clean(s, Keys(c0))
    ensures ChildEntries(s) == {} ==> d.classes == c1
    ensures Preserved(c1, d.classes, InsertedBy(s, ChildEntries(s)))
  {
    LoopStart(s, parentRef, c0, c1, errors0);
    errorsFound, failed := errors0, {};
    ghost var done: set<(string, string)> := {};
    var ids := s.definitions.Keys;
    assert done == DoneBefore(s, ids);
    while ids != {}
      invariant ids <= s.definitions.Keys
      invariant done == DoneBefore(s, ids)
      invariant LoopInvariant(s, parentRef, c0, c1, d.classes, done, failed, errorsFound)
      decreases ids
    {
      var id :| id in ids;
      errorsFound, failed := LoadRelations(s, d, parentRef, c0, c1, ids, id, failed, errorsFound);
      DoneNext(s, ids, id);
      done := DoneBefore(s, ids - {id});
      ids := ids - {id};
    }
    assert done == ChildEntries(s);
    Finish(s, parentRef, c0, c1, d.classes, failed, errorsFound);
    if ChildEntries(s) == {} {
      NothingBelow(s, c1, d.classes);
    }
  }

  /** The inner loop of the recursion: the sub-specifications of one definition, one relationship at a time. */
  method LoadRelations(s: Specification, d: Dictionary, parentRef: Option<Reference>, ghost c0: Classes, ghost c1: Classes,
                       ghost ids: set<string>, id: string, ghost failed0: set<(string, string)>, errors0: nat)
    returns (errorsFound: nat, ghost failed: set<(string, string)>)
    requires id in ids && ids <= s.definitions.Keys
    requires LoopInvariant(s, parentRef, c0, c1, d.classes, DoneBefore(s, ids), failed0, errors0)
    modifies d
    decreases s, 0
    ensures LoopInvariant(s, parentRef, c0, c1, d.classes, DoneBefore(s, ids) + DoneWithin(s, id, {}), failed, errorsFound)
  {
    errorsFound, failed := errors0, failed0;
    var rels := s.definitions[id].subDefinitions.Keys;
    assert DoneWithin(s, id, rels) == {};
    while rels != {}
      invariant rels <= s.definitions[id].subDefinitions.Keys
      invariant LoopInvariant(s, parentRef, c0, c1, d.classes, DoneBefore(s, ids) + DoneWithin(s, id, rels), failed, errorsFound)
      decreases rels
    {
      var rel :| rel in rels;
      ghost var done := DoneBefore(s, ids) + DoneWithin(s, id, rels);
      ghost var cBefore := d.classes;
      ghost var failedBefore := failed;
      ghost var errorsBefore := errorsFound;
      var childResult;
      ghost var childFailed;
      childResult, childFailed := LoadSpecification(s.definitions[id].subDefinitions[rel], d, Some(ParentRef(s, id, rel)));
      if childResult.ErrorsFound? {
        errorsFound := errorsFound + 1;
        failed := failed + {(id, rel)};
      }
      DoneStep(s, ids, id, rels, rel);
      ChildStep(s, parentRef, c0, c1, cBefore, d.classes, done, failedBefore, errorsBefore,
                failed, errorsFound, id, rel, childResult);
      rels := rels - {rel};
    }
  }

  /** The (ID, relationship) entries whose ID the outer loop has finished with. */
  ghost function DoneBefore(s: Specification, ids: set<string>): set<(string, string)>
  {
    set e | e in ChildEntries(s) && e.0 !in ids
  }

  /** The entries of `id` the inner loop has finished with. */
  ghost function DoneWithin(s: Specification, id: string, rels: set<string>): set<(string, string)>
    requires id in s.definitions
  {
    set rel | rel in s.definitions[id].subDefinitions.Keys - rels :: (id, rel)
  }

  lemma DoneStep(s: Specification, ids: set<string>, id: string, rels: set<string>, rel: string)
    requires id in ids && id in s.definitions && rel in rels && rels <= s.definitions[id].subDefinitions.Keys
    ensures (id, rel) !in DoneBefore(s, ids) + DoneWithin(s, id, rels)
    ensures DoneBefore(s, ids) + DoneWithin(s, id, rels - {rel})
         == DoneBefore(s, ids) + DoneWithin(s, id, rels) + {(id, rel)}
  {
  }

  lemma DoneNext(s: Specification, ids: set<string>, id: string)
    requires id in ids && id in s.definitions
    ensures DoneBefore(s, ids) + DoneWithin(s, id, {}) == DoneBefore(s, ids - {id})
  {
  }

  /** What holds after the top-level phases of one call. */
  ghost predicate TopPhaseDone(s: Specification, parentRef: Option<Reference>, c0: Classes, c1: Classes)
  {
    && c1.Keys == c0.Keys + {s.className}
    && Keys(c1) == Keys(c0) + TopKeys(s)
    && (forall c | c in c0 && c != s.className :: c1[c] == c0[c])
    && Preserved(c0, c1, TopKeys(s))
    && (forall id | id in s.definitions ::
          s.className in c1 && id in c1[s.className] && c1[s.className][id] == Initial(s, parentRef, id))
    && (forall id | s.className in c0 && id in c0[s.className] && id !in s.definitions ::
          c1[s.className][id] == c0[s.className][id].(references := c0[s.className][id].references + s.references))
  }

  lemma TopPhase(s: Specification, parentRef: Option<Reference>, c0: Classes, cA: Classes, cB: Classes, cC: Classes, c1: Classes, duplicates: nat)
    requires cA == if s.className in c0 then c0 else c0[s.className := map[]]
    requires cB == cA[s.className := cA[s.className] + NewRecords(s.definitions)]
    requires duplicates == |s.definitions.Keys * cA[s.className].Keys|
    requires cC == cB[s.className := AppendTo(cB[s.className], cB[s.className].Keys, s.references)]
    requires c1 == if parentRef.Some? then cC[s.className := AppendTo(cC[s.className], s.definitions.Keys, [parentRef.value])] else cC
    ensures TopPhaseDone(s, parentRef, c0, c1)
    ensures duplicates == |Duplicates(s, c0)|
  {
    var cls := s.className;
    var b0 := cA[cls];
    DuplicatesBucket(s, c0, b0);
    UpdateChain(c0, cA, cB, cC, c1, cls, b0, parentRef.Some?);
    TopBucket(s, parentRef, b0, c1[cls]);
    TopDone(s, parentRef, c0, b0, c1);
  }

  lemma TopDone(s: Specification, parentRef: Option<Reference>, c0: Classes, b0: map<string, Record>, c1: Classes)
    requires b0 == if s.className in c0 then c0[s.className] else map[]
    requires s.className in c1 && c1 == c0[s.className := c1[s.className]]
    requires c1[s.className].Keys == b0.Keys + s.definitions.Keys
    requires forall id | id in c1[s.className] ::
      c1[s.className][id] == if id in s.definitions then Initial(s, parentRef, id) else b0[id].(references := b0[id].references + s.references)
    ensures TopPhaseDone(s, parentRef, c0, c1)
  {
    TopKeysAdded(s, c0, b0, c1);
    TopPreserved(s, parentRef, c0, b0, c1);
  }

  lemma DuplicatesBucket(s: Specification, c0: Classes, b0: map<string, Record>)
    requires b0 == if s.className in c0 then c0[s.className] else map[]
    ensures Duplicates(s, c0) == s.definitions.Keys * b0.Keys
  {
  }

  /** Four successive updates of one key leave the map as one update of that key. */
  lemma UpdateChain<K, V>(m0: map<K, V>, mA: map<K, V>, mB: map<K, V>, mC: map<K, V>, m1: map<K, V>, k: K, v0: V, last: bool)
    requires mA == (if k in m0 then m0 else m0[k := v0]) && k in mA && mA[k] == v0
    requires k in mB && mB == mA[k := mB[k]]
    requires k in mC && mC == mB[k := mC[k]]
    requires k in m1 && m1 == if last then mC[k := m1[k]] else mC
    ensures k in m1 && m1 == m0[k := m1[k]]
  {
    if k in m0 {
      UpdateSame(m0, k);
    }
    UpdateTwice(m0, k, v0, mB[k]);
    UpdateTwice(m0, k, mB[k], mC[k]);
    if last {
      UpdateTwice(m0, k, mC[k], m1[k]);
    }
  }

  lemma UpdateTwice<K, V>(m: map<K, V>, k: K, v1: V, v2: V)
    ensures m[k := v1][k := v2] == m[k := v2]
  {
  }

  lemma UpdateSame<K, V>(m: map<K, V>, k: K)
    requires k in m
    ensures m[k := m[k]] == m
  {
  }

  /** The class bucket after the top phase: the new definitions with their references, the old records with the specification's references appended. */
  lemma TopBucket(s: Specification, parentRef: Option<Reference>, b0: map<string, Record>, b1: map<string, Record>)
    requires var b := b0 + NewRecords(s.definitions);
      var b' := AppendTo(b, b.Keys, s.references);
      b1 == if parentRef.Some? then AppendTo(b', s.definitions.Keys, [parentRef.value]) else b'
    ensures b1.Keys == b0.Keys + s.definitions.Keys
    ensures forall id | id in b1 ::
      b1[id] == if id in s.definitions then Initial(s, parentRef, id) else b0[id].(references := b0[id].references + s.references)
  {
    forall id | id in b1
      ensures b1[id] == if id in s.definitions then Initial(s, parentRef, id) else b0[id].(references := b0[id].references + s.references)
    {
      if id in s.definitions {
        var def := s.definitions[id];
        assert def.references + s.references + RefList(parentRef) == def.references + s.references + RefList(parentRef);
        if parentRef.None? {
          assert def.references + s.references + [] == def.references + s.references;
        }
      }
    }
  }

  lemma TopKeysAdded(s: Specification, c0: Classes, b0: map<string, Record>, c1: Classes)
    requires b0 == if s.className in c0 then c0[s.className] else map[]
    requires s.className in c1 && c1 == c0[s.className := c1[s.className]]
    requires c1[s.className].Keys == b0.Keys + s.definitions.Keys
    ensures Keys(c1) == Keys(c0) + TopKeys(s)
  {
    var cls := s.className;
    forall k | k in Keys(c1) ensures k in Keys(c0) + TopKeys(s) {
      if k.0 == cls && k.1 !in s.definitions {
        assert k.1 in b0;
      }
    }
    forall k | k in Keys(c0) + TopKeys(s) ensures k in Keys(c1) {
      if k.0 == cls {
        assert k.1 in c1[cls];
      }
    }
  }

  lemma TopPreserved(s: Specification, parentRef: Option<Reference>, c0: Classes, b0: map<string, Record>, c1: Classes)
    requires b0 == if s.className in c0 then c0[s.className] else map[]
    requires s.className in c1 && c1 == c0[s.className := c1[s.className]]
    requires c1[s.className].Keys == b0.Keys + s.definitions.Keys
    requires forall id | id in c1[s.className] ::
      c1[s.className][id] == if id in s.definitions then Initial(s, parentRef, id) else b0[id].(references := b0[id].references + s.references)
    ensures Preserved(c0, c1, TopKeys(s))
    ensures forall id | id in s.definitions ::
      s.className in c1 && id in c1[s.className] && c1[s.className][id] == Initial(s, parentRef, id)
    ensures forall id | s.className in c0 && id in c0[s.className] && id !in s.definitions ::
      c1[s.className][id] == c0[s.className][id].(references := c0[s.className][id].references + s.references)
  {
    forall c, id | c in c0 && id in c0[c] && (c, id) !in TopKeys(s)
      ensures Holds(c1, (c, id), c0[c][id])
    {
      if c == s.className {
        assert id in b0 && id !in s.definitions;
      }
    }
  }

  /** The dictionary after the top phase and the sub-specifications in `done`: which keys and classes exist, and that nothing was lost. */
  ghost predicate Frame(s: Specification, c1: Classes, c: Classes, done: set<(string, string)>)
  {
    && c.Keys == c1.Keys + ClassesBy(s, done)
    && Keys(c) == Keys(c1) + InsertedBy(s, done)
    && (forall cls | cls in c1 && cls !in ClassesBy(s, done) :: c[cls] == c1[cls])
    && Preserved(c1, c, InsertedBy(s, done))
  }

  /** On a clean tree, the records placed so far are all still held. */
  ghost predicate Placement(s: Specification, parentRef: Option<Reference>, c: Classes, done: set<(string, string)>)
  {
    Clean(s, {}) ==>
      && (forall id | id in s.definitions :: Holds(c, (s.className, id), Initial(s, parentRef, id)))
      && (forall e, k, rec | e in done && IsChild(s, e.0, e.1) && Placed(Sub(s, e.0, e.1), Some(ParentRef(s, e.0, e.1)), k, rec) ::
            Holds(c, k, rec))
  }

  /** The error count so far: the duplicates plus one per failed sub-specification. */
  ghost predicate Tally(s: Specification, c0: Classes, done: set<(string, string)>, failed: set<(string, string)>, errorsFound: nat)
  {
    && FailedBetween(s, Keys(c0) + TopKeys(s), done, failed)
    && errorsFound == |Duplicates(s, c0)| + |failed|
    && (failed != {} <==> !ChildrenClean(s, done, Keys(c0) + TopKeys(s)))
  }

  ghost predicate LoopInvariant(s: Specification, parentRef: Option<Reference>, c0: Classes, c1: Classes,
                                c: Classes, done: set<(string, string)>, failed: set<(string, string)>, errorsFound: nat)
  {
    && TopPhaseDone(s, parentRef, c0, c1)
    && done <= ChildEntries(s)
    && Frame(s, c1, c, done)
    && Placement(s, parentRef, c, done)
    && Tally(s, c0, done, failed, errorsFound)
  }

  lemma LoopStart(s: Specification, parentRef: Option<Reference>, c0: Classes, c1: Classes, errorsFound: nat)
    requires TopPhaseDone(s, parentRef, c0, c1)
    requires errorsFound == |Duplicates(s, c0)|
    ensures LoopInvariant(s, parentRef, c0, c1, c1, {}, {}, errorsFound)
  {
    FrameStart(s, c1);
    PlacementStart(s, parentRef, c1);
    TallyStart(s, c0, errorsFound);
  }

  lemma FrameStart(s: Specification, c1: Classes)
    ensures Frame(s, c1, c1, {})
  {
    assert InsertedBy(s, {}) == {};
    assert ClassesBy(s, {}) == {};
    forall cls, id | cls in c1 && id in c1[cls] ensures Holds(c1, (cls, id), c1[cls][id]) {
    }
  }

  lemma PlacementStart(s: Specification, parentRef: Option<Reference>, c1: Classes)
    requires forall id | id in s.definitions :: Holds(c1, (s.className, id), Initial(s, parentRef, id))
    ensures Placement(s, parentRef, c1, {})
  {
  }

  lemma TallyStart(s: Specification, c0: Classes, errorsFound: nat)
    requires errorsFound == |Duplicates(s, c0)|
    ensures Tally(s, c0, {}, {}, errorsFound)
  {
  }

  /** One recursive call: the child's own contract carries the loop invariant over it. */
  lemma ChildStep(s: Specification, parentRef: Option<Reference>, c0: Classes, c1: Classes, cBefore: Classes, cAfter: Classes,
                  done: set<(string, string)>, failedBefore: set<(string, string)>, errorsBefore: nat,
                  failed: set<(string, string)>, errorsFound: nat, id: string, rel: string, childResult: Outcome)
    requires IsChild(s, id, rel) && (id, rel) !in done
    requires LoopInvariant(s, parentRef, c0, c1, cBefore, done, failedBefore, errorsBefore)
    requires var ch := Sub(s, id, rel);
      && cAfter.Keys == cBefore.Keys + SpecClasses(ch)
      && Keys(cAfter) == Keys(cBefore) + Inserted(ch)
      && (forall c | c in cBefore && c !in SpecClasses(ch) :: cAfter[c] == cBefore[c])
      && Preserved(cBefore, cAfter, Inserted(ch))
      && (Clean(ch, {}) ==> forall k, rec | Placed(ch, Some(ParentRef(s, id, rel)), k, rec) :: Holds(cAfter, k, rec))
      && (childResult.ErrorsFound? <==> !Clean(ch, Keys(cBefore)))
    requires failed == if childResult.ErrorsFound? then failedBefore + {(id, rel)} else failedBefore
    requires errorsFound == if childResult.ErrorsFound? then errorsBefore + 1 else errorsBefore
    ensures LoopInvariant(s, parentRef, c0, c1, cAfter, done + {(id, rel)}, failed, errorsFound)
  {
    FrameStep(s, c1, cBefore, cAfter, done, id, rel);
    PlacementStep(s, parentRef, cBefore, cAfter, done, id, rel);
    TallyStep(s, c0, c1, cBefore, done, failedBefore, errorsBefore, failed, errorsFound, id, rel, childResult);
  }

  lemma FrameStep(s: Specification, c1: Classes, cBefore: Classes, cAfter: Classes, done: set<(string, string)>, id: string, rel: string)
    requires IsChild(s, id, rel)
    requires Frame(s, c1, cBefore, done)
    requires var ch := Sub(s, id, rel);
      && cAfter.Keys == cBefore.Keys + SpecClasses(ch)
      && Keys(cAfter) == Keys(cBefore) + Inserted(ch)
      && (forall c | c in cBefore && c !in SpecClasses(ch) :: cAfter[c] == cBefore[c])
      && Preserved(cBefore, cAfter, Inserted(ch))
    ensures Frame(s, c1, cAfter, done + {(id, rel)})
  {
    var ch := Sub(s, id, rel);
    var e := (id, rel);
    ClassesByStep(s, done, id, rel);
    UnionStep(cAfter.Keys, cBefore.Keys, c1.Keys, ClassesBy(s, done), SpecClasses(ch), ClassesBy(s, done + {e}));
    InsertedByStep(s, done, id, rel);
    UnionStep(Keys(cAfter), Keys(cBefore), Keys(c1), InsertedBy(s, done), Inserted(ch), InsertedBy(s, done + {e}));
    BucketsKept(c1, cBefore, cAfter, ClassesBy(s, done), SpecClasses(ch));
    PreservedTrans(c1, cBefore, cAfter, InsertedBy(s, done), Inserted(ch));
  }

  lemma UnionStep<T>(after: set<T>, before: set<T>, start: set<T>, X: set<T>, Y: set<T>, XY: set<T>)
    requires before == start + X && after == before + Y && XY == X + Y
    ensures after == start + XY
  {
  }

  lemma BucketsKept(c1: Classes, cBefore: Classes, cAfter: Classes, C1: set<string>, C2: set<string>)
    requires cBefore.Keys == c1.Keys + C1
    requires cAfter.Keys == cBefore.Keys + C2
    requires forall cls | cls in c1 && cls !in C1 :: cBefore[cls] == c1[cls]
    requires forall cls | cls in cBefore && cls !in C2 :: cAfter[cls] == cBefore[cls]
    ensures forall cls | cls in c1 && cls !in C1 + C2 :: cAfter[cls] == c1[cls]
  {
  }

  lemma PlacementStep(s: Specification, parentRef: Option<Reference>, cBefore: Classes, cAfter: Classes,
                      done: set<(string, string)>, id: string, rel: string)
    requires IsChild(s, id, rel) && (id, rel) !in done && done <= ChildEntries(s)
    requires Placement(s, parentRef, cBefore, done)
    requires var ch := Sub(s, id, rel);
      && Preserved(cBefore, cAfter, Inserted(ch))
      && (Clean(ch, {}) ==> forall k, rec | Placed(ch, Some(ParentRef(s, id, rel)), k, rec) :: Holds(cAfter, k, rec))
    ensures Placement(s, parentRef, cAfter, done + {(id, rel)})
  {
    var ch := Sub(s, id, rel);
    if Clean(s, {}) {
      CleanChild(s, id, rel);
      forall i | i in s.definitions ensures Holds(cAfter, (s.className, i), Initial(s, parentRef, i)) {
        assert (s.className, i) in TopKeys(s);
        HoldsPreserved(cBefore, cAfter, Inserted(ch), (s.className, i), Initial(s, parentRef, i));
      }
      DoneKept(s, cBefore, cAfter, done, id, rel);
    }
  }

  /** A sub-specification of a clean tree is clean on its own and avoids the keys of the level above it. */
  lemma CleanChild(s: Specification, id: string, rel: string)
    requires IsChild(s, id, rel) && Clean(s, {})
    ensures Clean(Sub(s, id, rel), {}) && Inserted(Sub(s, id, rel)) !! TopKeys(s)
  {
    var T := TopKeys(s);
    assert {} + T == T;
    assert ChildrenClean(s, ChildEntries(s), T);
    var e := (id, rel);
    assert e in ChildEntries(s);
    assert Clean(s.definitions[e.0].subDefinitions[e.1], T);
    CleanSplit(Sub(s, id, rel), {}, T);
  }

  /** On a clean tree, the records placed by the finished sub-specifications survive the next one. */
  lemma DoneKept(s: Specification, cBefore: Classes, cAfter: Classes, done: set<(string, string)>, id: string, rel: string)
    requires IsChild(s, id, rel) && (id, rel) !in done && done <= ChildEntries(s) && Clean(s, {})
    requires Preserved(cBefore, cAfter, Inserted(Sub(s, id, rel)))
    requires forall e, k, rec | e in done && IsChild(s, e.0, e.1) && Placed(Sub(s, e.0, e.1), Some(ParentRef(s, e.0, e.1)), k, rec) ::
      Holds(cBefore, k, rec)
    ensures forall e, k, rec | e in done && IsChild(s, e.0, e.1) && Placed(Sub(s, e.0, e.1), Some(ParentRef(s, e.0, e.1)), k, rec) ::
      Holds(cAfter, k, rec)
  {
    var ch := Sub(s, id, rel);
    assert ChildrenClean(s, ChildEntries(s), {} + TopKeys(s));
    forall e, k, rec | e in done && IsChild(s, e.0, e.1) && Placed(Sub(s, e.0, e.1), Some(ParentRef(s, e.0, e.1)), k, rec)
      ensures Holds(cAfter, k, rec)
    {
      PlacedInserted(Sub(s, e.0, e.1), Some(ParentRef(s, e.0, e.1)), k, rec);
      assert Inserted(Sub(s, e.0, e.1)) !! Inserted(ch);
      HoldsPreserved(cBefore, cAfter, Inserted(ch), k, rec);
    }
  }

  lemma TallyStep(s: Specification, c0: Classes, c1: Classes, cBefore: Classes,
                  done: set<(string, string)>, failedBefore: set<(string, string)>, errorsBefore: nat,
                  failed: set<(string, string)>, errorsFound: nat, id: string, rel: string, childResult: Outcome)
    requires IsChild(s, id, rel) && (id, rel) !in done
    requires Keys(c1) == Keys(c0) + TopKeys(s)
    requires Keys(cBefore) == Keys(c1) + InsertedBy(s, done)
    requires Tally(s, c0, done, failedBefore, errorsBefore)
    requires childResult.ErrorsFound? <==> !Clean(Sub(s, id, rel), Keys(cBefore))
    requires failed == if childResult.ErrorsFound? then failedBefore + {(id, rel)} else failedBefore
    requires errorsFound == if childResult.ErrorsFound? then errorsBefore + 1 else errorsBefore
    ensures Tally(s, c0, done + {(id, rel)}, failed, errorsFound)
  {
    var K1 := Keys(c0) + TopKeys(s);
    assert Keys(cBefore) == K1 + InsertedBy(s, done);
    CleanSplit(Sub(s, id, rel), K1, InsertedBy(s, done));
    ChildrenCleanStep(s, done, id, rel, K1);
    FailedStep(s, K1, done, failedBefore, failed, id, rel, childResult.ErrorsFound?);
  }

  /** One more sub-specification keeps `FailedBetween`: it joins `failed` exactly when it failed against the keys present when it ran. */
  lemma FailedStep(s: Specification, K: set<Key>, done: set<(string, string)>, failedBefore: set<(string, string)>,
                   failed: set<(string, string)>, id: string, rel: string, childFailed: bool)
    requires IsChild(s, id, rel) && (id, rel) !in done
    requires FailedBetween(s, K, done, failedBefore)
    requires childFailed <==> !Clean(Sub(s, id, rel), K + InsertedBy(s, done))
    requires failed == if childFailed then failedBefore + {(id, rel)} else failedBefore
    ensures FailedBetween(s, K, done + {(id, rel)}, failed)
  {
    var e := (id, rel);
    var D := done + {e};
    CleanSplit(Sub(s, id, rel), K, InsertedBy(s, done));
    forall e' | e' in failed ensures ChildFails(s, e', K + InsertedBy(s, D - {e'})) {
      if e' == e {
        assert D - {e'} == done;
      } else {
        InsertedByMono(s, done - {e'}, D - {e'});
        ChildFailsMore(s, e', K + InsertedBy(s, done - {e'}), K + InsertedBy(s, D - {e'}));
      }
    }
  }

  /** A sub-specification that fails against some keys fails against more. */
  lemma ChildFailsMore(s: Specification, e: (string, string), A: set<Key>, B: set<Key>)
    requires ChildFails(s, e, A) && A <= B
    ensures ChildFails(s, e, B)
  {
    assert A + (B - A) == B;
    CleanSplit(Sub(s, e.0, e.1), A, B - A);
  }

  lemma InsertedByMono(s: Specification, D: set<(string, string)>, D': set<(string, string)>)
    requires D <= D'
    ensures InsertedBy(s, D) <= InsertedBy(s, D')
  {
  }

  /**
   * When no two sub-specifications insert a common key, `failed` is exactly
   * the set of sub-specifications that fail against the keys present before
   * any of them ran, so each of them adds exactly one error.
   */
  lemma FailedExactWhenDisjoint(s: Specification, K: set<Key>, failed: set<(string, string)>)
    requires FailedBetween(s, K, ChildEntries(s), failed)
    requires forall e, e' | e in ChildEntries(s) && e' in ChildEntries(s) && e != e' && IsChild(s, e.0, e.1) && IsChild(s, e'.0, e'.1) ::
      Inserted(Sub(s, e.0, e.1)) !! Inserted(Sub(s, e'.0, e'.1))
    ensures failed == set e | e in ChildEntries(s) && ChildFails(s, e, K)
  {
    forall e | e in failed ensures ChildFails(s, e, K) {
      var others := ChildEntries(s) - {e};
      OthersDisjoint(s, e);
      CleanSplit(Sub(s, e.0, e.1), K, InsertedBy(s, others));
    }
  }

  /** When no two sub-specifications share a key, each one's keys avoid those of all the others. */
  lemma OthersDisjoint(s: Specification, e: (string, string))
    requires e in ChildEntries(s) && IsChild(s, e.0, e.1)
    requires forall e, e' | e in ChildEntries(s) && e' in ChildEntries(s) && e != e' && IsChild(s, e.0, e.1) && IsChild(s, e'.0, e'.1) ::
      Inserted(Sub(s, e.0, e.1)) !! Inserted(Sub(s, e'.0, e'.1))
    ensures Inserted(Sub(s, e.0, e.1)) !! InsertedBy(s, ChildEntries(s) - {e})
  {
    forall k | k in InsertedBy(s, ChildEntries(s) - {e}) ensures k !in Inserted(Sub(s, e.0, e.1)) {
      var e' := InsertedByWitness(s, ChildEntries(s) - {e}, k);
    }
  }

  /** A key inserted through the entries `D` is inserted by one of the sub-specifications they reach. */
  lemma InsertedByWitness(s: Specification, D: set<(string, string)>, k: Key) returns (e: (string, string))
    requires k in InsertedBy(s, D)
    ensures e in D && IsChild(s, e.0, e.1) && k in Inserted(Sub(s, e.0, e.1))
  {
    var e', k' :| e' in D && e'.0 in s.definitions && e'.1 in s.definitions[e'.0].subDefinitions
      && k' in Inserted(s.definitions[e'.0].subDefinitions[e'.1]) && k' == k;
    e := e';
  }

  /** Records of the class that were there before and that no part of the tree inserts get the specification's references appended. */
  lemma OldRecordsAppended(s: Specification, parentRef: Option<Reference>, c0: Classes, c1: Classes, c: Classes)
    requires TopPhaseDone(s, parentRef, c0, c1)
    requires Preserved(c1, c, InsertedBy(s, ChildEntries(s)))
    ensures forall id | s.className in c0 && id in c0[s.className] && (s.className, id) !in Inserted(s) ::
      Holds(c, (s.className, id), c0[s.className][id].(references := c0[s.className][id].references + s.references))
  {
    forall id | s.className in c0 && id in c0[s.className] && (s.className, id) !in Inserted(s)
      ensures Holds(c, (s.className, id), c0[s.className][id].(references := c0[s.className][id].references + s.references))
    {
      assert id !in s.definitions;
      assert (s.className, id) in Keys(c1);
      HoldsPreserved(c1, c, InsertedBy(s, ChildEntries(s)), (s.className, id), c1[s.className][id]);
    }
  }

  /** After the last sub-specification, the loop invariant is the contract of the call. */
  lemma Finish(s: Specification, parentRef: Option<Reference>, c0: Classes, c1: Classes, c: Classes,
               failed: set<(string, string)>, errorsFound: nat)
    requires LoopInvariant(s, parentRef, c0, c1, c, ChildEntries(s), failed, errorsFound)
    ensures c.Keys == c0.Keys + SpecClasses(s)
    ensures Keys(c) == Keys(c0) + Inserted(s)
    ensures forall cls | cls in c0 && cls !in SpecClasses(s) :: c[cls] == c0[cls]
    ensures Preserved(c0, c, Inserted(s))
    ensures Clean(s, {}) ==> forall k, rec | Placed(s, parentRef, k, rec) :: Holds(c, k, rec)
    ensures FailedBetween(s, Keys(c0) + TopKeys(s), ChildEntries(s), failed)
    ensures errorsFound == |Duplicates(s, c0)| + |failed|
    ensures failed != {} <==> !ChildrenClean(s, ChildEntries(s), Keys(c0) + TopKeys(s))
    ensures errorsFound > 0 <==> !Clean(s, Keys(c0))
    ensures Preserved(c1, c, InsertedBy(s, ChildEntries(s)))
  {
    FinishFrame(s, parentRef, c0, c1, c);
    FinishPlacement(s, parentRef, c);
    FinishTally(s, c0, failed, errorsFound);
  }

  /** A specification without sub-specifications changes nothing after its top phase. */
  lemma NothingBelow(s: Specification, c1: Classes, c: Classes)
    requires ChildEntries(s) == {}
    requires Frame(s, c1, c, ChildEntries(s))
    ensures c == c1
  {
    assert ClassesBy(s, {}) == {};
  }

  lemma FinishFrame(s: Specification, parentRef: Option<Reference>, c0: Classes, c1: Classes, c: Classes)
    requires TopPhaseDone(s, parentRef, c0, c1)
    requires Frame(s, c1, c, ChildEntries(s))
    ensures c.Keys == c0.Keys + SpecClasses(s)
    ensures Keys(c) == Keys(c0) + Inserted(s)
    ensures forall cls | cls in c0 && cls !in SpecClasses(s) :: c[cls] == c0[cls]
    ensures Preserved(c0, c, Inserted(s))
  {
    var T := InsertedBy(s, ChildEntries(s));
    assert c.Keys == c0.Keys + SpecClasses(s);
    assert Keys(c) == Keys(c0) + Inserted(s);
    BucketsKept(c0, c1, c, {s.className}, ClassesBy(s, ChildEntries(s)));
    PreservedTrans(c0, c1, c, TopKeys(s), T);
  }

  lemma FinishPlacement(s: Specification, parentRef: Option<Reference>, c: Classes)
    requires Placement(s, parentRef, c, ChildEntries(s))
    ensures Clean(s, {}) ==> forall k, rec | Placed(s, parentRef, k, rec) :: Holds(c, k, rec)
  {
    if Clean(s, {}) {
      forall k, rec | Placed(s, parentRef, k, rec) ensures Holds(c, k, rec) {
        if !(k.0 == s.className && k.1 in s.definitions && rec == Initial(s, parentRef, k.1)) {
          var id, rel :| id in s.definitions && rel in s.definitions[id].subDefinitions
            && Placed(s.definitions[id].subDefinitions[rel], Some(ParentRef(s, id, rel)), k, rec);
          assert (id, rel) in ChildEntries(s);
        }
      }
    }
  }

  lemma FinishTally(s: Specification, c0: Classes, failed: set<(string, string)>, errorsFound: nat)
    requires Tally(s, c0, ChildEntries(s), failed, errorsFound)
    ensures errorsFound > 0 <==> !Clean(s, Keys(c0))
  {
    NoDuplicates(s, c0);
  }

  lemma NoDuplicates(s: Specification, c0: Classes)
    ensures Duplicates(s, c0) == {} <==> TopKeys(s) !! Keys(c0)
  {
    forall k | k in TopKeys(s) * Keys(c0) ensures k.1 in Duplicates(s, c0) {
    }
    if Duplicates(s, c0) != {} {
      var id :| id in Duplicates(s, c0);
      assert (s.className, id) in TopKeys(s);
      assert (s.className, id) in Keys(c0);
    }
  }

  // ---------------------------------------------------------------------
  // LoadDictionary
  // ---------------------------------------------------------------------

  /**
   * A document LoadDictionary merges: it was read and decoded, and it declares
   * at least one definition (definition.go:135-139 turns a document without
   * definitions into no specification at all).
   */
  predicate Loadable(doc: Option<Specification>)
  {
    doc.Some? && |doc.value.definitions| > 0
  }

  /** The classes the documents that are merged create. */
  ghost function DocClasses(docs: seq<Option<Specification>>): set<string>
  {
    if |docs| == 0 then {}
    else DocClasses(docs[..|docs| - 1]) + (if Loadable(docs[|docs| - 1]) then SpecClasses(docs[|docs| - 1].value) else {})
  }

  /** The (class, ID) keys the documents that are merged insert. */
  ghost function DocKeys(docs: seq<Option<Specification>>): set<Key>
  {
    if |docs| == 0 then {}
    else DocKeys(docs[..|docs| - 1]) + (if Loadable(docs[|docs| - 1]) then Inserted(docs[|docs| - 1].value) else {})
  }

  /**
   * parse.go:149-170 after the directory walk and decoding: a fresh
   * dictionary into which every document that was decoded and declares a
   * definition is merged with no parent reference, the result of each merge
   * being discarded. `None` stands for a document that could not be read or
   * decoded.
   */
  method LoadDictionary(docs: seq<Option<Specification>>) returns (d: Dictionary)
    ensures fresh(d)
    ensures d.classes.Keys == DocClasses(docs)
    ensures Keys(d.classes) == DocKeys(docs)
  {
    d := new Dictionary();
    assert Keys(d.classes) == {};
    for i := 0 to |docs|
      invariant d.classes.Keys == DocClasses(docs[..i])
      invariant Keys(d.classes) == DocKeys(docs[..i])
    {
      assert docs[..i + 1][..i] == docs[..i];
      if docs[i].Some? && |docs[i].value.definitions| > 0 {
        var result;
        ghost var failed;
        result, failed := LoadSpecification(docs[i].value, d, None);
      }
    }
    assert docs[..|docs|] == docs;
  }

  /** A document without definitions creates no class, although merging it would create its class's bucket. */
  lemma EmptyDocumentSkipped(docs: seq<Option<Specification>>, cls: string)
    requires cls !in DocClasses(docs)
    ensures cls !in DocClasses(docs + [Some(Specification(cls, [], map[]))])
  {
    var docs' := docs + [Some(Specification(cls, [], map[]))];
    assert docs'[..|docs'| - 1] == docs;
  }

  /** A specification without sub-specifications inserts only its own keys, and merges cleanly exactly when none of them is present yet. */
  lemma FlatSpecification(s: Specification, K: set<Key>)
    requires forall id | id in s.definitions :: s.definitions[id].subDefinitions == map[]
    ensures ChildEntries(s) == {} && Inserted(s) == TopKeys(s)
    ensures Clean(s, K) <==> TopKeys(s) !! K
  {
    assert ChildEntries(s) == {};
    assert InsertedBy(s, {}) == {};
  }

  /**
   * LoadSpecification on a specification without sub-specifications, with
   * what its contract gives there: one error per ID already present; each
   * definition stored with its own references, then the specification's,
   * then the parent reference if there is one; every other record of the
   * class, merged earlier, with only the specification's references appended.
   */
  method LoadFlatSpecification(s: Specification, d: Dictionary, parentRef: Option<Reference>) returns (r: Outcome)
    requires forall id | id in s.definitions :: s.definitions[id].subDefinitions == map[]
    modifies d
    ensures r == FromCount(|Duplicates(s, old(d.classes))|)
    ensures Keys(d.classes) == Keys(old(d.classes)) + TopKeys(s)
    ensures forall id | id in s.definitions ::
      s.className in d.classes && id in d.classes[s.className] &&
      d.classes[s.className][id] == Record(s.definitions[id].fields, s.definitions[id].references + s.references + RefList(parentRef))
    ensures forall id | s.className in old(d.classes) && id in old(d.classes)[s.className] && id !in s.definitions ::
      s.className in d.classes && id in d.classes[s.className] &&
      d.classes[s.className][id] == old(d.classes)[s.className][id].(references := old(d.classes)[s.className][id].references + s.references)
  {
    ghost var failed;
    r, failed := LoadSpecification(s, d, parentRef);
    FlatSpecification(s, {});
    assert failed == {};
  }

  /**
   * parse_test.go:509-537: merging a definition whose (class, ID) is already
   * in the dictionary reports one error, and the later fields replace the
   * earlier ones; the first merge into an empty dictionary reports none.
   */
  method DuplicateDefinitionScenario(cls: string, id: string, earlier: Fields, later: Fields)
    returns (first: Outcome, second: Outcome, stored: Fields)
    ensures first == Ok && second == ErrorsFound(1)
    ensures stored == later
  {
    var d := new Dictionary();
    var s1 := Specification(cls, [], map[id := Definition(earlier, [], map[])]);
    var s2 := Specification(cls, [], map[id := Definition(later, [], map[])]);
    first := LoadFlatSpecification(s1, d, None);
    assert Duplicates(s1, map[]) == {};
    ghost var c := d.classes;
    assert id in s1.definitions && cls in c && id in c[cls];
    second := LoadFlatSpecification(s2, d, None);
    assert Duplicates(s2, c) == {id};
    stored := d.classes[cls][id].fields;
  }

  /** A specification of class `cls` with one definition `id` and nothing nested. */
  function Leaf(cls: string, id: string, f: Fields): Specification
  {
    Specification(cls, [], map[id := Definition(f, [], map[])])
  }

  /** Class P with one definition p that nests (A, a) through r1 and (B, b) through r2. */
  function TwoChildren(f: Fields): Specification
  {
    Specification("P", [], map["p" := Definition(f, [], map["r1" := Leaf("A", "a", f), "r2" := Leaf("B", "b", f)])])
  }

  /**
   * parse.go:127-138: a specification with two sub-specifications, each of
   * which re-declares a record already in the dictionary, reports one error
   * per failing sub-specification, two in all, although the specification's
   * own definition is new.
   */
  method FailingChildrenScenario(f: Fields) returns (r: Outcome)
    ensures r == ErrorsFound(2)
  {
    var d := new Dictionary();
    assert Keys(d.classes) == {};
    var first := LoadFlatSpecification(Leaf("A", "a", f), d, None);
    var second := LoadFlatSpecification(Leaf("B", "b", f), d, None);
    ghost var c: Classes := d.classes;
    ghost var failed;
    r, failed := LoadSpecification(TwoChildren(f), d, None);
    assert |Duplicates(TwoChildren(f), c)| + |failed| == 2 by {
      ScenarioKeys(f, c);
      BothChildrenFail(f, Keys(c) + TopKeys(TwoChildren(f)), failed);
    }
  }

  lemma ScenarioKeys(f: Fields, c: Classes)
    requires Keys(c) == {} + TopKeys(Leaf("A", "a", f)) + TopKeys(Leaf("B", "b", f))
    ensures ("A", "a") in Keys(c) && ("B", "b") in Keys(c)
    ensures Duplicates(TwoChildren(f), c) == {}
  {
    assert TopKeys(Leaf("A", "a", f)) == {("A", "a")} && TopKeys(Leaf("B", "b", f)) == {("B", "b")};
    assert ("P", "p") !in Keys(c);
  }

  lemma BothChildrenFail(f: Fields, K: set<Key>, failed: set<(string, string)>)
    requires ("A", "a") in K && ("B", "b") in K
    requires FailedBetween(TwoChildren(f), K, ChildEntries(TwoChildren(f)), failed)
    ensures |failed| == 2
  {
    var p := TwoChildren(f);
    var e1, e2 := ("p", "r1"), ("p", "r2");
    TwoChildrenShape(f);
    LeafFails("A", "a", f, K);
    LeafFails("B", "b", f, K);
    assert ChildFails(p, e1, K) && ChildFails(p, e2, K);
    assert e1 in failed && e2 in failed;
    assert failed == {e1, e2};
  }

  lemma TwoChildrenShape(f: Fields)
    ensures ChildEntries(TwoChildren(f)) == {("p", "r1"), ("p", "r2")}
    ensures IsChild(TwoChildren(f), "p", "r1") && Sub(TwoChildren(f), "p", "r1") == Leaf("A", "a", f)
    ensures IsChild(TwoChildren(f), "p", "r2") && Sub(TwoChildren(f), "p", "r2") == Leaf("B", "b", f)
  {
    var p := TwoChildren(f);
    assert ("p", "r1") in ChildEntries(p) && ("p", "r2") in ChildEntries(p);
  }

  lemma LeafFails(cls: string, id: string, f: Fields, K: set<Key>)
    requires (cls, id) in K
    ensures !Clean(Leaf(cls, id, f), K)
  {
    assert (cls, id) in TopKeys(Leaf(cls, id, f));
  }

  /**
   * parse.go:112-116: a specification's references go to every record of its
   * class, also to one merged earlier from another document, after that
   * record's own references.
   */
  method SharedReferenceScenario(cls: string, earlierID: string, laterID: string, own: seq<Reference>, shared: Reference,
                                 earlier: Fields, later: Fields)
    returns (earlierRefs: seq<Reference>, laterRefs: seq<Reference>)
    requires earlierID != laterID
    ensures earlierRefs == own + [shared]
    ensures laterRefs == [shared]
  {
    var d := new Dictionary();
    var s1 := Specification(cls, [], map[earlierID := Definition(earlier, own, map[])]);
    var s2 := Specification(cls, [shared], map[laterID := Definition(later, [], map[])]);
    var first := LoadFlatSpecification(s1, d, None);
    assert own + [] == own;
    ghost var c: Classes := d.classes;
    assert earlierID in s1.definitions && cls in c && earlierID in c[cls] && c[cls][earlierID].references == own;
    var second := LoadFlatSpecification(s2, d, None);
    assert laterID in s2.definitions && earlierID !in s2.definitions;
    earlierRefs := d.classes[cls][earlierID].references;
    laterRefs := d.classes[cls][laterID].references;
  }

  /**
   * parse.go:119-123, 129-133 and parse_test.go:97-110: a sub-specification
   * merged with the reference to its parent definition gives each of its own
   * definitions that reference, after the specification's references, and
   * leaves an earlier record of the same class without it.
   */
  method ParentReferenceScenario(cls: string, childID: string, earlierID: string, spec: seq<Reference>,
                                 parentRef: Reference, childFields: Fields, earlierFields: Fields)
    returns (childRefs: seq<Reference>, earlierRefs: seq<Reference>)
    requires childID != earlierID
    ensures childRefs == spec + [parentRef]
    ensures earlierRefs == spec
  {
    var d := new Dictionary();
    var earlier := Specification(cls, [], map[earlierID := Definition(earlierFields, [], map[])]);
    var child := Specification(cls, spec, map[childID := Definition(childFields, [], map[])]);
    var first := LoadFlatSpecification(earlier, d, None);
    ghost var c: Classes := d.classes;
    assert earlierID in earlier.definitions && cls in c && earlierID in c[cls] && c[cls][earlierID].references == [];
    var second := LoadFlatSpecification(child, d, Some(parentRef));
    assert childID in child.definitions && earlierID !in child.definitions;
    assert [] + spec + [parentRef] == spec + [parentRef];
    childRefs := d.classes[cls][childID].references;
    earlierRefs := d.classes[cls][earlierID].references;
  }
}
