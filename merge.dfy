/*
 * mergeDefinitionFormat of src/cmd/validate.go: several schema files are
 * read one after another and merged into one DefinitionFormat, class by
 * class, failing on a class that an earlier file already declared.
 */
module ValidateCommand {
  import opened Definition
  import opened Validator

  type Formats = map<string, Option<ClassDefinitionFormat>>

  datatype MergeError =
    | NilFormat
    | ClassAlreadyDeclared(className: string)

  /** `m` cut down to the keys in `keys`. */
  function Restrict(m: Formats, keys: set<string>): (r: Formats)
    ensures r.Keys == m.Keys * keys
    ensures forall c | c in r :: r[c] == m[c]
  {
    map c | c in m.Keys * keys :: m[c]
  }

  /** A class `current` already has a (non-nil) format for. */
  predicate Declared(current: Formats, className: string)
  {
    className in current && current[className].Some?
  }

  /** `after` is `before` plus some entries of `incoming`, none of them for a class `before` declares. */
  ghost predicate PartlyMerged(before: Formats, incoming: Formats, after: Formats)
  {
    exists copied | copied <= incoming.Keys ::
      && (forall c | c in copied :: !Declared(before, c))
      && after == before + Restrict(incoming, copied)
  }

  /** Every class `before` declares is still in `after`, with the same format. */
  ghost predicate KeepsDeclared(before: Formats, after: Formats)
  {
    forall c | Declared(before, c) :: c in after && after[c] == before[c]
  }

  /** Some class of `incoming` is already declared in `current`. */
  predicate Clashes(current: Formats, incoming: Formats)
  {
    exists c | c in incoming :: Declared(current, c)
  }

  /**
   * mergeDefinitionFormat (validate.go:66-79). With a nil argument nothing
   * changes and an error is returned. Otherwise the entries of `incoming` are
   * copied into `current` one at a time, in no particular order, and the
   * merge stops with an error at the first class `current` already declares;
   * the entries copied before it stay. A class `current` lists with a nil
   * format is overwritten without error.
   *
   * The entries of `incoming` are read once before the loop: when `current` and
   * `incoming` are the same object, every entry written is the one already there.
   */
  method MergeDefinitionFormat(current: DefinitionFormat?, incoming: DefinitionFormat?) returns (err: Option<MergeError>)
    modifies current
    ensures current == null || incoming == null ==> err == Some(NilFormat)
    ensures current != null && incoming == null ==> current.classFormat == old(current.classFormat)
    ensures current != null && incoming != null ==>
      (err.None? <==> !Clashes(old(current.classFormat), old(incoming.classFormat)))
    ensures current != null && incoming != null && err.None? ==>
      current.classFormat == old(current.classFormat) + old(incoming.classFormat)
    ensures current != null && incoming != null && err.Some? ==>
      err.value.ClassAlreadyDeclared? &&
      err.value.className in old(incoming.classFormat) && Declared(old(current.classFormat), err.value.className)
    ensures current != null && incoming != null ==>
      PartlyMerged(old(current.classFormat), old(incoming.classFormat), current.classFormat)
    ensures current != null && incoming != null ==> KeepsDeclared(old(current.classFormat), current.classFormat)
  {
    if current == null || incoming == null {
      return Some(NilFormat);
    }
    var entries := incoming.classFormat;
    ghost var before := current.classFormat;
    var pending := entries.Keys;
    while pending != {}
      invariant pending <= entries.Keys
      invariant current.classFormat == before + Restrict(entries, entries.Keys - pending)
      invariant forall c | c in entries.Keys - pending :: !Declared(before, c)
      decreases pending
    {
      var className :| className in pending;
      if className in current.classFormat && current.classFormat[className].Some? {
        assert Declared(before, className);
        PartialMergeKeepsDeclared(before, entries, entries.Keys - pending);
        return Some(ClassAlreadyDeclared(className));
      }
      ghost var copied := entries.Keys - pending;
      current.classFormat := current.classFormat[className := entries[className]];
      pending := pending - {className};
      RestrictStep(before, entries, copied, className);
    }
    assert Restrict(entries, entries.Keys - pending) == entries;
    PartialMergeKeepsDeclared(before, entries, entries.Keys - pending);
    err := None;
  }

  /** Copying one more entry of `incoming` extends the restriction by that entry. */
  lemma RestrictStep(before: Formats, incoming: Formats, copied: set<string>, className: string)
    requires className in incoming
    ensures (before + Restrict(incoming, copied))[className := incoming[className]] == before + Restrict(incoming, copied + {className})
  {
  }

  /** A merge into `current` that reports no error keeps every class `current` declared, with its format. */
  lemma MergeKeepsDeclared(current: Formats, incoming: Formats, className: string)
    requires !Clashes(current, incoming)
    requires Declared(current, className)
    ensures className in current + incoming && (current + incoming)[className] == current[className]
  {
  }

  /** Copying only entries for classes `current` does not declare is a partial merge that keeps every declared class. */
  lemma PartialMergeKeepsDeclared(current: Formats, incoming: Formats, copied: set<string>)
    requires copied <= incoming.Keys
    requires forall c | c in copied :: !Declared(current, c)
    ensures PartlyMerged(current, incoming, current + Restrict(incoming, copied))
    ensures KeepsDeclared(current, current + Restrict(incoming, copied))
  {
  }

  /** validate_test.go:47-63: merging a format with no classes changes nothing. */
  method EmptyMergeScenario(f1: ClassDefinitionFormat, f2: ClassDefinitionFormat) returns (err: Option<MergeError>, result: Formats)
    ensures err.None? && result == map["class1" := Some(f1), "class2" := Some(f2)]
  {
    var current := new DefinitionFormat(map["class1" := Some(f1), "class2" := Some(f2)]);
    var none := new DefinitionFormat(map[]);
    err := MergeDefinitionFormat(current, none);
    result := current.classFormat;
  }

  /** validate_test.go:65-82: merging a format with a new class adds it. */
  method SingleMergeScenario(f1: ClassDefinitionFormat, f2: ClassDefinitionFormat) returns (err: Option<MergeError>, result: Formats)
    ensures err.None? && result == map["class1" := Some(f1), "class2" := Some(f2)]
  {
    var current := new DefinitionFormat(map["class1" := Some(f1)]);
    var one := new DefinitionFormat(map["class2" := Some(f2)]);
    NewClassAdded(f1, f2);
    err := MergeDefinitionFormat(current, one);
    result := current.classFormat;
  }

  lemma NewClassAdded(f1: ClassDefinitionFormat, f2: ClassDefinitionFormat)
    ensures !Clashes(map["class1" := Some(f1)], map["class2" := Some(f2)])
    ensures map["class1" := Some(f1)] + map["class2" := Some(f2)] == map["class1" := Some(f1), "class2" := Some(f2)]
  {
    assert !Declared(map["class1" := Some(f1)], "class2");
  }

  /** validate_test.go:84-100: merging two new classes into an empty format adds both. */
  method MultipleMergeScenario(f1: ClassDefinitionFormat, f2: ClassDefinitionFormat) returns (err: Option<MergeError>, result: Formats)
    ensures err.None? && result == map["class1" := Some(f1), "class2" := Some(f2)]
  {
    var current := new DefinitionFormat(map[]);
    var two := new DefinitionFormat(map["class1" := Some(f1), "class2" := Some(f2)]);
    assert !Clashes(current.classFormat, two.classFormat);
    err := MergeDefinitionFormat(current, two);
    result := current.classFormat;
  }

  /**
   * validate_test.go:102-115: merging a format that declares an already
   * declared class fails on that class, and the class keeps its earlier
   * format even when the incoming one differs.
   */
  method ClashMergeScenario(f1: ClassDefinitionFormat, f2: ClassDefinitionFormat, f3: ClassDefinitionFormat)
    returns (err: Option<MergeError>, kept: Option<ClassDefinitionFormat>)
    ensures err == Some(ClassAlreadyDeclared("class1"))
    ensures kept == Some(f1)
  {
    var current := new DefinitionFormat(map["class1" := Some(f1)]);
    var two := new DefinitionFormat(map["class1" := Some(f3), "class2" := Some(f2)]);
    assert Declared(current.classFormat, "class1") && !Declared(current.classFormat, "class2");
    err := MergeDefinitionFormat(current, two);
    kept := current.classFormat["class1"];
  }
}
