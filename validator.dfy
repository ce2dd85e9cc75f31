/*
 * The dictionary validator of src/parser/parse.go: the field-type checks, the
 * schema format types, and ValidateDictionary, which counts schema problems
 * (when a format is given) and unresolved references without changing the
 * dictionary.
 *
 * Each counting loop is a read-only method proved equal to a specification
 * function; the counts are sums over Go maps, written with SumOver, which
 * does not depend on the order the keys are visited in.
 */
module Validator {
  import opened Definition
  import opened Strings
  import opened Loader

  // ---------------------------------------------------------------------
  // Field types (parse.go:172-203)
  // ---------------------------------------------------------------------

  /** The schema field types of parse.go:44-49. */
  datatype FieldType = StringField | IntField | FloatField | BoolField

  /** fieldTypeValid: a value of one of the five scalar types the decoder produces. */
  predicate FieldTypeValid(v: Value): (valid: bool)
    ensures valid <==> !v.Nil? && !v.Other?
  {
    match v
    case Str(_) => true
    case Bool(_) => true
    case Float64(_) => true
    case Int(_) => true
    case Int64(_) => true
    case Nil => false
    case Other(_) => false
  }

  /** fieldValidForType: exactly the dynamic type the field type names; a string must not be blank. */
  predicate FieldValidForType(v: Value, ft: FieldType): (valid: bool)
    ensures valid ==> FieldTypeValid(v) && !v.Int64?
    ensures ft == StringField && v.Str? && |v.s| == 0 ==> !valid
  {
    match ft
    case StringField => v.Str? && TrimSpace(v.s) != ""
    case BoolField => v.Bool?
    case FloatField => v.Float64?
    case IntField => v.Int?
  }

  /** fieldTypeValid holds exactly for the five scalar types, so never for nil or any other type. */
  lemma FieldTypeValidIff(v: Value)
    ensures FieldTypeValid(v) <==> v.Str? || v.Bool? || v.Float64? || v.Int? || v.Int64?
    ensures !FieldTypeValid(Nil)
  {
  }

  /** A value valid for some field type has a valid field type, and is valid for no other field type. */
  lemma ValidForOneTypeOnly(v: Value, ft: FieldType, ft': FieldType)
    requires FieldValidForType(v, ft)
    ensures FieldTypeValid(v)
    ensures FieldValidForType(v, ft') ==> ft' == ft
  {
  }

  /** Nil and int64 values are valid for no field type: an int64 is not an int. */
  lemma NilAndInt64NeverValid(ft: FieldType, i: int)
    ensures !FieldValidForType(Nil, ft)
    ensures !FieldValidForType(Int64(i), ft)
  {
  }

  /** A value is a valid string field exactly when it is a string with a character that is not white space. */
  lemma {:induction false} StringFieldIffNotBlank(v: Value)
    ensures FieldValidForType(v, StringField) <==> v.Str? && !AllSpace(v.s)
  {
    if v.Str? {
      BlankIffAllSpace(v.s);
    }
  }

  // ---------------------------------------------------------------------
  // The schema format (parse.go:65-83)
  // ---------------------------------------------------------------------

  datatype ClassField = ClassField(description: string)

  /** The format of one class: which fields it must have and which it may have. */
  datatype ClassDefinitionFormat = ClassDefinitionFormat(
    description: string,
    mandatoryFields: map<string, ClassField>,
    optionalFields: map<string, ClassField>)

  /**
   * The schema: class name to format. A class may be listed with a nil
   * format (`None`), as the YAML decoder leaves a class entry without a body.
   */
  class DefinitionFormat {
    var classFormat: map<string, Option<ClassDefinitionFormat>>

    constructor (formats: map<string, Option<ClassDefinitionFormat>>)
      ensures classFormat == formats
    {
      classFormat := formats;
    }
  }

  // ---------------------------------------------------------------------
  // Sums over map keys
  // ---------------------------------------------------------------------

  /** The sum of `f` over `keys`, in no particular order. */
  ghost function SumOver<K>(keys: set<K>, f: K -> nat): nat
    decreases |keys|
  {
    if keys == {} then 0 else var k :| k in keys; f(k) + SumOver(keys - {k}, f)
  }

  /** Any key may be taken out of the sum first. */
  lemma {:induction false} SumOverRemove<K>(keys: set<K>, f: K -> nat, x: K)
    requires x in keys
    ensures SumOver(keys, f) == f(x) + SumOver(keys - {x}, f)
    decreases |keys|
  {
    var k :| k in keys && SumOver(keys, f) == f(k) + SumOver(keys - {k}, f);
    if k != x {
      SumOverRemove(keys - {k}, f, x);
      SumOverRemove(keys - {x}, f, k);
      assert keys - {k} - {x} == keys - {x} - {k};
    }
  }

  lemma SumOverAdd<K>(done: set<K>, f: K -> nat, x: K)
    requires x !in done
    ensures SumOver(done + {x}, f) == SumOver(done, f) + f(x)
  {
    SumOverRemove(done + {x}, f, x);
    assert done + {x} - {x} == done;
  }

  /** A sum of naturals is zero exactly when every term is. */
  lemma {:induction false} SumOverZero<K>(keys: set<K>, f: K -> nat)
    ensures SumOver(keys, f) == 0 <==> forall k | k in keys :: f(k) == 0
    decreases |keys|
  {
    if keys != {} {
      var k :| k in keys && SumOver(keys, f) == f(k) + SumOver(keys - {k}, f);
      SumOverZero(keys - {k}, f);
    }
  }

  // ---------------------------------------------------------------------
  // The schema pass (parse.go:209-247)
  // ---------------------------------------------------------------------

  /** What one field of a record adds: 1 when the format neither requires nor allows it (parse.go:213-221). */
  function UnexpectedField(format: ClassDefinitionFormat, field: string): nat
  {
    if field !in format.mandatoryFields && field !in format.optionalFields then 1 else 0
  }

  /**
   * What one mandatory field adds (parse.go:224-245): 1 when it is absent or
   * nil; otherwise 1 when it is not a valid string field, plus 1 more when it
   * is a blank string.
   */
  function MandatoryFieldErrors(fields: Fields, field: string): nat
  {
    if field !in fields || fields[field] == Nil then 1
    else
      (if !FieldValidForType(fields[field], StringField) then 1 else 0)
      + (if fields[field].Str? && TrimSpace(fields[field].s) == "" then 1 else 0)
  }

  function Unexpected(format: ClassDefinitionFormat): string -> nat
  {
    field => UnexpectedField(format, field)
  }

  function MandatoryErrors(fields: Fields): string -> nat
  {
    field => MandatoryFieldErrors(fields, field)
  }

  /** The schema problems of one record. */
  ghost function RecordSchemaErrors(fields: Fields, format: ClassDefinitionFormat): nat
  {
    SumOver(fields.Keys, Unexpected(format)) + SumOver(format.mandatoryFields.Keys, MandatoryErrors(fields))
  }

  ghost function RecordErrors(bucket: map<string, Record>, format: ClassDefinitionFormat): string -> nat
  {
    id => if id in bucket then RecordSchemaErrors(bucket[id].fields, format) else 0
  }

  /** The schema problems of the records of one class. */
  ghost function BucketSchemaErrors(bucket: map<string, Record>, format: ClassDefinitionFormat): nat
  {
    SumOver(bucket.Keys, RecordErrors(bucket, format))
  }

  /** A class contributes only when its format is not nil and the dictionary has the class. */
  ghost function ClassErrors(classes: Classes, formats: map<string, Option<ClassDefinitionFormat>>): string -> nat
  {
    cls => if cls in formats && formats[cls].Some? && cls in classes then BucketSchemaErrors(classes[cls], formats[cls].value) else 0
  }

  ghost function SchemaErrors(classes: Classes, formats: map<string, Option<ClassDefinitionFormat>>): nat
  {
    SumOver(formats.Keys, ClassErrors(classes, formats))
  }

  /** Per mandatory field: 1 when absent or nil, 1 when present but not a string, 2 when a blank string. */
  lemma {:induction false} MandatoryFieldCount(fields: Fields, field: string)
    ensures MandatoryFieldErrors(fields, field) ==
      if field !in fields || fields[field] == Nil then 1
      else if !fields[field].Str? then 1
      else if AllSpace(fields[field].s) then 2
      else 0
  {
    if field in fields && fields[field].Str? {
      BlankIffAllSpace(fields[field].s);
    }
  }

  /** A record conforms to its format: no field outside the format, and every mandatory field a non-blank string. */
  predicate Conforms(fields: Fields, format: ClassDefinitionFormat)
  {
    && (forall f | f in fields :: f in format.mandatoryFields || f in format.optionalFields)
    && (forall f | f in format.mandatoryFields :: f in fields && FieldValidForType(fields[f], StringField))
  }

  lemma RecordSchemaErrorsZero(fields: Fields, format: ClassDefinitionFormat)
    ensures RecordSchemaErrors(fields, format) == 0 <==> Conforms(fields, format)
  {
    SumOverZero(fields.Keys, Unexpected(format));
    SumOverZero(format.mandatoryFields.Keys, MandatoryErrors(fields));
    forall f | f in format.mandatoryFields
      ensures MandatoryErrors(fields)(f) == 0 <==> f in fields && FieldValidForType(fields[f], StringField)
    {
      MandatoryFieldZero(fields, f);
    }
  }

  /** A mandatory field adds nothing exactly when it is present and a valid string field. */
  lemma MandatoryFieldZero(fields: Fields, field: string)
    ensures MandatoryFieldErrors(fields, field) == 0 <==> field in fields && FieldValidForType(fields[field], StringField)
  {
  }

  /** The schema pass finds nothing exactly when every record of every class with a format conforms to it. */
  lemma SchemaErrorsZero(classes: Classes, formats: map<string, Option<ClassDefinitionFormat>>)
    ensures SchemaErrors(classes, formats) == 0 <==>
      forall cls, id | cls in formats && formats[cls].Some? && cls in classes && id in classes[cls] ::
        Conforms(classes[cls][id].fields, formats[cls].value)
  {
    SumOverZero(formats.Keys, ClassErrors(classes, formats));
    forall cls | cls in formats && formats[cls].Some? && cls in classes
      ensures BucketSchemaErrors(classes[cls], formats[cls].value) == 0 <==>
        forall id | id in classes[cls] :: Conforms(classes[cls][id].fields, formats[cls].value)
    {
      SumOverZero(classes[cls].Keys, RecordErrors(classes[cls], formats[cls].value));
      forall id | id in classes[cls] {
        RecordSchemaErrorsZero(classes[cls][id].fields, formats[cls].value);
      }
    }
  }

  // ---------------------------------------------------------------------
  // The reference pass (parse.go:249-262)
  // ---------------------------------------------------------------------

  /** A reference resolves when its class has a bucket holding its ID. */
  predicate Resolves(ref: Reference, classes: Classes)
  {
    ref.className in classes && ref.id in classes[ref.className]
  }

  /** The references of one record that do not resolve; each counts once, whether its class or its ID is missing. */
  function RefErrors(refs: seq<Reference>, classes: Classes): nat
  {
    if |refs| == 0 then 0
    else RefErrors(refs[..|refs| - 1], classes) + (if Resolves(refs[|refs| - 1], classes) then 0 else 1)
  }

  ghost function RecordRefErrors(bucket: map<string, Record>, classes: Classes): string -> nat
  {
    id => if id in bucket then RefErrors(bucket[id].references, classes) else 0
  }

  ghost function BucketRefErrors(bucket: map<string, Record>, classes: Classes): nat
  {
    SumOver(bucket.Keys, RecordRefErrors(bucket, classes))
  }

  ghost function ClassRefErrors(classes: Classes): string -> nat
  {
    cls => if cls in classes then BucketRefErrors(classes[cls], classes) else 0
  }

  ghost function ReferenceErrors(classes: Classes): nat
  {
    SumOver(classes.Keys, ClassRefErrors(classes))
  }

  lemma {:induction false} RefErrorsZero(refs: seq<Reference>, classes: Classes)
    ensures RefErrors(refs, classes) == 0 <==> forall i | 0 <= i < |refs| :: Resolves(refs[i], classes)
  {
    if |refs| > 0 {
      var init := refs[..|refs| - 1];
      RefErrorsZero(init, classes);
      assert forall i | 0 <= i < |init| :: init[i] == refs[i];
    }
  }

  /** A record with a reference that does not resolve makes the count positive. */
  lemma {:induction false} RefErrorsPositive(refs: seq<Reference>, classes: Classes, i: nat)
    requires i < |refs| && !Resolves(refs[i], classes)
    ensures RefErrors(refs, classes) >= 1
  {
    RefErrorsZero(refs, classes);
  }

  /** The reference pass finds nothing exactly when every reference of every record resolves. */
  lemma ReferenceErrorsZero(classes: Classes)
    ensures ReferenceErrors(classes) == 0 <==>
      forall cls, id, i | cls in classes && id in classes[cls] && 0 <= i < |classes[cls][id].references| ::
        Resolves(classes[cls][id].references[i], classes)
  {
    SumOverZero(classes.Keys, ClassRefErrors(classes));
    forall cls | cls in classes
      ensures BucketRefErrors(classes[cls], classes) == 0 <==>
        forall id | id in classes[cls] :: RefErrors(classes[cls][id].references, classes) == 0
    {
      SumOverZero(classes[cls].Keys, RecordRefErrors(classes[cls], classes));
    }
    forall cls, id | cls in classes && id in classes[cls] {
      RefErrorsZero(classes[cls][id].references, classes);
    }
  }

  // ---------------------------------------------------------------------
  // The counting loops
  // ---------------------------------------------------------------------

  /** The fields of one record that the format neither requires nor allows (parse.go:213-221). */
  method CountUnexpectedFields(fields: Fields, format: ClassDefinitionFormat) returns (n: nat)
    ensures n == SumOver(fields.Keys, Unexpected(format))
  {
    n := 0;
    var pending := fields.Keys;
    while pending != {}
      invariant pending <= fields.Keys
      invariant n == SumOver(fields.Keys - pending, Unexpected(format))
      decreases pending
    {
      var field :| field in pending;
      SumOverAdd(fields.Keys - pending, Unexpected(format), field);
      assert fields.Keys - (pending - {field}) == (fields.Keys - pending) + {field};
      var isMandatory := field in format.mandatoryFields;
      var isOptional := field in format.optionalFields;
      if !isMandatory && !isOptional {
        n := n + 1;
      }
      pending := pending - {field};
    }
    assert fields.Keys - pending == fields.Keys;
  }

  /** The problems with the mandatory fields of one record (parse.go:224-245). */
  method CountMandatoryFieldErrors(fields: Fields, format: ClassDefinitionFormat) returns (n: nat)
    ensures n == SumOver(format.mandatoryFields.Keys, MandatoryErrors(fields))
  {
    n := 0;
    var pending := format.mandatoryFields.Keys;
    while pending != {}
      invariant pending <= format.mandatoryFields.Keys
      invariant n == SumOver(format.mandatoryFields.Keys - pending, MandatoryErrors(fields))
      decreases pending
    {
      var field :| field in pending;
      SumOverAdd(format.mandatoryFields.Keys - pending, MandatoryErrors(fields), field);
      assert format.mandatoryFields.Keys - (pending - {field}) == (format.mandatoryFields.Keys - pending) + {field};
      if field !in fields || fields[field] == Nil {
        n := n + 1;
      } else {
        if !FieldValidForType(fields[field], StringField) {
          n := n + 1;
        }
        if fields[field].Str? && TrimSpace(fields[field].s) == "" {
          n := n + 1;
        }
      }
      pending := pending - {field};
    }
    assert format.mandatoryFields.Keys - pending == format.mandatoryFields.Keys;
  }

  /** The schema problems of the records of one class (parse.go:211-246). */
  method CountBucketSchemaErrors(bucket: map<string, Record>, format: ClassDefinitionFormat) returns (n: nat)
    ensures n == BucketSchemaErrors(bucket, format)
  {
    n := 0;
    var pending := bucket.Keys;
    while pending != {}
      invariant pending <= bucket.Keys
      invariant n == SumOver(bucket.Keys - pending, RecordErrors(bucket, format))
      decreases pending
    {
      var id :| id in pending;
      SumOverAdd(bucket.Keys - pending, RecordErrors(bucket, format), id);
      assert bucket.Keys - (pending - {id}) == (bucket.Keys - pending) + {id};
      var unexpected := CountUnexpectedFields(bucket[id].fields, format);
      var mandatory := CountMandatoryFieldErrors(bucket[id].fields, format);
      n := n + unexpected + mandatory;
      pending := pending - {id};
    }
    assert bucket.Keys - pending == bucket.Keys;
  }

  /** The references of one record that do not resolve (parse.go:252-260). */
  method CountRefErrors(refs: seq<Reference>, classes: Classes) returns (n: nat)
    ensures n == RefErrors(refs, classes)
  {
    n := 0;
    for i := 0 to |refs|
      invariant n == RefErrors(refs[..i], classes)
    {
      assert refs[..i + 1][..i] == refs[..i];
      var ref := refs[i];
      if ref.className !in classes {
        n := n + 1;
      } else if ref.id !in classes[ref.className] {
        n := n + 1;
      }
    }
    assert refs[..|refs|] == refs;
  }

  /** The unresolved references of the records of one class (parse.go:251-261). */
  method CountBucketRefErrors(bucket: map<string, Record>, classes: Classes) returns (n: nat)
    ensures n == BucketRefErrors(bucket, classes)
  {
    n := 0;
    var pending := bucket.Keys;
    while pending != {}
      invariant pending <= bucket.Keys
      invariant n == SumOver(bucket.Keys - pending, RecordRefErrors(bucket, classes))
      decreases pending
    {
      var id :| id in pending;
      SumOverAdd(bucket.Keys - pending, RecordRefErrors(bucket, classes), id);
      assert bucket.Keys - (pending - {id}) == (bucket.Keys - pending) + {id};
      var k := CountRefErrors(bucket[id].references, classes);
      n := n + k;
      pending := pending - {id};
    }
    assert bucket.Keys - pending == bucket.Keys;
  }

  /**
   * A class listed with a nil format makes ValidateDictionary dereference a
   * nil format as soon as the dictionary has a record of that class.
   */
  predicate NoNilFormatInUse(classes: Classes, formats: map<string, Option<ClassDefinitionFormat>>)
  {
    forall cls | cls in formats && formats[cls].None? :: cls !in classes || classes[cls] == map[]
  }

  /**
   * ValidateDictionary (parse.go:206-270): the schema problems when a format
   * is given, plus the unresolved references; an error exactly when the total
   * is positive. The dictionary is only read.
   */
  method ValidateDictionary(d: Dictionary, df: DefinitionFormat?) returns (r: Outcome)
    requires df != null ==> NoNilFormatInUse(d.classes, df.classFormat)
    ensures r == FromCount((if df == null then 0 else SchemaErrors(d.classes, df.classFormat)) + ReferenceErrors(d.classes))
  {
    var errorsFound := 0;
    if df != null {
      errorsFound := CountSchemaErrors(d.classes, df.classFormat);
    }
    var n := CountReferenceErrors(d.classes);
    errorsFound := errorsFound + n;
    r := if errorsFound > 0 then ErrorsFound(errorsFound) else Ok;
  }

  /** The schema pass (parse.go:209-247): the problems of every class that has a format, over the classes of the schema. */
  method CountSchemaErrors(classes: Classes, formats: map<string, Option<ClassDefinitionFormat>>) returns (n: nat)
    requires NoNilFormatInUse(classes, formats)
    ensures n == SchemaErrors(classes, formats)
  {
    n := 0;
    var pending := formats.Keys;
    while pending != {}
      invariant pending <= formats.Keys
      invariant n == SumOver(formats.Keys - pending, ClassErrors(classes, formats))
      decreases pending
    {
      var cls :| cls in pending;
      SumOverAdd(formats.Keys - pending, ClassErrors(classes, formats), cls);
      assert formats.Keys - (pending - {cls}) == (formats.Keys - pending) + {cls};
      if cls in classes && classes[cls] != map[] {
        var format := formats[cls].value;
        var m := CountBucketSchemaErrors(classes[cls], format);
        n := n + m;
      } else if cls in classes && formats[cls].Some? {
        EmptyBucketNoErrors(formats[cls].value);
      }
      pending := pending - {cls};
    }
    assert formats.Keys - pending == formats.Keys;
  }

  /** The reference pass (parse.go:250-262): the unresolved references of every record of every class. */
  method CountReferenceErrors(classes: Classes) returns (n: nat)
    ensures n == ReferenceErrors(classes)
  {
    n := 0;
    var pending := classes.Keys;
    while pending != {}
      invariant pending <= classes.Keys
      invariant n == SumOver(classes.Keys - pending, ClassRefErrors(classes))
      decreases pending
    {
      var cls :| cls in pending;
      SumOverAdd(classes.Keys - pending, ClassRefErrors(classes), cls);
      assert classes.Keys - (pending - {cls}) == (classes.Keys - pending) + {cls};
      var m := CountBucketRefErrors(classes[cls], classes);
      n := n + m;
      pending := pending - {cls};
    }
    assert classes.Keys - pending == classes.Keys;
  }

  lemma EmptyBucketNoErrors(format: ClassDefinitionFormat)
    ensures BucketSchemaErrors(map[], format) == 0
  {
  }

  // ---------------------------------------------------------------------
  // What validation promises
  // ---------------------------------------------------------------------

  /** The problems ValidateDictionary counts, with an optional schema. */
  ghost function ValidationErrors(classes: Classes, formats: Option<map<string, Option<ClassDefinitionFormat>>>): nat
  {
    (if formats.None? then 0 else SchemaErrors(classes, formats.value)) + ReferenceErrors(classes)
  }

  /** Every record of every class the schema gives a format to conforms to that format. */
  ghost predicate AllConform(classes: Classes, formats: map<string, Option<ClassDefinitionFormat>>)
  {
    forall cls, id | cls in formats && formats[cls].Some? && cls in classes && id in classes[cls] ::
      Conforms(classes[cls][id].fields, formats[cls].value)
  }

  /** Every reference of every record names a (class, ID) the dictionary holds. */
  ghost predicate AllResolve(classes: Classes)
  {
    forall cls, id, i | cls in classes && id in classes[cls] && 0 <= i < |classes[cls][id].references| ::
      Resolves(classes[cls][id].references[i], classes)
  }

  /**
   * Validation reports no error exactly when every reference resolves and,
   * with a schema, every record of a class that has a format conforms to it.
   */
  lemma ValidationPassesIff(classes: Classes, formats: Option<map<string, Option<ClassDefinitionFormat>>>)
    ensures ValidationErrors(classes, formats) == 0 <==>
      AllResolve(classes) && (formats.Some? ==> AllConform(classes, formats.value))
  {
    ReferenceErrorsZero(classes);
    if formats.Some? {
      SchemaErrorsZero(classes, formats.value);
    }
  }

  /** A reference to a class or an ID the dictionary does not hold is always reported. */
  lemma UnresolvedReferenceReported(classes: Classes, cls: string, id: string, i: nat)
    requires cls in classes && id in classes[cls] && i < |classes[cls][id].references|
    requires !Resolves(classes[cls][id].references[i], classes)
    ensures ReferenceErrors(classes) >= 1
  {
    ReferenceErrorsZero(classes);
  }

  /** A record breaking the format of its class is always reported. */
  lemma NonConformingRecordReported(classes: Classes, formats: map<string, Option<ClassDefinitionFormat>>, cls: string, id: string)
    requires cls in formats && formats[cls].Some? && cls in classes && id in classes[cls]
    requires !Conforms(classes[cls][id].fields, formats[cls].value)
    ensures SchemaErrors(classes, formats) >= 1
  {
    SchemaErrorsZero(classes, formats);
  }

  lemma SumOverSingleton<K>(k: K, f: K -> nat)
    ensures SumOver({k}, f) == f(k)
  {
    SumOverRemove({k}, f, k);
    assert {k} - {k} == {};
  }

  lemma SumOverPair<K>(a: K, b: K, f: K -> nat)
    requires a != b
    ensures SumOver({a, b}, f) == f(a) + f(b)
  {
    SumOverRemove({a, b}, f, a);
    assert {a, b} - {a} == {b};
    SumOverSingleton(b, f);
  }

  /**
   * One record whose only mandatory field is a blank string and which has one
   * field the format does not list: the blank field counts twice (it is not a
   * valid string field, and it is an empty string) and the extra field once.
   */
  lemma {:induction false} BlankMandatoryCountsTwice(name: string, extra: string, blank: string, x: Value, format: ClassDefinitionFormat)
    requires name != extra && AllSpace(blank)
    requires format.mandatoryFields.Keys == {name} && extra !in format.optionalFields
    ensures RecordSchemaErrors(map[name := Str(blank), extra := x], format) == 3
  {
    var fields := map[name := Str(blank), extra := x];
    assert fields.Keys == {name, extra};
    SumOverPair(name, extra, Unexpected(format));
    SumOverSingleton(name, MandatoryErrors(fields));
    MandatoryFieldCount(fields, name);
  }

  /** The same record held in a dictionary of one class that has that format, with no references: three problems. */
  lemma {:induction false} BlankMandatoryDictionary(cls: string, id: string, fields: Fields, format: ClassDefinitionFormat)
    requires RecordSchemaErrors(fields, format) == 3
    ensures ValidationErrors(map[cls := map[id := Record(fields, [])]], Some(map[cls := Some(format)])) == 3
  {
    var classes := map[cls := map[id := Record(fields, [])]];
    var formats := map[cls := Some(format)];
    assert classes[cls].Keys == {id} && classes.Keys == {cls} && formats.Keys == {cls};
    assert RefErrors([], classes) == 0;
    SumOverSingleton(id, RecordErrors(classes[cls], format));
    assert BucketSchemaErrors(classes[cls], format) == 3;
    SumOverSingleton(cls, ClassErrors(classes, formats));
    assert SchemaErrors(classes, formats) == 3;
    SumOverSingleton(id, RecordRefErrors(classes[cls], classes));
    assert BucketRefErrors(classes[cls], classes) == 0;
    SumOverSingleton(cls, ClassRefErrors(classes));
  }

  /**
   * ValidateDictionary over a dictionary holding one record of class `cls`
   * with a blank mandatory field and one unlisted field, and no references:
   * three problems.
   */
  method BlankMandatoryScenario(cls: string, id: string, name: string, extra: string, x: Value)
    returns (r: Outcome)
    requires name != extra
    ensures r == ErrorsFound(3)
  {
    var fields := map[name := Str(""), extra := x];
    var format := ClassDefinitionFormat("", map[name := ClassField("")], map[]);
    var d := new Dictionary();
    d.classes := map[cls := map[id := Record(fields, [])]];
    var df := new DefinitionFormat(map[cls := Some(format)]);
    assert ValidationErrors(d.classes, Some(df.classFormat)) == 3 by {
      BlankMandatoryCountsTwice(name, extra, "", x, format);
      BlankMandatoryDictionary(cls, id, fields, format);
    }
    assert NoNilFormatInUse(d.classes, df.classFormat);
    r := ValidateDictionary(d, df);
  }
}
