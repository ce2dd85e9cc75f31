# yaml-graph core in Dafny

yaml-graph reads YAML documents that describe classes of definitions. It merges
them into one in-memory dictionary, validates that dictionary against an
optional schema and against its own cross-references, and turns it into Cypher
statements for a graph database. This project models the in-memory core of
that pipeline and proves what each part promises:

- `definition.dfy` (module `Definition`): the decoded document shapes
  (`Specification`, `Definition`, `Reference`, a tagged field `Value`).
- `loader.dfy` (module `Loader`): `loadSpecification` and `LoadDictionary`.
  The `Dictionary` is a class whose `classes` map (class, then ID, to record)
  the methods update in place.
- `validator.dfy` (module `Validator`): `fieldTypeValid`, `fieldValidForType`,
  the `DefinitionFormat` schema, and `ValidateDictionary`. Its counting loops
  are read-only methods, each proved equal to a counting function.
- `merge.dfy` (module `ValidateCommand`): `mergeDefinitionFormat`, the in-place
  union of schema files.
- `template.dfy` (module `Template`): `getOrderClause`, `getCypherForSection`,
  `contains` and `nilToStr`.
- `graph.dfy` (module `Graph`): `getDefinitionCypherString` and
  `getEdgeCypherString`.
- `strings.dfy` (module `Strings`): the parts of Go's `strings` package the
  core uses (`TrimSpace`, `Join`), plus a `Split` used to state results.

Go ranges over maps in an unspecified order. Every loop over a map picks its
next key with `:|`, so each method is proved for every visiting order. The
contracts state only what holds whatever the order was.

Two behaviours of the code are reproduced as written:

- A blank mandatory string field counts twice (src/parser/parse.go:230-242).
  It is not a valid string field, and it is also reported as missing. So the
  Widget example, with a blank `Name` and an extra field, gives 3 problems:
  2 for `Name` and 1 for the extra field.
- A sub-specification whose merge reports errors adds exactly 1 to its
  parent's count, however many it found (src/parser/parse.go:133-136). Which
  sub-specifications fail can depend on the order Go visits them, when two of
  them insert the same key. The contract bounds the set of failing ones from
  both sides. Every one that collides with a key present before the recursion
  fails. A failing one collides with such a key or with a key a sibling
  inserts. When siblings insert disjoint keys, the two bounds meet and the
  count is exact.

The validator checks every mandatory field as a string, whatever the schema
declares. The model does the same.

## Model

| member | source | states |
|---|---|---|
| Strings.TrimSpaceIsTrimmedSlice | src/parser/parse.go:190 | TrimSpace returns a slice of its input. Only white space is cut from either end, and the result neither starts nor ends with white space. |
| Strings.BlankIffAllSpace | src/parser/parse.go:238 | A string trims to "" exactly when every character in it is white space. |
| Strings.TrimmedUnchanged | src/parser/template.go:124-131 | A string that neither starts nor ends with white space is left unchanged by trimming. |
| Loader.FromCount | src/parser/parse.go:140-145 | The outcome is an error exactly when the count is positive, and then it carries that count. |
| Loader.Dictionary.constructor | src/parser/parse.go:150 | A new dictionary holds no classes. |
| Loader.Dictionary.AddClass | src/parser/parse.go:91-94 | An empty bucket is created for a class seen for the first time. An existing bucket, and every other class, is left as it was. |
| Loader.Dictionary.InsertDefinitions | src/parser/parse.go:97-109 | Each definition of the specification replaces or adds the record under its ID, holding its fields and its own references. Other records are untouched. The count returned is the number of IDs that were already present. |
| Loader.Dictionary.AppendReferences | src/parser/parse.go:112-116 | The specification's references are appended, in order, to every record of the class, including records merged earlier from other documents. |
| Loader.Dictionary.AppendToEach | src/parser/parse.go:119-123 | One reference is appended to exactly the records whose ID is in the given set. |
| Loader.LoadSpecification | src/parser/parse.go:85-146 | A nil dictionary gives no error and no change. Otherwise: the classes and (class, ID) keys added are exactly those of the tree; buckets of other classes are unchanged; every other record keeps its fields, and its references are only appended to; an earlier record of the specification's class that the tree does not overwrite gets the specification's references appended; in a tree without internal collisions, every definition holds its fields, and its reference list starts with its own references, then the specification's, then the parent reference. The count is the duplicates at this level plus 1 per failing sub-specification. Every sub-specification that collides with a key present before the recursion is counted as failing. Every one counted as failing collides with such a key or with a sibling's key. The result is an error exactly when some insertion anywhere in the tree overwrote a record. |
| Loader.LoadTop | src/parser/parse.go:91-123 | Before recursing, each definition of this level holds exactly its fields and its own references, then the specification's, then the parent reference. Earlier records of the class get only the specification's references. The number of duplicates is returned. |
| Loader.LoadChildren | src/parser/parse.go:127-138 | The recursion into every (definition, relationship) sub-specification keeps the whole-tree contract. Each failing child adds exactly 1, and the failing children are bounded from both sides as for LoadSpecification. With no children nothing changes. |
| Loader.LoadRelations | src/parser/parse.go:128-137 | Each sub-specification of one definition is merged with the reference {class, ID, relationship} of its parent. A failing one is counted once. The loop invariant keeps the two-sided bound on the failing children visited so far. |
| Loader.FailedExactWhenDisjoint | src/parser/parse.go:127-138 | When no two sub-specifications insert a common key, the failing ones are exactly those that collide with a key present before the recursion, so each of them adds exactly 1. |
| Loader.FailingChildrenScenario | src/parser/parse.go:127-138 | A new definition with two sub-specifications, each redeclaring a record already in the dictionary, gives an error carrying 2. |
| Loader.CleanIffFresh | src/parser/parse.go:99-103 | A tree merges without a duplicate exactly when it has no collision of its own and none of its keys is already in the dictionary. |
| Loader.NoDuplicates | src/parser/parse.go:99-103 | The top level finds no duplicate exactly when none of its (class, ID) keys is present yet. |
| Loader.FlatSpecification | src/parser/parse.go:127-138 | A specification without sub-specifications inserts only its own keys. It merges cleanly exactly when none of them is present. |
| Loader.LoadFlatSpecification | src/parser/parse.go:97-123 | For a flat specification: one error per ID already present; each definition stored exactly with its fields and its own references, then the specification's, then the parent reference; earlier records of the class get only the specification's references. |
| Loader.LoadDictionary | src/parser/parse.go:149-170 | Folding the merge over the decoded documents, starting from an empty dictionary, gives exactly the classes and (class, ID) keys of the documents that were decoded and declare at least one definition. The others are skipped. |
| Loader.EmptyDocumentSkipped | src/definition/definition.go:135-139 | A document that declares no definitions adds no class to the dictionary, although merging it would create its class's bucket. |
| Loader.DuplicateDefinitionScenario | src/parser/parse_test.go:509-537 | The first merge of a (class, ID) reports nothing. Merging it again reports exactly one error, and the later fields win. |
| Loader.SharedReferenceScenario | src/parser/parse.go:112-116 | A later document's specification reference reaches a record merged earlier, after that record's own references. A definition with no references of its own gets exactly the specification's references. |
| Loader.ParentReferenceScenario | src/parser/parse.go:119-123 | A sub-specification's definitions get the parent reference after the specification's references. An earlier record of the same class does not get it. |
| Validator.FieldTypeValid | src/parser/parse.go:172-184 | A value has a valid field type exactly when it is neither nil nor of a type outside the five scalar types. |
| Validator.FieldValidForType | src/parser/parse.go:186-203 | A value valid for a field type has a valid field type and is never an int64. The empty string is never a valid string field. |
| Validator.FieldTypeValidIff | src/parser/parse.go:172-184 | fieldTypeValid holds exactly for string, bool, float64, int and int64 values, and never for nil. |
| Validator.ValidForOneTypeOnly | src/parser/parse.go:186-203 | A value valid for a field type has a valid type, and is valid for no other field type, so an int is not a float and a float is not an int. |
| Validator.NilAndInt64NeverValid | src/parser/parse.go:186-203 | Nil and int64 values are valid for no field type. |
| Validator.StringFieldIffNotBlank | src/parser/parse.go:188-190 | A value is a valid string field exactly when it is a string with a character that is not white space. |
| Validator.DefinitionFormat.constructor | src/parser/parse.go:67-70 | A schema holds the given class formats. |
| Validator.MandatoryFieldCount | src/parser/parse.go:223-243 | One mandatory field counts 1 if absent or nil, 1 if present but not a string, 2 if a blank string, 0 otherwise. |
| Validator.RecordSchemaErrorsZero | src/parser/parse.go:211-245 | A record has no schema problem exactly when all its fields are mandatory or optional and every mandatory field is a non-blank string. |
| Validator.SchemaErrorsZero | src/parser/parse.go:209-247 | The schema pass finds nothing exactly when every record of every class with a (non-nil) format conforms to it. |
| Validator.RefErrorsZero | src/parser/parse.go:252-260 | A record's references give no error exactly when each names a class the dictionary has and an ID in that class. |
| Validator.RefErrorsPositive | src/parser/parse.go:253-259 | One unresolved reference is enough for a positive count. |
| Validator.ReferenceErrorsZero | src/parser/parse.go:250-262 | The reference pass finds nothing exactly when every reference of every record resolves. |
| Validator.CountUnexpectedFields | src/parser/parse.go:213-220 | Counts the fields of a record that the format neither requires nor allows. |
| Validator.CountMandatoryFieldErrors | src/parser/parse.go:223-244 | Sums the per-field count over the format's mandatory fields. |
| Validator.CountBucketSchemaErrors | src/parser/parse.go:211-245 | Sums the schema problems over every record of one class. |
| Validator.CountRefErrors | src/parser/parse.go:252-260 | Counts each unresolved reference of one record once, whether its class or its ID is missing. |
| Validator.MandatoryFieldZero | src/parser/parse.go:223-243 | A mandatory field adds nothing exactly when it is present and a non-blank string. |
| Validator.CountSchemaErrors | src/parser/parse.go:209-247 | Sums the schema problems over the classes of the schema. A class counts only when the dictionary has it and its format is not nil. |
| Validator.CountReferenceErrors | src/parser/parse.go:250-262 | Sums the unresolved references over every class of the dictionary. |
| Validator.CountBucketRefErrors | src/parser/parse.go:251-261 | Sums the unresolved references over every record of one class. |
| Validator.ValidateDictionary | src/parser/parse.go:206-270 | The result is an error exactly when the schema problems (only with a schema, only for classes that have records) plus the unresolved references are positive, and it carries that total. The dictionary is only read. |
| Validator.EmptyBucketNoErrors | src/parser/parse.go:211 | A class with no records contributes no schema problem. |
| Validator.ValidationPassesIff | src/parser/parse.go:206-270 | Validation passes exactly when every reference resolves and, with a schema, every record of a class with a format conforms to it. |
| Validator.UnresolvedReferenceReported | src/parser/parse.go:253-259 | A reference to a class or an ID the dictionary does not hold always makes the count positive. |
| Validator.NonConformingRecordReported | src/parser/parse.go:213-244 | A record that breaks its class's format always makes the schema count positive. |
| Validator.BlankMandatoryCountsTwice | src/parser/parse.go:230-242 | A record whose only mandatory field is blank, with one unlisted field, has exactly 3 schema problems. |
| Validator.BlankMandatoryDictionary | src/parser/parse.go:206-247 | That record, alone in its class with its format and no references, makes validation count exactly 3. |
| Validator.BlankMandatoryScenario | src/parser/parse.go:230-242 | ValidateDictionary on that dictionary returns an error carrying 3. |
| ValidateCommand.MergeDefinitionFormat | src/cmd/validate.go:66-79 | A nil argument gives an error and changes nothing. It fails exactly when some class of the new format is already declared (non-nil) in the current one, and then names such a class. On success the current format is its old contents plus every new entry. In any case the result is the old contents plus some new entries, none of them for a declared class, so every declared class keeps its format, also when the merge fails. |
| ValidateCommand.MergeKeepsDeclared | src/cmd/validate.go:71-78 | A successful merge keeps every class the current format declared, with its format. |
| ValidateCommand.PartialMergeKeepsDeclared | src/cmd/validate.go:71-75 | Copying only entries for undeclared classes, as MergeDefinitionFormat does before a clash, is a partial merge in which every declared class keeps its format. |
| ValidateCommand.EmptyMergeScenario | src/cmd/validate_test.go:47-63 | Merging a format with no classes succeeds and changes nothing. |
| ValidateCommand.SingleMergeScenario | src/cmd/validate_test.go:65-82 | Merging a format with one new class succeeds and adds it. |
| ValidateCommand.MultipleMergeScenario | src/cmd/validate_test.go:84-100 | Merging two new classes into an empty format adds both. |
| ValidateCommand.ClashMergeScenario | src/cmd/validate_test.go:102-115 | Merging a format that redeclares a class fails on that class, and the class keeps its earlier format. |
| Template.GetOrderClause | src/parser/template.go:109-119 | The order clause is `class.field` for each order field, in order, comma-separated, using the untrimmed class. |
| Template.OrderClauseSplits | src/parser/template.go:109-119 | With no order fields the clause is "". Otherwise, with no commas in the names, it splits on commas into exactly one `class.field` per field. |
| Template.OrderClauseCases | src/parser/template_test.go:29-87 | The pinned clauses: "class1.field1", "class2.field1,class2.field2", and "" for no fields. |
| Template.Alias | src/parser/template.go:124-130 | The alias is the trimmed alias, or the trimmed class when the alias is blank. |
| Template.GetCypherForSection | src/parser/template.go:121-163 | The query is "match M return R order by O", ending in "order by " when there are no order fields. M is the match head, then the aggregate matches. R is the alias, then the aggregate names. O is the order clause. |
| Template.AddAggregates | src/parser/template.go:153-160 | The aggregate loop appends one optional match per aggregate class to the match clause, and one name per class to the return clause, in list order. |
| Template.AddAggregate | src/parser/template.go:153-160 | One more aggregate class appends exactly its optional match to the match clause and ",name" to the return clause. |
| Template.ReturnClauseSplits | src/parser/template.go:133-159 | With no commas in the names, the return clause splits into the alias followed by the aggregate class names, in order. |
| Template.RootMatchIgnoresParentAndAlias | src/parser/template.go:146-147 | With a blank parent class, the match head is "(C:C)" with the trimmed class. The alias, relationship, direction and parent ID play no part. |
| Template.CompositeDirection | src/parser/template.go:44 | In a composite match, the character after the section node is "<" exactly when the from-arrow is asked for. The one after the relationship pattern is ">" exactly when the to-arrow is. |
| Template.LinkedMatchDirection | src/parser/template.go:136-151 | With a parent class, "<" appears exactly when RelationshipFrom is set and ">" exactly when RelationshipTo is set, independently of each other. |
| Template.LinkedMatchEndsWithParent | src/parser/template.go:148-151 | With a parent class, the match head ends with the parent node, built from the trimmed parent class twice and the trimmed parent ID. |
| Template.RootSectionCypherCase | src/parser/template_test.go:107-121 | For any class name that needs no trimming, a root section with two order fields gives "match (C:C) return C order by C.f1,C.f2". |
| Template.ParentSectionCypherCase | src/parser/template_test.go:91-106 | A section under a parent gives "match (C:C)-[:rel]-(P:P {ID:"id"}) return C order by C.f1,C.f2". |
| Template.PlainLinkedHead | src/parser/template.go:148-151 | Without alias or arrow heads, the linked match head is the section node, the link and the parent node. |
| Template.Contains | src/parser/template.go:237-244 | The result is true exactly when x is an element of the list. |
| Template.NilToStr | src/parser/template.go:193-198 | nil becomes the empty string, anything else is returned as it is, and the result is never nil. |
| Graph.FieldAssignment | src/graph/common.go:29 | `n.f=$f` starts with "n." followed by the field name, and is four characters longer than twice the field name. |
| Graph.GetDefinitionCypherString | src/graph/common.go:87-103 | The statement is the MERGE prefix. When there are fields, " SET " follows, then one assignment per field, comma-separated, in an order that lists each field name exactly once. So with no fields the statement is the bare prefix, and every field's assignment occurs in it. Field values play no part. |
| Graph.NoFieldsBarePrefix | src/graph/common_test.go:30-33 | With no fields the statement is exactly `MERGE (n:C {ID:$ID})`. |
| Graph.OneFieldSet | src/graph/common_test.go:35-39 | With one field f the statement is the prefix, " SET " and `n.f=$f`. |
| Graph.SomeFieldsSplit | src/graph/common.go:90-100 | With k ≥ 1 fields (no commas in their names) the statement is the prefix, " SET " and a list that splits on commas into exactly k assignments, one per field. |
| Graph.EveryFieldAssigned | src/graph/common.go:91-99 | Every field's assignment occurs in the statement. |
| Graph.GetEdgeCypherString | src/graph/common.go:105-107 | The edge statement starts by matching the definition's node `n1` by class and ID, and ends by merging a relationship directed from `n1` to `n2`. |
| Graph.EdgeAlwaysDirected | src/graph/common.go:105-107 | The edge statement ignores RelationshipFrom and RelationshipTo, and always ends with the directed merge `(n1)-[:rel]->(n2)`. |

## Left out

- Directory walking, file reads and YAML decoding (`ProcessFiles`, `LoadSpecificationFromFile`, `FileFields` and base64) are not modelled. `LoadDictionary` takes the decoded documents, with `None` for a document that could not be read or decoded. It applies the one check `LoadSpecificationFromFile` makes after decoding: a document without definitions is skipped.
- Logging calls are dropped; only the counters they accompany are kept.
- Executing Cypher against Neo4j, the template configuration loader, `recurseTemplateSection`, `ParseTemplate`, markdown rendering and the command-line wiring of src/cmd are not part of this model.
- Go's map iteration order is left open rather than modelled. When two sub-specifications of one tree write the same (class, ID), which one wins depends on that order, and no contract says which.
- Loader.LoadSpecification: for a tree with sub-specifications, a record's references are stated as a prefix (its own, then the specification's, then the parent reference). A later sub-specification of the same class may append its specification references after them. This holds only for trees without internal collisions. For flat specifications, LoadFlatSpecification states the lists exactly.
- Loader.LoadSpecification: which sub-specifications count as failing is bounded from both sides rather than stated exactly. When two of them insert the same key, whether one fails depends on the order Go visits them. FailedExactWhenDisjoint gives the exact set when no two share a key.
- Loader.LoadTop: in the source this is the first phase of loadSpecification; here it is its own method.
- Loader.LoadChildren: in the source this is the outer recursion loop of loadSpecification; here it is its own method, so the loop carries its own invariant.
- Loader.LoadRelations: in the source this is the inner recursion loop of loadSpecification; here it is its own method.
- Validator.CountSchemaErrors and Validator.CountReferenceErrors: in the source these are the two passes of ValidateDictionary, inline; here each is its own read-only method.
- Template.AddAggregates: in the source this is the inline aggregate loop of getCypherForSection; here it is its own method.
- Go slices share backing arrays: `References: dfn.References` followed by `append` can write into the decoded document's array. The model treats reference lists as values, so that aliasing is not captured.
- Validator.ValidateDictionary: a schema that lists a class with a nil format while the dictionary has records of that class makes the Go code dereference nil. The model requires that this does not happen.
- A nil Dictionary in Go is an empty map. ValidateDictionary takes a Dictionary object, and an empty one stands for nil. LoadSpecification models the nil case explicitly.
- ValidateCommand.MergeDefinitionFormat: a DefinitionFormat whose ClassFormat map is nil makes the Go assignment panic. The model's formats always hold a map.
- Graph.GetDefinitionCypherString: does not state that " SET " occurs exactly once, because a field name may itself contain " SET ". SomeFieldsSplit states the decomposition instead.
- Error counters are unbounded naturals; Go's `int` overflow is not modelled. A float64 value is kept as its bit pattern and is never computed with.
- The test scenarios are stated for all names (class names that need no trimming, any field names) rather than for the tests' literal strings, except for the order-clause and merge cases.
