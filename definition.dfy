/*
 * The decoded document shapes of src/definition/definition.go: a
 * Specification (one source document) holds Definitions keyed by ID, and a
 * Definition may nest further Specifications keyed by the relationship name
 * that links them back to it.
 */
module Definition {

  datatype Option<T> = None | Some(value: T)

  /**
   * A field value as the YAML decoder hands it over in an `interface{}`: only
   * its dynamic type matters to the core. A float64 keeps its IEEE bit pattern
   * and is never computed with; `Other` stands for any other dynamic type
   * (a timestamp, a nested map, ...).
   */
  datatype Value =
    | Str(s: string)
    | Bool(b: bool)
    | Int(i: int)
    | Int64(i: int)
    | Float64(bits: bv64)
    | Nil
    | Other(typeName: string)

  type Fields = map<string, Value>

  /** An intended edge from the owning definition to (className, id). */
  datatype Reference = Reference(
    className: string,
    id: string,
    relationship: string,
    relationshipFrom: bool,
    relationshipTo: bool)

  /** One entity: its fields, its own references and its nested specifications keyed by relationship. */
  datatype Definition = Definition(
    fields: Fields,
    references: seq<Reference>,
    subDefinitions: map<string, Specification>)

  /** One decoded document: a class, references shared by all its definitions, and the definitions keyed by ID. */
  datatype Specification = Specification(
    className: string,
    references: seq<Reference>,
    definitions: map<string, Definition>)
}
