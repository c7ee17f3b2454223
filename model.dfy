/** The data the editor consumes and produces: the database schema, the
    function catalog, suggestions and argument hints. */
module Model {
  import opened Text

  datatype Option<T> = None | Some(value: T)

  /** A field's type tag is kept as text; the closed set of tags is defined
      outside the core and only ever printed. */
  datatype DbField = DbField(name: string, fieldType: string)

  datatype DbTable = DbTable(name: string, fields: seq<DbField>)

  datatype DbSchema = DbSchema(tables: seq<DbTable>)

  datatype Category = Math | String | Date

  /** A catalog entry. An absent argument list is the empty sequence;
      several entries may share a name (overloads). */
  datatype FunctionDefinition = FunctionDefinition(
    name: string,
    arguments: seq<string>,
    category: Category,
    description: string,
    signature: string,
    sqlName: Option<string>)

  /** The kind of a prefixed token, named after its first character. */
  datatype EntityType = Table | Field | Function | Reserved | Unknown

  /** The human-readable description shown next to a suggestion. The wording
      is left abstract; what it refers to is kept. */
  datatype Description =
    | DatabaseTable
    | FieldOfTable(table: string)
    | QualifiedField
    | CatalogEntry(category: Category, text: string)
    | ReservedPrefix
    | ArgumentOf(base: Description, position: nat, functionName: string)

  /** `label` is a Dafny keyword, so the display label is called `caption`. */
  datatype Suggestion = Suggestion(kind: EntityType, value: string, caption: string, description: Description)

  datatype FunctionArgumentHint = FunctionArgumentHint(
    functionName: string,
    signature: string,
    currentArgumentIndex: nat,
    arguments: seq<string>)

  function Values(s: seq<Suggestion>): set<string> {
    set i | 0 <= i < |s| :: s[i].value
  }

  /** No two suggestions in `s` carry the same `value`. */
  predicate DistinctValues(s: seq<Suggestion>) {
    forall i, j | 0 <= i < j < |s| :: s[i].value != s[j].value
  }

  /** Catalog names are compared ignoring (ASCII) case. */
  predicate SameName(f: FunctionDefinition, name: string) {
    ToLower(f.name) == ToLower(name)
  }

  /** `find`/`findIndex`: the index of the first element satisfying `p`. */
  function FindFirst<T>(s: seq<T>, p: T -> bool): (k: Option<nat>)
    ensures k.Some? ==> k.value < |s| && p(s[k.value]) && forall j | 0 <= j < k.value :: !p(s[j])
    ensures k.None? ==> forall j | 0 <= j < |s| :: !p(s[j])
  {
    if s == [] then None
    else if p(s[0]) then Some(0)
    else match FindFirst(s[1..], p)
      case None => None
      case Some(k) => Some(k + 1)
  }
}
