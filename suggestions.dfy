/** The suggestion lists, the argument-hint data and the splice that
    applies a suggestion, as functions of the expression, the cursor, the
    schema and the catalog. */
module Suggestions {
  import opened Text
  import opened Model
  import opened CursorContext

  // ---------------------------------------------------------------------
  // The insertion-ordered map of field suggestions

  function SameValue(s: Suggestion): Suggestion -> bool {
    (x: Suggestion) => x.value == s.value
  }

  /** `Map.prototype.set` keyed by `value`: an existing key keeps its
      position and takes the new entry, a new key goes last. */
  function Upsert(m: seq<Suggestion>, s: Suggestion): (r: seq<Suggestion>)
    ensures Values(r) == Values(m) + {s.value}
    ensures DistinctValues(m) ==> DistinctValues(r)
    ensures s in r
    ensures |r| == if s.value in Values(m) then |m| else |m| + 1
    ensures forall i | 0 <= i < |m| && m[i].value != s.value :: r[i] == m[i]
  {
    match FindFirst(m, SameValue(s))
    case Some(i) =>
      ValuesUpdate(m, i, s);
      assert s.value in Values(m) by { assert m[i].value == s.value; }
      assert m[i := s][i] == s;
      m[i := s]
    case None =>
      ValuesAppend(m, s);
      m + [s]
  }

  lemma ValuesUpdate(m: seq<Suggestion>, i: nat, s: Suggestion)
    requires i < |m| && m[i].value == s.value
    ensures Values(m[i := s]) == Values(m) + {s.value}
  {
    var r := m[i := s];
    forall v | v in Values(m) ensures v in Values(r) {
      var j :| 0 <= j < |m| && m[j].value == v;
      assert r[j].value == v;
    }
    forall v | v in Values(r) ensures v in Values(m) {
      var j :| 0 <= j < |r| && r[j].value == v;
      assert m[j].value == v;
    }
  }

  lemma ValuesAppend(m: seq<Suggestion>, s: Suggestion)
    ensures Values(m + [s]) == Values(m) + {s.value}
  {
    var r := m + [s];
    forall v | v in Values(m) ensures v in Values(r) {
      var j :| 0 <= j < |m| && m[j].value == v;
      assert r[j].value == v;
    }
    forall v | v in Values(r) ensures v in Values(m) + {s.value} {
      var j :| 0 <= j < |r| && r[j].value == v;
      if j < |m| { assert m[j].value == v; }
    }
    assert r[|m|].value == s.value;
  }

  lemma ValuesCons(s: Suggestion, m: seq<Suggestion>)
    ensures Values([s] + m) == {s.value} + Values(m)
  {
    var r := [s] + m;
    forall v | v in Values(m) ensures v in Values(r) {
      var j :| 0 <= j < |m| && m[j].value == v;
      assert r[j + 1].value == v;
    }
    forall v | v in Values(r) ensures v in {s.value} + Values(m) {
      var j :| 0 <= j < |r| && r[j].value == v;
      if j > 0 { assert m[j - 1].value == v; }
    }
    assert r[0].value == s.value;
  }

  // ---------------------------------------------------------------------
  // Field suggestions

  /** The tables a `!table.` context narrows the search to. */
  function NamedTable(tableName: string): DbTable -> bool {
    (t: DbTable) => ToLower(t.name) == ToLower(tableName)
  }

  /** All tables, or (with a table name) those named like it. */
  function ScopedTables(schema: DbSchema, tableName: string): seq<DbTable> {
    if tableName != "" then Filter(schema.tables, NamedTable(tableName)) else schema.tables
  }

  function Typed(value: string, field: DbField): string {
    value + " (" + field.fieldType + ")"
  }

  function QualifiedName(table: DbTable, field: DbField): string {
    "#" + table.name + "." + field.name
  }

  /** One step of the inner `forEach`: the unqualified `#field` (only when
      no table is named) and the qualified `#table.field`, each when its
      lower-cased form contains `#` + the lower-cased query. */
  function AddField(m: seq<Suggestion>, table: DbTable, field: DbField, query: string, tableName: string)
    : seq<Suggestion>
  {
    var fieldValue := "#" + field.name;
    var m' := if tableName == "" && Contains(ToLower(fieldValue), "#" + query)
              then Upsert(m, Suggestion(Field, fieldValue, Typed(fieldValue, field), FieldOfTable(table.name)))
              else m;
    var qualified := QualifiedName(table, field);
    if Contains(ToLower(qualified), "#" + query)
    then Upsert(m', Suggestion(Field, qualified, Typed(qualified, field),
                               if tableName != "" then FieldOfTable(table.name) else QualifiedField))
    else m'
  }

  function AddFields(m: seq<Suggestion>, table: DbTable, fields: seq<DbField>, query: string, tableName: string)
    : seq<Suggestion>
    decreases |fields|
  {
    if fields == [] then m
    else AddFields(AddField(m, table, fields[0], query, tableName), table, fields[1..], query, tableName)
  }

  function AddTables(m: seq<Suggestion>, tables: seq<DbTable>, query: string, tableName: string)
    : seq<Suggestion>
    decreases |tables|
  {
    if tables == [] then m
    else AddTables(AddFields(m, tables[0], tables[0].fields, query, tableName), tables[1..], query, tableName)
  }

  /** `getFieldSuggestions`: the map's values in insertion order. */
  function FieldSuggestions(schema: DbSchema, query: string, tableName: string): seq<Suggestion> {
    AddTables([], ScopedTables(schema, tableName), ToLower(query), tableName)
  }

  /** The values one field contributes, as a set. */
  function Candidates(table: DbTable, field: DbField, query: string, tableName: string): set<string> {
    var fieldValue := "#" + field.name;
    var qualified := QualifiedName(table, field);
    (if tableName == "" && Contains(ToLower(fieldValue), "#" + query) then {fieldValue} else {})
    + (if Contains(ToLower(qualified), "#" + query) then {qualified} else {})
  }

  /** The values of a list of fields, in no order. */
  function FieldsCandidates(table: DbTable, fields: seq<DbField>, query: string, tableName: string): set<string>
    decreases |fields|
  {
    if fields == [] then {}
    else Candidates(table, fields[0], query, tableName) + FieldsCandidates(table, fields[1..], query, tableName)
  }

  function TablesCandidates(tables: seq<DbTable>, query: string, tableName: string): set<string>
    decreases |tables|
  {
    if tables == [] then {}
    else FieldsCandidates(tables[0], tables[0].fields, query, tableName)
         + TablesCandidates(tables[1..], query, tableName)
  }

  lemma AddFieldKeeps(m: seq<Suggestion>, table: DbTable, field: DbField, query: string, tableName: string)
    ensures var r := AddField(m, table, field, query, tableName);
            && Values(r) == Values(m) + Candidates(table, field, query, tableName)
            && (DistinctValues(m) ==> DistinctValues(r))
  {
  }

  /** Folding fields into the map adds exactly their candidate values and
      never repeats a key. */
  lemma {:induction false} AddFieldsKeeps(m: seq<Suggestion>, table: DbTable, fields: seq<DbField>,
                                          query: string, tableName: string)
    ensures var r := AddFields(m, table, fields, query, tableName);
            && Values(r) == Values(m) + FieldsCandidates(table, fields, query, tableName)
            && (DistinctValues(m) ==> DistinctValues(r))
    decreases |fields|
  {
    if fields != [] {
      AddFieldKeeps(m, table, fields[0], query, tableName);
      AddFieldsKeeps(AddField(m, table, fields[0], query, tableName), table, fields[1..], query, tableName);
    }
  }

  lemma {:induction false} AddTablesKeeps(m: seq<Suggestion>, tables: seq<DbTable>, query: string, tableName: string)
    ensures var r := AddTables(m, tables, query, tableName);
            && Values(r) == Values(m) + TablesCandidates(tables, query, tableName)
            && (DistinctValues(m) ==> DistinctValues(r))
    decreases |tables|
  {
    if tables != [] {
      AddFieldsKeeps(m, tables[0], tables[0].fields, query, tableName);
      AddTablesKeeps(AddFields(m, tables[0], tables[0].fields, query, tableName), tables[1..], query, tableName);
    }
  }

  /** Field suggestions carry no value twice, and their values are exactly
      the candidates of the tables in scope. */
  lemma FieldSuggestionsDistinct(schema: DbSchema, query: string, tableName: string)
    ensures var r := FieldSuggestions(schema, query, tableName);
            && DistinctValues(r)
            && Values(r) == TablesCandidates(ScopedTables(schema, tableName), ToLower(query), tableName)
  {
    AddTablesKeeps([], ScopedTables(schema, tableName), ToLower(query), tableName);
  }

  /** After `!users.` the field query is tested against the qualified
      `#users.name`, so the query must match from the table name on: `na`
      offers nothing, while `us` offers the table's field. */
  lemma TableContextQueryIsQualified()
    ensures var schema := DbSchema([DbTable("users", [DbField("name", "string")])]);
            && FieldSuggestions(schema, "na", "users") == []
            && Values(FieldSuggestions(schema, "us", "users")) == {"#users.name"}
  {
    var users := DbTable("users", [DbField("name", "string")]);
    var schema := DbSchema([users]);
    QualifiedUsersName();
    UsersCandidates("na");
    UsersCandidates("us");
    assert "#" + "na" == "#na" && "#" + "us" == "#us";
    FieldSuggestionsDistinct(schema, "na", "users");
    FieldSuggestionsDistinct(schema, "us", "users");
    assert Values(FieldSuggestions(schema, "na", "users")) == {};
  }

  /** The candidates of the one-table schema of `TableContextQueryIsQualified`. */
  lemma UsersCandidates(query: string)
    requires ToLower(query) == query
    ensures var users := DbTable("users", [DbField("name", "string")]);
            TablesCandidates(ScopedTables(DbSchema([users]), "users"), query, "users")
            == if Contains(ToLower("#users.name"), "#" + query) then {"#users.name"} else {}
  {
    var users := DbTable("users", [DbField("name", "string")]);
    assert ToLower("users") == "users";
    assert Filter([users], NamedTable("users")) == [users];
    assert QualifiedName(users, users.fields[0]) == "#users.name";
    assert FieldsCandidates(users, users.fields[1..], query, "users") == {};
  }

  /** `#users.name` holds `#us` and not `#na`: its only `#` is its first
      character. */
  lemma QualifiedUsersName()
    ensures ToLower("na") == "na" && ToLower("us") == "us"
    ensures Contains(ToLower("#users.name"), "#us")
    ensures !Contains(ToLower("#users.name"), "#na")
  {
    var q := ToLower("#users.name");
    assert q == "#users.name";
    assert q[0..3] == "#us";
    assert OccursAt(q, "#us", 0);
    forall i: nat | i <= |q| ensures !OccursAt(q, "#na", i) {
      if i + 3 <= |q| {
        assert q[i..i + 3][0] == q[i];
        assert q[i..i + 3][1] == q[i + 1];
      }
    }
  }

  /** A candidate is named after a field of one of the tables; with a table
      name it is always the qualified `#table.field`. */
  lemma {:induction false} CandidateOrigin(tables: seq<DbTable>, query: string, tableName: string, v: string)
    requires v in TablesCandidates(tables, query, tableName)
    ensures exists i, j | 0 <= i < |tables| && 0 <= j < |tables[i].fields| ::
              v == QualifiedName(tables[i], tables[i].fields[j])
              || (tableName == "" && v == "#" + tables[i].fields[j].name)
    decreases |tables|
  {
    if v in FieldsCandidates(tables[0], tables[0].fields, query, tableName) {
      var j := FieldOrigin(tables[0], tables[0].fields, query, tableName, v);
      assert v == QualifiedName(tables[0], tables[0].fields[j]) || (tableName == "" && v == "#" + tables[0].fields[j].name);
    } else {
      CandidateOrigin(tables[1..], query, tableName, v);
      var i, j :| 0 <= i < |tables[1..]| && 0 <= j < |tables[1..][i].fields| &&
                  (v == QualifiedName(tables[1..][i], tables[1..][i].fields[j])
                   || (tableName == "" && v == "#" + tables[1..][i].fields[j].name));
      assert tables[1..][i] == tables[i + 1];
    }
  }

  lemma {:induction false} FieldOrigin(table: DbTable, fields: seq<DbField>, query: string, tableName: string, v: string)
    returns (j: nat)
    requires v in FieldsCandidates(table, fields, query, tableName)
    ensures j < |fields|
    ensures v == QualifiedName(table, fields[j]) || (tableName == "" && v == "#" + fields[j].name)
    decreases |fields|
  {
    if v in Candidates(table, fields[0], query, tableName) {
      return 0;
    }
    var j' := FieldOrigin(table, fields[1..], query, tableName, v);
    return j' + 1;
  }

  /** In a `!table.` context only qualified fields of tables named like
      `tableName` (case ignored) are offered. */
  lemma ScopedFieldSuggestions(schema: DbSchema, query: string, tableName: string, v: string)
    requires tableName != "" && v in Values(FieldSuggestions(schema, query, tableName))
    ensures exists t, f | t in schema.tables && f in t.fields ::
              ToLower(t.name) == ToLower(tableName) && v == QualifiedName(t, f)
  {
    FieldSuggestionsDistinct(schema, query, tableName);
    var tables := ScopedTables(schema, tableName);
    CandidateOrigin(tables, ToLower(query), tableName, v);
    var i, j :| 0 <= i < |tables| && 0 <= j < |tables[i].fields| && v == QualifiedName(tables[i], tables[i].fields[j]);
    assert tables[i] in tables;
    assert NamedTable(tableName)(tables[i]);
    assert tables[i].fields[j] in tables[i].fields;
  }

  // ---------------------------------------------------------------------
  // Table, function and reserved suggestions

  function TableSuggestion(t: DbTable): Suggestion {
    Suggestion(Table, "!" + t.name, "!" + t.name, DatabaseTable)
  }

  /** Tables whose lower-cased name contains the query, in schema order. */
  function TableSuggestions(tables: seq<DbTable>, query: string): (r: seq<Suggestion>)
    ensures |r| <= |tables|
    ensures forall s | s in r :: exists t | t in tables :: Contains(ToLower(t.name), query) && s == TableSuggestion(t)
    ensures forall t | t in tables && Contains(ToLower(t.name), query) :: TableSuggestion(t) in r
  {
    if tables == [] then []
    else
      var rest := TableSuggestions(tables[1..], query);
      assert forall t | t in tables[1..] :: t in tables;
      assert forall t | t in tables :: t == tables[0] || t in tables[1..];
      (if Contains(ToLower(tables[0].name), query) then [TableSuggestion(tables[0])] else []) + rest
  }

  function FunctionSuggestion(f: FunctionDefinition): Suggestion {
    Suggestion(Function, "$" + f.signature, "$" + f.signature, CatalogEntry(f.category, f.description))
  }

  /** Catalog entries whose lower-cased name contains the query, in catalog
      order, before de-duplication. */
  function FunctionCandidates(fs: seq<FunctionDefinition>, query: string): (r: seq<Suggestion>)
    ensures forall s | s in r :: exists f | f in fs :: Contains(ToLower(f.name), query) && s == FunctionSuggestion(f)
    ensures forall f | f in fs && Contains(ToLower(f.name), query) :: FunctionSuggestion(f) in r
  {
    if fs == [] then []
    else
      var rest := FunctionCandidates(fs[1..], query);
      assert forall f | f in fs[1..] :: f in fs;
      assert forall f | f in fs :: f == fs[0] || f in fs[1..];
      (if Contains(ToLower(fs[0].name), query) then [FunctionSuggestion(fs[0])] else []) + rest
  }

  /** `filter(...).map(...)` keeps schema order: the suggestions for two
      runs of tables are those of the first run followed by those of the
      second. */
  lemma {:induction false} TableSuggestionsAppend(a: seq<DbTable>, b: seq<DbTable>, query: string)
    ensures TableSuggestions(a + b, query) == TableSuggestions(a, query) + TableSuggestions(b, query)
  {
    if a != [] {
      assert a + b == [a[0]] + (a[1..] + b);
      assert a == [a[0]] + a[1..];
      TableSuggestionsCons(a[0], a[1..] + b, query);
      TableSuggestionsCons(a[0], a[1..], query);
      TableSuggestionsAppend(a[1..], b, query);
    } else {
      assert a + b == b;
    }
  }

  /** A table in front is offered, first, exactly when its lower-cased name
      contains the query; with `TableSuggestionsAppend` this fixes the list. */
  lemma TableSuggestionsCons(x: DbTable, rest: seq<DbTable>, query: string)
    ensures TableSuggestions([x] + rest, query)
         == (if Contains(ToLower(x.name), query) then [TableSuggestion(x)] else []) + TableSuggestions(rest, query)
  {
    assert ([x] + rest)[0] == x && ([x] + rest)[1..] == rest;
  }


  /** Function candidates keep catalog order, so the candidate that
      `Dedupe` keeps for a signature is the earliest such catalog entry. */
  lemma {:induction false} FunctionCandidatesAppend(a: seq<FunctionDefinition>, b: seq<FunctionDefinition>, query: string)
    ensures FunctionCandidates(a + b, query) == FunctionCandidates(a, query) + FunctionCandidates(b, query)
  {
    if a != [] {
      assert a + b == [a[0]] + (a[1..] + b);
      assert a == [a[0]] + a[1..];
      FunctionCandidatesCons(a[0], a[1..] + b, query);
      FunctionCandidatesCons(a[0], a[1..], query);
      FunctionCandidatesAppend(a[1..], b, query);
    } else {
      assert a + b == b;
    }
  }

  /** A catalog entry in front is a candidate, first, exactly when its
      lower-cased name contains the query. */
  lemma FunctionCandidatesCons(x: FunctionDefinition, rest: seq<FunctionDefinition>, query: string)
    ensures FunctionCandidates([x] + rest, query)
         == (if Contains(ToLower(x.name), query) then [FunctionSuggestion(x)] else []) + FunctionCandidates(rest, query)
  {
    assert ([x] + rest)[0] == x && ([x] + rest)[1..] == rest;
  }


  /** The `seen`-set filter: keeps the first suggestion for each value. */
  function Dedupe(s: seq<Suggestion>, seen: set<string>): (r: seq<Suggestion>)
    ensures DistinctValues(r)
    ensures Values(r) == Values(s) - seen
    ensures forall x | x in r :: x in s
    decreases |s|
  {
    if s == [] then []
    else
      var rest := Dedupe(s[1..], seen + {s[0].value});
      ValuesCons(s[0], s[1..]);
      assert s == [s[0]] + s[1..];
      if s[0].value in seen then rest
      else
        ValuesCons(s[0], rest);
        [s[0]] + rest
  }

  /** The kept suggestions are a subsequence of the input, in input order,
      and each is the first one with its value that was not already seen:
      `idx` gives their positions in the input. */
  lemma {:induction false} DedupeKeepsFirst(s: seq<Suggestion>, seen: set<string>) returns (idx: seq<nat>)
    ensures KeptAt(s, seen, Dedupe(s, seen), idx)
    decreases |s|
  {
    if s == [] {
      return [];
    }
    var rest := Dedupe(s[1..], seen + {s[0].value});
    var idx' := DedupeKeepsFirst(s[1..], seen + {s[0].value});
    idx := Shifted(idx');
    KeptAtShift(s, seen, rest, idx');
    if s[0].value !in seen {
      KeptAtCons(s, seen, rest, idx);
      idx := [0] + idx;
    }
  }

  /** `r` is the subsequence of `s` at the increasing positions `idx`, each
      of which holds the first suggestion with its value, unseen before. */
  predicate KeptAt(s: seq<Suggestion>, seen: set<string>, r: seq<Suggestion>, idx: seq<nat>) {
    && |idx| == |r|
    && (forall k | 0 <= k < |idx| :: idx[k] < |s| && r[k] == s[idx[k]] && FirstUnseen(s, seen, idx[k]))
    && (forall k, l | 0 <= k < l < |idx| :: idx[k] < idx[l])
  }

  function Shifted(idx: seq<nat>): (r: seq<nat>)
    ensures |r| == |idx|
    ensures forall k | 0 <= k < |idx| :: r[k] == idx[k] + 1
  {
    seq(|idx|, k requires 0 <= k < |idx| => idx[k] + 1)
  }

  lemma KeptAtShift(s: seq<Suggestion>, seen: set<string>, r: seq<Suggestion>, idx: seq<nat>)
    requires s != [] && KeptAt(s[1..], seen + {s[0].value}, r, idx)
    ensures KeptAt(s, seen, r, Shifted(idx))
  {
    forall k | 0 <= k < |idx|
      ensures idx[k] + 1 < |s| && r[k] == s[idx[k] + 1] && FirstUnseen(s, seen, idx[k] + 1)
    {
      FirstUnseenShift(s, seen, idx[k]);
    }
  }

  lemma KeptAtCons(s: seq<Suggestion>, seen: set<string>, r: seq<Suggestion>, idx: seq<nat>)
    requires s != [] && s[0].value !in seen && KeptAt(s, seen, r, idx)
    requires forall k | 0 <= k < |idx| :: idx[k] > 0
    ensures KeptAt(s, seen, [s[0]] + r, [0] + idx)
  {
    assert FirstUnseen(s, seen, 0);
  }

  /** Position `i` holds the first suggestion with its value, and that
      value was not seen before. */
  predicate FirstUnseen(s: seq<Suggestion>, seen: set<string>, i: nat)
    requires i < |s|
  {
    s[i].value !in seen && forall j | 0 <= j < i :: s[j].value != s[i].value
  }

  lemma FirstUnseenShift(s: seq<Suggestion>, seen: set<string>, i: nat)
    requires s != [] && i < |s| - 1
    requires FirstUnseen(s[1..], seen + {s[0].value}, i)
    ensures FirstUnseen(s, seen, i + 1)
  {
    assert s[i + 1] == s[1..][i];
    forall j | 0 <= j < i + 1
      ensures s[j].value != s[i + 1].value
    {
      if j > 0 {
        assert s[j] == s[1..][j - 1];
      }
    }
  }

  /** Catalog suggestions, first one per value. */
  function FunctionSuggestions(fs: seq<FunctionDefinition>, query: string): seq<Suggestion> {
    Dedupe(FunctionCandidates(fs, query), {})
  }

  /** Function suggestions carry no value twice, and every catalog entry
      whose name contains the query has its value among them. */
  lemma FunctionSuggestionsDistinct(fs: seq<FunctionDefinition>, query: string)
    ensures var r := FunctionSuggestions(fs, query);
            && DistinctValues(r)
            && (forall f | f in fs && Contains(ToLower(f.name), query) :: "$" + f.signature in Values(r))
            && (forall s | s in r :: exists f | f in fs :: Contains(ToLower(f.name), query) && s == FunctionSuggestion(f))
  {
    var c := FunctionCandidates(fs, query);
    forall f | f in fs && Contains(ToLower(f.name), query)
      ensures "$" + f.signature in Values(FunctionSuggestions(fs, query))
    {
      var i :| 0 <= i < |c| && c[i] == FunctionSuggestion(f);
      assert "$" + f.signature in Values(c);
    }
  }

  /** One suggestion per reserved prefix, completed with the query. */
  function ReservedSuggestions(prefixes: seq<string>, query: string): (r: seq<Suggestion>)
    ensures |r| == |prefixes|
    ensures forall i | 0 <= i < |r| :: r[i].caption == prefixes[i] && r[i].value == prefixes[i] + query
    ensures forall i | 0 <= i < |r| :: r[i].kind == Reserved && r[i].description == ReservedPrefix
  {
    seq(|prefixes|, i requires 0 <= i < |prefixes| => Suggestion(Reserved, prefixes[i] + query, prefixes[i], ReservedPrefix))
  }

  // ---------------------------------------------------------------------
  // getSuggestions

  /** Field suggestions annotated with the argument they fill. */
  function AsArgument(s: seq<Suggestion>, argumentIndex: nat, functionName: string): (r: seq<Suggestion>)
    ensures |r| == |s|
    ensures forall i | 0 <= i < |s| :: r[i] == s[i].(description := ArgumentOf(s[i].description, argumentIndex + 1, functionName))
    ensures Values(r) == Values(s)
  {
    seq(|s|, i requires 0 <= i < |s| => s[i].(description := ArgumentOf(s[i].description, argumentIndex + 1, functionName)))
  }

  /** Inside a call whose resolved entry expects a `#`-argument at the
      current position: field suggestions for the active `#` token. */
  function ArgumentSuggestions(schema: DbSchema, fs: seq<FunctionDefinition>, expression: string, cursor: int)
    : Option<seq<Suggestion>>
  {
    match FunctionCallContext(expression, cursor)
    case None => None
    case Some(ctx) =>
      match ResolveFunctionDefinition(fs, ctx.functionName, ctx.currentArgumentIndex)
      case None => None
      case Some(definition) =>
        if ctx.currentArgumentIndex < |definition.arguments|
           && StartsWith(definition.arguments[ctx.currentArgumentIndex], "#")
        then
          var token := ActiveToken(expression, cursor);
          var query := if token.Some? && StartsWith(token.value, "#") then token.value[1..] else "";
          Some(AsArgument(FieldSuggestions(schema, query, ""), ctx.currentArgumentIndex, ctx.functionName))
        else None
  }

  /** The suggestions for the kind of the active token. */
  function TokenSuggestions(schema: DbSchema, fs: seq<FunctionDefinition>, reservedPrefixes: seq<string>,
                            token: string): seq<Suggestion>
  {
    var query := ToLower(if token == [] then [] else token[1..]);
    match DetectEntityType(token)
    case Table => TableSuggestions(schema.tables, query)
    case Field => FieldSuggestions(schema, query, "")
    case Function => FunctionSuggestions(fs, query)
    case Reserved => ReservedSuggestions(reservedPrefixes, query)
    case Unknown => []
  }

  /** `getSuggestions`: a `!table.` context first, then a `#`-argument of
      the enclosing call, then the active token's kind. */
  function SuggestionsFor(schema: DbSchema, fs: seq<FunctionDefinition>, reservedPrefixes: seq<string>,
                          expression: string, cursor: int): seq<Suggestion>
  {
    match TableFieldContext(expression, cursor)
    case Some(ctx) => FieldSuggestions(schema, ctx.fieldQuery, ctx.tableName)
    case None =>
      match ArgumentSuggestions(schema, fs, expression, cursor)
      case Some(r) => r
      case None =>
        match ActiveToken(expression, cursor)
        case None => []
        case Some(token) => TokenSuggestions(schema, fs, reservedPrefixes, token)
  }

  /** After `!table.` only that table's qualified fields are offered, each
      once. */
  lemma SuggestionsInTableContext(schema: DbSchema, fs: seq<FunctionDefinition>, reservedPrefixes: seq<string>,
                                  expression: string, cursor: int)
    requires TableFieldContext(expression, cursor).Some?
    ensures var ctx := TableFieldContext(expression, cursor).value;
            var r := SuggestionsFor(schema, fs, reservedPrefixes, expression, cursor);
            && DistinctValues(r)
            && forall v | v in Values(r) :: exists t, f | t in schema.tables && f in t.fields ::
                 ToLower(t.name) == ToLower(ctx.tableName) && v == QualifiedName(t, f)
  {
    var ctx := TableFieldContext(expression, cursor).value;
    TableFieldContextIsMatch(expression, cursor);
    FieldSuggestionsDistinct(schema, ctx.fieldQuery, ctx.tableName);
    forall v | v in Values(SuggestionsFor(schema, fs, reservedPrefixes, expression, cursor))
      ensures exists t, f | t in schema.tables && f in t.fields ::
                ToLower(t.name) == ToLower(ctx.tableName) && v == QualifiedName(t, f)
    {
      ScopedFieldSuggestions(schema, ctx.fieldQuery, ctx.tableName, v);
    }
  }

  /** A `#`-argument of a call is offered every field once, tagged with the
      call's name and the 1-based argument position. */
  lemma SuggestionsForArgument(schema: DbSchema, fs: seq<FunctionDefinition>, reservedPrefixes: seq<string>,
                               expression: string, cursor: int)
    requires TableFieldContext(expression, cursor).None?
    requires ArgumentSuggestions(schema, fs, expression, cursor).Some?
    ensures var ctx := FunctionCallContext(expression, cursor).value;
            var r := SuggestionsFor(schema, fs, reservedPrefixes, expression, cursor);
            && DistinctValues(r)
            && forall s | s in r :: s.kind == Field && s.description.ArgumentOf?
                 && s.description.position == ctx.currentArgumentIndex + 1
                 && s.description.functionName == ctx.functionName
  {
    var ctx := FunctionCallContext(expression, cursor).value;
    var token := ActiveToken(expression, cursor);
    var query := if token.Some? && StartsWith(token.value, "#") then token.value[1..] else "";
    var plain := FieldSuggestions(schema, query, "");
    assert SuggestionsFor(schema, fs, reservedPrefixes, expression, cursor)
        == AsArgument(plain, ctx.currentArgumentIndex, ctx.functionName);
    FieldSuggestionsDistinct(schema, query, "");
    FieldsAreFields([], ScopedTables(schema, ""), ToLower(query), "");
    AsArgumentTags(plain, ctx.currentArgumentIndex, ctx.functionName);
  }

  lemma AsArgumentTags(plain: seq<Suggestion>, argumentIndex: nat, functionName: string)
    requires DistinctValues(plain) && forall s | s in plain :: s.kind == Field
    ensures var r := AsArgument(plain, argumentIndex, functionName);
            && DistinctValues(r)
            && forall s | s in r :: s.kind == Field && s.description.ArgumentOf?
                 && s.description.position == argumentIndex + 1
                 && s.description.functionName == functionName
  {
    var r := AsArgument(plain, argumentIndex, functionName);
    forall s | s in r
      ensures s.kind == Field && s.description.ArgumentOf?
              && s.description.position == argumentIndex + 1 && s.description.functionName == functionName
    {
      var i :| 0 <= i < |r| && r[i] == s;
      assert plain[i] in plain;
    }
  }

  /** Every field suggestion is of kind `Field`. */
  lemma {:induction false} FieldsAreFields(m: seq<Suggestion>, tables: seq<DbTable>, query: string, tableName: string)
    requires forall s | s in m :: s.kind == Field
    ensures forall s | s in AddTables(m, tables, query, tableName) :: s.kind == Field
    decreases |tables|
  {
    if tables != [] {
      FieldsOfTableAreFields(m, tables[0], tables[0].fields, query, tableName);
      FieldsAreFields(AddFields(m, tables[0], tables[0].fields, query, tableName), tables[1..], query, tableName);
    }
  }

  lemma {:induction false} FieldsOfTableAreFields(m: seq<Suggestion>, table: DbTable, fields: seq<DbField>,
                                                  query: string, tableName: string)
    requires forall s | s in m :: s.kind == Field
    ensures forall s | s in AddFields(m, table, fields, query, tableName) :: s.kind == Field
    decreases |fields|
  {
    if fields != [] {
      var m' := AddField(m, table, fields[0], query, tableName);
      assert forall s | s in m' :: s.kind == Field by {
        UpsertKeepsKinds(m, table, fields[0], query, tableName);
      }
      FieldsOfTableAreFields(m', table, fields[1..], query, tableName);
    }
  }

  lemma UpsertKeepsKinds(m: seq<Suggestion>, table: DbTable, field: DbField, query: string, tableName: string)
    requires forall s | s in m :: s.kind == Field
    ensures forall s | s in AddField(m, table, field, query, tableName) :: s.kind == Field
  {
    forall x: Suggestion, s: Suggestion | x.kind == Field && (forall y | y in m :: y.kind == Field)
      ensures s in Upsert(m, x) ==> s.kind == Field
    {
      var r := Upsert(m, x);
      if s in r {
        var i :| 0 <= i < |r| && r[i] == s;
        if i < |m| && m[i].value != x.value {
          assert m[i] in m;
        }
      }
    }
  }

  /** With `$` the catalog is offered, each value once. */
  lemma SuggestionsForFunctionToken(schema: DbSchema, fs: seq<FunctionDefinition>, reservedPrefixes: seq<string>,
                                    expression: string, cursor: int)
    requires TableFieldContext(expression, cursor).None?
    requires ArgumentSuggestions(schema, fs, expression, cursor).None?
    requires ActiveToken(expression, cursor).Some? && ActiveToken(expression, cursor).value[0] == '$'
    ensures var r := SuggestionsFor(schema, fs, reservedPrefixes, expression, cursor);
            && DistinctValues(r)
            && forall s | s in r :: s.kind == Function && s.value[0] == '$'
  {
    ActiveTokenIsMatch(expression, cursor);
    var token := ActiveToken(expression, cursor).value;
    var query := ToLower(token[1..]);
    FunctionSuggestionsDistinct(fs, query);
  }

  /** Without a context and without a token there is nothing to suggest. */
  lemma NoTokenNoSuggestions(schema: DbSchema, fs: seq<FunctionDefinition>, reservedPrefixes: seq<string>,
                             expression: string, cursor: int)
    requires TableFieldContext(expression, cursor).None?
    requires ArgumentSuggestions(schema, fs, expression, cursor).None?
    requires ActiveToken(expression, cursor).None?
    ensures SuggestionsFor(schema, fs, reservedPrefixes, expression, cursor) == []
  {
  }

  // ---------------------------------------------------------------------
  // Argument hint data

  /** `getFunctionArgumentHintData`. */
  function HintFor(fs: seq<FunctionDefinition>, expression: string, cursor: int): Option<FunctionArgumentHint> {
    match FunctionCallContext(expression, cursor)
    case None => None
    case Some(ctx) =>
      match ResolveFunctionDefinition(fs, ctx.functionName, ctx.currentArgumentIndex)
      case None => Some(FunctionArgumentHint(ctx.functionName, ctx.functionName + "()", ctx.currentArgumentIndex, []))
      case Some(d) => Some(FunctionArgumentHint(d.name, d.signature, ctx.currentArgumentIndex, d.arguments))
  }

  /** A hint exists exactly inside a call; it reports the call's argument
      position and a catalog entry of the same name when there is one,
      else a bare `name()` signature without arguments. */
  lemma HintForCall(fs: seq<FunctionDefinition>, expression: string, cursor: int)
    ensures var ctx := FunctionCallContext(expression, cursor);
            var h := HintFor(fs, expression, cursor);
            && (h.Some? <==> ctx.Some?)
            && (h.Some? ==> h.value.currentArgumentIndex == ctx.value.currentArgumentIndex
                            && ToLower(h.value.functionName) == ToLower(ctx.value.functionName))
            && (h.Some? && (exists f | f in fs :: SameName(f, ctx.value.functionName)) ==>
                  exists f | f in fs :: SameName(f, ctx.value.functionName)
                    && h.value == FunctionArgumentHint(f.name, f.signature, ctx.value.currentArgumentIndex, f.arguments))
            && (h.Some? && (forall f | f in fs :: !SameName(f, ctx.value.functionName)) ==>
                  h.value == FunctionArgumentHint(ctx.value.functionName, ctx.value.functionName + "()",
                                                  ctx.value.currentArgumentIndex, []))
  {
    match FunctionCallContext(expression, cursor)
    case None =>
    case Some(ctx) =>
      ResolveFunctionDefinitionFindsName(fs, ctx.functionName, ctx.currentArgumentIndex);
      if forall f | f in fs :: !SameName(f, ctx.functionName) {
        assert forall i | 0 <= i < |fs| :: !SameName(fs[i], ctx.functionName) by {
          forall i | 0 <= i < |fs| ensures !SameName(fs[i], ctx.functionName) {
            assert fs[i] in fs;
          }
        }
      } else {
        var f :| f in fs && SameName(f, ctx.functionName);
        var i :| 0 <= i < |fs| && fs[i] == f;
      }
  }

  // ---------------------------------------------------------------------
  // Applying a suggestion

  /** The text after a splice and, when one was made, the new cursor. */
  datatype Edit = Edit(text: string, cursor: Option<nat>)

  /** `applySuggestion`: the active token is replaced by the suggestion's
      value. The cursor is not clamped here, so `slice` clamps the two
      cut points to the text instead. */
  function ApplySuggestionTo(text: string, cursor: int, value: string): Edit {
    match ActiveToken(text, cursor)
    case None => Edit(text, None)
    case Some(token) =>
      ActiveTokenIsMatch(text, cursor);
      var tokenStart: nat := cursor - |token|;
      var before := text[..if tokenStart <= |text| then tokenStart else |text|];
      var after := text[if cursor <= |text| then cursor else |text|..];
      Edit(before + value + after, Some(tokenStart + |value|))
  }

  /** The splice removes exactly the active token, puts the value in its
      place and leaves the rest of the text alone; without a token nothing
      changes. */
  lemma ApplySuggestionSplices(text: string, cursor: nat, value: string)
    requires cursor <= |text|
    ensures var e := ApplySuggestionTo(text, cursor, value);
            && (ActiveToken(text, cursor).None? ==> e == Edit(text, None))
            && (ActiveToken(text, cursor).Some? ==>
                  var token := ActiveToken(text, cursor).value;
                  var start := cursor - |token|;
                  && 0 <= start && text[start..cursor] == token
                  && |e.text| == |text| - |token| + |value|
                  && e.cursor == Some(start + |value|)
                  && e.text[..start] == text[..start]
                  && e.text[start..start + |value|] == value
                  && e.text[start + |value|..] == text[cursor..])
  {
    ActiveTokenIsMatch(text, cursor);
    assert LeftSide(text, cursor) == text[..cursor];
  }

  /** `value` has the shape of a token: a prefix character, then
      identifier characters. */
  predicate TokenShaped(value: string) {
    |value| > 0 && IsPrefixChar(value[0]) && forall m | 0 < m < |value| :: IsIdentChar(value[m])
  }

  /** Applying a token-shaped suggestion twice is applying it once: after
      the splice the value itself is the active token. */
  lemma ApplySuggestionIdempotent(text: string, cursor: nat, value: string)
    requires cursor <= |text| && TokenShaped(value)
    requires ActiveToken(text, cursor).Some?
    ensures var e := ApplySuggestionTo(text, cursor, value);
            ApplySuggestionTo(e.text, e.cursor.value, value) == e
  {
    ApplySuggestionSplices(text, cursor, value);
    var e := ApplySuggestionTo(text, cursor, value);
    var c := e.cursor.value;
    var start := c - |value|;
    assert LeftSide(e.text, c) == e.text[..c];
    assert e.text[..c][|e.text[..c]| - |value|..] == value;
    ActiveTokenOfSuffix(e.text, c, value);
    assert e.text[..start] + value + e.text[c..] == e.text;
  }

  /** A cursor past the end of the text keeps part of the token: the token
      is found before the clamped cursor, but cut out before the unclamped
      one. */
  lemma ApplyPastEnd(text: string, value: string)
    requires text == "#ab" && value == "#abc"
    ensures ApplySuggestionTo(text, 4, value) == Edit("##abc", Some(5))
  {
    assert ActiveToken(text, 4) == Some(text) by {
      assert LeftSide(text, 4) == text;
      assert IsIdentChar(text[2]) && IsIdentChar(text[1]) && !IsIdentChar(text[0]);
      assert RunStart(text, 3, IsIdentChar) == 1;
    }
    assert text[..1] + value + text[3..] == "##abc";
  }

}
