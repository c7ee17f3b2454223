/** The editor object: the schema, the catalog and the reserved prefixes
    it was built with, and the expression it edits. Each query method is
    proved to compute the specification function of its module. */
module Editor {
  import opened Text
  import opened Model
  import opened CursorContext
  import opened Suggestions
  import Compiler

  class CompoundEditor {
    const schema: DbSchema
    const functions: seq<FunctionDefinition>
    const reservedPrefixes: seq<string>
    var expression: string

    /** `options.functions ?? DEFAULT_FUNCTIONS` and
        `options.reservedPrefixes ?? ['@']`: only a missing option falls back,
        an empty list is kept. The expression starts as the input's value. */
    constructor(schema: DbSchema, functions: Option<seq<FunctionDefinition>>,
                reservedPrefixes: Option<seq<string>>, inputValue: string,
                defaultFunctions: seq<FunctionDefinition>)
      ensures this.schema == schema
      ensures this.functions == if functions.Some? then functions.value else defaultFunctions
      ensures this.reservedPrefixes == if reservedPrefixes.Some? then reservedPrefixes.value else ["@"]
      ensures expression == inputValue
    {
      this.schema := schema;
      this.functions := if functions.Some? then functions.value else defaultFunctions;
      this.reservedPrefixes := if reservedPrefixes.Some? then reservedPrefixes.value else ["@"];
      expression := inputValue;
    }

    /** The input listener's update: the expression becomes the new value. */
    method HandleInput(value: string)
      modifies this
      ensures expression == value
    {
      expression := value;
    }

    /** `getSuggestions`. */
    method GetSuggestions(cursor: int) returns (r: seq<Suggestion>)
      ensures r == SuggestionsFor(schema, functions, reservedPrefixes, expression, cursor)
    {
      var tableFieldContext := TableFieldContext(expression, cursor);
      if tableFieldContext.Some? {
        r := GetFieldSuggestions(tableFieldContext.value.fieldQuery, tableFieldContext.value.tableName);
        return;
      }
      var argumentSuggestions := GetArgumentSuggestions(cursor);
      if argumentSuggestions.Some? {
        return argumentSuggestions.value;
      }
      var token := ActiveToken(expression, cursor);
      if token.None? {
        return [];
      }
      r := GetTokenSuggestions(token.value);
    }

    /** The `#`-argument branch of `getSuggestions`. */
    method GetArgumentSuggestions(cursor: int) returns (r: Option<seq<Suggestion>>)
      ensures r == ArgumentSuggestions(schema, functions, expression, cursor)
    {
      var functionArgumentContext := ExtractFunctionCallContext(expression, cursor);
      if functionArgumentContext.None? {
        return None;
      }
      var ctx := functionArgumentContext.value;
      var definition := ResolveFunctionDefinition(functions, ctx.functionName, ctx.currentArgumentIndex);
      if definition.None? {
        return None;
      }
      var arguments := definition.value.arguments;
      if ctx.currentArgumentIndex < |arguments| && StartsWith(arguments[ctx.currentArgumentIndex], "#") {
        var token := ActiveToken(expression, cursor);
        var query := if token.Some? && StartsWith(token.value, "#") then token.value[1..] else "";
        var suggestions := GetFieldSuggestions(query, "");
        r := Some(AsArgument(suggestions, ctx.currentArgumentIndex, ctx.functionName));
      } else {
        r := None;
      }
    }

    /** The token-kind branch of `getSuggestions`. */
    method GetTokenSuggestions(token: string) returns (r: seq<Suggestion>)
      ensures r == TokenSuggestions(schema, functions, reservedPrefixes, token)
    {
      var query := ToLower(if token == [] then [] else token[1..]);
      match DetectEntityType(token)
      case Table => r := TableSuggestions(schema.tables, query);
      case Field => r := GetFieldSuggestions(query, "");
      case Function => r := DedupeByValue(FunctionCandidates(functions, query));
      case Reserved => r := ReservedSuggestions(reservedPrefixes, query);
      case Unknown => r := [];
    }

    /** `getFieldSuggestions`: the two nested `forEach` loops filling the
        map keyed by value. */
    method GetFieldSuggestions(query: string, tableName: string) returns (r: seq<Suggestion>)
      ensures r == FieldSuggestions(schema, query, tableName)
    {
      var normalizedQuery := ToLower(query);
      var unique: seq<Suggestion> := [];
      var tables := ScopedTables(schema, tableName);
      var t := 0;
      while t < |tables|
        invariant t <= |tables|
        invariant AddTables(unique, tables[t..], normalizedQuery, tableName) == FieldSuggestions(schema, query, tableName)
      {
        var table := tables[t];
        ghost var start := unique;
        var f := 0;
        while f < |table.fields|
          invariant f <= |table.fields|
          invariant AddFields(unique, table, table.fields[f..], normalizedQuery, tableName)
                    == AddFields(start, table, table.fields, normalizedQuery, tableName)
        {
          var field := table.fields[f];
          var fieldValue := "#" + field.name;
          if tableName == "" && Contains(ToLower(fieldValue), "#" + normalizedQuery) {
            unique := Upsert(unique, Suggestion(Field, fieldValue, Typed(fieldValue, field), FieldOfTable(table.name)));
          }
          var qualified := QualifiedName(table, field);
          if Contains(ToLower(qualified), "#" + normalizedQuery) {
            unique := Upsert(unique, Suggestion(Field, qualified, Typed(qualified, field),
                                                if tableName != "" then FieldOfTable(table.name) else QualifiedField));
          }
          assert table.fields[f..][1..] == table.fields[f + 1..];
          f := f + 1;
        }
        assert tables[t..][1..] == tables[t + 1..];
        t := t + 1;
      }
      r := unique;
    }

    /** The `seen`-set `filter` over the function suggestions. */
    method DedupeByValue(s: seq<Suggestion>) returns (r: seq<Suggestion>)
      ensures r == Dedupe(s, {})
    {
      var seen: set<string> := {};
      r := [];
      var i := 0;
      while i < |s|
        invariant i <= |s|
        invariant r + Dedupe(s[i..], seen) == Dedupe(s, {})
      {
        var item := s[i];
        assert s[i..][0] == item && s[i..][1..] == s[i + 1..];
        if item.value !in seen {
          r := r + [item];
        } else {
          assert seen + {item.value} == seen;
        }
        seen := seen + {item.value};
        i := i + 1;
      }
    }

    /** `extractFunctionCallContext`: a backward scan with a depth counter
        for the first unmatched `(`, then two backward scans over the
        whitespace and the name before it. */
    method ExtractFunctionCallContext(text: string, cursor: int) returns (r: Option<CallContext>)
      ensures r == FunctionCallContext(text, cursor)
    {
      var left := text[..Clamp(cursor, |text|)];
      var depth: nat := 0;
      var index := |left| - 1;
      while index >= 0
        invariant -1 <= index < |left|
        invariant UnmatchedOpen(left, index + 1, depth) == UnmatchedOpen(left, |left|, 0)
        decreases index
      {
        var c := left[index];
        if c == ')' {
          depth := depth + 1;
        } else if c == '(' {
          if depth > 0 {
            depth := depth - 1;
          } else {
            r := CallBeforeOpen(left, index);
            return;
          }
        }
        index := index - 1;
      }
      r := None;
    }

    /** The name scans of `extractFunctionCallContext` once the unmatched
        `(` at `open` is found. */
    static method CallBeforeOpen(left: string, open: nat) returns (r: Option<CallContext>)
      requires open < |left|
      ensures r == CallBefore(left, open)
    {
      var nameEnd := open - 1;
      while nameEnd >= 0 && IsSpace(left[nameEnd])
        invariant -1 <= nameEnd < open
        invariant RunStart(left, nameEnd + 1, IsSpace) == RunStart(left, open, IsSpace)
        decreases nameEnd
      {
        nameEnd := nameEnd - 1;
      }
      var nameStart := nameEnd;
      while nameStart >= 0 && IsNameChar(left[nameStart])
        invariant -1 <= nameStart <= nameEnd
        invariant RunStart(left, nameStart + 1, IsNameChar) == RunStart(left, nameEnd + 1, IsNameChar)
        decreases nameStart
      {
        nameStart := nameStart - 1;
      }
      if nameStart < 0 || left[nameStart] != '$' {
        return None;
      }
      var functionName := left[nameStart + 1..nameEnd + 1];
      if functionName == [] {
        return None;
      }
      r := Some(CallContext(functionName, ArgumentIndex(left[open + 1..])));
    }

    /** `getFunctionArgumentHintData`. */
    method GetFunctionArgumentHintData(cursor: int) returns (r: Option<FunctionArgumentHint>)
      ensures r == HintFor(functions, expression, cursor)
    {
      var context := ExtractFunctionCallContext(expression, cursor);
      if context.None? {
        return None;
      }
      var ctx := context.value;
      var definition := ResolveFunctionDefinition(functions, ctx.functionName, ctx.currentArgumentIndex);
      if definition.None? {
        return Some(FunctionArgumentHint(ctx.functionName, ctx.functionName + "()", ctx.currentArgumentIndex, []));
      }
      var d := definition.value;
      r := Some(FunctionArgumentHint(d.name, d.signature, ctx.currentArgumentIndex, d.arguments));
    }

    /** `applySuggestion`: splices the value over the active token, stores
        the new expression and returns it with the caret position it sets. */
    method ApplySuggestion(suggestion: Suggestion, cursor: int) returns (updated: string, caret: Option<nat>)
      modifies this
      ensures ApplySuggestionTo(old(expression), cursor, suggestion.value) == Edit(updated, caret)
      ensures expression == updated
    {
      var token := ActiveToken(expression, cursor);
      if token.None? {
        return expression, None;
      }
      ActiveTokenIsMatch(expression, cursor);
      var tokenStart: nat := cursor - |token.value|;
      var before := expression[..if tokenStart <= |expression| then tokenStart else |expression|];
      var after := expression[if cursor <= |expression| then cursor else |expression|..];
      updated := before + suggestion.value + after;
      expression := updated;
      caret := Some(tokenStart + |suggestion.value|);
    }

    /** `getResult`: the compiled SQL `WHERE` fragment of the expression. */
    method GetResult() returns (sql: string)
      ensures sql == Compiler.Compiled(functions, expression)
    {
      sql := Compiler.CompileToSqlWhere(functions, expression);
    }
  }
}
