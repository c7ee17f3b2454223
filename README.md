# Compound expression editor, modelled in Dafny

The compound editor is a text input component. It edits expressions such as
`#total > 100 AND $month(#created_at) = 2`, where the prefixed tokens mean:

- `!table` is a database table;
- `#field` or `#table.field` is a column;
- `$name(...)` is a catalog function;
- `@...` is a reserved prefix.

It does three jobs:

- it suggests completions for the token under the cursor;
- it shows which argument of the enclosing call the cursor is in;
- it compiles the expression to the body of an SQL `WHERE` clause.

The demo page around it adds two things: a validator that runs before compiling, and keyboard selection in the suggestion list.

This project models those parts and proves properties of them:

| module | file | models |
|---|---|---|
| `Text` | `text.dfy` | character classes in place of the regular expressions, ASCII `toLowerCase`/`toUpperCase`, `trim`, character counts, `includes` |
| `Model` | `model.dfy` | the interface records (`DbField`, `DbTable`, `DbSchema`, `FunctionDefinition`, `Suggestion`), the entity kinds, the structured suggestion descriptions, `find` |
| `Compiler` | `compiler.dfy` | `compileToSqlWhere`, `parseSegment`, `readIdentifier`, `escapeIdentifier`, `compileFunction` |
| `CursorContext` | `context.dfy` | `extractActiveToken`, `detectEntityType`, `extractTableFieldContext`, `extractFunctionCallContext`, `resolveFunctionDefinition` |
| `Suggestions` | `suggestions.dfy` | `getFieldSuggestions`, `getSuggestions`, `getFunctionArgumentHintData`, `applySuggestion`, as specification functions |
| `Editor` | `editor.dfy` | the `CompoundEditor` class: its fields, its constructor, and its methods with their loops |
| `Demo` | `demo.dfy` | `getValidationError` and the ArrowDown/ArrowUp update of the selected suggestion |

## How the model is built

Every loop of the source becomes a Dafny `method` with a `while` loop and its invariants. Its `ensures` equates the result with a specification function. The properties are then lemmas about that function. This applies to:

- `parseSegment` and `readIdentifier`;
- the backward scans of `extractFunctionCallContext`;
- the nested `forEach` of `getFieldSuggestions`;
- the `seen`-set filter;
- the validator's two loops.

Code built from `filter`/`find`/`map`, conditionals and regular-expression matches becomes functions.

The `CompoundEditor` class keeps three `const` fields (`schema`, `functions`, `reservedPrefixes`) and one `var expression`. Only `handleInput` and `applySuggestion` change the expression.

Decisions that affect what the model means:

- **Inputs as parameters.** The schema and the function catalog are parameters, as is `DEFAULT_FUNCTIONS`, which the constructor falls back on.
- **Cursor.** The cursor is an explicit `int` argument.
- **Absent table name.** An absent `tableName` is the empty string, matching the source's truthiness tests.
- **Regular expressions** are replaced by two predicates:
  - `TokenAt` for `[!#$@][a-zA-Z0-9_.]*$`;
  - `TableFieldAt` for `!([a-zA-Z0-9_]+)\.([a-zA-Z0-9_]*)$`.

  Lemmas prove that the scanning functions find exactly these matches (`ActiveTokenIsMatch`, `TableFieldContextIsMatch`).
- **Argument index.** `rawArguments.split(',').length - 1` is the number of commas (`Split` has `Count + 1` parts). The source counts every comma after the `(`, including commas inside nested calls that are already closed. The model does the same (`ArgumentIndexCountsCommas`). A description of the component as "the top-level argument position" would differ on text like `$round($max(#a, #b), ` ; the code is followed.
- **Field query after `!table.`.** With a table name, `getFieldSuggestions` still tests the field query against the qualified `#table.field` (src/compound-editor.ts:334-335), so the query must match from the table name on. After `!users.`, the query `na` offers nothing, while `us` offers every field of `users`. The model keeps this; `TableContextQueryIsQualified` shows both results.
- **Arguments end at the first plain `)`.** `parseSegment` counts no parentheses (src/compound-editor.ts:217-219, 242-245). A `(` inside a call's arguments is copied as an ordinary character, so the arguments end at the first `)` that no nested `$name(...)` call consumes. The model keeps this. `NowWithParenthesisedArgument` shows that `$now((x))` compiles to `CURRENT_TIMESTAMP)`, which is unbalanced, although the demo's validator accepts that text.
- **Applying with a cursor past the end.** `applySuggestion` clamps the cursor only while finding the token. It then cuts the text at the unclamped position. The model keeps this behaviour. `ApplyPastEnd` shows its effect: a cursor past the end keeps part of the old token.

## Model

| member | source | states |
|---|---|---|
| Text.LowerChar | src/compound-editor.ts:256 | each of `A`–`Z` goes to its own lower-case letter (code point plus 32); every other character is unchanged |
| Text.UpperChar | src/compound-editor.ts:282 | each of `a`–`z` goes to its own upper-case letter (code point minus 32); every other character is unchanged |
| Text.ToLower | src/compound-editor.ts:256 | lower-casing keeps the length, leaves no `A`–`Z`, and changes only the case of letters: upper-casing the result gives the same as upper-casing the input |
| Text.ToLowerIdempotent | src/compound-editor.ts:256 | lower-casing twice is lower-casing once |
| Text.ToUpper | src/compound-editor.ts:282 | upper-casing keeps the length, leaves no `a`–`z`, and changes only the case of letters: lower-casing the result gives the same as lower-casing the input |
| Text.ToUpperIdempotent | src/compound-editor.ts:282 | upper-casing twice is upper-casing once |
| Text.TrimStartRemovesLeadingSpace | src/compound-editor.ts:207 | the start trim drops exactly the leading white space and leaves a suffix that starts with a non-space |
| Text.TrimEndRemovesTrailingSpace | src/compound-editor.ts:207 | the end trim drops exactly the trailing white space and leaves a prefix that ends with a non-space |
| Text.TrimEmptyIffBlank | src/compound-editor.ts:268 | `trim()` is empty exactly when the text is all white space, which is what the `!trimmedArgs` and `rawArguments.trim() ?` tests decide |
| Text.TrimOfUnpadded | src/compound-editor.ts:207 | text that neither starts nor ends with white space is its own trim |
| Text.Count | src/compound-editor.ts:407 | a character count is at most the length, and zero exactly when the character is absent |
| Text.CountAppend | src/compound-editor.ts:407 | counts add up over concatenation |
| Model.FindFirst | src/compound-editor.ts:281 | `find` returns the first element that passes the test, and nothing only when no element passes |
| Compiler.IdentifierEnd | src/compound-editor.ts:286-304 | the identifier read from `from` is the maximal run of `[a-zA-Z0-9_.]` characters there |
| Compiler.ReadIdentifier | src/compound-editor.ts:286-304 | the loop returns `value == source[from..nextIndex]`, all identifier characters, with `nextIndex` at the end of the text or on a non-identifier character |
| Compiler.Split | src/compound-editor.ts:308 | `split('.')` gives one more part than there are dots, and no part contains a dot |
| Compiler.JoinSplit | src/compound-editor.ts:307-310 | joining the split parts with the separator gives the text back |
| Compiler.EscapeIsCharwise | src/compound-editor.ts:306-313 | the escaped identifier is `"`, then each dot as `"."` and each `"` doubled, then `"` |
| Compiler.QuoteParts | src/compound-editor.ts:308-309 | one quoted segment per dot-separated part, and each reads back as the part it came from |
| Compiler.QuotePartRoundTrip | src/compound-editor.ts:309 | quoting one segment (`"` around it, every `"` doubled) is undone by reading it back |
| Compiler.EscapeRoundTrip | src/compound-editor.ts:306-313 | escaping is invertible: reading the quoted SQL identifier back gives the original identifier |
| Compiler.EscapeQuoteCount | src/compound-editor.ts:306-313 | an identifier without `"` (always so for one read by `readIdentifier`) gets exactly two quotes per dot-separated segment |
| Compiler.SqlNameOfFirstMatch | src/compound-editor.ts:281-282 | a non-built-in function is called by the `sqlName` of the first catalog entry of that name (case ignored), else by its upper-cased name |
| Compiler.CompileFunctionMapping | src/compound-editor.ts:255-284 | `now` and `today` ignore their arguments. `month`/`year` extract from the trimmed arguments, or from `CURRENT_DATE` when these are blank. Any other name becomes `SQLNAME(args)` with the untrimmed compiled arguments |
| Compiler.Parse | src/compound-editor.ts:210-253 | a segment ends at or after its start and within the text. Without a stop character it consumes everything |
| Compiler.ParseEndsOnStop | src/compound-editor.ts:214-219 | a segment that ends before the end of the text stopped just past an occurrence of the stop character |
| Compiler.ParseSegment | src/compound-editor.ts:210-253 | the loop's output and next index are those of `Parse` |
| Compiler.CompileToken | src/compound-editor.ts:214-249 | one step of the scan, short of the stop character, advances and emits exactly the piece `Parse` prepends for that character |
| Compiler.CompileFieldToken | src/compound-editor.ts:221-232 | the `#` branch advances and emits exactly the piece `Parse` prepends |
| Compiler.CompileFunctionToken | src/compound-editor.ts:234-246 | the `$` branch (recursing for the arguments) advances and emits exactly the piece `Parse` prepends |
| Compiler.CompileToSqlWhere | src/compound-editor.ts:205-208 | the compiled text is the trimmed output of the whole-text segment |
| Compiler.PassThrough | src/compound-editor.ts:214-250 | text without `#` and `$` is copied unchanged to the end |
| Compiler.CompilePlainText | src/compound-editor.ts:205-253 | compiling text without `#` and `$` only trims it |
| Compiler.PlainArguments | src/compound-editor.ts:217-219 | inside a call, plain argument text is copied up to the first `)`, and the segment resumes after it |
| Compiler.LiteralHash | src/compound-editor.ts:221-227 | one step of `Parse`: a `#` not followed by an identifier character is emitted as a literal `#` |
| Compiler.LiteralDollar | src/compound-editor.ts:234-240 | one step of `Parse`: a `$` without a name, or whose name is not immediately followed by `(`, is emitted as a literal `$` |
| Compiler.HashIdentifier | src/compound-editor.ts:228-231 | one step of `Parse`: `#ident` is replaced by the escaped identifier and the scan resumes after it |
| Compiler.FunctionCall | src/compound-editor.ts:242-245 | one step of `Parse`: `$name(` compiles its arguments up to the first `)` not consumed by a nested `$name(...)` call (plain parentheses are not counted) and emits `compileFunction` of them |
| Compiler.OtherCharacter | src/compound-editor.ts:248-249 | one step of `Parse`: any other character is copied through |
| Compiler.NowIgnoresArguments | src/compound-editor.ts:259-261 | `$now(...)` compiles to `CURRENT_TIMESTAMP` whatever its arguments |
| Compiler.CompiledFieldCondition | src/compound-editor.ts:205-208 | a whole condition `#name` plus token-free text (such as `#total > 100`) compiles to the quoted name followed by that text |
| Compiler.NowWithParenthesisedArgument | src/compound-editor.ts:242-245 | plain parentheses inside a call are not counted: `$now((x))` compiles to `CURRENT_TIMESTAMP)`, leaving the second `)` behind |
| Compiler.CompiledConditionWithMonth | src/compound-editor.ts:205-253 | the whole condition `#field > 100 AND $month(#dated) = 2` (such as `#total > 100 AND $month(#created_at) = 2`) compiles to the quoted field, the text between, `EXTRACT(MONTH FROM "dated")` and the trailing text |
| Compiler.PlainRun | src/compound-editor.ts:248-249 | a run of characters that are neither `#`, `$` nor the stop character is copied as it is |
| Compiler.CompiledMonthOfField | src/compound-editor.ts:205-208 | a whole expression `$month(#name)` (such as `$month(#created_at)`) compiles to `EXTRACT(MONTH FROM "name")`, whatever the catalog |
| Compiler.EscapePlain | src/compound-editor.ts:306-313 | a name without dots or quotes is escaped by putting it in double quotes |
| Compiler.NameRun | src/compound-editor.ts:290-299 | the identifier scan reads exactly a run of identifier characters that nothing of the class follows |
| CursorContext.Clamp | src/compound-editor.ts:353 | `Math.max(0, Math.min(cursor, n))` lies in `[0, n]` and is the cursor when the cursor is inside |
| CursorContext.RunStart | src/compound-editor.ts:383-391 | the backward scan over a character class stops at the start of the maximal run ending at the given point |
| CursorContext.ActiveTokenIsMatch | src/compound-editor.ts:437-446 | no token in empty text. A token is the suffix of the clamped left side where the pattern matches, and whenever the pattern matches, that match is the token |
| CursorContext.ActiveTokenOfSuffix | src/compound-editor.ts:437-446 | a token-shaped word ending at the cursor (and not preceded by an identifier character) is the active token |
| CursorContext.DetectEntityType | src/compound-editor.ts:34-53 | the kind is known exactly when the token starts with one of `!#$@`, and then it is the kind that character announces |
| CursorContext.DetectPrefixRoundTrip | src/compound-editor.ts:34-53 | each known kind is recognised from its own prefix character, whatever follows |
| CursorContext.TableFieldContextIsMatch | src/compound-editor.ts:349-364 | a context is the `!table.field` match at the cursor, with its two groups. Whenever the pattern matches, the context is that match |
| CursorContext.UnmatchedOpen | src/compound-editor.ts:374-387 | the depth-counting scan only ever stops on a `(` left of its start |
| CursorContext.ArgumentIndexByTrim | src/compound-editor.ts:406-407 | the argument index is 0 when the text after `(` trims to empty, else its comma count |
| CursorContext.UnmatchedOpenBalance | src/compound-editor.ts:374-387 | the scan stops at the nearest `(` that the text after it leaves open, and finds none when every stretch is closed |
| CursorContext.FirstUnmatchedUnique | src/compound-editor.ts:374-387 | there is at most one first unmatched `(` |
| CursorContext.UnmatchedOpenIsFirstUnmatched | src/compound-editor.ts:374-387 | the scan from the cursor finds exactly the first unmatched `(`, or none when all are closed |
| CursorContext.RunStartExact | src/compound-editor.ts:387-395 | the backward scan stops exactly at the start of any maximal run of the class |
| CursorContext.CallBeforeIsCallAt | src/compound-editor.ts:389-408 | a call is recognised before a `(` exactly when `$name`, then only white space, precede it; the name is the maximal `[a-zA-Z0-9_]` run |
| CursorContext.FunctionCallContextSound | src/compound-editor.ts:366-413 | a context names a non-empty `$name` before the first unmatched `(` (white space allowed between), and its index is the argument count after that `(` |
| CursorContext.FunctionCallContextComplete | src/compound-editor.ts:366-413 | whenever the first unmatched `(` follows `$name`, that is the context; with no unmatched `(` there is none |
| CursorContext.ArgumentIndexCountsCommas | src/compound-editor.ts:406-407 | each comma after the `(` (nested or not) adds one to the argument index |
| CursorContext.Filter | src/compound-editor.ts:417 | `filter` keeps nothing that fails the test and never grows the list |
| CursorContext.FilterKeepsPassing | src/compound-editor.ts:417 | `filter` keeps every element that passes the test |
| CursorContext.FilterAppend | src/compound-editor.ts:417 | `filter` keeps the list's order: filtering a concatenation concatenates the filtered parts |
| CursorContext.ResolveFunctionDefinitionFindsName | src/compound-editor.ts:415-421 | resolution finds nothing exactly when no catalog entry has the name (case ignored); what it finds is such an entry |
| CursorContext.ResolveFunctionDefinitionExact | src/compound-editor.ts:425-428 | the first same-name entry with an argument at the index wins |
| CursorContext.ResolveFunctionDefinitionNoArguments | src/compound-editor.ts:430-432 | for argument 0 with no such entry, the first same-name entry without arguments wins |
| CursorContext.NoExactMatch | src/compound-editor.ts:425 | without an entry covering the index, the first tier finds nothing |
| CursorContext.ResolveFunctionDefinitionWithArguments | src/compound-editor.ts:434 | failing both, the first same-name entry with arguments is returned |
| CursorContext.ResolveFunctionDefinitionFirst | src/compound-editor.ts:434 | failing all three, the first same-name entry is returned |
| Suggestions.Upsert | src/compound-editor.ts:326-340 | `Map.set` adds the key to the key set and never duplicates a key. An existing key keeps its place, a new key goes last, and other entries are untouched |
| Suggestions.AddFieldsKeeps | src/compound-editor.ts:322-343 | folding a table's fields adds exactly their candidate values and keeps the keys distinct |
| Suggestions.AddTablesKeeps | src/compound-editor.ts:321-344 | folding the tables adds exactly all their candidate values and keeps the keys distinct |
| Suggestions.FieldSuggestionsDistinct | src/compound-editor.ts:315-347 | field suggestions repeat no value, and their values are exactly the matching candidates of the tables in scope |
| Suggestions.CandidateOrigin | src/compound-editor.ts:323-335 | every candidate is `#field` (only without a table name) or `#table.field` of a listed table |
| Suggestions.TableContextQueryIsQualified | src/compound-editor.ts:315-346 | after `!users.`, the query `na` gives no suggestion and `us` gives `#users.name`: the query is matched against the qualified name |
| Suggestions.ScopedFieldSuggestions | src/compound-editor.ts:318-320 | with a table name, only qualified fields of tables whose name equals it (case ignored) are offered |
| Suggestions.TableSuggestions | src/compound-editor.ts:87-97 | exactly the tables whose lower-cased name contains the query are offered as `!name`, at most one per table; `TableSuggestionsAppend` and `TableSuggestionsCons` fix the order |
| Suggestions.TableSuggestionsAppend | src/compound-editor.ts:87-97 | `filter(...).map(...)` keeps schema order: the list for two runs of tables is the first run's list followed by the second's |
| Suggestions.TableSuggestionsCons | src/compound-editor.ts:87-97 | one step of `TableSuggestions`, used by `TableSuggestionsAppend`: the table in front is offered first exactly when its lower-cased name contains the query, and is dropped otherwise |
| Suggestions.FunctionCandidates | src/compound-editor.ts:103-111 | exactly the catalog entries whose lower-cased name contains the query are offered as `$signature`; `FunctionCandidatesAppend` and `FunctionCandidatesCons` fix the order |
| Suggestions.FunctionCandidatesAppend | src/compound-editor.ts:103-111 | candidates keep catalog order: the list for two runs of entries is the first run's list followed by the second's, so `Dedupe` keeps the earliest catalog entry for each signature |
| Suggestions.FunctionCandidatesCons | src/compound-editor.ts:103-111 | one step of `FunctionCandidates`, used by `FunctionCandidatesAppend`: the entry in front is a candidate, first, exactly when its lower-cased name contains the query, and is dropped otherwise |
| Suggestions.Dedupe | src/compound-editor.ts:112-120 | the `seen` filter keeps one suggestion per value, drops the values already seen, and invents none; `DedupeKeepsFirst` adds order and first occurrence |
| Suggestions.DedupeKeepsFirst | src/compound-editor.ts:112-120 | the kept suggestions are a subsequence of the input in input order, and each is the first suggestion with its value, not among those already seen |
| Suggestions.FunctionSuggestionsDistinct | src/compound-editor.ts:102-120 | function suggestions repeat no value, and every matching catalog entry is represented |
| Suggestions.ReservedSuggestions | src/compound-editor.ts:122-129 | one suggestion per reserved prefix, in prefix order, of the reserved kind with the reserved-prefix description, the prefix as caption and prefix + query as value |
| Suggestions.AsArgument | src/compound-editor.ts:73-76 | tagging keeps every suggestion, one for one and in order, and keeps the set of values unchanged |
| Suggestions.SuggestionsInTableContext | src/compound-editor.ts:56-59 | after `!table.` the suggestions repeat no value and are qualified fields of that table |
| Suggestions.SuggestionsForArgument | src/compound-editor.ts:61-78 | in a `#`-argument of a resolved call, distinct field suggestions tagged with the argument position and call name are offered |
| Suggestions.AsArgumentTags | src/compound-editor.ts:73-76 | tagging keeps the values distinct and marks every entry with the position and name |
| Suggestions.FieldsAreFields | src/compound-editor.ts:326-340 | field suggestions all have the field kind |
| Suggestions.SuggestionsForFunctionToken | src/compound-editor.ts:102-120 | for a `$` token the suggestions are `$`-values of the function kind, each value once |
| Suggestions.NoTokenNoSuggestions | src/compound-editor.ts:80-83 | with no context and no active token there are no suggestions |
| Suggestions.HintForCall | src/compound-editor.ts:153-177 | a hint exists exactly inside a call and carries its argument index. It describes a same-name catalog entry when there is one, else `name()` with no arguments |
| Suggestions.ApplySuggestionSplices | src/compound-editor.ts:179-199 | with the cursor in the text, the splice removes exactly the active token, inserts the value there, and keeps the text before and after. The new cursor follows the value. Without a token nothing changes |
| Suggestions.ApplySuggestionIdempotent | src/compound-editor.ts:179-199 | applying a token-shaped value a second time at the new cursor changes nothing |
| Suggestions.ApplyPastEnd | src/compound-editor.ts:185-190 | with the cursor past the end, the cut uses the unclamped cursor: `#ab` at 4 with `#abc` gives `##abc` |
| Editor.CompoundEditor.constructor | src/compound-editor.ts:18-28 | missing options fall back to `DEFAULT_FUNCTIONS` and `['@']` (empty lists are kept); the expression starts as the input value |
| Editor.CompoundEditor.HandleInput | src/compound-editor.ts:30-32 | the expression becomes the typed value |
| Editor.CompoundEditor.GetSuggestions | src/compound-editor.ts:55-133 | the method returns the specified suggestions for the stored expression and the cursor |
| Editor.CompoundEditor.GetArgumentSuggestions | src/compound-editor.ts:61-78 | the `#`-argument branch returns the specified tagged field list, or nothing when the resolved entry expects no `#` argument there |
| Editor.CompoundEditor.GetTokenSuggestions | src/compound-editor.ts:85-133 | the token-kind branch returns the specified suggestions for the token's kind |
| Editor.CompoundEditor.GetFieldSuggestions | src/compound-editor.ts:315-347 | the nested loops over tables and fields produce the specified ordered, de-duplicated list |
| Editor.CompoundEditor.DedupeByValue | src/compound-editor.ts:112-120 | the loop with the `seen` set computes the de-duplication |
| Editor.CompoundEditor.ExtractFunctionCallContext | src/compound-editor.ts:366-413 | the backward scan with the depth counter returns the specified call context |
| Editor.CompoundEditor.CallBeforeOpen | src/compound-editor.ts:383-408 | the white-space and name scans before the `(` return the specified call or none |
| Editor.CompoundEditor.GetFunctionArgumentHintData | src/compound-editor.ts:153-177 | the method returns the specified hint for the stored expression |
| Editor.CompoundEditor.ApplySuggestion | src/compound-editor.ts:179-199 | the expression becomes the spliced text, which is returned with the new caret position |
| Editor.CompoundEditor.GetResult | src/compound-editor.ts:201-203 | the result is the compiled SQL of the stored expression |
| Demo.DepthCounts | public/main.ts:55-64 | the running balance after `k` characters is the number of `(` minus the number of `)` among them |
| Demo.BalancedCounts | public/main.ts:55-70 | accepted parentheses have equal `(` and `)` counts |
| Demo.NameEnd | public/main.ts:72 | a `$name` match extends over the maximal run of `[a-zA-Z0-9_]` |
| Demo.FunctionTokens | public/main.ts:72 | every match starts with `$` and has a name |
| Demo.FunctionTokensAreMatches | public/main.ts:72 | the global match lists exactly the `$name` matches at every position where the pattern can start |
| Demo.FirstUnknown | public/main.ts:74-79 | nothing is reported exactly when every token's lower-cased name is known. Otherwise the earliest unknown token is reported |
| Demo.ValidIff | public/main.ts:50-82 | an expression is accepted exactly when it has no `@`, balanced parentheses, and only `$name` tokens whose lower-cased name is in the catalog |
| Demo.ValidatorOutcomes | public/main.ts:51-70 | `@` is reported before any other error, unequal parenthesis counts are always rejected, and the empty expression is accepted |
| Demo.UnknownFunctionIsMatch | public/main.ts:72-79 | a reported unknown function is a real match of the pattern whose name no catalog entry has |
| Demo.GetValidationError | public/main.ts:50-82 | the loops compute the specified validation result |
| Demo.FirstUnknownIsFirst | public/main.ts:74-79 | the first token that fails the lookup is the one reported |
| Demo.JsRemainder | public/main.ts:215 | JavaScript's `%` keeps the sign of the dividend, lies strictly within `(-n, n)`, and is the dividend itself when it lies in that range |
| Demo.ArrowsStayInList | public/main.ts:213-224 | from no selection or a selection in the list, both keys select an entry in `[0, n)`. From no selection, ArrowDown selects the first entry and ArrowUp the last |
| Demo.ArrowsAreInverse | public/main.ts:213-224 | ArrowDown then ArrowUp, or the reverse, returns to the same entry |
| Demo.NextIndexInList | public/main.ts:215 | inside the list ArrowDown moves one down and wraps from the last entry to the first |
| Demo.ArrowDownCycles | public/main.ts:215 | `p` presses of ArrowDown move `p` entries down, cyclically; `n` presses come back to the start |
| Demo.JsRemainderCongruent | public/main.ts:215 | the remainder differs from the dividend by a whole multiple of the divisor, which with its sign and bound fixes it |
| Demo.ArrowDownAfterShrink | public/main.ts:215 | an index beyond a shrunken list comes back into it on ArrowDown, by whole multiples of the new length |
| Demo.ArrowUpAfterShrink | public/main.ts:222-223 | from an index at or past the end of a shrunken list, ArrowUp moves one up without wrapping; it lands in the list exactly when the index was just past the end |
| Demo.SuggestionSelection.constructor | public/main.ts:48 | nothing is selected at first |
| Demo.SuggestionSelection.Reset | public/main.ts:202-203 | typing clears the selection |
| Demo.SuggestionSelection.ArrowDown | public/main.ts:209-218 | with suggestions shown the index advances cyclically; with none the key is ignored |
| Demo.SuggestionSelection.ArrowUp | public/main.ts:209-225 | with suggestions shown the index moves up, wrapping from the first entry to the last; with none the key is ignored |

## Left out

- DOM wiring: the `input` element, its listener (src/compound-editor.ts:25-27), `input.value` and `setSelectionRange` are not modelled. `ApplySuggestion` returns the text and caret position instead. The default cursor argument `input.selectionStart ?? expression.length` is not modelled either; the cursor is always passed.
- Message text is left out: the Ukrainian descriptions, labels and validation messages, and the formatted `getFunctionArgumentHint` string (src/compound-editor.ts:135-151). Descriptions are the structured `Description` datatype, validation errors the `ValidationError` datatype. The suggestion `label` field is called `caption`, because `label` is a reserved word in Dafny.
- Text positions: JavaScript indexes strings, and counts `length`, `slice`, `selectionStart` and `setSelectionRange`, in UTF-16 code units; a Dafny `string` is a sequence of Unicode scalar values. For text holding a character above U+FFFF (an emoji before the cursor, say), the cursor given to `CursorContext.ActiveToken`, `CursorContext.TableFieldContext`, `CursorContext.FunctionCallContext` and `Suggestions.ApplySuggestionTo` means a different position than in the page, and the caret returned by `Suggestions.ApplySuggestionTo` counts scalars, not code units. The model matches the source only for text inside the Basic Multilingual Plane.
- Case mapping and white space are modelled only in part. `toLowerCase`/`toUpperCase` are ASCII-only. `trim` and `\s` use the ECMAScript white-space and line-terminator set, but code points above the Basic Multilingual Plane are not modelled.
- `DEFAULT_FUNCTIONS` (src/funcs/default-functions) and `src/types` are not part of this model. The catalog is a parameter of the constructor and of the validator.
- `FunctionDefinition.name` and `arguments` come from a `Func` interface that is not part of this model. They are taken as a string and a list of strings; a missing `arguments` is the empty list.
- The rest of the demo page is not modelled: rendering, the Enter/Tab/Escape handling, the clipboard and the result panel are UI code (public/main.ts:84-260, apart from 213-224).
- Demo.SuggestionSelection: the page recomputes the list on every render without clearing the index. A list that shrinks under a selection is therefore possible. The selection class takes the list length per key press rather than modelling renders; `ArrowUpAfterShrink` states the consequence.
