/** The expression-to-SQL compiler: one left-to-right pass that turns
    `#field` into a quoted SQL identifier, `$name(...)` into a SQL call and
    copies every other character through. It never fails. */
module Compiler {
  import opened Text
  import opened Model

  // ---------------------------------------------------------------------
  // Identifiers

  /** End of the maximal run of identifier characters starting at `from`. */
  function IdentifierEnd(s: string, from: nat): (e: nat)
    requires from <= |s|
    ensures from <= e <= |s|
    ensures forall k | from <= k < e :: IsIdentChar(s[k])
    ensures e == |s| || !IsIdentChar(s[e])
    decreases |s| - from
  {
    if from < |s| && IsIdentChar(s[from]) then IdentifierEnd(s, from + 1) else from
  }

  method ReadIdentifier(s: string, from: nat) returns (value: string, nextIndex: nat)
    requires from <= |s|
    ensures nextIndex == IdentifierEnd(s, from)
    ensures value == s[from..nextIndex]
    ensures forall i | 0 <= i < |value| :: IsIdentChar(value[i])
    ensures nextIndex == |s| || !IsIdentChar(s[nextIndex])
  {
    var index := from;
    value := "";
    while index < |s|
      invariant from <= index <= |s|
      invariant value == s[from..index]
      invariant IdentifierEnd(s, index) == IdentifierEnd(s, from)
    {
      var c := s[index];
      if !IsIdentChar(c) {
        break;
      }
      value := value + [c];
      index := index + 1;
    }
    nextIndex := index;
  }

  /** `split(sep)`: the pieces of `s` between the occurrences of `sep`. */
  function Split(s: string, sep: char): (parts: seq<string>)
    ensures |parts| == Count(s, sep) + 1
    ensures forall i | 0 <= i < |parts| :: sep !in parts[i]
  {
    if s == [] then [[]]
    else
      var rest := Split(s[1..], sep);
      if s[0] == sep then [[]] + rest else [[s[0]] + rest[0]] + rest[1..]
  }

  /** `join(sep)`. */
  function Join(parts: seq<string>, sep: char): string
    requires |parts| > 0
  {
    if |parts| == 1 then parts[0] else parts[0] + [sep] + Join(parts[1..], sep)
  }

  /** `replace(/"/g, '""')`. */
  function DoubleQuotes(p: string): string {
    if p == [] then [] else (if p[0] == '"' then "\"\"" else [p[0]]) + DoubleQuotes(p[1..])
  }

  function QuotePart(p: string): string {
    "\"" + DoubleQuotes(p) + "\""
  }

  /** Every segment quoted on its own; each quoted segment reads back as
      the segment it came from. */
  function QuoteParts(parts: seq<string>): (r: seq<string>)
    ensures |r| == |parts|
    ensures forall i | 0 <= i < |r| :: Unescape(r[i]) == Some(parts[i])
  {
    var r := seq(|parts|, i requires 0 <= i < |parts| => QuotePart(parts[i]));
    assert forall i | 0 <= i < |r| :: Unescape(r[i]) == Some(parts[i]) by {
      forall i | 0 <= i < |r| ensures Unescape(r[i]) == Some(parts[i]) {
        QuotePartRoundTrip(parts[i]);
      }
    }
    r
  }

  /** A dotted identifier as SQL: every dot-separated segment in double
      quotes, embedded double quotes doubled. */
  function EscapeIdentifier(identifier: string): string {
    Join(QuoteParts(Split(identifier, '.')), '.')
  }

  /** Reference description of the escaped identifier, character by
      character: the text between the outer quotes. */
  function EscapedChars(s: string): string {
    if s == [] then []
    else (if s[0] == '.' then "\".\"" else if s[0] == '"' then "\"\"" else [s[0]]) + EscapedChars(s[1..])
  }

  lemma {:induction false} JoinSplit(s: string, sep: char)
    ensures Join(Split(s, sep), sep) == s
  {
    if s != [] {
      var rest := Split(s[1..], sep);
      JoinSplit(s[1..], sep);
      if s[0] == sep {
        assert Split(s, sep)[1..] == rest;
      } else {
        var parts := Split(s, sep);
        if |rest| > 1 {
          assert parts[1..] == rest[1..];
          assert Join(rest, sep) == rest[0] + [sep] + Join(rest[1..], sep);
        }
      }
    }
  }

  lemma QuotedJoinCons(p: string, rest: seq<string>)
    ensures Join(QuoteParts([p] + rest), '.')
         == QuotePart(p) + (if rest == [] then [] else "." + Join(QuoteParts(rest), '.'))
  {
    assert QuoteParts([p] + rest)[1..] == QuoteParts(rest);
  }

  lemma {:induction false} EscapeIsCharwise(s: string)
    ensures EscapeIdentifier(s) == "\"" + EscapedChars(s) + "\""
  {
    if s != [] {
      EscapeIsCharwise(s[1..]);
      if s[0] == '.' {
        EscapeDotStep(s);
      } else {
        EscapeCharStep(s);
      }
    }
  }

  lemma EscapeDotStep(s: string)
    requires s != [] && s[0] == '.'
    requires EscapeIdentifier(s[1..]) == "\"" + EscapedChars(s[1..]) + "\""
    ensures EscapeIdentifier(s) == "\"" + EscapedChars(s) + "\""
  {
    var parts' := Split(s[1..], '.');
    assert Split(s, '.') == [[]] + parts';
    QuotedJoinCons([], parts');
    var x := EscapedChars(s[1..]);
    var j := Join(QuoteParts(parts'), '.');
    assert EscapeIdentifier(s) == QuotePart([]) + ("." + j);
    assert QuotePart([]) == "\"\"";
    assert j == "\"" + x + "\"";
    assert EscapedChars(s) == "\".\"" + x;
    DotAlgebra(x);
  }

  lemma DotAlgebra(x: string)
    ensures "\"\"" + ("." + ("\"" + x + "\"")) == "\"" + ("\".\"" + x) + "\""
  {
  }

  lemma EscapeCharStep(s: string)
    requires s != [] && s[0] != '.'
    requires EscapeIdentifier(s[1..]) == "\"" + EscapedChars(s[1..]) + "\""
    ensures EscapeIdentifier(s) == "\"" + EscapedChars(s) + "\""
  {
    var c := s[0];
    var parts' := Split(s[1..], '.');
    var r0, tail := parts'[0], parts'[1..];
    var t := if tail == [] then [] else "." + Join(QuoteParts(tail), '.');
    var ec := if c == '"' then "\"\"" else [c];
    SplitNonSeparator(s);
    QuotedJoinCons([c] + r0, tail);
    assert parts' == [r0] + tail;
    QuotedJoinCons(r0, tail);
    QuotePartCons(c, r0);
    assert EscapedChars(s) == ec + EscapedChars(s[1..]);
    SeqAlgebra(ec, DoubleQuotes(r0), t, EscapedChars(s[1..]));
  }

  lemma SplitNonSeparator(s: string)
    requires s != [] && s[0] != '.'
    ensures Split(s, '.') == [[s[0]] + Split(s[1..], '.')[0]] + Split(s[1..], '.')[1..]
  {
  }

  lemma QuotePartCons(c: char, r: string)
    ensures QuotePart([c] + r) == "\"" + (if c == '"' then "\"\"" else [c]) + DoubleQuotes(r) + "\""
  {
    assert ([c] + r)[1..] == r;
  }

  /** The sequence algebra behind EscapeCharStep. */
  lemma SeqAlgebra(ec: string, d: string, t: string, e: string)
    requires "\"" + d + "\"" + t == "\"" + e + "\""
    ensures "\"" + ec + d + "\"" + t == "\"" + (ec + e) + "\""
  {
    var x := d + "\"" + t;
    assert "\"" + x == "\"" + d + "\"" + t;
    assert x == ("\"" + x)[1..];
    assert x == e + "\"";
    assert "\"" + ec + d + "\"" + t == "\"" + ec + x;
    assert "\"" + (ec + e) + "\"" == "\"" + ec + (e + "\"");
  }

  /** Reads back the body of a quoted identifier (the text after the opening
      quote): `""` stands for `"`, `"."` for a dot and a lone `"` closes it. */
  function UnescapeBody(t: string): Option<string>
  {
    if t == [] then None
    else if t[0] != '"' then PrependChar(t[0], UnescapeBody(t[1..]))
    else if |t| == 1 then Some([])
    else if t[1] == '"' then PrependChar('"', UnescapeBody(t[2..]))
    else if t[1] == '.' && |t| >= 3 && t[2] == '"' then PrependChar('.', UnescapeBody(t[3..]))
    else None
  }

  function PrependChar(c: char, r: Option<string>): Option<string> {
    match r
    case None => None
    case Some(v) => Some([c] + v)
  }

  function Unescape(t: string): Option<string> {
    if t == [] || t[0] != '"' then None else UnescapeBody(t[1..])
  }

  lemma {:induction false} UnescapeBodyOfEscaped(s: string)
    ensures UnescapeBody(EscapedChars(s) + "\"") == Some(s)
  {
    if s != [] {
      UnescapeBodyOfEscaped(s[1..]);
      var t := EscapedChars(s) + "\"";
      var tail := EscapedChars(s[1..]) + "\"";
      assert s == [s[0]] + s[1..];
      if s[0] == '.' {
        assert t == "\".\"" + tail;
        assert t[3..] == tail;
      } else if s[0] == '"' {
        assert t == "\"\"" + tail;
        assert t[2..] == tail;
      } else {
        assert t == [s[0]] + tail;
        assert t[1..] == tail;
      }
    }
  }

  /** Quoting one segment is undone by reading it back: every doubled
      quote becomes one quote again and the closing quote ends it. */
  lemma {:induction false} QuotePartRoundTrip(p: string)
    ensures Unescape(QuotePart(p)) == Some(p)
  {
    UnescapeDoubled(p);
    assert QuotePart(p)[1..] == DoubleQuotes(p) + "\"";
  }

  lemma {:induction false} UnescapeDoubled(p: string)
    ensures UnescapeBody(DoubleQuotes(p) + "\"") == Some(p)
  {
    if p != [] {
      UnescapeDoubled(p[1..]);
      var t := DoubleQuotes(p) + "\"";
      if p[0] == '"' {
        assert t == "\"\"" + (DoubleQuotes(p[1..]) + "\"");
        assert t[2..] == DoubleQuotes(p[1..]) + "\"";
      } else {
        assert t == [p[0]] + (DoubleQuotes(p[1..]) + "\"");
        assert t[1..] == DoubleQuotes(p[1..]) + "\"";
      }
      assert p == [p[0]] + p[1..];
    }
  }

  lemma EscapeRoundTrip(identifier: string)
    ensures Unescape(EscapeIdentifier(identifier)) == Some(identifier)
  {
    EscapeIsCharwise(identifier);
    var e := EscapeIdentifier(identifier);
    assert e[1..] == EscapedChars(identifier) + "\"";
    UnescapeBodyOfEscaped(identifier);
  }

  lemma {:induction false} EscapedCharsQuoteCount(s: string)
    requires '"' !in s
    ensures Count(EscapedChars(s), '"') == 2 * Count(s, '.')
  {
    if s != [] {
      assert s[0] != '"';
      EscapedCharsQuoteCount(s[1..]);
      CountAppend(if s[0] == '.' then "\".\"" else [s[0]], EscapedChars(s[1..]), '"');
    }
  }

  /** With no double quote in the identifier (always the case for one read by
      `ReadIdentifier`), the only quotes in the result are the two around each
      dot-separated segment: nothing is doubled. */
  lemma EscapeQuoteCount(identifier: string)
    requires '"' !in identifier
    ensures Count(EscapeIdentifier(identifier), '"') == 2 * |Split(identifier, '.')|
  {
    EscapeIsCharwise(identifier);
    EscapedCharsQuoteCount(identifier);
    CountAppend("\"", EscapedChars(identifier), '"');
    CountAppend("\"" + EscapedChars(identifier), "\"", '"');
  }

  // ---------------------------------------------------------------------
  // Function calls

  /** The SQL name for a non-built-in function: the `sqlName` of the first
      catalog entry with that name (ignoring case), else the upper-cased name. */
  function SqlName(fs: seq<FunctionDefinition>, normalizedName: string): string {
    match FindFirst(fs, (f: FunctionDefinition) => ToLower(f.name) == normalizedName)
    case Some(k) => if fs[k].sqlName.Some? then fs[k].sqlName.value else ToUpper(normalizedName)
    case None => ToUpper(normalizedName)
  }

  lemma SqlNameOfFirstMatch(fs: seq<FunctionDefinition>, normalizedName: string)
    ensures forall k | 0 <= k < |fs| && ToLower(fs[k].name) == normalizedName
                       && (forall j | 0 <= j < k :: ToLower(fs[j].name) != normalizedName) ::
              SqlName(fs, normalizedName) == (if fs[k].sqlName.Some? then fs[k].sqlName.value else ToUpper(normalizedName))
    ensures (forall k | 0 <= k < |fs| :: ToLower(fs[k].name) != normalizedName) ==>
              SqlName(fs, normalizedName) == ToUpper(normalizedName)
  {
  }

  predicate IsTemporal(normalizedName: string) {
    normalizedName == "now" || normalizedName == "today" || normalizedName == "month" || normalizedName == "year"
  }

  function CompileFunction(fs: seq<FunctionDefinition>, name: string, compiledArgs: string): string {
    var normalizedName := ToLower(name);
    var trimmedArgs := Trim(compiledArgs);
    if normalizedName == "now" then "CURRENT_TIMESTAMP"
    else if normalizedName == "today" then "CURRENT_DATE"
    else if normalizedName == "month" then
      (if trimmedArgs == [] then "EXTRACT(MONTH FROM CURRENT_DATE)" else "EXTRACT(MONTH FROM " + trimmedArgs + ")")
    else if normalizedName == "year" then
      (if trimmedArgs == [] then "EXTRACT(YEAR FROM CURRENT_DATE)" else "EXTRACT(YEAR FROM " + trimmedArgs + ")")
    else SqlName(fs, normalizedName) + "(" + compiledArgs + ")"
  }

  /** `now` and `today` ignore their arguments; `month` and `year` extract
      from the trimmed arguments, or from the current date when those are
      blank; any other name is called by its SQL name with the arguments as
      compiled. Names are matched ignoring case. */
  lemma CompileFunctionMapping(fs: seq<FunctionDefinition>, name: string, compiledArgs: string)
    ensures ToLower(name) == "now" ==> CompileFunction(fs, name, compiledArgs) == "CURRENT_TIMESTAMP"
    ensures ToLower(name) == "today" ==> CompileFunction(fs, name, compiledArgs) == "CURRENT_DATE"
    ensures ToLower(name) == "month" ==>
              CompileFunction(fs, name, compiledArgs)
              == "EXTRACT(MONTH FROM " + (if IsBlank(compiledArgs) then "CURRENT_DATE" else Trim(compiledArgs)) + ")"
    ensures ToLower(name) == "year" ==>
              CompileFunction(fs, name, compiledArgs)
              == "EXTRACT(YEAR FROM " + (if IsBlank(compiledArgs) then "CURRENT_DATE" else Trim(compiledArgs)) + ")"
    ensures !IsTemporal(ToLower(name)) ==>
              CompileFunction(fs, name, compiledArgs) == SqlName(fs, ToLower(name)) + "(" + compiledArgs + ")"
  {
    TrimEmptyIffBlank(compiledArgs);
    assert "EXTRACT(MONTH FROM " + "CURRENT_DATE" + ")" == "EXTRACT(MONTH FROM CURRENT_DATE)";
    assert "EXTRACT(YEAR FROM " + "CURRENT_DATE" + ")" == "EXTRACT(YEAR FROM CURRENT_DATE)";
  }

  // ---------------------------------------------------------------------
  // The pass

  datatype Segment = Segment(output: string, nextIndex: nat)

  function Prepend(prefix: string, seg: Segment): Segment {
    Segment(prefix + seg.output, seg.nextIndex)
  }

  /** What `parseSegment(s, start, stop)` computes: the compiled text from
      `start` up to the first `stop` character not consumed by a nested
      `$name(...)` call (or the end; plain parentheses are not counted), and
      the index just after what it consumed. */
  function Parse(fs: seq<FunctionDefinition>, s: string, start: nat, stop: Option<char>): (r: Segment)
    requires start <= |s|
    ensures start <= r.nextIndex <= |s|
    ensures stop.None? ==> r.nextIndex == |s|
    decreases |s| - start
  {
    if start == |s| then Segment([], start)
    else
      var c := s[start];
      if stop.Some? && c == stop.value then Segment([], start + 1)
      else if c == '#' then
        var e := IdentifierEnd(s, start + 1);
        if e == start + 1 then Prepend("#", Parse(fs, s, start + 1, stop))
        else Prepend(EscapeIdentifier(s[start + 1..e]), Parse(fs, s, e, stop))
      else if c == '$' then
        var e := IdentifierEnd(s, start + 1);
        if e == start + 1 || e == |s| || s[e] != '(' then Prepend("$", Parse(fs, s, start + 1, stop))
        else
          var args := Parse(fs, s, e + 1, Some(')'));
          Prepend(CompileFunction(fs, s[start + 1..e], args.output), Parse(fs, s, args.nextIndex, stop))
      else Prepend([c], Parse(fs, s, start + 1, stop))
  }

  /** A segment that ends before the end of the text ended on its stop
      character, which it consumed. */
  lemma {:induction false} ParseEndsOnStop(fs: seq<FunctionDefinition>, s: string, start: nat, stop: Option<char>)
    requires start <= |s|
    ensures var r := Parse(fs, s, start, stop);
            r.nextIndex < |s| ==> stop.Some? && start < r.nextIndex && s[r.nextIndex - 1] == stop.value
    decreases |s| - start
  {
    if start < |s| && !(stop.Some? && s[start] == stop.value) {
      var next := ParseStepEnd(fs, s, start, stop);
      ParseEndsOnStop(fs, s, next, stop);
      var n := Parse(fs, s, next, stop).nextIndex;
      assert Parse(fs, s, start, stop).nextIndex == n;
      assert n < |s| ==> stop.Some? && start < n && s[n - 1] == stop.value;
    } else if start < |s| {
      ParseAtStop(fs, s, start, stop);
    }
  }

  /** Where the first token of a segment ends, when it is not the stop
      character: the segment goes on from there. */
  lemma ParseStepEnd(fs: seq<FunctionDefinition>, s: string, start: nat, stop: Option<char>) returns (next: nat)
    requires start < |s| && !(stop.Some? && s[start] == stop.value)
    ensures start < next <= |s|
    ensures Parse(fs, s, start, stop).nextIndex == Parse(fs, s, next, stop).nextIndex
  {
    var c := s[start];
    if c == '#' {
      var e := IdentifierEnd(s, start + 1);
      if e == start + 1 {
        LiteralHash(fs, s, start, stop);
        next := start + 1;
      } else {
        HashIdentifier(fs, s, start, stop, s[start + 1..e], e);
        next := e;
      }
    } else if c == '$' {
      var e := IdentifierEnd(s, start + 1);
      if e == start + 1 || e == |s| || s[e] != '(' {
        LiteralDollar(fs, s, start, stop);
        next := start + 1;
      } else {
        var args := Parse(fs, s, e + 1, Some(')'));
        FunctionCall(fs, s, start, stop, s[start + 1..e], e, args);
        next := args.nextIndex;
      }
    } else {
      OtherCharacter(fs, s, start, stop);
      next := start + 1;
    }
  }

  method ParseSegment(fs: seq<FunctionDefinition>, s: string, start: nat, stop: Option<char>)
    returns (output: string, nextIndex: nat)
    requires start <= |s|
    ensures Segment(output, nextIndex) == Parse(fs, s, start, stop)
    decreases |s| - start, 2
  {
    ghost var total := Parse(fs, s, start, stop);
    var index := start;
    output := "";
    while index < |s|
      invariant start <= index <= |s|
      invariant output + Parse(fs, s, index, stop).output == total.output
      invariant Parse(fs, s, index, stop).nextIndex == total.nextIndex
      decreases |s| - index
    {
      var c := s[index];
      if stop.Some? && c == stop.value {
        ParseAtStop(fs, s, index, stop);
        return output, index + 1;
      }
      var piece, next := CompileToken(fs, s, index, stop);
      Step(output, piece, Parse(fs, s, index, stop), Parse(fs, s, next, stop));
      output := output + piece;
      index := next;
    }
    ParseAtEnd(fs, s, stop);
    nextIndex := index;
  }

  lemma ParseAtStop(fs: seq<FunctionDefinition>, s: string, index: nat, stop: Option<char>)
    requires index < |s| && stop.Some? && s[index] == stop.value
    ensures Parse(fs, s, index, stop) == Segment([], index + 1)
  {
  }

  lemma ParseAtEnd(fs: seq<FunctionDefinition>, s: string, stop: Option<char>)
    ensures Parse(fs, s, |s|, stop) == Segment([], |s|)
  {
  }

  /** One pass of the loop body past a character that is not the stop
      character: a `#` token, a `$` token, or the character itself. */
  method CompileToken(fs: seq<FunctionDefinition>, s: string, index: nat, stop: Option<char>)
    returns (piece: string, next: nat)
    requires index < |s| && !(stop.Some? && s[index] == stop.value)
    ensures index < next <= |s|
    ensures Parse(fs, s, index, stop) == Prepend(piece, Parse(fs, s, next, stop))
    decreases |s| - index, 1
  {
    var c := s[index];
    if c == '#' {
      piece, next := CompileFieldToken(fs, s, index, stop);
    } else if c == '$' {
      piece, next := CompileFunctionToken(fs, s, index, stop);
    } else {
      OtherCharacter(fs, s, index, stop);
      piece, next := [c], index + 1;
    }
  }

  /** The `#` branch of the loop: a field reference, or a literal `#`. */
  method CompileFieldToken(fs: seq<FunctionDefinition>, s: string, index: nat, stop: Option<char>)
    returns (piece: string, next: nat)
    requires index < |s| && s[index] == '#' && stop != Some('#')
    ensures index < next <= |s|
    ensures Parse(fs, s, index, stop) == Prepend(piece, Parse(fs, s, next, stop))
  {
    var field, fieldEnd := ReadIdentifier(s, index + 1);
    if field == "" {
      LiteralHash(fs, s, index, stop);
      return "#", index + 1;
    }
    HashIdentifier(fs, s, index, stop, field, fieldEnd);
    return EscapeIdentifier(field), fieldEnd;
  }

  /** The `$` branch of the loop: a call `$name(...)` whose arguments are
      compiled recursively up to the first `)` not consumed by a nested
      `$name(...)` call (plain parentheses are not counted), or a literal `$`. */
  method CompileFunctionToken(fs: seq<FunctionDefinition>, s: string, index: nat, stop: Option<char>)
    returns (piece: string, next: nat)
    requires index < |s| && s[index] == '$' && stop != Some('$')
    ensures index < next <= |s|
    ensures Parse(fs, s, index, stop) == Prepend(piece, Parse(fs, s, next, stop))
    decreases |s| - index, 0
  {
    var funcName, nameEnd := ReadIdentifier(s, index + 1);
    if funcName == "" || nameEnd == |s| || s[nameEnd] != '(' {
      LiteralDollar(fs, s, index, stop);
      return "$", index + 1;
    }
    var argsOutput, argsNext := ParseSegment(fs, s, nameEnd + 1, Some(')'));
    FunctionCall(fs, s, index, stop, funcName, nameEnd, Segment(argsOutput, argsNext));
    return CompileFunction(fs, funcName, argsOutput), argsNext;
  }

  /** One step of the loop: emitting `piece` and moving on keeps the
      accumulated output in step with the specification. */
  lemma Step(output: string, piece: string, rest: Segment, next: Segment)
    requires rest == Prepend(piece, next)
    ensures output + rest.output == (output + piece) + next.output
    ensures rest.nextIndex == next.nextIndex
  {
  }

  /** What `compileToSqlWhere` returns. */
  function Compiled(fs: seq<FunctionDefinition>, s: string): string {
    Trim(Parse(fs, s, 0, None).output)
  }

  method CompileToSqlWhere(fs: seq<FunctionDefinition>, source: string) returns (sql: string)
    ensures sql == Compiled(fs, source)
  {
    var output, _ := ParseSegment(fs, source, 0, None);
    sql := Trim(output);
  }

  // ---------------------------------------------------------------------
  // Properties of the pass

  /** Text with no `#` and no `$` is copied through unchanged. */
  lemma {:induction false} PassThrough(fs: seq<FunctionDefinition>, s: string, i: nat)
    requires i <= |s|
    requires '#' !in s[i..] && '$' !in s[i..]
    ensures Parse(fs, s, i, None) == Segment(s[i..], |s|)
    decreases |s| - i
  {
    if i < |s| {
      assert s[i] == s[i..][0];
      assert s[i + 1..] == s[i..][1..];
      PassThrough(fs, s, i + 1);
      assert s[i..] == [s[i]] + s[i + 1..];
    }
  }

  /** Compiling text without prefixed tokens only trims it. */
  lemma CompilePlainText(fs: seq<FunctionDefinition>, s: string)
    requires '#' !in s && '$' !in s
    ensures Compiled(fs, s) == Trim(s)
  {
    PassThrough(fs, s, 0);
  }

  /** Inside a call, argument text without tokens or `)` is copied up to the
      closing parenthesis, which is consumed. */
  lemma {:induction false} PlainArguments(fs: seq<FunctionDefinition>, s: string, i: nat, j: nat)
    requires i <= j < |s| && s[j] == ')'
    requires forall k | i <= k < j :: s[k] != '#' && s[k] != '$' && s[k] != ')'
    ensures Parse(fs, s, i, Some(')')) == Segment(s[i..j], j + 1)
    decreases j - i
  {
    if i < j {
      PlainArguments(fs, s, i + 1, j);
      assert s[i..j] == [s[i]] + s[i + 1..j];
    }
  }

  /** A `#` that does not start an identifier is emitted as a literal `#`. */
  lemma LiteralHash(fs: seq<FunctionDefinition>, s: string, i: nat, stop: Option<char>)
    requires i < |s| && s[i] == '#' && stop != Some('#')
    requires i + 1 == |s| || !IsIdentChar(s[i + 1])
    ensures Parse(fs, s, i, stop) == Prepend("#", Parse(fs, s, i + 1, stop))
  {
  }

  /** A `$name` that is not immediately followed by `(` is emitted as a literal `$`. */
  lemma LiteralDollar(fs: seq<FunctionDefinition>, s: string, i: nat, stop: Option<char>)
    requires i < |s| && s[i] == '$' && stop != Some('$')
    requires var e := IdentifierEnd(s, i + 1); e == i + 1 || e == |s| || s[e] != '('
    ensures Parse(fs, s, i, stop) == Prepend("$", Parse(fs, s, i + 1, stop))
  {
  }

  lemma HashIdentifier(fs: seq<FunctionDefinition>, s: string, i: nat, stop: Option<char>, field: string, e: nat)
    requires i < |s| && s[i] == '#' && stop != Some('#')
    requires e == IdentifierEnd(s, i + 1) && e > i + 1 && field == s[i + 1..e]
    ensures Parse(fs, s, i, stop) == Prepend(EscapeIdentifier(field), Parse(fs, s, e, stop))
  {
  }

  lemma FunctionCall(fs: seq<FunctionDefinition>, s: string, i: nat, stop: Option<char>,
                     name: string, e: nat, args: Segment)
    requires i < |s| && s[i] == '$' && stop != Some('$')
    requires e == IdentifierEnd(s, i + 1) && e > i + 1 && name == s[i + 1..e]
    requires e < |s| && s[e] == '('
    requires args == Parse(fs, s, e + 1, Some(')'))
    ensures Parse(fs, s, i, stop) == Prepend(CompileFunction(fs, name, args.output), Parse(fs, s, args.nextIndex, stop))
  {
  }

  lemma OtherCharacter(fs: seq<FunctionDefinition>, s: string, i: nat, stop: Option<char>)
    requires i < |s| && s[i] != '#' && s[i] != '$' && stop != Some(s[i])
    ensures Parse(fs, s, i, stop) == Prepend([s[i]], Parse(fs, s, i + 1, stop))
  {
  }

  /** `$now(...)` compiles to `CURRENT_TIMESTAMP` whatever its arguments. */
  lemma NowIgnoresArguments(fs: seq<FunctionDefinition>, s: string, i: nat, stop: Option<char>)
    requires i < |s| && s[i] == '$' && stop != Some('$')
    requires IdentifierEnd(s, i + 1) < |s| && s[IdentifierEnd(s, i + 1)] == '('
    requires ToLower(s[i + 1..IdentifierEnd(s, i + 1)]) == "now"
    ensures var e := IdentifierEnd(s, i + 1);
            Parse(fs, s, i, stop)
            == Prepend("CURRENT_TIMESTAMP", Parse(fs, s, Parse(fs, s, e + 1, Some(')')).nextIndex, stop))
  {
  }

  // ---------------------------------------------------------------------
  // Worked examples of the whole pass

  /** A plain name: identifier characters, no dot and no quote. */
  predicate PlainName(name: string) {
    name != [] && forall k | 0 <= k < |name| :: IsIdentChar(name[k]) && name[k] != '.' && name[k] != '"'
  }

  /** A condition `#name` followed by token-free text, such as
      `#total > 100`, compiles to the quoted name followed by that text. */
  lemma CompiledFieldCondition(fs: seq<FunctionDefinition>, name: string, rest: string)
    requires PlainName(name)
    requires rest == [] || (!IsIdentChar(rest[0]) && !IsSpace(rest[|rest| - 1]))
    requires '#' !in rest && '$' !in rest
    ensures Compiled(fs, "#" + name + rest) == "\"" + name + "\"" + rest
  {
    var s := "#" + name + rest;
    var e := |name| + 1;
    assert s[1..e] == name && s[e..] == rest;
    NameRun(s, 1, name);
    FieldThenPlainText(fs, s, e);
    EscapePlain(name);
    var sql := "\"" + name + "\"" + rest;
    assert sql[0] == '"';
    assert rest != [] ==> sql[|sql| - 1] == rest[|rest| - 1];
    TrimOfUnpadded(sql);
  }

  /** `$month(#name)`, such as `$month(#created_at)`, extracts the month
      from the quoted field, whatever the catalog. */
  lemma CompiledMonthOfField(fs: seq<FunctionDefinition>, month: string, name: string)
    requires ToLower(month) == "month" && forall k | 0 <= k < |month| :: IsIdentChar(month[k]) && month[k] != '.'
    requires PlainName(name)
    ensures Compiled(fs, "$" + month + "(#" + name + ")") == "EXTRACT(MONTH FROM \"" + name + "\")"
  {
    var sql := "EXTRACT(MONTH FROM \"" + name + "\")";
    MonthCallOutput(fs, month, name);
    assert sql[0] == 'E' && sql[|sql| - 1] == ')';
    TrimOfUnpadded(sql);
  }

  lemma MonthCallOutput(fs: seq<FunctionDefinition>, month: string, name: string)
    requires ToLower(month) == "month" && forall k | 0 <= k < |month| :: IsIdentChar(month[k]) && month[k] != '.'
    requires PlainName(name)
    ensures Parse(fs, "$" + month + "(#" + name + ")", 0, None).output == "EXTRACT(MONTH FROM \"" + name + "\")"
  {
    var s := "$" + month + "(#" + name + ")";
    var field := "\"" + name + "\"";
    var open := |month| + 1;
    assert s[1..open] == month && s[open] == '(';
    NameRun(s, 1, month);
    MonthArgument(fs, month, name);
    CallOfWholeText(fs, s, open, field);
    MonthOfField(fs, month, name);
  }

  lemma MonthArgument(fs: seq<FunctionDefinition>, month: string, name: string)
    requires PlainName(name)
    ensures var s := "$" + month + "(#" + name + ")";
            Parse(fs, s, |month| + 2, Some(')')) == Segment("\"" + name + "\"", |s|)
  {
    var s := "$" + month + "(#" + name + ")";
    var open := |month| + 1;
    var e := open + 2 + |name|;
    assert s[open] == '(' && s[open + 1] == '#';
    assert s[open + 2..e] == name && s[e] == ')' && |s| == e + 1;
    NameRun(s, open + 2, name);
    FieldArgument(fs, s, open, e);
    EscapePlain(name);
  }

  /** The whole condition `#total > 100 AND $month(#created_at) = 2`, for
      any plain field names: the field is quoted, the call becomes an
      `EXTRACT`, and the text between and after them is kept. */
  lemma CompiledConditionWithMonth(fs: seq<FunctionDefinition>, field: string, month: string, dated: string)
    requires PlainName(field) && PlainName(dated)
    requires ToLower(month) == "month" && forall k | 0 <= k < |month| :: IsIdentChar(month[k]) && month[k] != '.'
    ensures Compiled(fs, "#" + field + " > 100 AND $" + month + "(#" + dated + ") = 2")
         == "\"" + field + "\"" + " > 100 AND " + "EXTRACT(MONTH FROM \"" + dated + "\")" + " = 2"
  {
    var s := "#" + field + " > 100 AND $" + month + "(#" + dated + ") = 2";
    var f := 1 + |field|;
    var d := f + 11;
    var open := d + 1 + |month|;
    var close := open + 2 + |dated|;
    ConditionLayout(field, month, dated);
    forall k | f <= k < d
      ensures s[k] != '#' && s[k] != '$'
    {
      assert s[k] == s[f..d][k - f];
      assert s[k] in " > 100 AND ";
    }
    ConditionOutput(fs, s, field, month, dated, d, open, close);
    var sql := "\"" + field + "\"" + " > 100 AND " + "EXTRACT(MONTH FROM \"" + dated + "\")" + " = 2";
    assert Parse(fs, s, 0, None).output == sql;
    assert sql[0] == '"' && sql[|sql| - 1] == '2';
    TrimOfUnpadded(sql);
  }

  /** A field, a plain run, a `$month(#dated)` call and plain text to the
      end compile piece by piece. */
  lemma ConditionOutput(fs: seq<FunctionDefinition>, s: string, field: string, month: string, dated: string,
                        d: nat, open: nat, close: nat)
    requires PlainName(field) && PlainName(dated)
    requires ToLower(month) == "month" && forall k | 0 <= k < |month| :: IsIdentChar(month[k]) && month[k] != '.'
    requires 1 + |field| < d && open == d + 1 + |month| && close == open + 2 + |dated| && close < |s|
    requires s[0] == '#' && s[1..1 + |field|] == field && s[1 + |field|] == ' '
    requires forall k | 1 + |field| <= k < d :: s[k] != '#' && s[k] != '$'
    requires s[d] == '$' && s[d + 1..open] == month && s[open] == '(' && s[open + 1] == '#'
    requires s[open + 2..close] == dated && s[close] == ')'
    requires '#' !in s[close + 1..] && '$' !in s[close + 1..]
    ensures Parse(fs, s, 0, None).output
         == "\"" + field + "\"" + s[1 + |field|..d] + "EXTRACT(MONTH FROM \"" + dated + "\")" + s[close + 1..]
  {
    FieldThenPlainRun(fs, s, field, d);
    MonthCallThenPlainText(fs, s, d, month, dated, open, close);
  }

  /** `#field` and a run of plain text: the quoted field, then the run. */
  lemma FieldThenPlainRun(fs: seq<FunctionDefinition>, s: string, field: string, d: nat)
    requires PlainName(field) && 1 + |field| < d <= |s|
    requires s[0] == '#' && s[1..1 + |field|] == field && s[1 + |field|] == ' '
    requires forall k | 1 + |field| <= k < d :: s[k] != '#' && s[k] != '$'
    ensures Parse(fs, s, 0, None).output == "\"" + field + "\"" + s[1 + |field|..d] + Parse(fs, s, d, None).output
  {
    var f := 1 + |field|;
    assert !IsIdentChar(s[f]);
    NameRun(s, 1, field);
    HashIdentifier(fs, s, 0, None, field, f);
    EscapePlain(field);
    PlainRun(fs, s, f, d, None);
  }

  /** `$month(#dated)` followed by plain text to the end: the `EXTRACT`,
      then that text. */
  lemma MonthCallThenPlainText(fs: seq<FunctionDefinition>, s: string, d: nat, month: string, dated: string,
                               open: nat, close: nat)
    requires PlainName(dated)
    requires ToLower(month) == "month" && forall k | 0 <= k < |month| :: IsIdentChar(month[k]) && month[k] != '.'
    requires open == d + 1 + |month| && close == open + 2 + |dated| && close < |s|
    requires s[d] == '$' && s[d + 1..open] == month && s[open] == '(' && s[open + 1] == '#'
    requires s[open + 2..close] == dated && s[close] == ')'
    requires '#' !in s[close + 1..] && '$' !in s[close + 1..]
    ensures Parse(fs, s, d, None).output == "EXTRACT(MONTH FROM \"" + dated + "\")" + s[close + 1..]
  {
    MonthArguments(fs, s, open, dated, close);
    NameRun(s, d + 1, month);
    var args := Parse(fs, s, open + 1, Some(')'));
    FunctionCall(fs, s, d, None, month, open, args);
    MonthOfField(fs, month, dated);
    PassThrough(fs, s, close + 1);
  }

  /** The arguments `(#dated)` compile to the quoted name. */
  lemma MonthArguments(fs: seq<FunctionDefinition>, s: string, open: nat, dated: string, close: nat)
    requires PlainName(dated)
    requires close == open + 2 + |dated| && close < |s|
    requires s[open] == '(' && s[open + 1] == '#' && s[open + 2..close] == dated && s[close] == ')'
    ensures Parse(fs, s, open + 1, Some(')')) == Segment("\"" + dated + "\"", close + 1)
  {
    NameRun(s, open + 2, dated);
    FieldArgument(fs, s, open, close);
    EscapePlain(dated);
  }

  /** Where the pieces of the condition of `CompiledConditionWithMonth` sit. */
  lemma ConditionLayout(field: string, month: string, dated: string)
    ensures var s := "#" + field + " > 100 AND $" + month + "(#" + dated + ") = 2";
            var f := 1 + |field|;
            var d := f + 11;
            var open := d + 1 + |month|;
            var close := open + 2 + |dated|;
            && |s| == close + 5
            && s[0] == '#' && s[1..f] == field
            && s[f..d] == " > 100 AND " && s[d] == '$'
            && s[d + 1..open] == month && s[open] == '(' && s[open + 1] == '#'
            && s[open + 2..close] == dated && s[close] == ')'
            && s[close + 1..] == " = 2"
  {
    var s := "#" + field + " > 100 AND $" + month + "(#" + dated + ") = 2";
    var f := 1 + |field|;
    var d := f + 11;
    var open := d + 1 + |month|;
    var close := open + 2 + |dated|;
    assert s == "#" + field + " > 100 AND " + "$" + month + "(" + "#" + dated + ")" + " = 2";
  }

  /** A run of characters that are neither tokens nor the stop character is
      copied as it is. */
  lemma {:induction false} PlainRun(fs: seq<FunctionDefinition>, s: string, i: nat, j: nat, stop: Option<char>)
    requires i <= j <= |s|
    requires forall k | i <= k < j :: s[k] != '#' && s[k] != '$' && stop != Some(s[k])
    ensures Parse(fs, s, i, stop) == Prepend(s[i..j], Parse(fs, s, j, stop))
    decreases j - i
  {
    if i < j {
      assert s[i] != '#' && s[i] != '$' && stop != Some(s[i]);
      OtherCharacter(fs, s, i, stop);
      PlainRun(fs, s, i + 1, j, stop);
      PrependTwice([s[i]], s[i + 1..j], Parse(fs, s, j, stop));
      assert s[i..j] == [s[i]] + s[i + 1..j];
    }
  }

  lemma PrependTwice(a: string, b: string, seg: Segment)
    ensures Prepend(a, Prepend(b, seg)) == Prepend(a + b, seg)
  {
  }


  /** Plain parentheses are not counted: inside `$now(...)` the first `)`
      ends the arguments even when it closes a plain `(`, so `$now((x))`
      leaves the second `)` behind. */
  lemma NowWithParenthesisedArgument(fs: seq<FunctionDefinition>)
    ensures Compiled(fs, "$now((x))") == "CURRENT_TIMESTAMP)"
  {
    var s := "$now((x))";
    assert s[1..4] == "now" && s[4] == '(';
    NameRun(s, 1, "now");
    PlainArguments(fs, s, 5, 7);
    assert Parse(fs, s, 8, None) == Segment(")", 9);
    NowIgnoresArguments(fs, s, 0, None);
    assert "CURRENT_TIMESTAMP" + ")" == "CURRENT_TIMESTAMP)";
    TrimOfUnpadded("CURRENT_TIMESTAMP)");
  }

  /** A run of identifier characters that is not followed by another one
      is what the identifier scan reads. */
  lemma NameRun(s: string, from: nat, name: string)
    requires from + |name| <= |s| && s[from..from + |name|] == name
    requires forall k | 0 <= k < |name| :: IsIdentChar(name[k])
    requires from + |name| == |s| || !IsIdentChar(s[from + |name|])
    ensures IdentifierEnd(s, from) == from + |name|
  {
    forall k | from <= k < from + |name|
      ensures IsIdentChar(s[k])
    {
      assert s[k] == name[k - from];
    }
    IdentifierEndOfRun(s, from, from + |name|);
  }

  /** `#name` followed by text without tokens compiles to the quoted name
      and that text. */
  lemma FieldThenPlainText(fs: seq<FunctionDefinition>, s: string, e: nat)
    requires 1 < e <= |s| && s[0] == '#' && e == IdentifierEnd(s, 1)
    requires '#' !in s[e..] && '$' !in s[e..]
    ensures Parse(fs, s, 0, None).output == EscapeIdentifier(s[1..e]) + s[e..]
  {
    HashIdentifier(fs, s, 0, None, s[1..e], e);
    PassThrough(fs, s, e);
  }

  /** The arguments `(#name)` compile to the quoted name, ending after `)`. */
  lemma FieldArgument(fs: seq<FunctionDefinition>, s: string, open: nat, e: nat)
    requires open + 2 < e < |s| && s[open] == '(' && s[open + 1] == '#' && s[e] == ')'
    requires e == IdentifierEnd(s, open + 2)
    ensures Parse(fs, s, open + 1, Some(')')) == Segment(EscapeIdentifier(s[open + 2..e]), e + 1)
  {
    HashIdentifier(fs, s, open + 1, Some(')'), s[open + 2..e], e);
    assert Parse(fs, s, e, Some(')')) == Segment([], e + 1);
  }

  /** A call `$name(...)` spanning the whole text compiles to the mapped
      call alone. */
  lemma CallOfWholeText(fs: seq<FunctionDefinition>, s: string, e: nat, args: string)
    requires 1 < e < |s| && s[0] == '$' && e == IdentifierEnd(s, 1) && s[e] == '('
    requires Parse(fs, s, e + 1, Some(')')) == Segment(args, |s|)
    ensures Parse(fs, s, 0, None).output == CompileFunction(fs, s[1..e], args)
  {
    FunctionCall(fs, s, 0, None, s[1..e], e, Segment(args, |s|));
  }

  lemma MonthOfField(fs: seq<FunctionDefinition>, month: string, name: string)
    requires ToLower(month) == "month"
    ensures CompileFunction(fs, month, "\"" + name + "\"") == "EXTRACT(MONTH FROM \"" + name + "\")"
  {
    var field := "\"" + name + "\"";
    assert field[0] == '"' && field[|field| - 1] == '"';
    TrimOfUnpadded(field);
    assert "EXTRACT(MONTH FROM " + field + ")" == "EXTRACT(MONTH FROM \"" + name + "\")";
  }

  /** Without dots and quotes, an identifier is just put in quotes. */
  lemma EscapePlain(id: string)
    requires '.' !in id && '"' !in id
    ensures EscapeIdentifier(id) == "\"" + id + "\""
  {
    EscapeIsCharwise(id);
    EscapedCharsPlain(id);
  }

  /** The identifier scan from `from` stops at `e` when `from..e` are
      identifier characters and `s[e]` is not. */
  lemma {:induction false} IdentifierEndOfRun(s: string, from: nat, e: nat)
    requires from <= e <= |s|
    requires forall k | from <= k < e :: IsIdentChar(s[k])
    requires e == |s| || !IsIdentChar(s[e])
    ensures IdentifierEnd(s, from) == e
    decreases e - from
  {
    if from < e {
      IdentifierEndOfRun(s, from + 1, e);
    }
  }

  /** Without dots and quotes, escaping copies the characters. */
  lemma {:induction false} EscapedCharsPlain(s: string)
    requires '.' !in s && '"' !in s
    ensures EscapedChars(s) == s
  {
    if s != [] {
      assert s[1..] == s[1..];
      assert forall c | c in s[1..] :: c in s;
      EscapedCharsPlain(s[1..]);
    }
  }
}
