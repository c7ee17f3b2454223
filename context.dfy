/** What the text to the left of the cursor says about the position being
    edited: the active prefixed token, a `!table.field` context, the
    enclosing `$name(` call, and the catalog entry a call resolves to. */
module CursorContext {
  import opened Text
  import opened Model

  /** `Math.max(0, Math.min(cursor, n))`. */
  function Clamp(cursor: int, n: nat): (p: nat)
    ensures p <= n
    ensures 0 <= cursor <= n ==> p == cursor
    ensures cursor < 0 ==> p == 0
    ensures cursor > n ==> p == n
  {
    if cursor < 0 then 0 else if cursor > n then n else cursor
  }

  /** The text before the (clamped) cursor, which every scanner looks at. */
  function LeftSide(text: string, cursor: int): string {
    text[..Clamp(cursor, |text|)]
  }

  /** The start of the longest run of `inClass` characters ending at `j`. */
  function RunStart(s: string, j: nat, inClass: char -> bool): (k: nat)
    requires j <= |s|
    ensures k <= j
    ensures forall m | k <= m < j :: inClass(s[m])
    ensures k == 0 || !inClass(s[k - 1])
    decreases j
  {
    if j > 0 && inClass(s[j - 1]) then RunStart(s, j - 1, inClass) else j
  }

  /** The characters that open a token: table, field, function, reserved. */
  predicate IsPrefixChar(c: char) { c == '!' || c == '#' || c == '$' || c == '@' }

  // ---------------------------------------------------------------------
  // Active token

  /** `[!#$@][a-zA-Z0-9_.]*$` matches `left` from index `i` on. */
  predicate TokenAt(left: string, i: nat) {
    i < |left| && IsPrefixChar(left[i]) && forall m | i < m < |left| :: IsIdentChar(left[m])
  }

  /** `extractActiveToken`: the prefixed token that ends at the cursor. */
  function ActiveToken(text: string, cursor: int): Option<string> {
    if text == [] then None
    else
      var left := LeftSide(text, cursor);
      var k := RunStart(left, |left|, IsIdentChar);
      if k > 0 && IsPrefixChar(left[k - 1]) then Some(left[k - 1..]) else None
  }

  /** The active token is exactly the match of the pattern at the end of
      the left side: absent for empty text, otherwise a suffix of the left
      side where the pattern matches, and present whenever it matches. */
  lemma ActiveTokenIsMatch(text: string, cursor: int)
    ensures var left := LeftSide(text, cursor);
            var r := ActiveToken(text, cursor);
            && (text == [] ==> r.None?)
            && (r.Some? ==> 0 < |r.value| <= |left| && TokenAt(left, |left| - |r.value|)
                            && r.value == left[|left| - |r.value|..])
            && (text != [] ==> forall i: nat | TokenAt(left, i) :: r == Some(left[i..]))
  {
    var left := LeftSide(text, cursor);
    var k := RunStart(left, |left|, IsIdentChar);
    forall i: nat | TokenAt(left, i) && text != []
      ensures ActiveToken(text, cursor) == Some(left[i..])
    {
    }
  }

  /** A token-shaped word at the end of the left side is the active token. */
  lemma ActiveTokenOfSuffix(text: string, cursor: int, word: string)
    requires var left := LeftSide(text, cursor);
             0 < |word| <= |left| && left[|left| - |word|..] == word
             && IsPrefixChar(word[0]) && forall m | 0 < m < |word| :: IsIdentChar(word[m])
    ensures ActiveToken(text, cursor) == Some(word)
  {
    var left := LeftSide(text, cursor);
    var i := |left| - |word|;
    assert left[i] == word[0];
    assert forall m | i < m < |left| :: left[m] == word[m - i];
    assert TokenAt(left, i);
    ActiveTokenIsMatch(text, cursor);
  }

  // ---------------------------------------------------------------------
  // Entity type

  /** `detectEntityType`: the kind a token's first character announces. */
  function DetectEntityType(token: string): (t: EntityType)
    ensures t != Unknown <==> token != [] && IsPrefixChar(token[0])
    ensures t != Unknown ==> token[0] == PrefixChar(t)
  {
    if token == [] then Unknown
    else if token[0] == '!' then Table
    else if token[0] == '#' then Field
    else if token[0] == '$' then Function
    else if token[0] == '@' then Reserved
    else Unknown
  }

  /** The character that starts a token of kind `t`. */
  function PrefixChar(t: EntityType): (c: char)
    requires t != Unknown
    ensures IsPrefixChar(c)
  {
    match t
    case Table => '!'
    case Field => '#'
    case Function => '$'
    case Reserved => '@'
  }

  /** Every kind but `Unknown` is recognised from its own prefix. */
  lemma DetectPrefixRoundTrip(t: EntityType, rest: string)
    requires t != Unknown
    ensures DetectEntityType([PrefixChar(t)] + rest) == t
  {
  }

  // ---------------------------------------------------------------------
  // `!table.field` context

  datatype TableField = TableField(tableName: string, fieldQuery: string)

  /** `!([a-zA-Z0-9_]+)\.([a-zA-Z0-9_]*)$` matches `left` with the `!` at
      `i` and the dot at `d`. */
  predicate TableFieldAt(left: string, i: nat, d: nat) {
    i + 1 < d < |left| && left[i] == '!' && left[d] == '.'
    && (forall m | i < m < d :: IsNameChar(left[m]))
    && (forall m | d < m < |left| :: IsNameChar(left[m]))
  }

  /** `extractTableFieldContext`. */
  function TableFieldContext(text: string, cursor: int): Option<TableField> {
    var left := LeftSide(text, cursor);
    var q := RunStart(left, |left|, IsNameChar);
    if q == 0 || left[q - 1] != '.' then None
    else
      var d := q - 1;
      var p := RunStart(left, d, IsNameChar);
      if p == d || p == 0 || left[p - 1] != '!' then None
      else Some(TableField(left[p..d], left[q..]))
  }

  /** The context is the pattern's match: when present, the table name and
      the field query are the two groups of a match, and whenever the
      pattern matches, the context is that match. */
  lemma TableFieldContextIsMatch(text: string, cursor: int)
    ensures var left := LeftSide(text, cursor);
            var r := TableFieldContext(text, cursor);
            && (r.Some? ==> var d := |left| - |r.value.fieldQuery| - 1;
                            var i := d - |r.value.tableName| - 1;
                            0 <= i && TableFieldAt(left, i, d)
                            && r.value.tableName == left[i + 1..d] && r.value.fieldQuery == left[d + 1..])
            && (forall i: nat, d: nat | TableFieldAt(left, i, d) :: r == Some(TableField(left[i + 1..d], left[d + 1..])))
  {
    var left := LeftSide(text, cursor);
    var q := RunStart(left, |left|, IsNameChar);
    forall i: nat, d: nat | TableFieldAt(left, i, d)
      ensures TableFieldContext(text, cursor) == Some(TableField(left[i + 1..d], left[d + 1..]))
    {
      assert q == d + 1;
    }
  }

  // ---------------------------------------------------------------------
  // Enclosing function call

  datatype CallContext = CallContext(functionName: string, currentArgumentIndex: nat)

  /** The backward scan: from index `k - 1` down, with `depth` closing
      parentheses still open, the index of the first `(` that is not
      matched before the cursor. */
  function UnmatchedOpen(left: string, k: nat, depth: nat): (r: Option<nat>)
    requires k <= |left|
    ensures r.Some? ==> r.value < k && left[r.value] == '('
    decreases k
  {
    if k == 0 then None
    else if left[k - 1] == ')' then UnmatchedOpen(left, k - 1, depth + 1)
    else if left[k - 1] == '(' then
      if depth > 0 then UnmatchedOpen(left, k - 1, depth - 1) else Some(k - 1)
    else UnmatchedOpen(left, k - 1, depth)
  }

  /** `rawArguments.trim() ? rawArguments.split(',').length - 1 : 0`: on
      non-blank arguments every comma counts, also those inside nested
      calls. Blankness stands for the empty trim (`ArgumentIndexByTrim`). */
  function ArgumentIndex(rawArguments: string): nat {
    if IsBlank(rawArguments) then 0 else Count(rawArguments, ',')
  }

  /** The argument index as the source computes it, through `trim`. */
  lemma ArgumentIndexByTrim(rawArguments: string)
    ensures ArgumentIndex(rawArguments) == if Trim(rawArguments) == [] then 0 else Count(rawArguments, ',')
  {
    TrimEmptyIffBlank(rawArguments);
  }

  /** The call the `(` at `open` belongs to, if `$name` precedes it. */
  function CallBefore(left: string, open: nat): Option<CallContext>
    requires open < |left|
  {
    var nameEnd := RunStart(left, open, IsSpace);
    var nameStart := RunStart(left, nameEnd, IsNameChar);
    if nameStart == 0 || left[nameStart - 1] != '$' then None
    else if nameStart == nameEnd then None
    else Some(CallContext(left[nameStart..nameEnd], ArgumentIndex(left[open + 1..])))
  }

  /** `extractFunctionCallContext`. */
  function FunctionCallContext(text: string, cursor: int): Option<CallContext> {
    var left := LeftSide(text, cursor);
    match UnmatchedOpen(left, |left|, 0)
    case None => None
    case Some(open) => CallBefore(left, open)
  }

  /** Closing minus opening parentheses among `left[j..k]`. */
  function Balance(left: string, j: nat, k: nat): int
    requires j <= k <= |left|
    decreases k - j
  {
    if j == k then 0 else Balance(left, j, k - 1) + Delta(left[k - 1])
  }

  /** What one character adds to the balance. */
  function Delta(c: char): int {
    if c == ')' then 1 else if c == '(' then -1 else 0
  }

  /** The balance also grows from the left, one character at a time. */
  lemma {:induction false} BalanceCons(left: string, j: nat, k: nat)
    requires j < k <= |left|
    ensures Balance(left, j, k) == Delta(left[j]) + Balance(left, j + 1, k)
    decreases k - j
  {
    if j + 1 < k {
      BalanceCons(left, j, k - 1);
    }
  }

  /** `open` holds the first `(` left of the cursor that the text after it
      does not close. */
  predicate FirstUnmatched(left: string, open: nat) {
    open < |left| && left[open] == '(' && Balance(left, open + 1, |left|) == 0
    && forall j | open < j <= |left| :: Balance(left, j, |left|) >= 0
  }

  /** `$name`, then white space, then the `(` at `open`; the name occupies
      `[s, e)`. */
  predicate CallAt(left: string, open: nat, s: nat, e: nat) {
    0 < s < e <= open < |left| && left[open] == '(' && left[s - 1] == '$'
    && (forall m | s <= m < e :: IsNameChar(left[m]))
    && (forall m | e <= m < open :: IsSpace(left[m]))
  }

  /** The backward scan in terms of parenthesis balance: from `k` with
      `depth` pending, it stops at the largest index whose stretch up to
      `k` is one `(` short, and finds nothing when no stretch is. */
  lemma {:induction false} UnmatchedOpenBalance(left: string, k: nat, depth: nat)
    requires k <= |left|
    ensures var r := UnmatchedOpen(left, k, depth);
            && (r.Some? ==> depth + Balance(left, r.value + 1, k) == 0
                            && forall j | r.value < j <= k :: depth + Balance(left, j, k) >= 0)
            && (r.None? ==> forall j | 0 <= j <= k :: depth + Balance(left, j, k) >= 0)
    decreases k
  {
    if k > 0 {
      var c := left[k - 1];
      if !(c == '(' && depth == 0) {
        var depth' := if c == ')' then depth + 1 else if c == '(' then depth - 1 else depth;
        assert UnmatchedOpen(left, k, depth) == UnmatchedOpen(left, k - 1, depth');
        UnmatchedOpenBalance(left, k - 1, depth');
        assert forall j | 0 <= j <= k - 1 :: depth + Balance(left, j, k) == depth' + Balance(left, j, k - 1);
      }
    }
  }

  /** The first unmatched `(` is unique. */
  lemma FirstUnmatchedUnique(left: string, a: nat, b: nat)
    requires FirstUnmatched(left, a) && FirstUnmatched(left, b)
    ensures a == b
  {
    if a < b {
      BalanceCons(left, b, |left|);
    } else if b < a {
      BalanceCons(left, a, |left|);
    }
  }

  /** The scan from the cursor finds the first unmatched `(`, and nothing
      when every `(` left of the cursor is closed. */
  lemma UnmatchedOpenIsFirstUnmatched(left: string)
    ensures var r := UnmatchedOpen(left, |left|, 0);
            && (r.Some? ==> FirstUnmatched(left, r.value))
            && (r.None? <==> forall j | 0 <= j <= |left| :: Balance(left, j, |left|) >= 0)
            && (forall o: nat | FirstUnmatched(left, o) :: r == Some(o))
  {
    UnmatchedOpenBalance(left, |left|, 0);
    var r := UnmatchedOpen(left, |left|, 0);
    if r.Some? {
      assert FirstUnmatched(left, r.value);
      BalanceCons(left, r.value, |left|);
      forall o: nat | FirstUnmatched(left, o) ensures o == r.value {
        FirstUnmatchedUnique(left, o, r.value);
      }
    } else {
      forall o: nat | FirstUnmatched(left, o) ensures false {
        BalanceCons(left, o, |left|);
      }
    }
  }

  /** The call recognised before a given `(` is exactly the `$name` shape
      that precedes it. */
  lemma CallBeforeIsCallAt(left: string, open: nat)
    requires open < |left| && left[open] == '('
    ensures var r := CallBefore(left, open);
            && (r.Some? ==> var e := RunStart(left, open, IsSpace);
                            var s := RunStart(left, e, IsNameChar);
                            CallAt(left, open, s, e)
                            && r == Some(CallContext(left[s..e], ArgumentIndex(left[open + 1..]))))
            && (forall s: nat, e: nat | CallAt(left, open, s, e) ::
                  r == Some(CallContext(left[s..e], ArgumentIndex(left[open + 1..]))))
  {
    CallBeforeSound(left, open);
    forall s: nat, e: nat | CallAt(left, open, s, e)
      ensures CallBefore(left, open) == Some(CallContext(left[s..e], ArgumentIndex(left[open + 1..])))
    {
      CallBeforeComplete(left, open, s, e);
    }
  }

  lemma CallBeforeSound(left: string, open: nat)
    requires open < |left| && left[open] == '('
    ensures var e := RunStart(left, open, IsSpace);
            var s := RunStart(left, e, IsNameChar);
            CallBefore(left, open).Some? ==>
              CallAt(left, open, s, e)
              && CallBefore(left, open) == Some(CallContext(left[s..e], ArgumentIndex(left[open + 1..])))
  {
    var e := RunStart(left, open, IsSpace);
    var s := RunStart(left, e, IsNameChar);
    if CallBefore(left, open).Some? {
      assert 0 < s < e <= open;
      assert left[s - 1] == '$';
    }
  }

  lemma CallBeforeComplete(left: string, open: nat, s: nat, e: nat)
    requires CallAt(left, open, s, e)
    ensures CallBefore(left, open) == Some(CallContext(left[s..e], ArgumentIndex(left[open + 1..])))
  {
    assert !IsSpace(left[e - 1]);
    RunStartExact(left, open, e, IsSpace);
    RunStartExact(left, e, s, IsNameChar);
  }

  /** A maximal run is where the backward scan stops. */
  lemma {:induction false} RunStartExact(str: string, j: nat, k: nat, inClass: char -> bool)
    requires k <= j <= |str|
    requires forall m | k <= m < j :: inClass(str[m])
    requires k == 0 || !inClass(str[k - 1])
    ensures RunStart(str, j, inClass) == k
    decreases j
  {
    if j > k {
      RunStartExact(str, j - 1, k, inClass);
    }
  }

  /** `extractFunctionCallContext`, soundness: a context names the `$name`
      before the first unmatched `(` left of the cursor (white space
      allowed between), and counts the commas after that `(`. */
  lemma FunctionCallContextSound(text: string, cursor: int)
    ensures var left := LeftSide(text, cursor);
            var r := FunctionCallContext(text, cursor);
            r.Some? ==> exists o: nat, s: nat, e: nat | FirstUnmatched(left, o) && CallAt(left, o, s, e) ::
                          r.value == CallContext(left[s..e], ArgumentIndex(left[o + 1..]))
  {
    var left := LeftSide(text, cursor);
    match UnmatchedOpen(left, |left|, 0)
    case None =>
    case Some(o) =>
      UnmatchedOpenIsFirstUnmatched(left);
      CallBeforeSound(left, o);
      var r := CallBefore(left, o);
      if r.Some? {
        var e := RunStart(left, o, IsSpace);
        var s := RunStart(left, e, IsNameChar);
        assert FirstUnmatched(left, o) && CallAt(left, o, s, e);
      }
  }

  /** `extractFunctionCallContext`, completeness: whenever the first
      unmatched `(` left of the cursor follows `$name`, that call is the
      context; when every `(` is closed, there is none. */
  lemma FunctionCallContextComplete(text: string, cursor: int)
    ensures var left := LeftSide(text, cursor);
            var r := FunctionCallContext(text, cursor);
            && (forall o: nat, s: nat, e: nat | FirstUnmatched(left, o) && CallAt(left, o, s, e) ::
                  r == Some(CallContext(left[s..e], ArgumentIndex(left[o + 1..]))))
            && ((forall j | 0 <= j <= |left| :: Balance(left, j, |left|) >= 0) ==> r.None?)
  {
    var left := LeftSide(text, cursor);
    UnmatchedOpenIsFirstUnmatched(left);
    forall o: nat, s: nat, e: nat | FirstUnmatched(left, o) && CallAt(left, o, s, e)
      ensures FunctionCallContext(text, cursor) == Some(CallContext(left[s..e], ArgumentIndex(left[o + 1..])))
    {
      CallBeforeComplete(left, o, s, e);
    }
  }

  /** Text with a comma is never blank, so each comma typed after the `(`
      moves to the next argument, nested or not. */
  lemma ArgumentIndexCountsCommas(raw: string, more: string)
    ensures ArgumentIndex(raw + "," + more) == Count(raw, ',') + 1 + Count(more, ',')
  {
    var t := raw + "," + more;
    assert t[|raw|] == ',' && !IsSpace(',');
    CountAppend(raw + ",", more, ',');
    CountAppend(raw, ",", ',');
  }

  // ---------------------------------------------------------------------
  // Overload resolution

  function Filter<T>(s: seq<T>, p: T -> bool): (r: seq<T>)
    ensures |r| <= |s|
    ensures forall x | x in r :: x in s && p(x)
  {
    if s == [] then [] else (if p(s[0]) then [s[0]] else []) + Filter(s[1..], p)
  }

  /** Filtering drops nothing that passes. */
  lemma {:induction false} FilterKeepsPassing<T>(s: seq<T>, p: T -> bool)
    ensures forall x | x in s && p(x) :: x in Filter(s, p)
  {
    if s != [] {
      FilterKeepsPassing(s[1..], p);
      assert forall x | x in s :: x == s[0] || x in s[1..];
    }
  }

  /** Filtering keeps the order: filtering a concatenation concatenates
      the filtered parts. */
  lemma {:induction false} FilterAppend<T>(s: seq<T>, t: seq<T>, p: T -> bool)
    ensures Filter(s + t, p) == Filter(s, p) + Filter(t, p)
  {
    if s != [] {
      FilterAppend(s[1..], t, p);
      var head := if p(s[0]) then [s[0]] else [];
      var u := s + t;
      assert Filter(u, p) == head + Filter(s[1..] + t, p) by {
        assert u != [] && u[0] == s[0] && u[1..] == s[1..] + t;
      }
      var a, b := Filter(s[1..], p), Filter(t, p);
      assert head + (a + b) == (head + a) + b;
    } else {
      assert s + t == t;
    }
  }

  /** Searching a filtered list finds the first element of the whole list
      that passes both tests; `i` is its position in the whole list. */
  lemma {:induction false} FindFirstOfFilter<T>(s: seq<T>, p: T -> bool, q: T -> bool) returns (i: nat)
    ensures var k := FindFirst(Filter(s, p), q);
            && (k.None? ==> forall j | 0 <= j < |s| :: !(p(s[j]) && q(s[j])))
            && (k.Some? ==> i < |s| && Filter(s, p)[k.value] == s[i] && p(s[i]) && q(s[i])
                            && forall j | 0 <= j < i :: !(p(s[j]) && q(s[j])))
  {
    if s == [] {
      return 0;
    }
    if p(s[0]) && q(s[0]) {
      assert Filter(s, p) == [s[0]] + Filter(s[1..], p);
      return 0;
    }
    var i' := FindFirstOfFilter(s[1..], p, q);
    i := i' + 1;
    FindFirstFilterStep(s, p, q);
    if FindFirst(Filter(s[1..], p), q).Some? {
      assert s[i] == s[1..][i'];
      NoneBeforeShifted(s, p, q, i');
    } else {
      NoneBeforeShifted(s, p, q, |s| - 1);
    }
  }

  /** No element before `b + 1` passes both tests when the head fails and
      no element of the tail before `b` passes. */
  lemma NoneBeforeShifted<T>(s: seq<T>, p: T -> bool, q: T -> bool, b: nat)
    requires s != [] && b < |s| && !(p(s[0]) && q(s[0]))
    requires forall j | 0 <= j < b :: !(p(s[1..][j]) && q(s[1..][j]))
    ensures forall j | 0 <= j < b + 1 :: !(p(s[j]) && q(s[j]))
  {
    forall j | 0 <= j < b + 1 ensures !(p(s[j]) && q(s[j])) {
      if j > 0 { assert s[j] == s[1..][j - 1]; }
    }
  }

  /** Past a first element that fails either test, the search in the
      filtered list is the search in the filtered tail, shifted by one when
      that element was kept. */
  lemma FindFirstFilterStep<T>(s: seq<T>, p: T -> bool, q: T -> bool)
    requires s != [] && !(p(s[0]) && q(s[0]))
    ensures var k := FindFirst(Filter(s[1..], p), q);
            && (k.Some? ==> FindFirst(Filter(s, p), q) == Some(k.value + (if p(s[0]) then 1 else 0))
                            && Filter(s, p)[k.value + (if p(s[0]) then 1 else 0)] == Filter(s[1..], p)[k.value])
            && (k.None? ==> FindFirst(Filter(s, p), q).None?)
  {
    var rest := Filter(s[1..], p);
    if p(s[0]) {
      assert Filter(s, p) == [s[0]] + rest;
      assert Filter(s, p)[1..] == rest;
    } else {
      assert Filter(s, p) == rest;
    }
  }

  /** The same through two filters, as resolution applies them. */
  lemma FindFirstOfNestedFilter<T>(s: seq<T>, p1: T -> bool, p2: T -> bool, q: T -> bool) returns (i: nat)
    ensures var k := FindFirst(Filter(Filter(s, p1), p2), q);
            && (k.None? ==> forall j | 0 <= j < |s| :: !(p1(s[j]) && p2(s[j]) && q(s[j])))
            && (k.Some? ==> i < |s| && Filter(Filter(s, p1), p2)[k.value] == s[i] && p1(s[i]) && p2(s[i]) && q(s[i])
                            && forall j | 0 <= j < i :: !(p1(s[j]) && p2(s[j]) && q(s[j])))
  {
    var inner := Filter(s, p1);
    var both := (x: T) => p2(x) && q(x);
    var m := FindFirstOfFilter(inner, p2, q);
    i := FindFirstOfFilter(s, p1, both);
    if FindFirst(Filter(inner, p2), q).Some? {
      assert FindFirst(inner, both) == Some(m);
      assert inner[m] == s[i] && p2(s[i]) && q(s[i]);
      forall j | 0 <= j < i ensures !(p1(s[j]) && p2(s[j]) && q(s[j])) {
        assert !(p1(s[j]) && both(s[j]));
      }
    } else {
      assert FindFirst(inner, both).None?;
      forall j | 0 <= j < |s| ensures !(p1(s[j]) && p2(s[j]) && q(s[j])) {
        assert !(p1(s[j]) && both(s[j]));
      }
    }
  }

  function NamedLike(name: string): FunctionDefinition -> bool {
    (f: FunctionDefinition) => SameName(f, name)
  }

  predicate HasArguments(f: FunctionDefinition) { |f.arguments| > 0 }

  predicate HasNoArguments(f: FunctionDefinition) { |f.arguments| == 0 }

  function Covers(argumentIndex: nat): FunctionDefinition -> bool {
    (f: FunctionDefinition) => argumentIndex < |f.arguments|
  }

  predicate Anything(f: FunctionDefinition) { true }

  /** `resolveFunctionDefinition`: among the entries named `name` (case
      ignored), prefer one with an argument at `argumentIndex`, then for
      argument 0 one without arguments, then one with arguments, then any. */
  function ResolveFunctionDefinition(fs: seq<FunctionDefinition>, name: string, argumentIndex: nat)
    : Option<FunctionDefinition>
  {
    var sameName := Filter(fs, NamedLike(name));
    if |sameName| == 0 then None
    else
      var withArguments := Filter(sameName, HasArguments);
      var noArguments := FindFirst(sameName, HasNoArguments);
      var exact := FindFirst(withArguments, Covers(argumentIndex));
      if exact.Some? then Some(withArguments[exact.value])
      else if argumentIndex == 0 && noArguments.Some? then Some(sameName[noArguments.value])
      else if |withArguments| > 0 then Some(withArguments[0])
      else Some(sameName[0])
  }

  /** `i` is the first index of the catalog whose entry is named `name`
      and meets the tier's arity test. */
  predicate FirstExact(fs: seq<FunctionDefinition>, name: string, k: nat, i: nat) {
    i < |fs| && SameName(fs[i], name) && k < |fs[i].arguments|
    && forall j | 0 <= j < i :: !(SameName(fs[j], name) && k < |fs[j].arguments|)
  }

  predicate FirstNoArguments(fs: seq<FunctionDefinition>, name: string, i: nat) {
    i < |fs| && SameName(fs[i], name) && |fs[i].arguments| == 0
    && forall j | 0 <= j < i :: !(SameName(fs[j], name) && |fs[j].arguments| == 0)
  }

  predicate FirstWithArguments(fs: seq<FunctionDefinition>, name: string, i: nat) {
    i < |fs| && SameName(fs[i], name) && |fs[i].arguments| > 0
    && forall j | 0 <= j < i :: !(SameName(fs[j], name) && |fs[j].arguments| > 0)
  }

  predicate FirstSameName(fs: seq<FunctionDefinition>, name: string, i: nat) {
    i < |fs| && SameName(fs[i], name) && forall j | 0 <= j < i :: !SameName(fs[j], name)
  }

  predicate AnyExact(fs: seq<FunctionDefinition>, name: string, k: nat) {
    exists i | 0 <= i < |fs| :: SameName(fs[i], name) && k < |fs[i].arguments|
  }

  predicate AnyNoArguments(fs: seq<FunctionDefinition>, name: string) {
    exists i | 0 <= i < |fs| :: SameName(fs[i], name) && |fs[i].arguments| == 0
  }

  predicate AnyWithArguments(fs: seq<FunctionDefinition>, name: string) {
    exists i | 0 <= i < |fs| :: SameName(fs[i], name) && |fs[i].arguments| > 0
  }

  /** Resolution finds an entry exactly when the catalog has one with the
      requested name, and what it finds carries that name. */
  lemma ResolveFunctionDefinitionFindsName(fs: seq<FunctionDefinition>, name: string, k: nat)
    ensures var r := ResolveFunctionDefinition(fs, name, k);
            && (r.None? <==> forall i | 0 <= i < |fs| :: !SameName(fs[i], name))
            && (r.Some? ==> r.value in fs && SameName(r.value, name))
  {
    var same := NamedLike(name);
    var sameName := Filter(fs, same);
    var withArguments := Filter(sameName, HasArguments);
    var i := FindFirstOfFilter(fs, same, Anything);
    if |sameName| > 0 {
      assert FindFirst(sameName, Anything) == Some(0);
      assert sameName[0] in sameName;
      var noArguments := FindFirst(sameName, HasNoArguments);
      if noArguments.Some? {
        assert sameName[noArguments.value] in sameName;
      }
      var exact := FindFirst(withArguments, Covers(k));
      if exact.Some? {
        assert withArguments[exact.value] in withArguments;
      }
      if |withArguments| > 0 {
        assert withArguments[0] in withArguments;
      }
    }
  }

  /** Tier 1: the first same-name entry with an argument at `k`. */
  lemma ResolveFunctionDefinitionExact(fs: seq<FunctionDefinition>, name: string, k: nat, i: nat)
    requires FirstExact(fs, name, k, i)
    ensures ResolveFunctionDefinition(fs, name, k) == Some(fs[i])
  {
    var inAll := FindFirstOfNestedFilter(fs, NamedLike(name), HasArguments, Covers(k));
    assert NamedLike(name)(fs[i]) && HasArguments(fs[i]) && Covers(k)(fs[i]);
    assert inAll == i;
  }

  /** Tier 2: for argument 0 with no tier-1 entry, the first same-name
      entry without arguments. */
  lemma ResolveFunctionDefinitionNoArguments(fs: seq<FunctionDefinition>, name: string, i: nat)
    requires !AnyExact(fs, name, 0) && FirstNoArguments(fs, name, i)
    ensures ResolveFunctionDefinition(fs, name, 0) == Some(fs[i])
  {
    var same := NamedLike(name);
    var sameName := Filter(fs, same);
    var withArguments := Filter(sameName, HasArguments);
    NoExactMatch(fs, name, 0);
    var inAll := FindFirstOfFilter(fs, same, HasNoArguments);
    assert same(fs[i]) && HasNoArguments(fs[i]);
    assert inAll == i;
  }

  /** Without an entry covering `k`, the tier-1 search finds nothing. */
  lemma NoExactMatch(fs: seq<FunctionDefinition>, name: string, k: nat)
    requires !AnyExact(fs, name, k)
    ensures FindFirst(Filter(Filter(fs, NamedLike(name)), HasArguments), Covers(k)).None?
  {
    var inAll := FindFirstOfNestedFilter(fs, NamedLike(name), HasArguments, Covers(k));
  }

  /** Tier 3: failing tiers 1 and 2, the first same-name entry with
      arguments. */
  lemma ResolveFunctionDefinitionWithArguments(fs: seq<FunctionDefinition>, name: string, k: nat, i: nat)
    requires !AnyExact(fs, name, k) && !(k == 0 && AnyNoArguments(fs, name))
    requires FirstWithArguments(fs, name, i)
    ensures ResolveFunctionDefinition(fs, name, k) == Some(fs[i])
  {
    var same := NamedLike(name);
    NoExactMatch(fs, name, k);
    var noArgs := FindFirstOfFilter(fs, same, HasNoArguments);
    var inAll := FindFirstOfNestedFilter(fs, same, HasArguments, Anything);
    assert same(fs[i]) && HasArguments(fs[i]) && Anything(fs[i]);
    assert inAll == i;
    assert FindFirst(Filter(Filter(fs, same), HasArguments), Anything) == Some(0);
  }

  /** Tier 4: failing the others, the first same-name entry. */
  lemma ResolveFunctionDefinitionFirst(fs: seq<FunctionDefinition>, name: string, k: nat, i: nat)
    requires !AnyExact(fs, name, k) && !(k == 0 && AnyNoArguments(fs, name)) && !AnyWithArguments(fs, name)
    requires FirstSameName(fs, name, i)
    ensures ResolveFunctionDefinition(fs, name, k) == Some(fs[i])
  {
    var same := NamedLike(name);
    NoExactMatch(fs, name, k);
    var noArgs := FindFirstOfFilter(fs, same, HasNoArguments);
    var withArgs := FindFirstOfNestedFilter(fs, same, HasArguments, Anything);
    var inAll := FindFirstOfFilter(fs, same, Anything);
    assert same(fs[i]) && Anything(fs[i]);
    assert inAll == i;
    assert FindFirst(Filter(fs, same), Anything) == Some(0);
  }
}
