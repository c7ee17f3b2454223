/** The demo page around the editor: the validation of an expression before
    it is compiled, and the keyboard selection in the suggestion list. */
module Demo {
  import opened Text
  import opened Model

  // ---------------------------------------------------------------------
  // Validation

  /** The three messages of `getValidationError`, by cause. */
  datatype ValidationError =
    | ReservedCharacter
    | UnbalancedParentheses
    | UnknownFunction(token: string)

  /** Opening minus closing parentheses in `s[..k]`. */
  function Depth(s: string, k: nat): int
    requires k <= |s|
  {
    if k == 0 then 0
    else Depth(s, k - 1) + (if s[k - 1] == '(' then 1 else if s[k - 1] == ')' then -1 else 0)
  }

  /** The depth is the number of `(` minus the number of `)` so far. */
  lemma {:induction false} DepthCounts(s: string, k: nat)
    requires k <= |s|
    ensures Depth(s, k) == Count(s[..k], '(') - Count(s[..k], ')')
  {
    if k > 0 {
      DepthCounts(s, k - 1);
      assert s[..k] == s[..k - 1] + [s[k - 1]];
      CountAppend(s[..k - 1], [s[k - 1]], '(');
      CountAppend(s[..k - 1], [s[k - 1]], ')');
    }
  }

  /** No prefix closes more parentheses than it opens, and the whole text
      closes all it opens. */
  predicate Balanced(s: string) {
    (forall k: nat | k <= |s| :: Depth(s, k) >= 0) && Depth(s, |s|) == 0
  }

  /** Balanced text has as many `(` as `)`. */
  lemma BalancedCounts(s: string)
    requires Balanced(s)
    ensures Count(s, '(') == Count(s, ')')
  {
    DepthCounts(s, |s|);
    assert s[..|s|] == s;
  }

  /** The end of the run of name characters starting at `j`. */
  function NameEnd(s: string, j: nat): (k: nat)
    requires j <= |s|
    ensures j <= k <= |s|
    ensures forall m | j <= m < k :: IsNameChar(s[m])
    ensures k == |s| || !IsNameChar(s[k])
    decreases |s| - j
  {
    if j < |s| && IsNameChar(s[j]) then NameEnd(s, j + 1) else j
  }

  /** `\$[a-zA-Z_][a-zA-Z0-9_]*` matches at `i`. */
  predicate TokenStartAt(s: string, i: nat) {
    i + 1 < |s| && s[i] == '$' && IsNameStart(s[i + 1])
  }

  /** The greedy match starting at `i`. */
  function TokenFrom(s: string, i: nat): string
    requires TokenStartAt(s, i)
  {
    s[i..NameEnd(s, i + 1)]
  }

  /** The global match of the `$name` pattern from `from` on, left to
      right. */
  function FunctionTokens(s: string, from: nat): (r: seq<string>)
    ensures forall t | t in r :: |t| >= 2 && t[0] == '$'
    decreases |s| - from
  {
    if from >= |s| then []
    else if TokenStartAt(s, from) then [TokenFrom(s, from)] + FunctionTokens(s, NameEnd(s, from + 1))
    else FunctionTokens(s, from + 1)
  }

  /** The tokens are exactly the matches: one for every position where the
      pattern can start. */
  lemma {:induction false} FunctionTokensAreMatches(s: string, from: nat, t: string)
    ensures t in FunctionTokens(s, from) <==>
            exists i: nat | from <= i && TokenStartAt(s, i) :: t == TokenFrom(s, i)
    decreases |s| - from
  {
    if from >= |s| {
    } else if TokenStartAt(s, from) {
      var e := NameEnd(s, from + 1);
      FunctionTokensAreMatches(s, e, t);
      forall i: nat | from < i < e ensures !TokenStartAt(s, i) {
        assert IsNameChar(s[i]);
      }
      if t in FunctionTokens(s, from) && t != TokenFrom(s, from) {
        assert t in FunctionTokens(s, e);
      }
    } else {
      FunctionTokensAreMatches(s, from + 1, t);
      if exists i: nat | from <= i && TokenStartAt(s, i) :: t == TokenFrom(s, i) {
        var i: nat :| from <= i && TokenStartAt(s, i) && t == TokenFrom(s, i);
        assert i != from;
      }
    }
  }

  /** The lower-cased names of the catalog. */
  function KnownNames(fs: seq<FunctionDefinition>): set<string> {
    set f | f in fs :: ToLower(f.name)
  }

  /** The first token whose lower-cased name is not in the catalog. */
  function FirstUnknown(tokens: seq<string>, known: set<string>): (r: Option<string>)
    requires forall t | t in tokens :: |t| >= 1
    ensures r.None? <==> forall t | t in tokens :: ToLower(t[1..]) in known
    ensures r.Some? ==> r.value in tokens && ToLower(r.value[1..]) !in known
    ensures r.Some? ==> exists j | 0 <= j < |tokens| :: tokens[j] == r.value
                          && forall m | 0 <= m < j :: ToLower(tokens[m][1..]) in known
  {
    if tokens == [] then None
    else if ToLower(tokens[0][1..]) !in known then Some(tokens[0])
    else
      var r := FirstUnknown(tokens[1..], known);
      assert forall t | t in tokens :: t == tokens[0] || t in tokens[1..];
      if r.Some? then
        var j :| 0 <= j < |tokens[1..]| && tokens[1..][j] == r.value
                 && forall m | 0 <= m < j :: ToLower(tokens[1..][m][1..]) in known;
        assert tokens[j + 1] == r.value;
        assert forall m | 0 <= m < j + 1 :: ToLower(tokens[m][1..]) in known by {
          forall m | 0 <= m < j + 1 ensures ToLower(tokens[m][1..]) in known {
            if m > 0 { assert tokens[m] == tokens[1..][m - 1]; }
          }
        }
        r
      else r
  }

  /** `getValidationError`, with the catalog as a parameter. */
  function ValidationErrorOf(fs: seq<FunctionDefinition>, value: string): Option<ValidationError> {
    if '@' in value then Some(ReservedCharacter)
    else if !Balanced(value) then Some(UnbalancedParentheses)
    else
      match FirstUnknown(FunctionTokens(value, 0), KnownNames(fs))
      case None => None
      case Some(token) => Some(UnknownFunction(token))
  }

  /** An expression is accepted exactly when it has no `@`, balanced
      parentheses and only `$name` calls the catalog knows. */
  lemma ValidIff(fs: seq<FunctionDefinition>, value: string)
    ensures ValidationErrorOf(fs, value).None? <==>
            && '@' !in value
            && Balanced(value)
            && forall i: nat | TokenStartAt(value, i) :: ToLower(TokenFrom(value, i)[1..]) in KnownNames(fs)
  {
    var tokens := FunctionTokens(value, 0);
    forall i: nat | TokenStartAt(value, i) ensures TokenFrom(value, i) in tokens {
      FunctionTokensAreMatches(value, 0, TokenFrom(value, i));
    }
    forall t | t in tokens ensures exists i: nat | TokenStartAt(value, i) :: t == TokenFrom(value, i) {
      FunctionTokensAreMatches(value, 0, t);
    }
  }

  /** The `@` test comes first, unequal parenthesis counts are always
      rejected, and the empty expression is accepted. */
  lemma ValidatorOutcomes(fs: seq<FunctionDefinition>, value: string)
    ensures '@' in value ==> ValidationErrorOf(fs, value) == Some(ReservedCharacter)
    ensures '@' !in value && Count(value, '(') != Count(value, ')') ==>
              ValidationErrorOf(fs, value) == Some(UnbalancedParentheses)
    ensures ValidationErrorOf(fs, "") == None
  {
    if Balanced(value) {
      BalancedCounts(value);
    }
  }

  /** A reported unknown function is a real `$name` match of the text with
      a name the catalog lacks. */
  lemma UnknownFunctionIsMatch(fs: seq<FunctionDefinition>, value: string, token: string)
    requires ValidationErrorOf(fs, value) == Some(UnknownFunction(token))
    ensures '@' !in value && Balanced(value)
    ensures exists i: nat | TokenStartAt(value, i) :: token == TokenFrom(value, i)
    ensures forall f | f in fs :: ToLower(f.name) != ToLower(token[1..])
  {
    FunctionTokensAreMatches(value, 0, token);
  }

  /** `getValidationError` as the page writes it: the reserved-character
      test, the running balance, then the loop over the matched tokens. */
  method GetValidationError(fs: seq<FunctionDefinition>, value: string) returns (r: Option<ValidationError>)
    ensures r == ValidationErrorOf(fs, value)
  {
    if '@' in value {
      return Some(ReservedCharacter);
    }
    var balance := 0;
    var i := 0;
    while i < |value|
      invariant i <= |value|
      invariant balance == Depth(value, i)
      invariant forall k: nat | k <= i :: Depth(value, k) >= 0
    {
      var c := value[i];
      if c == '(' {
        balance := balance + 1;
      }
      if c == ')' {
        balance := balance - 1;
      }
      i := i + 1;
      if balance < 0 {
        return Some(UnbalancedParentheses);
      }
    }
    if balance != 0 {
      return Some(UnbalancedParentheses);
    }
    var functionTokens := FunctionTokens(value, 0);
    var knownFunctionNames := KnownNames(fs);
    var j := 0;
    while j < |functionTokens|
      invariant j <= |functionTokens|
      invariant forall m | 0 <= m < j :: ToLower(functionTokens[m][1..]) in knownFunctionNames
    {
      var token := functionTokens[j];
      assert token in functionTokens;
      if ToLower(token[1..]) !in knownFunctionNames {
        FirstUnknownIsFirst(functionTokens, knownFunctionNames, j);
        return Some(UnknownFunction(token));
      }
      j := j + 1;
    }
    return None;
  }

  /** The first token failing the lookup is the one reported. */
  lemma FirstUnknownIsFirst(tokens: seq<string>, known: set<string>, j: nat)
    requires forall t | t in tokens :: |t| >= 1
    requires j < |tokens| && ToLower(tokens[j][1..]) !in known
    requires forall m | 0 <= m < j :: ToLower(tokens[m][1..]) in known
    ensures FirstUnknown(tokens, known) == Some(tokens[j])
  {
    var r := FirstUnknown(tokens, known);
    assert tokens[j] in tokens;
    var k :| 0 <= k < |tokens| && tokens[k] == r.value && forall m | 0 <= m < k :: ToLower(tokens[m][1..]) in known;
    if k < j {
      assert ToLower(tokens[k][1..]) in known;
    }
  }

  // ---------------------------------------------------------------------
  // Keyboard selection in the suggestion list

  /** JavaScript's `%`: the remainder of the division truncated toward
      zero, so it takes the sign of the dividend. Written as repeated
      subtraction of the divisor. */
  function JsRemainder(a: int, n: int): (r: int)
    requires n > 0
    ensures a >= 0 ==> 0 <= r < n
    ensures a < 0 ==> -n < r <= 0
    ensures -n < a < n ==> r == a
    decreases if a < 0 then -a else a
  {
    if a >= n then JsRemainder(a - n, n)
    else if a <= -n then JsRemainder(a + n, n)
    else a
  }

  /** The remainder differs from the dividend by a multiple of the
      divisor; with the sign and bound above this fixes its value. */
  lemma {:induction false} JsRemainderCongruent(a: int, n: int) returns (q: int)
    requires n > 0
    ensures a == q * n + JsRemainder(a, n)
    decreases if a < 0 then -a else a
  {
    if a >= n {
      var q' := JsRemainderCongruent(a - n, n);
      q := q' + 1;
      MultipleStep(q', n);
    } else if a <= -n {
      var q' := JsRemainderCongruent(a + n, n);
      q := q' - 1;
      MultipleStep(q, n);
    } else {
      q := 0;
    }
  }

  lemma MultipleStep(q: int, n: int)
    ensures (q + 1) * n == q * n + n
  {
  }

  /** ArrowDown: `(selected + 1) % length`. */
  function NextIndex(selected: int, count: nat): int
    requires count > 0
  {
    JsRemainder(selected + 1, count)
  }

  /** ArrowUp: to the last entry from the first one or from none, else one
      up. */
  function PrevIndex(selected: int, count: nat): int
    requires count > 0
  {
    if selected <= 0 then count - 1 else selected - 1
  }

  /** From no selection or a selection in the list, both keys select an
      entry of the list. */
  lemma ArrowsStayInList(selected: int, count: nat)
    requires count > 0 && -1 <= selected < count
    ensures 0 <= NextIndex(selected, count) < count
    ensures 0 <= PrevIndex(selected, count) < count
    ensures selected == -1 ==> NextIndex(selected, count) == 0 && PrevIndex(selected, count) == count - 1
  {
  }

  /** The keys walk the list cyclically: down then up, or up then down,
      returns to the same entry. */
  lemma ArrowsAreInverse(selected: int, count: nat)
    requires count > 0 && 0 <= selected < count
    ensures PrevIndex(NextIndex(selected, count), count) == selected
    ensures NextIndex(PrevIndex(selected, count), count) == selected
  {
    if selected + 1 == count {
      assert NextIndex(selected, count) == 0;
    } else {
      assert NextIndex(selected, count) == selected + 1;
    }
    if selected == 0 {
      assert NextIndex(count - 1, count) == 0;
    }
  }

  /** Inside the list ArrowDown moves one down and wraps at the end. */
  lemma NextIndexInList(selected: int, count: nat)
    requires count > 0 && 0 <= selected < count
    ensures NextIndex(selected, count) == if selected + 1 < count then selected + 1 else 0
  {
  }

  /** `presses` presses of ArrowDown move that far down the list, cyclically;
      `count` presses come back to the start. */
  lemma {:induction false} ArrowDownCycles(selected: int, count: nat, presses: nat)
    requires count > 0 && 0 <= selected < count && presses <= count
    ensures Pressed(selected, count, presses)
            == if selected + presses < count then selected + presses else selected + presses - count
    decreases presses
  {
    if presses > 0 {
      ArrowDownCycles(selected, count, presses - 1);
      NextIndexInList(Pressed(selected, count, presses - 1), count);
    }
  }

  /** The selection after `presses` ArrowDown presses. */
  function Pressed(selected: int, count: nat, presses: nat): int
    requires count > 0
    decreases presses
  {
    if presses == 0 then selected else NextIndex(Pressed(selected, count, presses - 1), count)
  }

  /** A list that shrinks under a selection: ArrowUp moves one up without
      wrapping, so it lands in the list only from just past its end. */
  lemma ArrowUpAfterShrink(selected: int, count: nat)
    requires count > 0 && selected >= count
    ensures PrevIndex(selected, count) == selected - 1
    ensures PrevIndex(selected, count) < count <==> selected == count
  {
  }

  /** A list that shrinks under a selection brings ArrowDown back into
      it: the index wraps by whole multiples of the new length. */
  lemma ArrowDownAfterShrink(selected: int, count: nat) returns (q: int)
    requires count > 0 && selected >= count
    ensures 0 <= NextIndex(selected, count) < count
    ensures selected + 1 == q * count + NextIndex(selected, count)
    ensures q >= 1
  {
    q := JsRemainderCongruent(selected + 1, count);
  }

  /** The page's selected index: `-1` for none. */
  class SuggestionSelection {
    var selectedIndex: int

    constructor()
      ensures selectedIndex == -1
    {
      selectedIndex := -1;
    }

    /** Typing and hiding the list clear the selection. */
    method Reset()
      modifies this
      ensures selectedIndex == -1
    {
      selectedIndex := -1;
    }

    /** ArrowDown with `count` suggestions shown; without any the key is
        ignored. */
    method ArrowDown(count: nat)
      modifies this
      ensures count == 0 ==> selectedIndex == old(selectedIndex)
      ensures count > 0 ==> selectedIndex == NextIndex(old(selectedIndex), count)
    {
      if count == 0 {
        return;
      }
      selectedIndex := JsRemainder(selectedIndex + 1, count);
    }

    /** ArrowUp with `count` suggestions shown; without any the key is
        ignored. */
    method ArrowUp(count: nat)
      modifies this
      ensures count == 0 ==> selectedIndex == old(selectedIndex)
      ensures count > 0 ==> selectedIndex == PrevIndex(old(selectedIndex), count)
    {
      if count == 0 {
        return;
      }
      selectedIndex := if selectedIndex <= 0 then count - 1 else selectedIndex - 1;
    }
  }
}
