/** The non-regex part of src/Tokenizer.js: input validation, the early
    return of `_tokenize`, and `groupTokens`, which folds the named groups of
    a list of matches into one object of value lists. */
module Tokenizer {
  import opened Wrappers
  import opened Js

  // ---------------------------------------------------------------------------
  // Validation

  /** Why `_validateInput` throws. */
  datatype ValidationError = NotAString(input: JsValue) | EmptyString

  /** `_validateInput(input)`: anything that is not a string throws; among
      strings exactly `''` and `' '` are refused. (The `undefined` and `null`
      tests of the second guard can never fire: those values already fail
      the first.) */
  function ValidateInput(input: JsValue): (r: Outcome<ValidationError>)
    ensures r.Pass? <==> input.Str? && input.s != "" && input.s != " "
    ensures r.Fail? && !input.Str? ==> r.error == NotAString(input)
    ensures r.Fail? && input.Str? ==> r.error == EmptyString
  {
    if !input.Str? then Fail(NotAString(input))
    else if input == Undefined || input.s == " " || input.s == "" || input == Null then Fail(EmptyString)
    else Pass
  }

  /** Only the two short strings are refused: a string of two spaces, or
      any other non-empty string, passes. */
  lemma ValidateBlankStrings()
    ensures ValidateInput(Str("  ")).Pass?
    ensures ValidateInput(Str(" ")).Fail? && ValidateInput(Str("")).Fail?
    ensures ValidateInput(Undefined) == Fail(NotAString(Undefined))
  {
  }

  /** Why `_tokenize` throws after validation: `match` found nothing and
      returned `null`, which the array spread cannot iterate (a TypeError). */
  datatype TokenizeError = NullNotIterable

  /** `_tokenize(input, regex, all)`: `undefined` without touching the
      regular expression when validation fails; otherwise the matches. The
      two matchers (`matchAll` and `match` with the tokenizer's expression)
      are passed in; `matchOnce` gives `None` where `match` gives `null`. */
  function Tokenize<R>(input: JsValue, all: bool, matchAll: string -> R, matchOnce: string -> Option<R>): (r: Result<Option<R>, TokenizeError>)
    ensures (r.Success? && r.value.None?) <==> ValidateInput(input).Fail?
    ensures r.Failure? <==> ValidateInput(input).Pass? && !all && matchOnce(input.s).None?
    ensures r.Success? && r.value.Some? ==> input.Str?
    ensures r.Success? && r.value.Some? && all ==> r.value.value == matchAll(input.s)
    ensures r.Success? && r.value.Some? && !all ==> matchOnce(input.s) == Some(r.value.value)
  {
    match ValidateInput(input)
    case Fail(_) => Success(None)
    case Pass =>
      if all then Success(Some(matchAll(input.s)))
      else match matchOnce(input.s)
        case None => Failure(NullNotIterable)
        case Some(m) => Success(Some(m))
  }

  // ---------------------------------------------------------------------------
  // groupTokens

  /** One named group of a match and the value it captured. */
  datatype Group = Group(name: string, value: JsValue)

  /** A match as `tokenizeGroups` records it; `groups` lists
      `Object.entries(token.groups)` in order. */
  datatype Token = Token(text: string, groups: seq<Group>)

  /** The object `groupTokens` builds: group name to captured values. */
  type Grouped = map<string, seq<JsValue>>

  /** The truthy values captured under `name` in `gs`, in order. */
  function GroupValues(gs: seq<Group>, name: string): seq<JsValue> {
    if |gs| == 0 then []
    else
      var g := gs[|gs| - 1];
      GroupValues(gs[..|gs| - 1], name) + if g.name == name && Truthy(g.value) then [g.value] else []
  }

  /** The truthy values captured under `name` across `tokens`, in token
      order. */
  function Values(tokens: seq<Token>, name: string): seq<JsValue> {
    if |tokens| == 0 then []
    else Values(tokens[..|tokens| - 1], name) + GroupValues(tokens[|tokens| - 1].groups, name)
  }

  /** A truthy value is captured under a name a plain object inherits from
      `Object.prototype`: `groups[k]` then reads a function or the prototype,
      which is truthy and cannot be spread, so the fold throws a TypeError. */
  predicate Poisoned(g: Group) {
    Truthy(g.value) && g.name in ObjectPrototypeNames
  }

  predicate AnyPoisoned(tokens: seq<Token>) {
    exists i, j :: 0 <= i < |tokens| && 0 <= j < |tokens[i].groups| && Poisoned(tokens[i].groups[j])
  }

  /** The fold agrees with the reference values of `tokens[..i]` followed by
      the groups `gs` of token `i`. */
  ghost predicate Agrees(acc: Grouped, tokens: seq<Token>, gs: seq<Group>) {
    forall k :: (k in acc <==> |Values(tokens, k) + GroupValues(gs, k)| > 0)
             && (k in acc ==> acc[k] == Values(tokens, k) + GroupValues(gs, k))
  }

  /** One step of the inner loop of `groupTokens` on a group that does not
      throw: a truthy value is appended to the list under its name (created
      empty on first use); a falsy one changes nothing. */
  function Put(acc: Grouped, g: Group): Grouped {
    if Truthy(g.value) then acc[g.name := (if g.name in acc then acc[g.name] else []) + [g.value]]
    else acc
  }

  lemma AgreesPut(acc: Grouped, tokens: seq<Token>, gs: seq<Group>, j: nat)
    requires j < |gs| && Agrees(acc, tokens, gs[..j])
    ensures Agrees(Put(acc, gs[j]), tokens, gs[..j + 1])
  {
    assert gs[..j + 1][..j] == gs[..j];
    forall k
      ensures GroupValues(gs[..j + 1], k)
           == GroupValues(gs[..j], k) + if gs[j].name == k && Truthy(gs[j].value) then [gs[j].value] else []
    {
    }
  }

  lemma AgreesNextToken(acc: Grouped, tokens: seq<Token>, i: nat)
    requires i < |tokens| && Agrees(acc, tokens[..i], tokens[i].groups)
    ensures Agrees(acc, tokens[..i + 1], [])
  {
    assert tokens[..i + 1][..i] == tokens[..i];
    assert tokens[..i + 1][i] == tokens[i];
  }

  lemma AgreesWhole(acc: Grouped, tokens: seq<Token>)
    requires Agrees(acc, tokens, [])
    ensures forall k :: (k in acc <==> |Values(tokens, k)| > 0) && (k in acc ==> acc[k] == Values(tokens, k))
  {
    forall k
      ensures Values(tokens, k) + GroupValues([], k) == Values(tokens, k)
    {
    }
  }

  /** The inner `forEach` of `groupTokens` on token `i`, given the object
      built from the tokens before it. */
  method GroupToken(acc: Grouped, tokens: seq<Token>, i: nat) returns (r: Result<Grouped, string>)
    requires i < |tokens| && Agrees(acc, tokens[..i], [])
    ensures r.Failure? <==> exists j :: 0 <= j < |tokens[i].groups| && Poisoned(tokens[i].groups[j])
    ensures r.Failure? ==> r.error in ObjectPrototypeNames
    ensures r.Success? ==> Agrees(r.value, tokens[..i + 1], [])
  {
    var gs := tokens[i].groups;
    var cur := acc;
    var j := 0;
    assert gs[..0] == [];
    hide Agrees;
    while j < |gs|
      invariant 0 <= j <= |gs|
      invariant Agrees(cur, tokens[..i], gs[..j])
      invariant forall j' :: 0 <= j' < j ==> !Poisoned(gs[j'])
    {
      var g := gs[j];
      if Truthy(g.value) && g.name in ObjectPrototypeNames {
        assert Poisoned(gs[j]);
        return Failure(g.name);
      }
      AgreesPut(cur, tokens[..i], gs, j);
      cur := Put(cur, g);
      j := j + 1;
    }
    assert gs[..j] == gs;
    AgreesNextToken(cur, tokens, i);
    return Success(cur);
  }

  /** `groupTokens(tokens)`: the TypeError carries the offending name. */
  method GroupTokens(tokens: seq<Token>) returns (r: Result<Grouped, string>)
    ensures r.Failure? <==> AnyPoisoned(tokens)
    ensures r.Failure? ==> r.error in ObjectPrototypeNames
    ensures r.Success? ==> forall k :: (k in r.value <==> |Values(tokens, k)| > 0)
                                    && (k in r.value ==> r.value[k] == Values(tokens, k))
  {
    var acc: Grouped := map[];
    var i := 0;
    assert Agrees(acc, tokens[..0], []);
    hide Agrees;
    while i < |tokens|
      invariant 0 <= i <= |tokens|
      invariant Agrees(acc, tokens[..i], [])
      invariant forall i', j :: 0 <= i' < i && 0 <= j < |tokens[i'].groups| ==> !Poisoned(tokens[i'].groups[j])
    {
      var step := GroupToken(acc, tokens, i);
      if step.Failure? {
        return step;
      }
      acc := step.value;
      i := i + 1;
    }
    assert tokens[..i] == tokens;
    AgreesWhole(acc, tokens);
    return Success(acc);
  }

  /** When no match carries a name twice (as object entries never do), the
      list under `name` has one value per match that captured a truthy
      value under it. */
  function Capturing(tokens: seq<Token>, name: string): nat {
    if |tokens| == 0 then 0
    else
      var gs := tokens[|tokens| - 1].groups;
      Capturing(tokens[..|tokens| - 1], name)
        + if exists j :: 0 <= j < |gs| && gs[j].name == name && Truthy(gs[j].value) then 1 else 0
  }

  predicate DistinctNames(gs: seq<Group>) {
    forall a, b :: 0 <= a < b < |gs| ==> gs[a].name != gs[b].name
  }

  lemma {:induction false} GroupValuesOfDistinct(gs: seq<Group>, name: string)
    requires DistinctNames(gs)
    ensures |GroupValues(gs, name)| == if exists j :: 0 <= j < |gs| && gs[j].name == name && Truthy(gs[j].value) then 1 else 0
    ensures |GroupValues(gs, name)| == 0 <==> forall j :: 0 <= j < |gs| && gs[j].name == name ==> !Truthy(gs[j].value)
  {
    if |gs| > 0 {
      var init := gs[..|gs| - 1];
      assert DistinctNames(init);
      GroupValuesOfDistinct(init, name);
      forall j | 0 <= j < |init|
        ensures init[j] == gs[j]
      {
      }
    }
  }

  lemma {:induction false} ValuesCountCapturing(tokens: seq<Token>, name: string)
    requires forall i :: 0 <= i < |tokens| ==> DistinctNames(tokens[i].groups)
    ensures |Values(tokens, name)| == Capturing(tokens, name)
  {
    if |tokens| > 0 {
      ValuesCountCapturing(tokens[..|tokens| - 1], name);
      GroupValuesOfDistinct(tokens[|tokens| - 1].groups, name);
    }
  }

  /** No tokens, no groups: the result is the empty object. */
  method GroupNoTokens() returns (r: Result<Grouped, string>)
    ensures r == Success(map[])
  {
    r := GroupTokens([]);
    assert !AnyPoisoned([]);
    if r.Success? {
      assert forall k :: |Values([], k)| == 0;
      assert r.value.Keys == {};
    }
  }
}
