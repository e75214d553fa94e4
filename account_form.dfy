/**
 * `AppSetupCommand::askAccountForm`: one prompt per configured account field,
 * each retried until the validator accepts its value, with the password
 * confirmation loop, the `required`/`rules` defaults and the multisearch filter.
 *
 * What a prompt returns is the next element of a finite answer stream, and the
 * Laravel validator is the parameter `valid(key, value, rules)`. A loop that
 * would wait for more answers than the stream holds ends in `OutOfInput`; a
 * loop that repeats without ever reading an answer ends in `Hangs`.
 */
module AccountForm {
  import opened Wrappers
  import opened Strings

  /** A PHP value a prompt can return: `null`, a string, or a list of strings. */
  datatype Value = Null | Str(s: string) | List(items: seq<string>)

  /** The `type` entries the form distinguishes; anything else reaches no prompt. */
  datatype FieldType = Text | Email | Textarea | Password | Confirm | Select | Multiselect | Multisearch | Unrecognized

  function ParseType(name: string): FieldType {
    if name == "text" then Text
    else if name == "email" then Email
    else if name == "textarea" then Textarea
    else if name == "password" then Password
    else if name == "confirm" then Confirm
    else if name == "select" then Select
    else if name == "multiselect" then Multiselect
    else if name == "multisearch" then Multisearch
    else Unrecognized
  }

  /**
   * One entry of `install.account`. `required` and `rules` may be missing
   * (`None`); `matchKey` is read only by confirm fields.
   */
  datatype Field = Field(typeName: string, key: string, required: Option<bool>, rules: Option<string>, options: seq<string>, matchKey: string)

  /** The validator: does `value` under `key` pass `rules`? */
  type Validator = (string, Value, string) -> bool

  /** `$field['required'] ?? false`. */
  function EffectiveRequired(f: Field): (r: bool)
    ensures r <==> f.required == Some(true)
  {
    f.required.GetOr(false)
  }

  /** `$field['rules'] ?? ($required ? 'required' : 'nullable')`. */
  function EffectiveRules(f: Field): (r: string)
    ensures f.rules.Some? ==> r == f.rules.value
    ensures f.rules.None? ==> (r == "required" <==> f.required == Some(true))
    ensures f.rules.None? ==> (r == "nullable" <==> f.required != Some(true))
  {
    match f.rules
    case Some(given) => given
    case None => if EffectiveRequired(f) then "required" else "nullable"
  }

  // ---------------------------------------------------------------------------
  // The multisearch options closure
  // ---------------------------------------------------------------------------

  /** The options whose text contains `search`, ignoring ASCII case, with their original keys, from index `i` on. */
  function FilterFrom(options: seq<string>, search: string, i: nat): (r: seq<(nat, string)>)
    requires i <= |options|
    decreases |options| - i
  {
    if i == |options| then []
    else if StrIPos(options[i], search).Some? then [(i, options[i])] + FilterFrom(options, search, i + 1)
    else FilterFrom(options, search, i + 1)
  }

  /** The multisearch `options` closure: every option for an empty search, else those that contain it, keys kept. */
  function SearchOptions(options: seq<string>, search: string): seq<(nat, string)> {
    if search == "" then seq(|options|, k requires 0 <= k < |options| => (k, options[k]))
    else FilterFrom(options, search, 0)
  }

  lemma {:induction false} FilterFromSpec(options: seq<string>, search: string, i: nat)
    requires i <= |options|
    ensures var r := FilterFrom(options, search, i);
      && (forall p :: 0 <= p < |r| ==> i <= r[p].0 < |options| && r[p].1 == options[r[p].0])
      && (forall p, q :: 0 <= p < q < |r| ==> r[p].0 < r[q].0)
      && (forall k :: i <= k < |options| ==> ((k, options[k]) in r <==> StrIPos(options[k], search).Some?))
    decreases |options| - i
  {
    if i < |options| {
      FilterFromSpec(options, search, i + 1);
    }
  }

  /**
   * What the closure returns: entries `(k, options[k])` in increasing key
   * order, and an option is listed exactly when it contains the search text.
   */
  lemma SearchOptionsSpec(options: seq<string>, search: string)
    ensures var r := SearchOptions(options, search);
      && (forall p :: 0 <= p < |r| ==> r[p].0 < |options| && r[p].1 == options[r[p].0])
      && (forall p, q :: 0 <= p < q < |r| ==> r[p].0 < r[q].0)
      && (forall k :: 0 <= k < |options| ==> ((k, options[k]) in r <==> StrIPos(options[k], search).Some?))
  {
    FilterFromSpec(options, search, 0);
    if search == "" {
      EmptySearchIsFilter(options, 0);
      assert SearchOptions(options, search) == FilterFrom(options, "", 0);
    }
  }

  /** The empty-search shortcut returns what the filter would: `stripos` finds the empty string at 0. */
  lemma {:induction false} EmptySearchIsFilter(options: seq<string>, i: nat)
    requires i <= |options|
    ensures FilterFrom(options, "", i) == seq(|options| - i, k requires 0 <= k < |options| - i => (i + k, options[i + k]))
    decreases |options| - i
  {
    if i < |options| {
      EmptySearchIsFilter(options, i + 1);
      assert StrIPos(options[i], "") == Some(0) by {
        assert MatchesAt(options[i], "", 0);
      }
    }
  }

  // ---------------------------------------------------------------------------
  // One field: prompt, validate, retry
  // ---------------------------------------------------------------------------

  /** What one pass of a prompt yields: the value and the answers left, or nothing when the answers run out. */
  datatype Prompted = Answered(value: Value, rest: seq<Value>) | Exhausted

  /** `isset($data[$key])`: present and not `null`. */
  predicate IsSet(data: map<string, Value>, key: string) {
    key in data && data[key] != Null
  }

  /** The inner confirmation loop: re-prompt until an answer is identical to `data[matchKey]`. */
  function ConfirmLoop(data: map<string, Value>, matchKey: string, input: seq<Value>): (r: Prompted)
    ensures r.Answered? ==> |r.rest| < |input|
    decreases |input|
  {
    if input == [] then Exhausted
    else if IsSet(data, matchKey) && input[0] == data[matchKey] then Answered(input[0], input[1..])
    else ConfirmLoop(data, matchKey, input[1..])
  }

  /** One pass of the prompt chain for field `f`: an unrecognized type prompts for nothing and yields `null`. */
  function PromptOnce(f: Field, data: map<string, Value>, input: seq<Value>): (r: Prompted)
    ensures r.Answered? ==> |r.rest| <= |input|
    ensures r.Answered? && ParseType(f.typeName) != Unrecognized ==> |r.rest| < |input|
  {
    match ParseType(f.typeName)
    case Unrecognized => Answered(Null, input)
    case Confirm => ConfirmLoop(data, f.matchKey, input)
    case _ => if input == [] then Exhausted else Answered(input[0], input[1..])
  }

  datatype FieldOutcome = Accepted(value: Value, rest: seq<Value>) | OutOfInput | Hangs

  /** The retry loop of one field: prompt again while the validator fails. */
  function AskField(f: Field, data: map<string, Value>, input: seq<Value>, valid: Validator): FieldOutcome
    decreases |input|
  {
    match PromptOnce(f, data, input)
    case Exhausted => OutOfInput
    case Answered(v, rest) =>
      if valid(f.key, v, EffectiveRules(f)) then Accepted(v, rest)
      else if |rest| < |input| then AskField(f, data, rest, valid)
      else Hangs
  }

  // ---------------------------------------------------------------------------
  // The whole form
  // ---------------------------------------------------------------------------

  datatype FormOutcome = Completed(data: map<string, Value>, rest: seq<Value>) | FormOutOfInput | FormHangs

  /** The form from field `i` on, with the answers collected so far in `data`. */
  function RunFrom(fields: seq<Field>, i: nat, data: map<string, Value>, input: seq<Value>, valid: Validator): FormOutcome
    requires i <= |fields|
    decreases |fields| - i
  {
    if i == |fields| then Completed(data, input)
    else match AskField(fields[i], data, input, valid)
      case Accepted(v, rest) => RunFrom(fields, i + 1, data[fields[i].key := v], rest, valid)
      case OutOfInput => FormOutOfInput
      case Hangs => FormHangs
  }

  /** `askAccountForm()`, given the configured fields, the answers the prompts return and the validator. */
  method AskAccountForm(fields: seq<Field>, answers: seq<Value>, valid: Validator) returns (outcome: FormOutcome)
    ensures outcome == RunFrom(fields, 0, map[], answers, valid)
  {
    var data: map<string, Value> := map[];
    var input := answers;
    for i := 0 to |fields|
      invariant RunFrom(fields, i, data, input, valid) == RunFrom(fields, 0, map[], answers, valid)
    {
      var field := fields[i];
      var kind := ParseType(field.typeName);
      var rules := EffectiveRules(field);
      var value := Null;
      ghost var start := input;
      var accepted := false;
      while !accepted
        invariant kind == Unrecognized ==> value == Null
        invariant accepted ==> AskField(field, data, start, valid) == Accepted(value, input)
        invariant !accepted ==> AskField(field, data, start, valid) == AskField(field, data, input, valid)
        decreases |input| + (if accepted then 0 else 1)
      {
        ghost var before := input;
        if kind == Confirm {
          var matched := false;
          while !matched
            invariant |input| <= |before|
            invariant matched ==> |input| < |before| && ConfirmLoop(data, field.matchKey, before) == Answered(value, input)
            invariant !matched ==> ConfirmLoop(data, field.matchKey, before) == ConfirmLoop(data, field.matchKey, input)
            decreases |input| + (if matched then 0 else 1)
          {
            if input == [] {
              return FormOutOfInput;
            }
            var confirmValue := input[0];
            input := input[1..];
            if !(field.matchKey in data && data[field.matchKey] != Null) {
              continue;
            }
            if confirmValue != data[field.matchKey] {
              continue;
            }
            value := confirmValue;
            matched := true;
          }
        } else if kind != Unrecognized {
          if input == [] {
            return FormOutOfInput;
          }
          value := input[0];
          input := input[1..];
        }
        assert PromptOnce(field, data, before) == Answered(value, input);
        if valid(field.key, value, rules) {
          accepted := true;
        } else if kind == Unrecognized {
          return FormHangs;
        }
      }
      data := data[field.key := value];
    }
    outcome := Completed(data, input);
  }

  // ---------------------------------------------------------------------------
  // Properties
  // ---------------------------------------------------------------------------

  /** The confirmation loop runs out of answers exactly when the value it confirms is unset or never given. */
  lemma {:induction false} ConfirmExhausted(data: map<string, Value>, matchKey: string, input: seq<Value>)
    ensures ConfirmLoop(data, matchKey, input).Exhausted? <==> !IsSet(data, matchKey) || data[matchKey] !in input
    decreases |input|
  {
    if input != [] {
      ConfirmExhausted(data, matchKey, input[1..]);
      assert input == [input[0]] + input[1..];
    }
  }

  /**
   * The confirmation loop ends on the first answer identical to the value
   * it confirms, and only when that value is set; otherwise it consumes
   * every answer.
   */
  lemma {:induction false} ConfirmTakesFirstMatch(data: map<string, Value>, matchKey: string, input: seq<Value>)
    ensures ConfirmLoop(data, matchKey, input).Exhausted? <==> !IsSet(data, matchKey) || data[matchKey] !in input
    ensures ConfirmLoop(data, matchKey, input).Answered? ==>
      exists j :: 0 <= j < |input| && input[j] == data[matchKey]
        && (forall q :: 0 <= q < j ==> input[q] != data[matchKey])
        && ConfirmLoop(data, matchKey, input) == Answered(data[matchKey], input[j + 1..])
    decreases |input|
  {
    ConfirmExhausted(data, matchKey, input);
    if input != [] {
      ConfirmTakesFirstMatch(data, matchKey, input[1..]);
      if IsSet(data, matchKey) && input[0] == data[matchKey] {
        assert ConfirmLoop(data, matchKey, input) == Answered(data[matchKey], input[0 + 1..]);
      } else if ConfirmLoop(data, matchKey, input).Answered? {
        var j :| 0 <= j < |input[1..]| && input[1..][j] == data[matchKey]
          && (forall q :: 0 <= q < j ==> input[1..][q] != data[matchKey])
          && ConfirmLoop(data, matchKey, input[1..]) == Answered(data[matchKey], input[1..][j + 1..]);
        assert input[1..][j + 1..] == input[j + 2..];
        assert input[j + 1] == data[matchKey];
      }
    }
  }

  /** Every value a field's loop accepts has passed the validator. */
  lemma {:induction false} AcceptedIsValid(f: Field, data: map<string, Value>, input: seq<Value>, valid: Validator)
    ensures AskField(f, data, input, valid).Accepted? ==>
      valid(f.key, AskField(f, data, input, valid).value, EffectiveRules(f))
    decreases |input|
  {
    match PromptOnce(f, data, input)
    case Exhausted =>
    case Answered(v, rest) =>
      if !valid(f.key, v, EffectiveRules(f)) && |rest| < |input| {
        AcceptedIsValid(f, data, rest, valid);
      }
  }

  /** A field that prompts once per pass takes the first answer the validator accepts, and runs out of answers if none passes. */
  lemma {:induction false} PromptingFieldTakesFirstValid(f: Field, data: map<string, Value>, input: seq<Value>, valid: Validator)
    requires ParseType(f.typeName) !in {Confirm, Unrecognized}
    ensures AskField(f, data, input, valid).Accepted? <==>
      exists j :: 0 <= j < |input| && valid(f.key, input[j], EffectiveRules(f))
    ensures !AskField(f, data, input, valid).Hangs?
    ensures AskField(f, data, input, valid).Accepted? ==>
      exists j :: 0 <= j < |input| && valid(f.key, input[j], EffectiveRules(f))
        && (forall q :: 0 <= q < j ==> !valid(f.key, input[q], EffectiveRules(f)))
        && AskField(f, data, input, valid) == Accepted(input[j], input[j + 1..])
    decreases |input|
  {
    if input != [] {
      assert PromptOnce(f, data, input) == Answered(input[0], input[1..]);
      PromptingFieldTakesFirstValid(f, data, input[1..], valid);
      if valid(f.key, input[0], EffectiveRules(f)) {
        assert AskField(f, data, input, valid) == Accepted(input[0], input[1..]);
      } else {
        assert AskField(f, data, input, valid) == AskField(f, data, input[1..], valid);
        if AskField(f, data, input, valid).Accepted? {
          var j :| 0 <= j < |input[1..]| && valid(f.key, input[1..][j], EffectiveRules(f))
            && (forall q :: 0 <= q < j ==> !valid(f.key, input[1..][q], EffectiveRules(f)))
            && AskField(f, data, input[1..], valid) == Accepted(input[1..][j], input[1..][j + 1..]);
          assert input[1..][j + 1..] == input[j + 2..];
          assert valid(f.key, input[j + 1], EffectiveRules(f));
        } else {
          forall j | 0 <= j < |input|
            ensures !valid(f.key, input[j], EffectiveRules(f))
          {
            if j > 0 {
              assert input[j] == input[1..][j - 1];
            }
          }
        }
      }
    }
  }

  /**
   * A confirmation whose match value is not set is never accepted: the
   * field prompts until the answers run out.
   */
  lemma ConfirmWithoutMatchNeverEnds(f: Field, data: map<string, Value>, input: seq<Value>, valid: Validator)
    requires ParseType(f.typeName) == Confirm
    requires !IsSet(data, f.matchKey)
    ensures AskField(f, data, input, valid) == OutOfInput
  {
    ConfirmTakesFirstMatch(data, f.matchKey, input);
  }

  /** An accepted confirmation equals the value it confirms, which was set. */
  lemma {:induction false} ConfirmedEqualsMatch(f: Field, data: map<string, Value>, input: seq<Value>, valid: Validator)
    requires ParseType(f.typeName) == Confirm
    ensures AskField(f, data, input, valid).Accepted? ==>
      IsSet(data, f.matchKey) && AskField(f, data, input, valid).value == data[f.matchKey]
    decreases |input|
  {
    ConfirmTakesFirstMatch(data, f.matchKey, input);
    match PromptOnce(f, data, input)
    case Exhausted =>
    case Answered(v, rest) =>
      if !valid(f.key, v, EffectiveRules(f)) && |rest| < |input| {
        ConfirmedEqualsMatch(f, data, rest, valid);
      }
  }

  /** A field of unrecognized type stores `null` at once when `null` passes, and otherwise loops without end. */
  lemma UnrecognizedFieldIsNull(f: Field, data: map<string, Value>, input: seq<Value>, valid: Validator)
    requires ParseType(f.typeName) == Unrecognized
    ensures AskField(f, data, input, valid) ==
      if valid(f.key, Null, EffectiveRules(f)) then Accepted(Null, input) else Hangs
  {
  }

  /** `key` is assigned by none of `fields[i..]`. */
  predicate NotAssignedFrom(fields: seq<Field>, i: nat, key: string) {
    forall q :: i <= q < |fields| ==> fields[q].key != key
  }

  /** The answers collected by field `i` of a form that goes on from there. */
  function After(fields: seq<Field>, i: nat, data: map<string, Value>, input: seq<Value>, valid: Validator): map<string, Value>
    requires i < |fields|
    requires AskField(fields[i], data, input, valid).Accepted?
  {
    data[fields[i].key := AskField(fields[i], data, input, valid).value]
  }

  /** A completed form holds every field's key besides the ones it started with. */
  lemma {:induction false} CompletedFormKeys(fields: seq<Field>, i: nat, data: map<string, Value>, input: seq<Value>, valid: Validator)
    requires i <= |fields|
    ensures RunFrom(fields, i, data, input, valid).Completed? ==>
      RunFrom(fields, i, data, input, valid).data.Keys == data.Keys + (set q | i <= q < |fields| :: fields[q].key)
    decreases |fields| - i
  {
    if i < |fields| && RunFrom(fields, i, data, input, valid).Completed? {
      var rest := AskField(fields[i], data, input, valid).rest;
      CompletedFormKeys(fields, i + 1, After(fields, i, data, input, valid), rest, valid);
      assert (set q | i <= q < |fields| :: fields[q].key) == {fields[i].key} + (set q | i + 1 <= q < |fields| :: fields[q].key);
    }
  }

  /** Entries of a completed form that no later field assigns keep the value they had. */
  lemma {:induction false} CompletedFormKeeps(fields: seq<Field>, i: nat, data: map<string, Value>, input: seq<Value>, valid: Validator, k: string)
    requires i <= |fields|
    requires k in data && NotAssignedFrom(fields, i, k)
    ensures RunFrom(fields, i, data, input, valid).Completed? ==>
      k in RunFrom(fields, i, data, input, valid).data && RunFrom(fields, i, data, input, valid).data[k] == data[k]
    decreases |fields| - i
  {
    if i < |fields| && RunFrom(fields, i, data, input, valid).Completed? {
      var rest := AskField(fields[i], data, input, valid).rest;
      CompletedFormKeeps(fields, i + 1, After(fields, i, data, input, valid), rest, valid, k);
    }
  }

  /**
   * The value a completed form stores under a key passes the rules of the last
   * field with that key.
   */
  lemma {:induction false} CompletedFormValid(fields: seq<Field>, i: nat, data: map<string, Value>, input: seq<Value>, valid: Validator, q: nat)
    requires i <= q < |fields|
    requires NotAssignedFrom(fields, q + 1, fields[q].key)
    ensures RunFrom(fields, i, data, input, valid).Completed? ==>
      var d := RunFrom(fields, i, data, input, valid).data;
      fields[q].key in d && valid(fields[q].key, d[fields[q].key], EffectiveRules(fields[q]))
    decreases q - i
  {
    if RunFrom(fields, i, data, input, valid).Completed? {
      var rest := AskField(fields[i], data, input, valid).rest;
      if i < q {
        CompletedFormValid(fields, i + 1, After(fields, i, data, input, valid), rest, valid, q);
      } else {
        AcceptedIsValid(fields[i], data, input, valid);
        CompletedFormKeeps(fields, i + 1, After(fields, i, data, input, valid), rest, valid, fields[q].key);
      }
    }
  }

  /**
   * In a completed form, a confirmation that is the last field with its key,
   * whose match key differs from its own and is assigned by no later field,
   * holds the same value as the match key.
   */
  lemma {:induction false} CompletedConfirmationMatches(fields: seq<Field>, i: nat, data: map<string, Value>, input: seq<Value>, valid: Validator, j: nat)
    requires i <= j < |fields|
    requires ParseType(fields[j].typeName) == Confirm
    requires fields[j].matchKey != fields[j].key
    requires NotAssignedFrom(fields, j + 1, fields[j].key) && NotAssignedFrom(fields, j + 1, fields[j].matchKey)
    requires RunFrom(fields, i, data, input, valid).Completed?
    ensures var d := RunFrom(fields, i, data, input, valid).data;
      fields[j].key in d && fields[j].matchKey in d && d[fields[j].key] == d[fields[j].matchKey]
    decreases j - i
  {
    var rest := AskField(fields[i], data, input, valid).rest;
    var data' := After(fields, i, data, input, valid);
    if i < j {
      CompletedConfirmationMatches(fields, i + 1, data', rest, valid, j);
    } else {
      ConfirmedEqualsMatch(fields[i], data, input, valid);
      CompletedFormKeeps(fields, i + 1, data', rest, valid, fields[j].key);
      CompletedFormKeeps(fields, i + 1, data', rest, valid, fields[j].matchKey);
    }
  }

  /**
   * The fields are asked in order, each on the replies the earlier ones left:
   * running the form from field `i` is running `fields[i..q]` and then, if
   * they completed, the fields from `q` on with the data and replies they left.
   */
  lemma {:induction false} RunFromPrefix(fields: seq<Field>, q: nat, i: nat, data: map<string, Value>, input: seq<Value>, valid: Validator)
    requires i <= q <= |fields|
    ensures RunFrom(fields, i, data, input, valid) ==
      match RunFrom(fields[..q], i, data, input, valid)
      case Completed(d, r) => RunFrom(fields, q, d, r, valid)
      case o => o
    decreases q - i
  {
    if i < q {
      assert fields[..q][i] == fields[i];
      match AskField(fields[i], data, input, valid)
      case Accepted(v, rest) =>
        RunFromPrefix(fields, q, i + 1, data[fields[i].key := v], rest, valid);
      case OutOfInput =>
      case Hangs =>
    }
  }

  /**
   * A later field with a key already used overwrites it: in a completed form
   * the value under the key of field `q`, when no later field has that key, is
   * the value field `q` accepted from the replies the fields before it left.
   */
  lemma CompletedFormStoresLast(fields: seq<Field>, data: map<string, Value>, input: seq<Value>, valid: Validator, q: nat)
    requires q < |fields|
    requires NotAssignedFrom(fields, q + 1, fields[q].key)
    requires RunFrom(fields, 0, data, input, valid).Completed?
    ensures var before := RunFrom(fields[..q], 0, data, input, valid);
      && before.Completed?
      && AskField(fields[q], before.data, before.rest, valid).Accepted?
      && fields[q].key in RunFrom(fields, 0, data, input, valid).data
      && RunFrom(fields, 0, data, input, valid).data[fields[q].key] == AskField(fields[q], before.data, before.rest, valid).value
  {
    RunFromPrefix(fields, q, 0, data, input, valid);
    var before := RunFrom(fields[..q], 0, data, input, valid);
    var field := AskField(fields[q], before.data, before.rest, valid);
    assert RunFrom(fields, 0, data, input, valid) == RunFrom(fields, q, before.data, before.rest, valid);
    CompletedFormKeeps(fields, q + 1, After(fields, q, before.data, before.rest, valid), field.rest, valid, fields[q].key);
  }
}
