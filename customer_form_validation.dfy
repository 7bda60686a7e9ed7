/**
 * The browser's form validators (src/customerFormValidation.ts): curried
 * validators that map a field's text to an error message or `undefined`,
 * a combinator that runs several in turn, and helpers over the per-field
 * error record. A regular expression is an abstract predicate on strings.
 */
module CustomerFormValidation {
  import opened Wrappers
  import opened JsString
  import opened Types

  /** A validator: `undefined` (None) when the text passes, else a message. */
  type Validator = string -> Option<string>

  /** JavaScript truthiness of a validator's result: `undefined` and "" are falsy. */
  predicate IsError(result: Option<string>)
  {
    result.Some? && result.value != ""
  }

  /** `required(description)`: the message exactly for empty or whitespace-only text. */
  function Required(description: string): (v: Validator)
    ensures forall value :: v(value) == if AllWhitespace(value) then Some(description) else None
  {
    (value: string) => if IsBlank(value) then Some(description) else None
  }

  /** `match(re, description)`: the message exactly for text `re` does not match. */
  function Match(matches: string -> bool, description: string): (v: Validator)
    ensures forall value :: v(value) == if matches(value) then None else Some(description)
  {
    (value: string) => if !matches(value) then Some(description) else None
  }

  /** `result || next`: a truthy result is kept, otherwise `next` is taken. */
  function OrElse(result: Option<string>, next: Option<string>): (r: Option<string>)
    ensures r == result || r == next
    ensures IsError(r) <==> IsError(result) || IsError(next)
    ensures IsError(result) ==> r == result
  {
    if IsError(result) then result else next
  }

  /** `validators.reduce((result, validator) => result || validator(value), result)`. */
  function Reduce(validators: seq<Validator>, value: string, result: Option<string>): (r: Option<string>)
    ensures IsError(r) <==> IsError(result) || exists i :: 0 <= i < |validators| && IsError(validators[i](value))
    ensures IsError(result) ==> r == result
    decreases |validators|
  {
    if validators == [] then result
    else
      assert forall i :: 1 <= i < |validators| ==> validators[1..][i - 1] == validators[i];
      Reduce(validators[1..], value, OrElse(result, validators[0](value)))
  }

  /** `list(...validators)`: the validators in turn, starting from `undefined`. */
  function List(validators: seq<Validator>): (v: Validator)
    ensures forall value :: IsError(v(value)) <==> exists i :: 0 <= i < |validators| && IsError(validators[i](value))
  {
    ReduceReportsSomeError(validators);
    (value: string) => Reduce(validators, value, None)
  }

  /** Starting from `undefined`, the reduce ends in an error exactly when some validator reports one. */
  lemma ReduceReportsSomeError(validators: seq<Validator>)
    ensures forall value :: IsError(Reduce(validators, value, None)) <==> exists i :: 0 <= i < |validators| && IsError(validators[i](value))
  {
    forall value
      ensures IsError(Reduce(validators, value, None)) <==> exists i :: 0 <= i < |validators| && IsError(validators[i](value))
    {
      if i :| 0 <= i < |validators| && IsError(validators[i](value)) {
        var first := FirstErrorAtOrBefore(validators, value, i);
        ReduceFirstError(validators, value, None, first);
      } else {
        ReduceNoError(validators, value, None);
      }
    }
  }

  /** Once the running result is an error, the remaining validators change nothing. */
  lemma {:induction false} ReduceKeepsError(validators: seq<Validator>, value: string, result: Option<string>)
    requires IsError(result)
    ensures Reduce(validators, value, result) == result
    decreases |validators|
  {
    if validators != [] {
      ReduceKeepsError(validators[1..], value, result);
    }
  }

  lemma {:induction false} ReduceFirstError(validators: seq<Validator>, value: string, result: Option<string>, i: nat)
    requires i < |validators| && IsError(validators[i](value))
    requires !IsError(result) && forall j :: 0 <= j < i ==> !IsError(validators[j](value))
    ensures Reduce(validators, value, result) == validators[i](value)
    decreases i
  {
    if i == 0 {
      ReduceKeepsError(validators[1..], value, validators[0](value));
    } else {
      ReduceFirstError(validators[1..], value, validators[0](value), i - 1);
    }
  }

  /** `list` returns the message of the first validator, in order, that reports a (truthy) error. */
  lemma ListFirstError(validators: seq<Validator>, value: string, i: nat)
    requires i < |validators| && IsError(validators[i](value))
    requires forall j :: 0 <= j < i ==> !IsError(validators[j](value))
    ensures List(validators)(value) == validators[i](value)
  {
    ReduceFirstError(validators, value, None, i);
  }

  lemma {:induction false} ReduceNoError(validators: seq<Validator>, value: string, result: Option<string>)
    requires !IsError(result) && forall j :: 0 <= j < |validators| ==> !IsError(validators[j](value))
    ensures Reduce(validators, value, result) == if validators == [] then result else validators[|validators| - 1](value)
    decreases |validators|
  {
    if validators != [] {
      ReduceNoError(validators[1..], value, validators[0](value));
    }
  }

  /**
   * When no validator reports a truthy error, `list` gives the last
   * validator's result (`undefined` when all pass), or `undefined` when
   * there are no validators.
   */
  lemma ListNoError(validators: seq<Validator>, value: string)
    requires forall j :: 0 <= j < |validators| ==> !IsError(validators[j](value))
    ensures List(validators)(value) == if validators == [] then None else validators[|validators| - 1](value)
    ensures (forall j :: 0 <= j < |validators| ==> validators[j](value).None?) ==> List(validators)(value).None?
  {
    ReduceNoError(validators, value, None);
  }

  /** The least position at or before `i` whose validator reports an error. */
  lemma {:induction false} FirstErrorAtOrBefore(validators: seq<Validator>, value: string, i: nat) returns (first: nat)
    requires i < |validators| && IsError(validators[i](value))
    ensures first <= i && IsError(validators[first](value))
    ensures forall j :: 0 <= j < first ==> !IsError(validators[j](value))
    decreases i
  {
    if j :| 0 <= j < i && IsError(validators[j](value)) {
      first := FirstErrorAtOrBefore(validators, value, j);
    } else {
      first := i;
    }
  }

  /** Validators after the first one that reports an error do not affect the result. */
  lemma ListIgnoresLaterValidators(validators: seq<Validator>, later: seq<Validator>, value: string, i: nat)
    requires i < |validators| && IsError(validators[i](value))
    ensures List(validators + later)(value) == List(validators)(value)
  {
    var first := FirstErrorAtOrBefore(validators, value, i);
    assert forall j :: 0 <= j < |validators| ==> (validators + later)[j] == validators[j];
    ListFirstError(validators, value, first);
    ListFirstError(validators + later, value, first);
  }

  /** `Object.values(errors)`: each value of the record, listed per field that is set. */
  function ValuesOf(errors: map<Field, Option<string>>): (values: seq<Option<string>>)
    ensures forall f :: f in errors ==> errors[f] in values
    ensures forall e :: e in values ==> exists f :: f in errors && errors[f] == e
  {
    var first := if FirstName in errors then [errors[FirstName]] else [];
    var last := if LastName in errors then [errors[LastName]] else [];
    var phone := if PhoneNumber in errors then [errors[PhoneNumber]] else [];
    assert forall e :: e in first + last + phone <==> e in first || e in last || e in phone;
    assert forall f :: f in errors ==> errors[f] in first + last + phone by {
      forall f | f in errors
        ensures errors[f] in first + last + phone
      {
        if f == FirstName {
          assert errors[f] in first;
        } else if f == LastName {
          assert errors[f] in last;
        } else {
          assert errors[f] in phone;
        }
      }
    }
    first + last + phone
  }

  /** `values.some(error => error !== undefined)`. */
  function AnyDefined(values: seq<Option<string>>): (b: bool)
    ensures b <==> exists i :: 0 <= i < |values| && values[i].Some?
  {
    if values == [] then false
    else values[0].Some? || AnyDefined(values[1..])
  }

  /** `anyErrors(errors)`. */
  predicate AnyErrors(errors: map<Field, Option<string>>): (b: bool)
    ensures b <==> exists e :: e in errors.Values && e.Some?
  {
    var values := ValuesOf(errors);
    assert forall e :: e in errors.Values <==> e in values;
    AnyDefined(values)
  }

  /** `hasError(fieldName, errors)`: a missing key reads as `undefined`. */
  predicate HasError(fieldName: Field, errors: map<Field, Option<string>>): (b: bool)
    ensures fieldName !in errors ==> !b
    ensures fieldName in errors ==> (b <==> errors[fieldName].Some?)
    ensures b ==> AnyErrors(errors)
  {
    assert fieldName in errors ==> errors[fieldName] in errors.Values;
    fieldName in errors && errors[fieldName].Some?
  }

  /** `anyErrors` holds exactly when some field has an error. */
  lemma AnyErrorsIffSomeField(errors: map<Field, Option<string>>)
    ensures AnyErrors(errors) <==> exists f :: HasError(f, errors)
  {
    var values := ValuesOf(errors);
    if AnyErrors(errors) {
      var i :| 0 <= i < |values| && values[i].Some?;
      assert values[i] in values;
      var f :| f in errors && errors[f] == values[i];
      assert HasError(f, errors);
    }
  }

  /** No two entries name the same field, as in the entries of an object. */
  predicate DistinctNames(fields: seq<(Field, string)>)
  {
    forall i, j :: 0 <= i < j < |fields| ==> fields[i].0 != fields[j].0
  }

  /**
   * `validateMany(validators, fields)`: `Object.entries(fields).reduce`, each
   * step spreading the record and setting the entry's field to the result of
   * that field's validator on the entry's text.
   */
  function ValidateMany(validators: Field -> Validator, fields: seq<(Field, string)>): (errors: map<Field, Option<string>>)
    requires DistinctNames(fields)
    ensures errors.Keys == set i | 0 <= i < |fields| :: fields[i].0
    ensures forall i :: 0 <= i < |fields| ==> errors[fields[i].0] == validators(fields[i].0)(fields[i].1)
  {
    if fields == [] then map[]
    else
      var last := fields[|fields| - 1];
      var errors := ValidateMany(validators, fields[..|fields| - 1]);
      assert forall i :: 0 <= i < |fields| - 1 ==> fields[..|fields| - 1][i] == fields[i];
      errors[last.0 := validators(last.0)(last.1)]
  }

  /**
   * After `validateMany`, a field it was given has an error exactly when its
   * validator rejects its text, and a field it was not given has none.
   */
  lemma HasErrorAfterValidateMany(validators: Field -> Validator, fields: seq<(Field, string)>, f: Field)
    requires DistinctNames(fields)
    ensures forall i :: 0 <= i < |fields| && fields[i].0 == f ==>
      (HasError(f, ValidateMany(validators, fields)) <==> validators(f)(fields[i].1).Some?)
    ensures (forall i :: 0 <= i < |fields| ==> fields[i].0 != f) ==> !HasError(f, ValidateMany(validators, fields))
  {
    var errors := ValidateMany(validators, fields);
    if f in errors {
      var i :| 0 <= i < |fields| && fields[i].0 == f;
      assert errors[f] == validators(f)(fields[i].1);
    }
  }
}
