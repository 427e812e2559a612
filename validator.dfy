/**
 * Validator::validate as the program runs it: a foreach over the interface
 * that assigns into the caller's data array and stops at the first throw,
 * inside a try whose catch block wraps the failure once.
 */
module Validator {
  import opened PhpValues
  import opened Errors
  import opened Schema
  import opened Validation
  import MissingSentinel

  /**
   * Validates `data` against `s`.  `updated` is the caller's array when the
   * call ends (also when it throws: defaults written for earlier fields stay),
   * `verdict` is `true` or the exception thrown.
   */
  method Validate(env: Env, data: seq<Entry>, s: Struct) returns (updated: seq<Entry>, verdict: Verdict)
    ensures Run(updated, verdict) == ValidateStruct(env, data, s)
    ensures verdict.Invalid? ==> IsWrapped(verdict.error)
    ensures FillsOnly(data, updated, FieldKeys(s))
    decreases s, 2
  {
    ValidateStructFills(env, data, s);
    var unexpected := UnexpectedKeys(data, FieldKeys(s));
    if s.exhaustive && |unexpected| > 0 {
      updated := data;
      verdict := Invalid(Wrap(s.name, UnexpectedProperty(unexpected)));
      return;
    }
    var thrown;
    updated, thrown := ValidateFields(env, data, s);
    match thrown {
      case None => verdict := Valid;
      case Some(e) =>
        WrapChained(s.name, e);
        verdict := Invalid(Wrap(s.name, e));
    }
  }

  /**
   * The foreach of lines 24-46: the fields in declaration order, each one
   * seeing the array as the fields before it left it, up to the first throw.
   */
  method ValidateFields(env: Env, data: seq<Entry>, s: Struct) returns (updated: seq<Entry>, thrown: Option<Error>)
    ensures CheckFields(env, data, s, 0) == if thrown.Some? then Run(updated, Invalid(thrown.value)) else Run(updated, Valid)
    decreases s, 1
  {
    updated := data;
    thrown := None;
    var i := 0;
    while i < |s.iface|
      invariant 0 <= i <= |s.iface|
      invariant thrown.None?
      invariant CheckFields(env, updated, s, i) == CheckFields(env, data, s, 0)
    {
      ghost var before := updated;
      updated, thrown := ValidateField(env, updated, s.iface[i]);
      CheckFieldsStep(env, before, s, i);
      if thrown.Some? {
        return;
      }
      i := i + 1;
    }
  }

  /**
   * One turn of the foreach (lines 24-46): look the field up, substituting
   * the sentinel when the key is absent, and apply its rule.
   */
  method ValidateField(env: Env, data: seq<Entry>, field: Field) returns (updated: seq<Entry>, thrown: Option<Error>)
    ensures CheckField(env, data, field) == if thrown.Some? then Stop(thrown.value) else Next(updated)
    ensures thrown.Some? ==> updated == data
    decreases field, 0
  {
    updated := data;
    thrown := None;
    var value := FieldValue(data, field.key);
    var valueIsMissing := MissingSentinel.IsMissing(value);
    match field.rule {
      case Pred(p) =>
        var o := Eval(env, p, value);
        if o.Throw? {
          thrown := Some(o.error);
        } else if !o.ok {
          thrown := Some(InvalidValue(field.key));
        } else if valueIsMissing && !MissingSentinel.IsMissing(o.value) {
          // The rule replaced the sentinel: set the data field.
          updated := Put(data, field.key, o.value);
        }
      case Nested(nested) =>
        if valueIsMissing {
          thrown := Some(MissingProperty(field.key));
        } else if !value.Arr? {
          thrown := Some(EngineError(TypeMismatch));
        } else {
          // The nested array goes by reference to a local copy: whatever the
          // nested call fills in is dropped here.
          var _, inner := Validate(env, value.entries, nested);
          if inner.Invalid? {
            thrown := Some(inner.error);
          }
        }
      case Bad(v) =>
        thrown := Some(InvalidValidatorFor(v));
    }
  }
}
