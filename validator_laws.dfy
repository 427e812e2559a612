/**
 * What Validator::validate (src/Validator.php) promises, proved about
 * Validation.ValidateStruct: the exhaustiveness check, the independence of
 * extra keys, the field-by-field verdict against a reference that checks
 * every field on the original data, the single wrapping of a nested failure,
 * the non-transactional write-back, and idempotence.
 */
module ValidatorLaws {
  import opened PhpValues
  import opened Errors
  import opened Schema
  import opened Validation
  import TypeLaws

  // ---------------------------------------------------- unexpected properties

  /** array_diff_key keeps the data's order: the undeclared keys of two runs
      of entries are those of the first followed by those of the second. */
  lemma {:induction false} UnexpectedKeysAppend(d1: seq<Entry>, d2: seq<Entry>, declared: set<string>)
    ensures UnexpectedKeys(d1 + d2, declared) == UnexpectedKeys(d1, declared) + UnexpectedKeys(d2, declared)
  {
    if d1 == [] {
      assert d1 + d2 == d2;
    } else {
      var h := if d1[0].key in declared then [] else [d1[0].key];
      assert (d1 + d2)[0] == d1[0];
      assert (d1 + d2)[1..] == d1[1..] + d2;
      assert UnexpectedKeys(d1 + d2, declared) == h + UnexpectedKeys(d1[1..] + d2, declared);
      UnexpectedKeysAppend(d1[1..], d2, declared);
      assert h + (UnexpectedKeys(d1[1..], declared) + UnexpectedKeys(d2, declared))
          == (h + UnexpectedKeys(d1[1..], declared)) + UnexpectedKeys(d2, declared);
    }
  }

  /** Data whose every key is declared has no unexpected property. */
  lemma {:induction false} AllDeclaredNoneUnexpected(d: seq<Entry>, declared: set<string>)
    requires forall k :: k in Keys(d) ==> k in declared
    ensures UnexpectedKeys(d, declared) == []
  {
    if d != [] {
      assert d[0].key in Keys(d);
      assert Keys(d) == [d[0].key] + Keys(d[1..]);
      AllDeclaredNoneUnexpected(d[1..], declared);
    }
  }

  /**
   * An exhaustive struct refuses data with undeclared keys before any field
   * is looked at: the data is left as it was and the failure, wrapped with
   * the struct's name, lists exactly the undeclared keys, in the data's
   * order.
   */
  lemma ExhaustiveRejectsUnexpected(env: Env, d: seq<Entry>, s: Struct)
    requires s.exhaustive && UnexpectedKeys(d, FieldKeys(s)) != []
    ensures ValidateStruct(env, d, s) == Run(d, Invalid(StructValidation(s.name, UnexpectedProperty(UnexpectedKeys(d, FieldKeys(s))))))
    ensures forall k :: k in UnexpectedKeys(d, FieldKeys(s)) <==> k in Keys(d) && k !in FieldKeys(s)
  {
    var ks := UnexpectedKeys(d, FieldKeys(s));
    assert IsLeaf(UnexpectedProperty(ks));
    UnexpectedKeysExactly(d, FieldKeys(s));
  }

  // ------------------------------------------------------- one field at a time

  /** A field's step depends on the data only through the value at its key:
      whether it stops, with which error, and what the key holds after. */
  lemma CheckFieldLocal(env: Env, d1: seq<Entry>, d2: seq<Entry>, f: Field)
    requires FieldValue(d1, f.key) == FieldValue(d2, f.key)
    ensures CheckField(env, d1, f).Stop? == CheckField(env, d2, f).Stop?
    ensures CheckField(env, d1, f).Stop? ==> CheckField(env, d1, f).error == CheckField(env, d2, f).error
    ensures CheckField(env, d1, f).Next? && Lookup(d1, f.key) == Lookup(d2, f.key) ==>
              Lookup(CheckField(env, d1, f).data, f.key) == Lookup(CheckField(env, d2, f).data, f.key)
  {
  }

  /** The first field, in declared order, whose step on `d` stops, each field
      being checked against `d` itself rather than the data as the fields
      before it left it. */
  function FirstFailure(env: Env, d: seq<Entry>, s: Struct, i: nat): Option<Error>
    requires i <= |s.iface|
    decreases |s.iface| - i
  {
    if i == |s.iface| then None
    else
      match CheckField(env, d, s.iface[i])
      case Stop(e) => Some(e)
      case Next(_) => FirstFailure(env, d, s, i + 1)
  }

  /** No field fails exactly when every field's step goes on. */
  lemma {:induction false} FirstFailureNone(env: Env, d: seq<Entry>, s: Struct, i: nat)
    requires i <= |s.iface|
    ensures FirstFailure(env, d, s, i).None? <==> forall j :: i <= j < |s.iface| ==> CheckField(env, d, s.iface[j]).Next?
    decreases |s.iface| - i
  {
    if i < |s.iface| {
      var step := CheckField(env, d, s.iface[i]);
      FirstFailureNone(env, d, s, i + 1);
      if step.Next? {
        assert FirstFailure(env, d, s, i) == FirstFailure(env, d, s, i + 1);
        assert (forall j :: i <= j < |s.iface| ==> CheckField(env, d, s.iface[j]).Next?) <==>
               (forall j :: i + 1 <= j < |s.iface| ==> CheckField(env, d, s.iface[j]).Next?);
      } else {
        assert FirstFailure(env, d, s, i) == Some(step.error);
        assert !CheckField(env, d, s.iface[i]).Next?;
      }
    }
  }

  /** The failure reported is that of a field whose step stops, all fields
      before it passing. */
  lemma {:induction false} FirstFailureWitness(env: Env, d: seq<Entry>, s: Struct, i: nat)
    requires i <= |s.iface| && FirstFailure(env, d, s, i).Some?
    ensures exists j :: i <= j < |s.iface| && CheckField(env, d, s.iface[j]) == Stop(FirstFailure(env, d, s, i).value) &&
              forall k :: i <= k < j ==> CheckField(env, d, s.iface[k]).Next?
    decreases |s.iface| - i
  {
    if CheckField(env, d, s.iface[i]).Next? {
      FirstFailureWitness(env, d, s, i + 1);
      var j :| i + 1 <= j < |s.iface| && CheckField(env, d, s.iface[j]) == Stop(FirstFailure(env, d, s, i + 1).value) &&
               forall k :: i + 1 <= k < j ==> CheckField(env, d, s.iface[k]).Next?;
      assert forall k :: i <= k < j ==> CheckField(env, d, s.iface[k]).Next?;
    }
  }

  function VerdictOf(r: Option<Error>): Verdict {
    if r.Some? then Invalid(r.value) else Valid
  }

  /** A field's step fills at most its own key: the value any other key
      reads is unchanged. */
  lemma StepKeepsOtherFields(env: Env, d: seq<Entry>, f: Field, k: string)
    requires CheckField(env, d, f).Next? && k != f.key
    ensures FieldValue(CheckField(env, d, f).data, k) == FieldValue(d, k)
  {
    var d1 := CheckField(env, d, f).data;
    CheckFieldFills(env, d, f);
    assert Lookup(d1, k) == Lookup(d, k);
  }

  lemma {:induction false} CheckFieldsFirstFailure(env: Env, d0: seq<Entry>, d: seq<Entry>, s: Struct, i: nat)
    requires DistinctFields(s) && i <= |s.iface|
    requires forall j :: i <= j < |s.iface| ==> FieldValue(d, s.iface[j].key) == FieldValue(d0, s.iface[j].key)
    ensures CheckFields(env, d, s, i).verdict == VerdictOf(FirstFailure(env, d0, s, i))
    decreases |s.iface| - i
  {
    if i < |s.iface| {
      var f := s.iface[i];
      CheckFieldLocal(env, d, d0, f);
      CheckFieldsStep(env, d, s, i);
      match CheckField(env, d, f)
      case Stop(_) =>
      case Next(d1) =>
        forall j | i + 1 <= j < |s.iface|
          ensures FieldValue(d1, s.iface[j].key) == FieldValue(d0, s.iface[j].key)
        {
          StepKeepsOtherFields(env, d, f, s.iface[j].key);
        }
        CheckFieldsFirstFailure(env, d0, d1, s, i + 1);
    }
  }

  /**
   * The verdict of Validator::validate on an interface without repeated
   * keys: the unexpected-property failure of an exhaustive struct first;
   * then the failure of the first field, in declared order, whose rule the
   * data fails, wrapped once with the struct's name; `true` only when no
   * field fails.  Each field is judged on the value the caller passed, as
   * the defaults earlier fields write go to their own keys.
   */
  lemma ValidateVerdict(env: Env, d: seq<Entry>, s: Struct)
    requires DistinctFields(s)
    ensures ValidateStruct(env, d, s).verdict ==
              if s.exhaustive && UnexpectedKeys(d, FieldKeys(s)) != [] then
                Invalid(Wrap(s.name, UnexpectedProperty(UnexpectedKeys(d, FieldKeys(s)))))
              else if FirstFailure(env, d, s, 0).Some? then
                Invalid(Wrap(s.name, FirstFailure(env, d, s, 0).value))
              else Valid
    ensures ValidateStruct(env, d, s).verdict.Valid? <==>
              (!s.exhaustive || UnexpectedKeys(d, FieldKeys(s)) == []) &&
              forall j :: 0 <= j < |s.iface| ==> CheckField(env, d, s.iface[j]).Next?
  {
    CheckFieldsFirstFailure(env, d, d, s, 0);
    FirstFailureNone(env, d, s, 0);
  }

  /**
   * A nested struct's failure reaches the caller as it was thrown by the
   * nested validate: it is neither turned into an invalid-value failure of
   * the field nor wrapped again, so it names only the innermost struct.
   */
  lemma NestedFailureNotRewrapped(env: Env, d: seq<Entry>, s: Struct, j: nat, x: seq<Entry>)
    requires DistinctFields(s) && j < |s.iface|
    requires !s.exhaustive || UnexpectedKeys(d, FieldKeys(s)) == []
    requires forall k :: 0 <= k < j ==> CheckField(env, d, s.iface[k]).Next?
    requires s.iface[j].rule.Nested? && FieldValue(d, s.iface[j].key) == Arr(x)
    requires ValidateStruct(env, x, s.iface[j].rule.s).verdict.Invalid?
    ensures ValidateStruct(env, d, s).verdict == ValidateStruct(env, x, s.iface[j].rule.s).verdict
  {
    var e := ValidateStruct(env, x, s.iface[j].rule.s).verdict.error;
    assert CheckField(env, d, s.iface[j]) == Stop(e);
    FirstFailureAt(env, d, s, 0, j);
    ValidateVerdict(env, d, s);
  }

  lemma {:induction false} FirstFailureAt(env: Env, d: seq<Entry>, s: Struct, i: nat, j: nat)
    requires i <= j < |s.iface| && CheckField(env, d, s.iface[j]).Stop?
    requires forall k :: i <= k < j ==> CheckField(env, d, s.iface[k]).Next?
    ensures FirstFailure(env, d, s, i) == Some(CheckField(env, d, s.iface[j]).error)
    decreases j - i
  {
    var step := CheckField(env, d, s.iface[i]);
    if i < j {
      assert step.Next?;
      assert FirstFailure(env, d, s, i) == FirstFailure(env, d, s, i + 1);
      FirstFailureAt(env, d, s, i + 1, j);
    } else {
      assert FirstFailure(env, d, s, i) == Some(step.error);
    }
  }

  /**
   * Struct::of checks nothing: a rule that is neither callable nor a Struct
   * (a raw nested mapping included) is reported only when validation reaches
   * its field, as an InvalidValidator naming the rule's type, wrapped with
   * the struct's name.
   */
  lemma InvalidRuleReportedWhenReached(env: Env, name: string, k: string, rule: Value, d: seq<Entry>)
    ensures Of(name, [Field(k, Bad(rule))], false).iface == [Field(k, Bad(rule))]
    ensures ValidateStruct(env, d, Of(name, [Field(k, Bad(rule))], false))
            == Run(d, Invalid(StructValidation(name, InvalidValidator(GetType(rule)))))
    ensures Message(ValidateStruct(env, d, Of(name, [Field(k, Bad(rule))], false)).verdict.error)
            == "Struct '" + name + "' failed validation: " + Message(InvalidValidator(GetType(rule)))
  {
    var s := Of(name, [Field(k, Bad(rule))], false);
    WrapLeaf(name, InvalidValidator(GetType(rule)));
    assert CheckField(env, d, s.iface[0]) == Stop(InvalidValidator(GetType(rule)));
    assert CheckFields(env, d, s, 0) == Run(d, Invalid(InvalidValidator(GetType(rule))));
  }

  /**
   * An exception thrown by a user-supplied rule is wrapped once with the
   * struct's name, its message appended to the struct's, and kept as the
   * cause.
   */
  lemma RaisedExceptionWrapped(env: Env, name: string, k: string, id: string, x: Value, msg: string)
    requires env.custom(id, x) == Raise(msg)
    ensures ValidateStruct(env, [Entry(k, x)], Of(name, [Field(k, Pred(Custom(id)))]))
            == Run([Entry(k, x)], Invalid(StructValidation(name, Raised(msg))))
    ensures Message(StructValidation(name, Raised(msg))) == "Struct '" + name + "' failed validation: " + msg
    ensures Previous(StructValidation(name, Raised(msg))) == Some(Raised(msg))
  {
    var d := [Entry(k, x)];
    var s := Of(name, [Field(k, Pred(Custom(id)))]);
    assert Keys(d) == [k];
    UnexpectedKeysExactly(d, FieldKeys(s));
    assert s.iface[0].key == k;
    assert k in FieldKeys(s);
    assert UnexpectedKeys(d, FieldKeys(s)) == [];
    assert FieldValue(d, k) == x;
    assert CheckField(env, d, s.iface[0]) == Stop(Raised(msg));
    assert CheckFields(env, d, s, 0) == Run(d, Invalid(Raised(msg)));
  }

  // ---------------------------------------------------------------- extra keys

  lemma {:induction false} CheckFieldsAgree(env: Env, d1: seq<Entry>, d2: seq<Entry>, s: Struct, i: nat)
    requires i <= |s.iface|
    requires forall k :: k in FieldKeys(s) ==> Lookup(d1, k) == Lookup(d2, k)
    ensures CheckFields(env, d1, s, i).verdict == CheckFields(env, d2, s, i).verdict
    ensures forall k :: k in FieldKeys(s) ==> Lookup(CheckFields(env, d1, s, i).data, k) == Lookup(CheckFields(env, d2, s, i).data, k)
    decreases |s.iface| - i
  {
    if i < |s.iface| {
      var f := s.iface[i];
      assert f.key in FieldKeys(s);
      CheckFieldLocal(env, d1, d2, f);
      CheckFieldsStep(env, d1, s, i);
      CheckFieldsStep(env, d2, s, i);
      if CheckField(env, d1, f).Next? {
        var e1 := CheckField(env, d1, f).data;
        var e2 := CheckField(env, d2, f).data;
        forall k | k in FieldKeys(s) ensures Lookup(e1, k) == Lookup(e2, k) {
          if k != f.key {
            CheckFieldFills(env, d1, f);
            CheckFieldFills(env, d2, f);
          }
        }
        CheckFieldsAgree(env, e1, e2, s, i + 1);
      }
    }
  }

  /**
   * A struct that is not exhaustive judges data by its declared keys only:
   * arrays that agree on those keys get the same verdict and the same
   * declared values back, and keys outside the interface are never changed.
   */
  lemma NonExhaustiveIgnoresExtras(env: Env, d1: seq<Entry>, d2: seq<Entry>, s: Struct)
    requires !s.exhaustive
    requires forall k :: k in FieldKeys(s) ==> Lookup(d1, k) == Lookup(d2, k)
    ensures ValidateStruct(env, d1, s).verdict == ValidateStruct(env, d2, s).verdict
    ensures forall k :: k in FieldKeys(s) ==>
              Lookup(ValidateStruct(env, d1, s).data, k) == Lookup(ValidateStruct(env, d2, s).data, k)
    ensures forall k :: k !in FieldKeys(s) ==> Lookup(ValidateStruct(env, d1, s).data, k) == Lookup(d1, k)
  {
    CheckFieldsAgree(env, d1, d2, s, 0);
    ValidateStructFills(env, d1, s);
  }

  /** Appending undeclared keys to the data does not change what a struct
      that is not exhaustive says about it. */
  lemma ExtraKeysIgnored(env: Env, d: seq<Entry>, extra: seq<Entry>, s: Struct)
    requires !s.exhaustive
    requires forall i :: 0 <= i < |extra| ==> extra[i].key !in FieldKeys(s)
    ensures ValidateStruct(env, d + extra, s).verdict == ValidateStruct(env, d, s).verdict
  {
    forall k | k in FieldKeys(s) ensures Lookup(d + extra, k) == Lookup(d, k) {
      LookupAppend(d, extra, k);
      if k in Keys(extra) {
        var i :| 0 <= i < |Keys(extra)| && Keys(extra)[i] == k;
        KeysAt(extra, i);
      }
    }
    NonExhaustiveIgnoresExtras(env, d + extra, d, s);
  }

  // ------------------------------------------------------------------ updates

  /**
   * The write-back is not undone when a later field fails: with an optional
   * integer field 'a' defaulting to 1 followed by a string field 'b', empty
   * data comes back holding a => 1 while the call throws for 'b'.
   */
  lemma UpdatesNotTransactional(env: Env)
    ensures ValidateStruct(env, [], Of("S", [Field("a", Pred(Optional(Prim(IsInt), Int(1)))), Field("b", Pred(Prim(IsString)))]))
            == Run([Entry("a", Int(1))], Invalid(StructValidation("S", InvalidValue("b"))))
  {
    var s := Of("S", [Field("a", Pred(Optional(Prim(IsInt), Int(1)))), Field("b", Pred(Prim(IsString)))]);
    var d1 := [Entry("a", Int(1))];
    assert UnexpectedKeys([], FieldKeys(s)) == [];
    assert CheckField(env, [], s.iface[0]) == Next(d1);
    assert FieldValue(d1, "b") == Missing("b");
    assert CheckField(env, d1, s.iface[1]) == Stop(InvalidValue("b"));
    assert CheckFields(env, d1, s, 1) == Run(d1, Invalid(InvalidValue("b")));
  }

  /**
   * The write-back of every field reached: once the fields i..j all pass on
   * the caller's data, field j's key holds the value its rule substituted
   * for the sentinel when the loop ends, whether a later field throws or
   * not.
   */
  lemma {:induction false} CheckFieldsWriteBack(env: Env, d: seq<Entry>, s: Struct, i: nat, j: nat, w: Value)
    requires DistinctFields(s) && i <= j < |s.iface|
    requires forall k :: i <= k <= j ==> CheckField(env, d, s.iface[k]).Next?
    requires s.iface[j].rule.Pred? && FieldValue(d, s.iface[j].key).Missing?
    requires Eval(env, s.iface[j].rule.p, FieldValue(d, s.iface[j].key)) == Returned(true, w) && !w.Missing?
    ensures Lookup(CheckFields(env, d, s, i).data, s.iface[j].key) == Some(w)
    decreases j - i
  {
    var f := s.iface[i];
    CheckFieldsStep(env, d, s, i);
    var d1 := CheckField(env, d, f).data;
    if i < j {
      forall k | i + 1 <= k <= j ensures CheckField(env, d1, s.iface[k]).Next? {
        StepKeepsOtherFields(env, d, f, s.iface[k].key);
        CheckFieldLocal(env, d1, d, s.iface[k]);
      }
      StepKeepsOtherFields(env, d, f, s.iface[j].key);
      CheckFieldsWriteBack(env, d1, s, i + 1, j, w);
    } else {
      CheckFieldWritesBack(env, d, f);
      assert Lookup(d1, f.key) == Some(w);
      if i + 1 < |s.iface| {
        CheckFieldsFills(env, d1, s, i + 1);
        assert f.key !in FieldKeysFrom(s, i + 1);
      }
    }
  }

  /**
   * Validator::validate writes back what a field's rule substituted for the
   * sentinel (src/Validator.php:33-36), for every field the loop gets past,
   * and does not undo it when a later field fails: with the fields before
   * and at j passing on the caller's data, j's key holds that value
   * afterwards, whatever the verdict.
   */
  lemma ValidateWritesBack(env: Env, d: seq<Entry>, s: Struct, j: nat, w: Value)
    requires DistinctFields(s) && j < |s.iface|
    requires !s.exhaustive || UnexpectedKeys(d, FieldKeys(s)) == []
    requires forall k :: 0 <= k <= j ==> CheckField(env, d, s.iface[k]).Next?
    requires s.iface[j].rule.Pred? && FieldValue(d, s.iface[j].key).Missing?
    requires Eval(env, s.iface[j].rule.p, FieldValue(d, s.iface[j].key)) == Returned(true, w) && !w.Missing?
    ensures Lookup(ValidateStruct(env, d, s).data, s.iface[j].key) == Some(w)
  {
    CheckFieldsWriteBack(env, d, s, 0, j, w);
  }

  lemma {:induction false} CheckFieldsKeepDistinctKeys(env: Env, d: seq<Entry>, s: Struct, i: nat)
    requires i <= |s.iface| && DistinctKeys(d)
    ensures DistinctKeys(CheckFields(env, d, s, i).data)
    decreases |s.iface| - i
  {
    if i < |s.iface| {
      var f := s.iface[i];
      CheckFieldsStep(env, d, s, i);
      if CheckField(env, d, f).Next? {
        var d1 := CheckField(env, d, f).data;
        if d1 != d {
          PutKeepsDistinctKeys(d, f.key, Eval(env, f.rule.p, FieldValue(d, f.key)).value);
        }
        CheckFieldsKeepDistinctKeys(env, d1, s, i + 1);
      }
    }
  }

  /** The array the caller gets back is still a PHP array: validation never
      puts the same key in twice, whether it returns or throws. */
  lemma ValidateKeepsDistinctKeys(env: Env, d: seq<Entry>, s: Struct)
    requires DistinctKeys(d)
    ensures DistinctKeys(ValidateStruct(env, d, s).data)
  {
    CheckFieldsKeepDistinctKeys(env, d, s, 0);
  }

  // -------------------------------------------------------------- idempotence

  lemma {:induction false} CheckFieldsRerun(env: Env, d: seq<Entry>, e: seq<Entry>, s: Struct, i: nat)
    requires DistinctFields(s) && i <= |s.iface|
    requires CheckFields(env, d, s, i) == Run(e, Valid)
    ensures CheckFields(env, e, s, i) == Run(e, Valid)
    decreases |s.iface| - i
  {
    if i < |s.iface| {
      var f := s.iface[i];
      CheckFieldsStep(env, d, s, i);
      CheckFieldsStep(env, e, s, i);
      var d1 := CheckField(env, d, f).data;
      CheckFieldsRerun(env, d1, e, s, i + 1);
      // Later fields fill other keys, so `e` holds at f.key what `d1` does.
      CheckFieldsFills(env, d1, s, i + 1);
      assert f.key !in FieldKeysFrom(s, i + 1);
      assert Lookup(e, f.key) == Lookup(d1, f.key);
      assert FieldValue(e, f.key) == FieldValue(d1, f.key);
      var v := FieldValue(d, f.key);
      match f.rule
      case Pred(p) =>
        var w := Eval(env, p, v).value;
        if v.Missing? && !w.Missing? {
          assert FieldValue(d1, f.key) == w;
          TypeLaws.AcceptedValueIsFixpoint(env, p, v, w);
        } else {
          assert d1 == d;
        }
        assert CheckField(env, e, f) == Next(e);
      case Nested(_) =>
        assert d1 == d;
        assert CheckField(env, e, f) == Next(e);
      case Bad(_) =>
    }
  }

  /**
   * Validation is idempotent: data that passed comes back, defaults filled
   * in, as data that passes again and is left as it is.
   */
  lemma ValidateIdempotent(env: Env, d: seq<Entry>, s: Struct)
    requires DistinctFields(s)
    requires ValidateStruct(env, d, s).verdict.Valid?
    ensures ValidateStruct(env, ValidateStruct(env, d, s).data, s) == ValidateStruct(env, d, s)
  {
    var e := ValidateStruct(env, d, s).data;
    assert CheckFields(env, d, s, 0) == Run(e, Valid);
    CheckFieldsRerun(env, d, e, s, 0);
    if s.exhaustive {
      ValidateStructFills(env, d, s);
      assert UnexpectedKeys(d, FieldKeys(s)) == [];
      UnexpectedKeysExactly(d, FieldKeys(s));
      forall k | k in Keys(e) ensures k in FieldKeys(s) {
        if k !in Keys(d) {
          assert Lookup(e, k) != Lookup(d, k);
        }
      }
      AllDeclaredNoneUnexpected(e, FieldKeys(s));
    }
  }
}
