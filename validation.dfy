/**
 * What validation does: the closures built by the combinators of
 * src/Property/Type.php (Eval) and the algorithm of Validator::validate
 * (ValidateStruct), as functions.  The two are mutually recursive, because
 * anyOf and arrayOf call back into validate for Struct members.
 *
 * By-reference parameters become explicit results: a predicate returns the
 * value its `&$value` parameter holds afterwards, and a validation returns
 * the data array as it stands when the call ends, whether it succeeded or
 * threw.  A thrown exception is a Throw outcome or an Invalid verdict.
 */
module Validation {
  import opened PhpValues
  import opened Errors
  import opened Schema
  import MissingSentinel

  /** What a user-supplied closure does with a value. */
  datatype CustomResult = Pass | Fail | Raise(message: string)

  /**
   * The parts of PHP the model does not interpret:
   *   numericString  is_numeric() on a string;
   *   derives        the class hierarchy: derives(c, t) when class c derives
   *                  from or implements t;
   *   custom         the user-supplied closures, by name.
   */
  datatype Env = Env(
    numericString: string -> bool,
    derives: (string, string) -> bool,
    custom: (string, Value) -> CustomResult)

  /** A predicate call: it returned ok, leaving `value` in its by-reference
      argument, or it threw. */
  datatype Outcome = Returned(ok: bool, value: Value) | Throw(error: Error)

  /** Validator::validate either returns true or throws. */
  datatype Verdict = Valid | Invalid(error: Error)

  /** The verdict and the caller's data array after the call. */
  datatype Run = Run(data: seq<Entry>, verdict: Verdict)

  /** One turn of the per-field loop: go on with the data, or throw. */
  datatype Step = Next(data: seq<Entry>) | Stop(error: Error)

  predicate Accepts(o: Outcome) {
    o.Returned? && o.ok
  }

  predicate Rejects(o: Outcome) {
    o.Returned? && !o.ok
  }

  /** The built-in type predicates, by type tag.  None holds of an array, an
      object or the sentinel, so a plain type predicate fails an absent field. */
  function PrimHolds(env: Env, k: PrimKind, v: Value): (r: bool)
    ensures r ==> !v.Arr? && !v.Obj? && !v.Missing?
    ensures k != IsNumeric ==> (r <==> GetType(v) == PrimTypeName(k))
  {
    match k
    case IsString => v.Str?
    case IsInt => v.Int?
    case IsFloat => v.Float?
    case IsNull => v.Null?
    case IsBool => v.Bool?
    case IsNumeric => v.Int? || v.Float? || (v.Str? && env.numericString(v.s))
  }

  /** gettype() of the values each built-in type predicate accepts. */
  function PrimTypeName(k: PrimKind): string {
    match k
    case IsString => "string"
    case IsInt => "integer"
    case IsFloat => "double"
    case IsNull => "NULL"
    case IsBool => "boolean"
    case IsNumeric => ""
  }

  /** is_a($value, $type): objects only (strings are not accepted as class
      names); the sentinel is an object of class MissingClass.  The type is
      looked up with one leading backslash dropped, and class names are
      compared without regard to ASCII case; `derives` is expected to do the
      same. */
  function IsA(env: Env, v: Value, t: string): (r: bool)
    ensures r ==> GetType(v) == "object"
    ensures v.Obj? && SameClass(v.cls, ClassLookupName(t)) ==> r
    ensures v.Missing? && SameClass(MissingClass, ClassLookupName(t)) ==> r
  {
    var name := ClassLookupName(t);
    match v
    case Obj(c) => SameClass(c, name) || env.derives(c, name)
    case Missing(_) => SameClass(MissingClass, name) || env.derives(MissingClass, name)
    case _ => false
  }

  /** The value a field's rule receives: the stored value when the key exists
      (null included), a fresh sentinel naming the field otherwise. */
  function FieldValue(d: seq<Entry>, k: string): (v: Value)
    ensures k in Keys(d) ==> Lookup(d, k) == Some(v)
    ensures k !in Keys(d) ==> v == MissingSentinel.Property(k)
  {
    match Lookup(d, k)
    case Some(x) => x
    case None => MissingSentinel.Property(k)
  }

  /** array_keys(array_diff_key($d, $interface)): the keys not declared, in
      the data's order. */
  function UnexpectedKeys(d: seq<Entry>, declared: set<string>): (ks: seq<string>)
    ensures |ks| <= |d|
  {
    if d == [] then []
    else (if d[0].key in declared then [] else [d[0].key]) + UnexpectedKeys(d[1..], declared)
  }

  /** The undeclared keys are exactly the data's keys outside the interface. */
  lemma {:induction false} UnexpectedKeysExactly(d: seq<Entry>, declared: set<string>)
    ensures forall k :: k in UnexpectedKeys(d, declared) <==> k in Keys(d) && k !in declared
  {
    if d != [] {
      UnexpectedKeysExactly(d[1..], declared);
      assert Keys(d) == [d[0].key] + Keys(d[1..]);
    }
  }

  /**
   * The data array changed only by filling keys of `keys` that were absent
   * (or held a sentinel) with a real value: every other key keeps its value,
   * and the existing keys keep their order, new ones coming after them.
   */
  ghost predicate FillsOnly(before: seq<Entry>, after: seq<Entry>, keys: set<string>) {
    && |after| >= |before|
    && Keys(after)[..|before|] == Keys(before)
    && forall k :: Lookup(after, k) != Lookup(before, k) ==>
         && k in keys
         && (Lookup(before, k).None? || Lookup(before, k).value.Missing?)
         && Lookup(after, k).Some? && !Lookup(after, k).value.Missing?
  }

  lemma FillsOnlyRefl(d: seq<Entry>, keys: set<string>)
    ensures FillsOnly(d, d, keys)
  {
    assert Keys(d)[..|d|] == Keys(d);
  }

  lemma FillsOnlyTrans(a: seq<Entry>, b: seq<Entry>, c: seq<Entry>, k1: set<string>, k2: set<string>)
    requires FillsOnly(a, b, k1) && FillsOnly(b, c, k2)
    ensures FillsOnly(a, c, k1 + k2)
  {
    assert Keys(c)[..|a|] == Keys(c)[..|b|][..|a|];
    forall k | Lookup(c, k) != Lookup(a, k)
      ensures k in k1 + k2
      ensures Lookup(a, k).None? || Lookup(a, k).value.Missing?
      ensures Lookup(c, k).Some? && !Lookup(c, k).value.Missing?
    {
    }
  }

  /** The write-back of line 35 fills one absent (or sentinel) key. */
  lemma PutFills(d: seq<Entry>, k: string, w: Value)
    requires FieldValue(d, k).Missing? && !w.Missing?
    ensures FillsOnly(d, Put(d, k, w), {k})
  {
    var r := Put(d, k, w);
    PutKeys(d, k, w);
    assert Keys(r)[..|d|] == Keys(d);
    forall j | Lookup(r, j) != Lookup(d, j) ensures j == k {
      if j != k { PutFrame(d, k, w, j); }
    }
  }

  /** What a predicate can throw: a user-supplied closure's exception, an
      engine error, or a struct failure already wrapped by its own validate. */
  predicate Thrown(e: Error) {
    e.Raised? || e.EngineError? || IsWrapped(e)
  }

  /** The closure a combinator returns, applied to `v`. */
  function Eval(env: Env, p: Predicate, v: Value): (o: Outcome)
    // Only optional hands a different value back to its caller, and only in
    // place of a sentinel.
    ensures o.Returned? && !p.Optional? ==> o.value == v
    ensures o.Returned? && !v.Missing? ==> o.value == v
    ensures o.Throw? ==> Thrown(o.error)
    decreases p, 2, 0
  {
    match p
    case Prim(k) => Returned(PrimHolds(env, k, v), v)
    case Custom(id) =>
      (match env.custom(id, v)
       case Pass => Returned(true, v)
       case Fail => Returned(false, v)
       case Raise(msg) => Throw(Raised(msg)))
    case AllOf(_) => ByValue(AllOfFrom(env, p, 0, v), v)
    case AnyOf(_) => ByValue(AnyOfFrom(env, p, 0, v), v)
    case ArrayOf(m) =>
      if !v.Arr? then Returned(false, v)
      else if m.Pred? then ElementsPass(env, p, v.entries, 0, v)
      else if m.Nested? then ElementsValidate(env, p, v.entries, 0, v)
      else Throw(EngineError(ArgumentCount))
    case ClassOf(t) => Returned(IsA(env, v, t), v)
    case Not(q) =>
      (match Eval(env, q, v)
       case Returned(ok, _) => Returned(!ok, v)
       case Throw(e) => Throw(e))
    case Optional(q, default) =>
      if MissingSentinel.IsMissing(v) then
        if default == Str(MissingClass) then Returned(true, v)
        else Eval(env, q, default)
      else Eval(env, q, v)
  }

  /** A closure whose `$value` parameter is taken by value returns with the
      caller's value untouched. */
  function ByValue(o: Outcome, v: Value): (r: Outcome)
    ensures r.Returned? ==> r.value == v
    ensures o.Throw? <==> r.Throw?
    ensures r.Throw? ==> r.error == o.error
    ensures r.Returned? ==> r.ok == o.ok
  {
    match o
    case Returned(ok, _) => Returned(ok, v)
    case Throw(e) => Throw(e)
  }

  /** allOf's foreach: each validator receives the closure's local `$value`,
      which a by-reference validator may have changed; stops at the first
      rejection. */
  function AllOfFrom(env: Env, p: Predicate, i: nat, cur: Value): (o: Outcome)
    requires p.AllOf? && i <= |p.validators|
    ensures o.Throw? ==> Thrown(o.error)
    decreases p, 1, |p.validators| - i
  {
    if i == |p.validators| then Returned(true, cur)
    else
      match Eval(env, p.validators[i], cur)
      case Returned(true, w) => AllOfFrom(env, p, i + 1, w)
      case Returned(false, w) => Returned(false, w)
      case Throw(e) => Throw(e)
  }

  /** anyOf's foreach: true at the first member that accepts; a Struct member
      is validated, and its failure is thrown, not skipped; anything else
      makes `new InvalidValidatorException()` fail for want of an argument. */
  function AnyOfFrom(env: Env, p: Predicate, i: nat, cur: Value): (o: Outcome)
    requires p.AnyOf? && i <= |p.members|
    ensures o.Throw? ==> Thrown(o.error)
    decreases p, 1, |p.members| - i
  {
    if i == |p.members| then Returned(false, cur)
    else
      match p.members[i]
      case Pred(q) =>
        (match Eval(env, q, cur)
         case Returned(true, w) => Returned(true, w)
         case Returned(false, w) => AnyOfFrom(env, p, i + 1, w)
         case Throw(e) => Throw(e))
      case Nested(s) =>
        (match ValidateValue(env, cur, s)
         case Returned(_, _) => Returned(true, cur)
         case Throw(e) => Throw(e))
      case Bad(_) => Throw(EngineError(ArgumentCount))
  }

  /** arrayOf over a callable: every element, in order, by value. */
  function ElementsPass(env: Env, p: Predicate, es: seq<Entry>, i: nat, v: Value): (o: Outcome)
    requires p.ArrayOf? && p.member.Pred? && i <= |es|
    ensures o.Returned? ==> o.value == v
    ensures o.Throw? ==> Thrown(o.error)
    decreases p, 1, |es| - i
  {
    if i == |es| then Returned(true, v)
    else
      match Eval(env, p.member.p, es[i].val)
      case Returned(true, _) => ElementsPass(env, p, es, i + 1, v)
      case Returned(false, _) => Returned(false, v)
      case Throw(e) => Throw(e)
  }

  /** arrayOf over a Struct: every element, in order, validated. */
  function ElementsValidate(env: Env, p: Predicate, es: seq<Entry>, i: nat, v: Value): (o: Outcome)
    requires p.ArrayOf? && p.member.Nested? && i <= |es|
    ensures o.Returned? ==> o.value == v && o.ok
    ensures o.Throw? ==> Thrown(o.error)
    decreases p, 1, |es| - i
  {
    if i == |es| then Returned(true, v)
    else
      match ValidateValue(env, es[i].val, p.member.s)
      case Returned(_, _) => ElementsValidate(env, p, es, i + 1, v)
      case Throw(e) => Throw(e)
  }

  /** `validate($x, $struct)` called from a closure: a non-array argument is a
      TypeError; a failed validation is thrown; success returns true. */
  function ValidateValue(env: Env, x: Value, s: Struct): (o: Outcome)
    ensures o.Returned? ==> o.ok && x.Arr?
    ensures o.Throw? ==> IsWrapped(o.error)
    decreases s, 2, 1
  {
    if !x.Arr? then Throw(EngineError(TypeMismatch))
    else
      match ValidateStruct(env, x.entries, s).verdict
      case Valid => Returned(true, x)
      case Invalid(e) => Throw(e)
  }

  /** The body of the per-field loop (lines 24-46) for one field. */
  function CheckField(env: Env, d: seq<Entry>, f: Field): (r: Step)
    ensures r.Stop? ==> Chained(r.error)
    // A nested struct's own defaults never reach the outer data array.
    ensures r.Next? && f.rule.Nested? ==> r.data == d
    decreases f, 2, 0
  {
    var value := FieldValue(d, f.key);
    var valueIsMissing := MissingSentinel.IsMissing(value);
    match f.rule
    case Pred(p) =>
      (match Eval(env, p, value)
       case Throw(e) => Stop(e)
       case Returned(false, _) => Stop(InvalidValue(f.key))
       case Returned(true, w) =>
         if valueIsMissing && !MissingSentinel.IsMissing(w) then Next(Put(d, f.key, w))
         else Next(d))
    case Nested(s) =>
      if valueIsMissing then Stop(MissingProperty(f.key))
      else
        (match ValidateValue(env, value, s)
         case Returned(_, _) => Next(d)
         case Throw(e) => Stop(e))
    case Bad(v) => Stop(InvalidValidatorFor(v))
  }

  /**
   * The field-level failures: InvalidValue exactly when a callable rule
   * returns false, MissingProperty exactly when a Struct rule meets an absent
   * key, InvalidValidator exactly when the rule is neither, each naming the
   * field (or the rule's type); anything else that stops the loop was thrown
   * by the rule itself.
   */
  lemma CheckFieldOutcomes(env: Env, d: seq<Entry>, f: Field)
    ensures (CheckField(env, d, f).Stop? && CheckField(env, d, f).error.InvalidValue?) <==>
              f.rule.Pred? && Rejects(Eval(env, f.rule.p, FieldValue(d, f.key)))
    ensures (CheckField(env, d, f).Stop? && CheckField(env, d, f).error.MissingProperty?) <==>
              f.rule.Nested? && FieldValue(d, f.key).Missing?
    ensures (CheckField(env, d, f).Stop? && CheckField(env, d, f).error.InvalidValidator?) <==> f.rule.Bad?
    ensures f.rule.Bad? ==> CheckField(env, d, f) == Stop(InvalidValidatorFor(f.rule.v))
    ensures CheckField(env, d, f).Stop? && (CheckField(env, d, f).error.InvalidValue? || CheckField(env, d, f).error.MissingProperty?) ==>
              CheckField(env, d, f).error.property == f.key
    ensures (CheckField(env, d, f).Stop? && !f.rule.Bad? && !CheckField(env, d, f).error.InvalidValue? &&
             !CheckField(env, d, f).error.MissingProperty?) ==> Thrown(CheckField(env, d, f).error)
  {
  }

  /** A field's turn changes the data at most by filling its own key, where
      the key was absent or held a sentinel (line 35). */
  lemma CheckFieldFills(env: Env, d: seq<Entry>, f: Field)
    requires CheckField(env, d, f).Next?
    ensures FillsOnly(d, CheckField(env, d, f).data, {f.key})
  {
    var d1 := CheckField(env, d, f).data;
    if d1 == d {
      FillsOnlyRefl(d, {f.key});
    } else {
      var w := Eval(env, f.rule.p, FieldValue(d, f.key)).value;
      PutFills(d, f.key, w);
    }
  }

  /**
   * What a passing callable rule leaves at its key (lines 30-36): the value
   * the rule left in `$value` when that replaced a sentinel, and otherwise
   * whatever the key held before.
   */
  lemma CheckFieldWritesBack(env: Env, d: seq<Entry>, f: Field)
    requires f.rule.Pred? && Accepts(Eval(env, f.rule.p, FieldValue(d, f.key)))
    ensures CheckField(env, d, f).Next?
    ensures Lookup(CheckField(env, d, f).data, f.key) ==
              if FieldValue(d, f.key).Missing? && !Eval(env, f.rule.p, FieldValue(d, f.key)).value.Missing?
              then Some(Eval(env, f.rule.p, FieldValue(d, f.key)).value)
              else Lookup(d, f.key)
  {
  }

  /** The foreach over the interface, from field i on, in declared order. */
  function CheckFields(env: Env, d: seq<Entry>, s: Struct, i: nat): (r: Run)
    requires i <= |s.iface|
    ensures r.verdict.Invalid? ==> Chained(r.verdict.error)
    decreases s, 1, |s.iface| - i
  {
    if i == |s.iface| then Run(d, Valid)
    else
      match CheckField(env, d, s.iface[i])
      case Stop(e) => Run(d, Invalid(e))
      case Next(d1) => CheckFields(env, d1, s, i + 1)
  }

  /** One turn of the foreach: stop at a throw, or go on from the next field. */
  lemma CheckFieldsStep(env: Env, d: seq<Entry>, s: Struct, i: nat)
    requires i < |s.iface|
    ensures CheckField(env, d, s.iface[i]).Stop? ==>
              CheckFields(env, d, s, i) == Run(d, Invalid(CheckField(env, d, s.iface[i]).error))
    ensures CheckField(env, d, s.iface[i]).Next? ==>
              CheckFields(env, d, s, i) == CheckFields(env, CheckField(env, d, s.iface[i]).data, s, i + 1)
  {
  }

  /** The fields from i on fill only their own keys, whether the loop ends or
      throws. */
  lemma {:induction false} CheckFieldsFills(env: Env, d: seq<Entry>, s: Struct, i: nat)
    requires i <= |s.iface|
    ensures FillsOnly(d, CheckFields(env, d, s, i).data, FieldKeysFrom(s, i))
    decreases |s.iface| - i
  {
    if i == |s.iface| || CheckField(env, d, s.iface[i]).Stop? {
      FillsOnlyRefl(d, FieldKeysFrom(s, i));
    } else {
      var d1 := CheckField(env, d, s.iface[i]).data;
      CheckFieldFills(env, d, s.iface[i]);
      CheckFieldsFills(env, d1, s, i + 1);
      FillsOnlyTrans(d, d1, CheckFields(env, d1, s, i + 1).data, {s.iface[i].key}, FieldKeysFrom(s, i + 1));
      assert {s.iface[i].key} + FieldKeysFrom(s, i + 1) == FieldKeysFrom(s, i);
    }
  }

  /** Validator::validate($data, $struct). */
  function ValidateStruct(env: Env, d: seq<Entry>, s: Struct): (r: Run)
    ensures r.verdict.Invalid? ==> IsWrapped(r.verdict.error)
    decreases s, 2, 0
  {
    var unexpected := UnexpectedKeys(d, FieldKeys(s));
    if s.exhaustive && |unexpected| > 0 then
      Run(d, Invalid(Wrap(s.name, UnexpectedProperty(unexpected))))
    else
      var r := CheckFields(env, d, s, 0);
      match r.verdict
      case Valid => Run(r.data, Valid)
      case Invalid(e) =>
        WrapChained(s.name, e);
        Run(r.data, Invalid(Wrap(s.name, e)))
  }

  /**
   * The caller's array changes only where a declared field was absent (or
   * held a sentinel) and its rule supplied a value: present fields are never
   * rewritten, undeclared keys never touched, and the key order is kept.
   * This holds whether the call returns or throws.
   */
  lemma ValidateStructFills(env: Env, d: seq<Entry>, s: Struct)
    ensures FillsOnly(d, ValidateStruct(env, d, s).data, FieldKeys(s))
  {
    if s.exhaustive && |UnexpectedKeys(d, FieldKeys(s))| > 0 {
      FillsOnlyRefl(d, FieldKeys(s));
    } else {
      CheckFieldsFills(env, d, s, 0);
    }
  }
}
