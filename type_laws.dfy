/**
 * What the combinators of src/Property/Type.php promise, proved about the
 * closures of module Validation: allOf and anyOf against first-decisive-member
 * characterisations, arrayOf element by element, not, classOf and the three
 * cases of optional, and the way a substituted default travels (or does not)
 * through the by-value closures.
 */
module TypeLaws {
  import opened PhpValues
  import opened Errors
  import opened Schema
  import opened Validation
  import MissingSentinel

  /** A member of anyOf says yes to `v`: a callable returning true, or a
      Struct that `v` validates against. */
  predicate MemberAccepts(env: Env, m: Rule, v: Value) {
    (m.Pred? && Accepts(Eval(env, m.p, v))) || (m.Nested? && ValidateValue(env, v, m.s).Returned?)
  }

  /** A member of anyOf says no without throwing: only a callable can. */
  predicate MemberRejects(env: Env, m: Rule, v: Value) {
    m.Pred? && Rejects(Eval(env, m.p, v))
  }

  /** No member from `i` on can replace `v`: either `v` is no sentinel, or no
      member is an optional. */
  predicate SteadyMembers(v: Value, ms: seq<Rule>, i: nat) {
    !v.Missing? || forall j :: i <= j < |ms| ==> !(ms[j].Pred? && ms[j].p.Optional?)
  }

  predicate SteadyValidators(v: Value, ps: seq<Predicate>, i: nat) {
    !v.Missing? || forall j :: i <= j < |ps| ==> !ps[j].Optional?
  }

  // ---------------------------------------------------------------- allOf

  lemma {:induction false} AllOfFromAccepts(env: Env, p: Predicate, i: nat, v: Value)
    requires p.AllOf? && i <= |p.validators|
    requires SteadyValidators(v, p.validators, i)
    ensures Accepts(AllOfFrom(env, p, i, v)) <==>
              forall j :: i <= j < |p.validators| ==> Accepts(Eval(env, p.validators[j], v))
    decreases |p.validators| - i
  {
    if i < |p.validators| {
      AllOfFromAccepts(env, p, i + 1, v);
      if Accepts(Eval(env, p.validators[i], v)) {
        assert AllOfFrom(env, p, i, v) == AllOfFrom(env, p, i + 1, v);
      }
    }
  }

  lemma {:induction false} AllOfFromRejects(env: Env, p: Predicate, i: nat, v: Value)
    requires p.AllOf? && i <= |p.validators|
    requires SteadyValidators(v, p.validators, i)
    ensures Rejects(AllOfFrom(env, p, i, v)) <==>
              exists j :: i <= j < |p.validators| && Rejects(Eval(env, p.validators[j], v)) &&
                forall k :: i <= k < j ==> Accepts(Eval(env, p.validators[k], v))
    decreases |p.validators| - i
  {
    if i < |p.validators| {
      AllOfFromRejects(env, p, i + 1, v);
      var o := Eval(env, p.validators[i], v);
      if Accepts(o) {
        assert AllOfFrom(env, p, i, v) == AllOfFrom(env, p, i + 1, v);
        if Rejects(AllOfFrom(env, p, i, v)) {
          var j :| i + 1 <= j < |p.validators| && Rejects(Eval(env, p.validators[j], v)) &&
                   forall k :: i + 1 <= k < j ==> Accepts(Eval(env, p.validators[k], v));
          assert forall k :: i <= k < j ==> Accepts(Eval(env, p.validators[k], v));
        }
      }
    }
  }

  /**
   * Type::allOf: true iff every validator accepts the value, false iff some
   * validator rejects it after all those before it accepted (the foreach
   * stops there), and the caller's value is left as it was.  For an empty
   * list the closure is true.
   */
  lemma AllOfLaw(env: Env, vs: seq<Predicate>, v: Value)
    requires SteadyValidators(v, vs, 0)
    ensures Accepts(Eval(env, AllOf(vs), v)) <==> forall j :: 0 <= j < |vs| ==> Accepts(Eval(env, vs[j], v))
    ensures Rejects(Eval(env, AllOf(vs), v)) <==>
              exists j :: 0 <= j < |vs| && Rejects(Eval(env, vs[j], v)) &&
                forall k :: 0 <= k < j ==> Accepts(Eval(env, vs[k], v))
    ensures vs == [] ==> Eval(env, AllOf(vs), v) == Returned(true, v)
  {
    AllOfFromAccepts(env, AllOf(vs), 0, v);
    AllOfFromRejects(env, AllOf(vs), 0, v);
  }

  lemma {:induction false} AllOfFromPrefix(env: Env, p: Predicate, q: Predicate, i: nat, cur: Value)
    requires p.AllOf? && q.AllOf? && i <= |p.validators| <= |q.validators|
    requires p.validators == q.validators[..|p.validators|]
    requires !Accepts(AllOfFrom(env, p, i, cur))
    ensures AllOfFrom(env, q, i, cur) == AllOfFrom(env, p, i, cur)
    decreases |p.validators| - i
  {
    assert p.validators[i] == q.validators[i];
    match Eval(env, p.validators[i], cur)
    case Returned(true, w) => AllOfFromPrefix(env, p, q, i + 1, w);
    case Returned(false, _) =>
    case Throw(_) =>
  }

  /** allOf stops at the first validator that does not accept: validators
      after it are never called, so appending any changes nothing. */
  lemma AllOfStopsEarly(env: Env, vs: seq<Predicate>, rest: seq<Predicate>, v: Value)
    requires !Accepts(Eval(env, AllOf(vs), v))
    ensures Eval(env, AllOf(vs + rest), v) == Eval(env, AllOf(vs), v)
  {
    assert vs == (vs + rest)[..|vs|];
    AllOfFromPrefix(env, AllOf(vs), AllOf(vs + rest), 0, v);
  }

  // ---------------------------------------------------------------- anyOf

  lemma {:induction false} AnyOfFromAccepts(env: Env, p: Predicate, i: nat, v: Value)
    requires p.AnyOf? && i <= |p.members|
    requires SteadyMembers(v, p.members, i)
    ensures Accepts(AnyOfFrom(env, p, i, v)) <==>
              exists j :: i <= j < |p.members| && MemberAccepts(env, p.members[j], v) &&
                forall k :: i <= k < j ==> MemberRejects(env, p.members[k], v)
    decreases |p.members| - i
  {
    if i < |p.members| {
      AnyOfFromAccepts(env, p, i + 1, v);
      if MemberRejects(env, p.members[i], v) {
        AnyOfRejectingHead(env, p, i, v);
      } else {
        AnyOfDecidingHead(env, p, i, v);
      }
    }
  }

  /** A rejecting member passes the decision on to the next. */
  lemma AnyOfRejectingHead(env: Env, p: Predicate, i: nat, v: Value)
    requires p.AnyOf? && i < |p.members|
    requires SteadyMembers(v, p.members, i) && MemberRejects(env, p.members[i], v)
    requires Accepts(AnyOfFrom(env, p, i + 1, v)) <==>
               exists j :: i + 1 <= j < |p.members| && MemberAccepts(env, p.members[j], v) &&
                 forall k :: i + 1 <= k < j ==> MemberRejects(env, p.members[k], v)
    ensures Accepts(AnyOfFrom(env, p, i, v)) <==>
              exists j :: i <= j < |p.members| && MemberAccepts(env, p.members[j], v) &&
                forall k :: i <= k < j ==> MemberRejects(env, p.members[k], v)
  {
    assert AnyOfFrom(env, p, i, v) == AnyOfFrom(env, p, i + 1, v);
    if Accepts(AnyOfFrom(env, p, i, v)) {
      var j :| i + 1 <= j < |p.members| && MemberAccepts(env, p.members[j], v) &&
               forall k :: i + 1 <= k < j ==> MemberRejects(env, p.members[k], v);
      assert forall k :: i <= k < j ==> MemberRejects(env, p.members[k], v);
    }
    if exists j :: i <= j < |p.members| && MemberAccepts(env, p.members[j], v) &&
         forall k :: i <= k < j ==> MemberRejects(env, p.members[k], v) {
      var j :| i <= j < |p.members| && MemberAccepts(env, p.members[j], v) &&
               forall k :: i <= k < j ==> MemberRejects(env, p.members[k], v);
      assert j != i;
    }
  }

  /** A member that does not reject decides: anyOf accepts exactly when it
      accepts. */
  lemma AnyOfDecidingHead(env: Env, p: Predicate, i: nat, v: Value)
    requires p.AnyOf? && i < |p.members| && !MemberRejects(env, p.members[i], v)
    ensures Accepts(AnyOfFrom(env, p, i, v)) <==>
              exists j :: i <= j < |p.members| && MemberAccepts(env, p.members[j], v) &&
                forall k :: i <= k < j ==> MemberRejects(env, p.members[k], v)
  {
    if MemberAccepts(env, p.members[i], v) {
      assert Accepts(AnyOfFrom(env, p, i, v));
    } else {
      assert !Accepts(AnyOfFrom(env, p, i, v));
    }
  }

  lemma {:induction false} AnyOfFromRejects(env: Env, p: Predicate, i: nat, v: Value)
    requires p.AnyOf? && i <= |p.members|
    requires SteadyMembers(v, p.members, i)
    ensures Rejects(AnyOfFrom(env, p, i, v)) <==>
              forall k :: i <= k < |p.members| ==> MemberRejects(env, p.members[k], v)
    decreases |p.members| - i
  {
    if i < |p.members| {
      AnyOfFromRejects(env, p, i + 1, v);
      if MemberRejects(env, p.members[i], v) {
        assert AnyOfFrom(env, p, i, v) == AnyOfFrom(env, p, i + 1, v);
      }
    }
  }

  /**
   * Type::anyOf: true iff some member accepts the value and every member
   * before it rejected it (the foreach returns at the first success), false
   * iff every member, in order, rejects it; false, then, for an empty list.
   * A Struct member never rejects: it accepts or throws.
   */
  lemma AnyOfLaw(env: Env, ms: seq<Rule>, v: Value)
    requires SteadyMembers(v, ms, 0)
    ensures Accepts(Eval(env, AnyOf(ms), v)) <==>
              exists j :: 0 <= j < |ms| && MemberAccepts(env, ms[j], v) &&
                forall k :: 0 <= k < j ==> MemberRejects(env, ms[k], v)
    ensures Rejects(Eval(env, AnyOf(ms), v)) <==> forall k :: 0 <= k < |ms| ==> MemberRejects(env, ms[k], v)
    ensures ms == [] ==> Eval(env, AnyOf(ms), v) == Returned(false, v)
  {
    AnyOfFromAccepts(env, AnyOf(ms), 0, v);
    AnyOfFromRejects(env, AnyOf(ms), 0, v);
  }

  lemma {:induction false} AnyOfFromPrefix(env: Env, p: Predicate, q: Predicate, i: nat, cur: Value)
    requires p.AnyOf? && q.AnyOf? && i <= |p.members| <= |q.members|
    requires p.members == q.members[..|p.members|]
    requires !Rejects(AnyOfFrom(env, p, i, cur))
    ensures AnyOfFrom(env, q, i, cur) == AnyOfFrom(env, p, i, cur)
    decreases |p.members| - i
  {
    assert p.members[i] == q.members[i];
    match p.members[i]
    case Pred(r) =>
      match Eval(env, r, cur) {
        case Returned(false, w) => AnyOfFromPrefix(env, p, q, i + 1, w);
        case Returned(true, _) =>
        case Throw(_) =>
      }
    case Nested(_) =>
    case Bad(_) =>
  }

  /** anyOf returns at the first member that accepts (or throws): members
      after it are never reached, so appending any, even one that is neither
      callable nor a Struct, changes nothing. */
  lemma AnyOfStopsEarly(env: Env, ms: seq<Rule>, rest: seq<Rule>, v: Value)
    requires !Rejects(Eval(env, AnyOf(ms), v))
    ensures Eval(env, AnyOf(ms + rest), v) == Eval(env, AnyOf(ms), v)
  {
    assert ms == (ms + rest)[..|ms|];
    AnyOfFromPrefix(env, AnyOf(ms), AnyOf(ms + rest), 0, v);
  }

  lemma {:induction false} AnyOfFromSkip(env: Env, p: Predicate, i: nat, j: nat, v: Value)
    requires p.AnyOf? && i <= j <= |p.members|
    requires SteadyMembers(v, p.members, i)
    requires forall k :: i <= k < j ==> MemberRejects(env, p.members[k], v)
    ensures AnyOfFrom(env, p, i, v) == AnyOfFrom(env, p, j, v)
    decreases j - i
  {
    if i < j {
      assert MemberRejects(env, p.members[i], v);
      AnyOfFromSkip(env, p, i + 1, j, v);
    }
  }

  /**
   * What anyOf does at the first member that does not reject: a Struct the
   * value fails throws that struct's failure instead of falling through to
   * the next member; a member that is neither callable nor a Struct throws
   * (the exception is built without its argument, an ArgumentCountError); a
   * callable that throws lets its exception out.
   */
  lemma AnyOfReached(env: Env, ms: seq<Rule>, j: nat, v: Value)
    requires j < |ms| && SteadyMembers(v, ms, 0)
    requires forall k :: 0 <= k < j ==> MemberRejects(env, ms[k], v)
    ensures ms[j].Nested? && ValidateValue(env, v, ms[j].s).Throw? ==>
              Eval(env, AnyOf(ms), v) == Throw(ValidateValue(env, v, ms[j].s).error)
    ensures ms[j].Bad? ==> Eval(env, AnyOf(ms), v) == Throw(EngineError(ArgumentCount))
    ensures ms[j].Pred? && Eval(env, ms[j].p, v).Throw? ==>
              Eval(env, AnyOf(ms), v) == Eval(env, ms[j].p, v)
  {
    AnyOfFromSkip(env, AnyOf(ms), 0, j, v);
  }

  // -------------------------------------------------------------- arrayOf

  lemma {:induction false} ElementsPassLaw(env: Env, p: Predicate, es: seq<Entry>, i: nat, v: Value)
    requires p.ArrayOf? && p.member.Pred? && i <= |es|
    ensures Accepts(ElementsPass(env, p, es, i, v)) <==>
              forall j :: i <= j < |es| ==> Accepts(Eval(env, p.member.p, es[j].val))
    ensures Rejects(ElementsPass(env, p, es, i, v)) <==>
              exists j :: i <= j < |es| && Rejects(Eval(env, p.member.p, es[j].val)) &&
                forall k :: i <= k < j ==> Accepts(Eval(env, p.member.p, es[k].val))
    decreases |es| - i
  {
    if i < |es| {
      ElementsPassLaw(env, p, es, i + 1, v);
      var o := Eval(env, p.member.p, es[i].val);
      if Accepts(o) && Rejects(ElementsPass(env, p, es, i, v)) {
        var j :| i + 1 <= j < |es| && Rejects(Eval(env, p.member.p, es[j].val)) &&
                 forall k :: i + 1 <= k < j ==> Accepts(Eval(env, p.member.p, es[k].val));
        assert forall k :: i <= k < j ==> Accepts(Eval(env, p.member.p, es[k].val));
      }
    }
  }

  lemma {:induction false} ElementsValidateLaw(env: Env, p: Predicate, es: seq<Entry>, i: nat, v: Value)
    requires p.ArrayOf? && p.member.Nested? && i <= |es|
    ensures Accepts(ElementsValidate(env, p, es, i, v)) <==>
              forall j :: i <= j < |es| ==> ValidateValue(env, es[j].val, p.member.s).Returned?
    decreases |es| - i
  {
    if i < |es| {
      ElementsValidateLaw(env, p, es, i + 1, v);
      var o := ValidateValue(env, es[i].val, p.member.s);
      if o.Throw? {
        assert !Accepts(ElementsValidate(env, p, es, i, v));
      }
    }
  }

  /**
   * Type::arrayOf: false for a value that is not an array, whatever the
   * member (even an invalid one); on an array, true iff every element, in
   * order, is accepted by the callable or validates against the Struct (so
   * true for an empty array), false iff some element is rejected after all
   * those before it were accepted; an invalid member throws even on an empty
   * array.  The caller's value is left as it was.
   */
  lemma ArrayOfLaw(env: Env, m: Rule, v: Value)
    ensures !v.Arr? ==> Eval(env, ArrayOf(m), v) == Returned(false, v)
    ensures v.Arr? && m.Pred? ==>
              (Accepts(Eval(env, ArrayOf(m), v)) <==>
                 forall j :: 0 <= j < |v.entries| ==> Accepts(Eval(env, m.p, v.entries[j].val)))
    ensures v.Arr? && m.Pred? ==>
              (Rejects(Eval(env, ArrayOf(m), v)) <==>
                 exists j :: 0 <= j < |v.entries| && Rejects(Eval(env, m.p, v.entries[j].val)) &&
                   forall k :: 0 <= k < j ==> Accepts(Eval(env, m.p, v.entries[k].val)))
    ensures v.Arr? && m.Nested? ==>
              !Rejects(Eval(env, ArrayOf(m), v)) &&
              (Accepts(Eval(env, ArrayOf(m), v)) <==>
                 forall j :: 0 <= j < |v.entries| ==> ValidateValue(env, v.entries[j].val, m.s).Returned?)
    ensures v.Arr? && m.Bad? ==> Eval(env, ArrayOf(m), v) == Throw(EngineError(ArgumentCount))
    ensures Eval(env, ArrayOf(m), v).Returned? ==> Eval(env, ArrayOf(m), v).value == v
  {
    if v.Arr? {
      if m.Pred? {
        ElementsPassLaw(env, ArrayOf(m), v.entries, 0, v);
      } else if m.Nested? {
        ElementsValidateLaw(env, ArrayOf(m), v.entries, 0, v);
      }
    }
  }

  // ------------------------------------------------- not, classOf, optional

  /** Type::not: the negation of the validator's answer; its exception passes
      through; the value is taken by value, so even an optional's default is
      not passed on. */
  lemma NotLaw(env: Env, q: Predicate, v: Value)
    ensures Accepts(Eval(env, Not(q), v)) <==> Rejects(Eval(env, q, v))
    ensures Rejects(Eval(env, Not(q), v)) <==> Accepts(Eval(env, q, v))
    ensures Eval(env, Not(q), v).Throw? <==> Eval(env, q, v).Throw?
    ensures Eval(env, Not(q), v).Throw? ==> Eval(env, Not(q), v) == Eval(env, q, v)
    ensures Eval(env, Not(q), v).Returned? ==> Eval(env, Not(q), v).value == v
  {
  }

  /** Type::classOf: true only for an object whose class is the named one or
      derives from it; a string, array or scalar is never accepted.  The
      sentinel is an object of class Missing, and classOf accepts it. */
  lemma ClassOfLaw(env: Env, t: string, v: Value)
    ensures Accepts(Eval(env, ClassOf(t), v)) <==>
              (v.Obj? && (SameClass(v.cls, ClassLookupName(t)) || env.derives(v.cls, ClassLookupName(t)))) ||
              (v.Missing? && (SameClass(MissingClass, ClassLookupName(t)) || env.derives(MissingClass, ClassLookupName(t))))
    ensures !Eval(env, ClassOf(t), v).Throw?
    ensures Accepts(Eval(env, ClassOf(MissingClass), MissingSentinel.Property(t)))
  {
  }

  /** classOf('\\DateTime') names the class DateTime, whatever the
      hierarchy: an object of that class is accepted. */
  lemma ClassOfQualifiedName(env: Env)
    ensures Accepts(Eval(env, ClassOf("\\DateTime"), Obj("DateTime")))
  {
    QualifiedNameLookup("DateTime");
  }

  /**
   * Type::optional: on the sentinel with no default, true without calling
   * the validator, the sentinel staying in place; on the sentinel with a
   * default, the validator's answer for the default, which replaces the
   * sentinel; on any other value, the validator's answer for the value.
   */
  lemma OptionalLaw(env: Env, q: Predicate, dflt: Value, v: Value)
    ensures v.Missing? && dflt == Str(MissingClass) ==> Eval(env, Optional(q, dflt), v) == Returned(true, v)
    ensures v.Missing? && dflt != Str(MissingClass) ==> Eval(env, Optional(q, dflt), v) == Eval(env, q, dflt)
    ensures !v.Missing? ==> Eval(env, Optional(q, dflt), v) == Eval(env, q, v)
    ensures !v.Missing? && Eval(env, Optional(q, dflt), v).Returned? ==> Eval(env, Optional(q, dflt), v).value == v
    ensures Optional(q) == Optional(q, Str(MissingClass))
  {
  }

  /**
   * A value a predicate accepted, and perhaps substituted for the sentinel,
   * is accepted again unchanged: running the predicate on what it left is a
   * fixpoint.
   */
  lemma {:induction false} AcceptedValueIsFixpoint(env: Env, p: Predicate, v: Value, w: Value)
    requires Eval(env, p, v) == Returned(true, w)
    ensures Eval(env, p, w) == Returned(true, w)
  {
    if v.Missing? && p.Optional? && p.default != Str(MissingClass) {
      if !w.Missing? {
        AcceptedValueIsFixpoint(env, p.validator, p.default, w);
      }
    }
  }

  // ----------------------------------------- the value the closures return

  /**
   * Only optional hands a substitute back.  Inside allOf the substitute is
   * seen by the next validator, but allOf's own parameter is by value, so
   * the field keeps its sentinel: wrapping optional('is_int', 3) in allOf
   * accepts a missing field without filling it.
   */
  lemma DefaultDiscardedByAllOf(env: Env, k: string)
    ensures Eval(env, Optional(Prim(IsInt), Int(3)), MissingSentinel.Property(k)) == Returned(true, Int(3))
    ensures Eval(env, AllOf([Optional(Prim(IsInt), Int(3)), Prim(IsInt)]), MissingSentinel.Property(k))
            == Returned(true, MissingSentinel.Property(k))
  {
    var p := AllOf([Optional(Prim(IsInt), Int(3)), Prim(IsInt)]);
    var m := MissingSentinel.Property(k);
    assert AllOfFrom(env, p, 2, Int(3)) == Returned(true, Int(3));
    assert AllOfFrom(env, p, 1, Int(3)) == Returned(true, Int(3));
  }

  /**
   * anyOf passes its local value on from a member that rejected it: an
   * optional whose default fails its validator still leaves the default for
   * the next member.  So anyOf(optional('is_string', 5), 'is_int') accepts a
   * missing field, although 'is_int' alone rejects the sentinel.
   */
  lemma AnyOfThreadsRejectedDefault(env: Env, k: string)
    ensures Rejects(Eval(env, Prim(IsInt), MissingSentinel.Property(k)))
    ensures Rejects(Eval(env, Optional(Prim(IsString), Int(5)), MissingSentinel.Property(k)))
    ensures Eval(env, AnyOf([Pred(Optional(Prim(IsString), Int(5))), Pred(Prim(IsInt))]), MissingSentinel.Property(k))
            == Returned(true, MissingSentinel.Property(k))
  {
    var p := AnyOf([Pred(Optional(Prim(IsString), Int(5))), Pred(Prim(IsInt))]);
    assert AnyOfFrom(env, p, 1, Int(5)) == Returned(true, Int(5));
  }
}
