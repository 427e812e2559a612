/**
 * Schemas: the immutable Struct (src/Struct.php) and the rule terms its
 * interface maps fields to.
 *
 * A rule is what a struct's interface may hold for a field: something
 * callable (Predicate), a nested Struct, or any other PHP value, which the
 * validator refuses only when it reaches it.  The combinator factories of
 * src/Property/Type.php are the constructors of Predicate; what the closures
 * they return do is given in module Validation.
 */
module Schema {
  import opened PhpValues

  /** PHP's built-in type predicates used as validators by name. */
  datatype PrimKind = IsString | IsInt | IsFloat | IsNull | IsBool | IsNumeric

  /** A callable validator. */
  datatype Predicate =
    /** A built-in such as 'is_string'. */
    | Prim(kind: PrimKind)
    /** A user-supplied closure, known by a name. */
    | Custom(id: string)
    /** Type::allOf(callable ...$validators). */
    | AllOf(validators: seq<Predicate>)
    /** Type::anyOf(...$validators): callables and/or Structs (anything, in fact). */
    | AnyOf(members: seq<Rule>)
    /** Type::arrayOf($validator): a callable or a Struct (anything, in fact). */
    | ArrayOf(member: Rule)
    /** Type::classOf(string $type). */
    | ClassOf(className: string)
    /** Type::not(callable $validator). */
    | Not(validator: Predicate)
    /** Type::optional(callable $validator, $default = Missing::class): the
        default's default is the class-name string itself. */
    | Optional(validator: Predicate, default: Value := Str(MissingClass))

  /** An interface value. Bad holds a value that is neither callable nor a
      Struct, a raw nested array included. */
  datatype Rule = Pred(p: Predicate) | Nested(s: Struct) | Bad(v: Value)

  datatype Field = Field(key: string, rule: Rule)

  /** name(), interface() and isExhaustive() are the three fields. */
  datatype Struct = Struct(name: string, iface: seq<Field>, exhaustive: bool)

  /** Struct::of($name, $interface, $exhaustive = true): stores its arguments
      as given; no rule is checked here. */
  function Of(name: string, iface: seq<Field>, exhaustive: bool := true): (s: Struct)
    ensures s.name == name && s.iface == iface && s.exhaustive == exhaustive
  {
    Struct(name, iface, exhaustive)
  }

  /** Struct::default($interface): a non-exhaustive struct named 'Struct'. */
  function Default(iface: seq<Field>): (s: Struct)
    ensures s.name == "Struct" && s.iface == iface && !s.exhaustive
  {
    Of("Struct", iface, false)
  }

  /** The keys declared from position `from` on. */
  function FieldKeysFrom(s: Struct, from: nat): (ks: set<string>)
    ensures forall i :: from <= i < |s.iface| ==> s.iface[i].key in ks
    ensures forall k :: k in ks ==> exists i :: from <= i < |s.iface| && s.iface[i].key == k
  {
    set i | from <= i < |s.iface| :: s.iface[i].key
  }

  /** The keys an interface declares. */
  function FieldKeys(s: Struct): set<string> {
    FieldKeysFrom(s, 0)
  }

  /** The interface is a PHP array, so no key is declared twice. */
  predicate DistinctFields(s: Struct) {
    forall i, j :: 0 <= i < j < |s.iface| ==> s.iface[i].key != s.iface[j].key
  }
}
