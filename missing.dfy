/**
 * The sentinel that stands for a property absent from the data array
 * (class Missing): created with the property's name, read back with Name.
 */
module MissingSentinel {
  import opened PhpValues

  /** Missing::property($name). */
  function Property(name: string): (m: Value)
    ensures IsMissing(m) && Name(m) == name
    ensures GetType(m) == "object"
  {
    Missing(name)
  }

  /** is_a($value, Missing::class): recognises the sentinel by its class. */
  predicate IsMissing(v: Value)
    ensures IsMissing(v) ==> GetType(v) == "object"
  {
    v.Missing?
  }

  /** Missing::name(): the name the sentinel was made with. */
  function Name(m: Value): (n: string)
    requires IsMissing(m)
    ensures Missing(n) == m
  {
    m.name
  }

  /** Sentinels made with one name are alike, and a sentinel is told apart
      from every ordinary value, as is_a does.  (PHP's loose `==` would not
      tell it apart from `true`.) */
  lemma SentinelEquality(a: string, b: string, v: Value)
    requires !IsMissing(v)
    ensures (Property(a) == Property(b)) <==> a == b
    ensures Property(a) != v
  {
  }
}
