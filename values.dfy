/**
 * PHP values as the validator sees them, and the ordered associative arrays
 * ("data arrays") that it checks and updates.
 *
 * A PHP array is modelled as an association list: the order of its entries is
 * the insertion order PHP iterates in, and assigning to a key that is not yet
 * present appends a new entry at the end.  Keys are strings.
 */
module PhpValues {

  datatype Option<+T> = None | Some(value: T)

  /** Class name of the sentinel object standing for an absent property. */
  const MissingClass := "SK\\StructArray\\Property\\Missing"

  datatype Value =
    | Null
    | Bool(b: bool)
    | Int(i: int)
    | Float(f: real)
    | Str(s: string)
    | Arr(entries: seq<Entry>)
    /** An object, known by the name of its class. */
    | Obj(cls: string)
    /** The sentinel object handed to a rule in place of an absent property. */
    | Missing(name: string)

  datatype Entry = Entry(key: string, val: Value)

  /** The keys of an array, in iteration order (array_keys). */
  function Keys(d: seq<Entry>): (ks: seq<string>)
    ensures |ks| == |d|
  {
    if d == [] then [] else [d[0].key] + Keys(d[1..])
  }

  /** The key at each position. */
  lemma {:induction false} KeysAt(d: seq<Entry>, i: nat)
    requires i < |d|
    ensures Keys(d)[i] == d[i].key
  {
    if i > 0 {
      KeysAt(d[1..], i - 1);
    }
  }

  /** Reading `$d[$k]`, or None when array_key_exists($k, $d) is false. */
  function Lookup(d: seq<Entry>, k: string): (r: Option<Value>)
    ensures r.Some? <==> k in Keys(d)
  {
    if d == [] then None
    else if d[0].key == k then Some(d[0].val)
    else Lookup(d[1..], k)
  }

  /** The assignment `$d[$k] = $v`: overwrites in place, or appends a new key. */
  function Put(d: seq<Entry>, k: string, v: Value): (r: seq<Entry>)
    ensures Lookup(r, k) == Some(v)
  {
    if d == [] then [Entry(k, v)]
    else if d[0].key == k then [Entry(k, v)] + d[1..]
    else [d[0]] + Put(d[1..], k, v)
  }

  /** An assignment leaves every other key as it was. */
  lemma {:induction false} PutFrame(d: seq<Entry>, k: string, v: Value, j: string)
    requires j != k
    ensures Lookup(Put(d, k, v), j) == Lookup(d, j)
  {
    if d != [] && d[0].key != k {
      PutFrame(d[1..], k, v, j);
      assert Put(d, k, v)[1..] == Put(d[1..], k, v);
    }
  }

  /** An assignment keeps the key order, and a new key goes last. */
  lemma {:induction false} PutKeys(d: seq<Entry>, k: string, v: Value)
    ensures Keys(Put(d, k, v)) == if k in Keys(d) then Keys(d) else Keys(d) + [k]
  {
    if d != [] && d[0].key != k {
      var tail := Put(d[1..], k, v);
      PutKeys(d[1..], k, v);
      assert Put(d, k, v) == [d[0]] + tail;
      assert Keys([d[0]] + tail) == [d[0].key] + Keys(tail);
      assert Keys(d) == [d[0].key] + Keys(d[1..]);
      if k !in Keys(d[1..]) {
        assert [d[0].key] + (Keys(d[1..]) + [k]) == Keys(d) + [k];
      }
    }
  }

  /** Reading from an array followed by further entries: a key found in the
      first part hides the rest. */
  lemma {:induction false} LookupAppend(d: seq<Entry>, e: seq<Entry>, k: string)
    ensures Lookup(d + e, k) == if k in Keys(d) then Lookup(d, k) else Lookup(e, k)
  {
    if d == [] {
      assert d + e == e;
    } else {
      assert (d + e)[0] == d[0];
      assert Keys(d) == [d[0].key] + Keys(d[1..]);
      if d[0].key != k {
        assert (d + e)[1..] == d[1..] + e;
        LookupAppend(d[1..], e, k);
      }
    }
  }

  /** A PHP array never holds the same key twice. */
  predicate DistinctKeys(d: seq<Entry>) {
    forall i, j :: 0 <= i < j < |d| ==> d[i].key != d[j].key
  }

  /** PHP's gettype(). The sentinel is an object like any other. */
  function GetType(v: Value): (t: string)
    ensures t == "object" <==> v.Obj? || v.Missing?
    ensures t == "array" <==> v.Arr?
  {
    match v
    case Null => "NULL"
    case Bool(_) => "boolean"
    case Int(_) => "integer"
    case Float(_) => "double"
    case Str(_) => "string"
    case Arr(_) => "array"
    case Obj(_) => "object"
    case Missing(_) => "object"
  }

  /** One character, ASCII lower-cased. */
  function LowerChar(c: char): char {
    if 'A' <= c <= 'Z' then (c as int + 32) as char else c
  }

  /** ASCII lower-casing, as PHP folds class names for comparison. */
  function LowerAscii(s: string): (r: string)
    ensures |r| == |s|
  {
    seq(|s|, i requires 0 <= i < |s| => LowerChar(s[i]))
  }

  /** Class names are compared without regard to ASCII case: the same class. */
  predicate SameClass(a: string, b: string) {
    LowerAscii(a) == LowerAscii(b)
  }

  /** The name a class is looked up by: one leading backslash, marking a
      fully qualified name, is dropped. */
  function ClassLookupName(t: string): (n: string)
    ensures |n| <= |t| && (|n| == |t| || (|t| > 0 && t[0] == '\\'))
  {
    if |t| > 0 && t[0] == '\\' then t[1..] else t
  }

  /** A fully qualified name is looked up as the bare name, and the bare
      name as itself. */
  lemma QualifiedNameLookup(n: string)
    requires |n| == 0 || n[0] != '\\'
    ensures ClassLookupName("\\" + n) == n
    ensures ClassLookupName(n) == n
  {
    assert ("\\" + n)[1..] == n;
  }

  /** Lower-casing a lower-cased character changes nothing. */
  lemma LowerCharIdempotent(c: char)
    ensures LowerChar(LowerChar(c)) == LowerChar(c)
  {
  }

  /** Every class name names the same class as its lower-cased form, so
      names that differ only in ASCII case name one class. */
  lemma SameClassLower(a: string)
    ensures SameClass(a, LowerAscii(a))
  {
    forall i | 0 <= i < |a| ensures LowerAscii(LowerAscii(a))[i] == LowerAscii(a)[i] {
      LowerCharIdempotent(a[i]);
    }
  }

  /** An example: `DateTime` and `datetime` name one class, while `DateTime`
      and `Date`, whose lower-cased forms differ, do not. */
  lemma SameClassIgnoresCase()
    ensures SameClass("DateTime", "datetime")
    ensures !SameClass("DateTime", "Date")
  {
    assert LowerChar('D') == 'd' && LowerChar('T') == 't';
    assert LowerAscii("DateTime") == "datetime";
    assert LowerAscii("datetime") == "datetime";
  }

  /** Assigning to any key keeps a PHP array free of duplicate keys. */
  lemma {:induction false} PutKeepsDistinctKeys(d: seq<Entry>, k: string, v: Value)
    requires DistinctKeys(d)
    ensures DistinctKeys(Put(d, k, v))
  {
    var r := Put(d, k, v);
    if d == [] {
    } else if d[0].key == k {
      assert forall i :: 0 <= i < |d| ==> r[i].key == d[i].key;
    } else {
      var tail := Put(d[1..], k, v);
      PutKeepsDistinctKeys(d[1..], k, v);
      PutKeys(d[1..], k, v);
      assert r == [d[0]] + tail;
      forall j | 0 < j < |r| ensures r[0].key != r[j].key {
        assert r[j] == tail[j - 1];
        KeysAt(tail, j - 1);
        if j - 1 < |d| - 1 {
          KeysAt(d[1..], j - 1);
          assert Keys(tail)[j - 1] == Keys(d[1..])[j - 1] == d[j].key;
        }
      }
    }
  }
}
