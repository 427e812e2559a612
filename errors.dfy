/**
 * The failures the validator reports (the classes under src/Exception) and the PHP engine
 * errors that escape it.
 *
 * Every exception class of the library is a constructor of Error; its
 * message is given by Message and its chained cause by Previous.  Errors
 * raised by the PHP engine itself (subclasses of \Error, not \Exception)
 * are EngineError: they have no message of the library's making.
 */
module Errors {
  import opened PhpValues

  datatype EngineFault =
    /** ArgumentCountError: a constructor called with too few arguments. */
    | ArgumentCount
    /** TypeError: an argument of the wrong type, such as a non-array passed
        where an array is declared, or an \Error passed where an \Exception is. */
    | TypeMismatch

  datatype Error =
    | UnexpectedProperty(properties: seq<string>)
    | InvalidValue(property: string)
    | MissingProperty(property: string)
    | InvalidValidator(typeName: string)
    /** An exception thrown by a user-supplied predicate, with its message. */
    | Raised(message: string)
    /** The wrapper naming the struct whose validation failed. */
    | StructValidation(structName: string, reason: Error)
    | EngineError(fault: EngineFault)

  /** The error is an \Exception (so StructValidationException accepts it). */
  predicate IsException(e: Error)
    // An engine error is an \Error, never an \Exception, and a wrapper is
    // an \Exception only over one.
    ensures e.EngineError? ==> !IsException(e)
    ensures e.StructValidation? && IsException(e) ==> IsException(e.reason)
  {
    match e
    case EngineError(_) => false
    case StructValidation(_, reason) => IsException(reason)
    case _ => true
  }

  /** An exception that is not itself a wrapper. */
  predicate IsLeaf(e: Error) {
    IsException(e) && !e.StructValidation?
  }

  /** What a validation call lets escape: the wrapper over one leaf, or an
      engine TypeError raised while wrapping. */
  predicate IsWrapped(e: Error) {
    (e.StructValidation? && IsLeaf(e.reason)) || e == EngineError(TypeMismatch)
  }

  /** An error with at most one wrapper, over a leaf: what may reach the catch
      block of a validation call. */
  predicate Chained(e: Error) {
    match e
    case StructValidation(_, reason) => IsLeaf(reason)
    case _ => true
  }

  /** The length of all parts together. */
  function TotalLength(parts: seq<string>): nat {
    if parts == [] then 0 else |parts[0]| + TotalLength(parts[1..])
  }

  /** implode($glue, $parts): every part, and one glue between neighbours. */
  function Join(parts: seq<string>, glue: string): (r: string)
    ensures |parts| > 0 ==> |r| == TotalLength(parts) + (|parts| - 1) * |glue|
    ensures parts == [] ==> r == ""
  {
    if |parts| == 0 then ""
    else if |parts| == 1 then parts[0]
    else parts[0] + glue + Join(parts[1..], glue)
  }

  /** getMessage() of each exception. */
  function Message(e: Error): (m: string)
    requires IsException(e)
    // The library's own messages are never empty, and a wrapper's message
    // ends with its cause's.
    ensures !e.Raised? && !e.StructValidation? ==> |m| > 0
    ensures e.StructValidation? ==>
              |m| >= |Message(e.reason)| && m[|m| - |Message(e.reason)|..] == Message(e.reason)
  {
    match e
    case UnexpectedProperty(ps) =>
      (if |ps| == 1 then "Unexpected property '" else "Unexpected properties '") + Join(ps, ", ") + "'"
    case InvalidValue(p) => "Invalid value for property '" + p + "'"
    case MissingProperty(p) => "Missing value for property: '" + p + "'"
    case InvalidValidator(t) => "Cannot use '" + t + "' as struct value validator"
    case Raised(m) => m
    case StructValidation(n, reason) => "Struct '" + n + "' failed validation: " + Message(reason)
  }

  /** getPrevious(): only the wrapper chains a cause. */
  function Previous(e: Error): (r: Option<Error>)
    ensures r.Some? <==> e.StructValidation?
  {
    if e.StructValidation? then Some(e.reason) else None
  }

  /** new InvalidValidatorException($rule): only the rule's type is reported. */
  function InvalidValidatorFor(rule: Value): (e: Error)
    ensures IsLeaf(e)
    ensures Message(e) == "Cannot use '" + GetType(rule) + "' as struct value validator"
  {
    InvalidValidator(GetType(rule))
  }

  /**
   * The catch block of Validator::validate: a wrapper is rethrown as it is;
   * any other exception is wrapped once with the struct's name; an engine
   * error cannot be passed to StructValidationException's constructor, which
   * then itself fails with a TypeError.
   */
  function Wrap(structName: string, e: Error): (w: Error)
    // What leaves the catch block is a StructValidationException, or the
    // TypeError raised by its constructor.
    ensures w.StructValidation? || w == EngineError(TypeMismatch)
  {
    if e.StructValidation? then e
    else if IsException(e) then StructValidation(structName, e)
    else EngineError(TypeMismatch)
  }

  /** Whatever reaches the catch block leaves it as one wrapper over a leaf,
      or as an engine TypeError. */
  lemma WrapChained(structName: string, e: Error)
    requires Chained(e)
    ensures IsWrapped(Wrap(structName, e))
    ensures e.StructValidation? ==> Wrap(structName, e) == e
  {
  }

  /** Wrapping a wrapped error again changes nothing: the first wrapper stays. */
  lemma WrapOnce(outer: string, inner: string, e: Error)
    ensures Wrap(outer, Wrap(inner, e)) == Wrap(inner, e)
  {
  }

  /** A leaf is wrapped into exactly one level: message prefixed with the
      struct name, cause the leaf itself. */
  lemma WrapLeaf(structName: string, e: Error)
    requires IsLeaf(e)
    ensures IsWrapped(Wrap(structName, e))
    ensures Message(Wrap(structName, e)) == "Struct '" + structName + "' failed validation: " + Message(e)
    ensures Previous(Wrap(structName, e)) == Some(e)
  {
  }

  /** One unexpected key: the singular form. */
  lemma UnexpectedPropertyMessageOne(k: string)
    ensures Message(UnexpectedProperty([k])) == "Unexpected property '" + k + "'"
  {
    assert Join([k], ", ") == k;
  }

  /** Several unexpected keys: the plural form, keys joined in order. */
  lemma UnexpectedPropertyMessageMany(ks: seq<string>)
    requires |ks| >= 2
    ensures Message(UnexpectedProperty(ks)) == "Unexpected properties '" + Join(ks, ", ") + "'"
  {
  }

  /** implode keeps the order: a further part is added at the end. */
  lemma {:induction false} JoinAppend(parts: seq<string>, last: string, glue: string)
    requires |parts| > 0
    ensures Join(parts + [last], glue) == Join(parts, glue) + glue + last
  {
    if |parts| == 1 {
      assert parts + [last] == [parts[0], last];
      assert Join([last], glue) == last;
    } else {
      JoinAppend(parts[1..], last, glue);
      assert (parts + [last])[1..] == parts[1..] + [last];
    }
  }

  /** The joined string starts with the first part. */
  lemma {:induction false} JoinPrefix(parts: seq<string>, glue: string)
    requires |parts| > 0
    ensures |Join(parts, glue)| >= |parts[0]|
    ensures Join(parts, glue)[..|parts[0]|] == parts[0]
  {
    if |parts| > 1 {
      var j := Join(parts, glue);
      assert j == parts[0] + (glue + Join(parts[1..], glue));
    }
  }

  /** The field-level messages: the property is quoted in a fixed template. */
  lemma FieldFailureMessages(p: string)
    ensures Message(InvalidValue(p)) == "Invalid value for property '" + p + "'"
    ensures Message(MissingProperty(p)) == "Missing value for property: '" + p + "'"
  {
  }

  /** A message built from a fixed template names its argument unambiguously. */
  lemma TemplateInjective(prefix: string, a: string, b: string, suffix: string)
    requires prefix + a + suffix == prefix + b + suffix
    ensures a == b
  {
    var m := prefix + a + suffix;
    assert a == m[|prefix|..|m| - |suffix|];
    assert b == (prefix + b + suffix)[|prefix|..|m| - |suffix|];
  }

  /** The property (or type name) in an InvalidValue, MissingProperty or
      InvalidValidator message can be read back from the message. */
  lemma {:induction false} MessagesNameTheirProperty(p: string, q: string)
    ensures Message(InvalidValue(p)) == Message(InvalidValue(q)) ==> p == q
    ensures Message(MissingProperty(p)) == Message(MissingProperty(q)) ==> p == q
    ensures Message(InvalidValidator(p)) == Message(InvalidValidator(q)) ==> p == q
  {
    if Message(InvalidValue(p)) == Message(InvalidValue(q)) {
      TemplateInjective("Invalid value for property '", p, q, "'");
    }
    if Message(MissingProperty(p)) == Message(MissingProperty(q)) {
      TemplateInjective("Missing value for property: '", p, q, "'");
    }
    if Message(InvalidValidator(p)) == Message(InvalidValidator(q)) {
      TemplateInjective("Cannot use '", p, q, "' as struct value validator");
    }
  }
}
