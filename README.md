# struct-array validation, modelled in Dafny

This project models the core of the PHP library `SK\StructArray`. The library
checks a PHP associative array against a `Struct` schema. A struct has a
name, an ordered interface (field key to rule) and an exhaustive flag. A rule
is one of three things:

- a callable predicate, either a built-in such as `is_string`, a combinator
  built by `Type::allOf`, `anyOf`, `arrayOf`, `classOf`, `not` or `optional`,
  or a user closure;
- a nested `Struct`;
- anything else, which is reported as an invalid validator.

`Validator::validate(array &$data, Struct $struct)` does the following:

1. An exhaustive struct refuses undeclared keys.
2. It walks the fields in declared order. An absent key is replaced by a
   `Missing` sentinel.
3. It applies each field's rule. When an `optional` default replaces the
   sentinel, the default is written back into the caller's array.
4. Any failure is wrapped once in `StructValidationException`, which carries
   the struct's name.

The call returns `true` or throws.

## Modules

- `PhpValues` (values.dfy): PHP values, and data arrays as ordered association
  lists. It defines reading a key, assignment and `gettype`.
- `MissingSentinel` (missing.dfy): the `Missing` sentinel object.
- `Errors` (errors.dfy): the five exception classes, with their messages and
  the cause chained by the wrapper. PHP engine errors are kept apart.
- `Schema` (schema.dfy): `Struct::of`, `Struct::default` and the rule terms.
  The combinator factories are constructors of `Predicate`.
- `Validation` (validation.dfy): what the closures returned by the combinators
  do (`Eval`) and what `validate` computes (`ValidateStruct`), as functions.
  The two are mutually recursive, because `anyOf` and `arrayOf` call back into
  `validate` for `Struct` members.
- `Validator` (validator.dfy): `Validator::validate` written as the program
  runs it. It is a method with the per-field loop, assigning into the data
  array and stopping at the first throw. It is proved equal to
  `ValidateStruct`.
- `TypeLaws` (type_laws.dfy) and `ValidatorLaws` (validator_laws.dfy): the
  properties the combinators and the validator promise.

## How PHP is represented

**By-reference parameters.** They become explicit results. A predicate call
returns `Returned(ok, value)`, where `value` is what its `&$value` argument
holds afterwards, or `Throw(error)`. A validation returns the data array as
it stands when the call ends, whether the call succeeded or threw.

**What the model does not interpret.** `Env` supplies three things:

- `is_numeric` on strings;
- the class hierarchy used by `is_a`;
- the user-supplied closures, by name.

**Engine errors.** Two PHP engine errors can escape the library, and both are
modelled as `EngineError`:

- `new InvalidValidatorException()` without its argument (src/Property/Type.php:60,98) raises an ArgumentCountError.
- A non-array passed to `validate(array &$data)` raises a TypeError. So does an `\Error` given to `StructValidationException`, whose constructor demands an `\Exception`.

## Behaviour as written

The model follows the code where the doc comments promise something else:

- A nested struct's failure is not turned into `InvalidValueException` for
  the field and is not wrapped again. It reaches the caller as the nested
  `validate` threw it, naming only the innermost struct (src/Validator.php:41,55-59).
- `anyOf` and `arrayOf` let a failing `Struct` member's exception out instead
  of returning false (src/Property/Type.php:56,93).
- `validate` never returns false, so the `InvalidValueException` branch at
  src/Validator.php:41-43 cannot be taken.
- A raw nested mapping in an interface is not a shorthand for a struct. It
  reaches the invalid-validator branch with type `array`.
- `anyOf` and `allOf` hand their local `$value` from one member to the next.
  In `allOf` the next validator sees a default that an accepting `optional`
  substituted; `allOf` stops at a rejecting one (src/Property/Type.php:29-31).
  In `anyOf` a default that a rejecting `optional` substituted is seen by the
  members after it. The closure's own parameter is taken by value, so the
  substitute never reaches the field.
- The sentinel is an object of class `Missing`, so `classOf(Missing::class)`
  accepts an absent field.
- `is_a` compares class names without regard to ASCII case, so
  `classOf('datetime')` accepts a `DateTime` object.

## Model

| member | source | states |
|---|---|---|
| PhpValues.Lookup | src/Validator.php:24-26 | a key is found exactly when array_key_exists holds for it |
| PhpValues.Put | src/Validator.php:35 | after `$data[$field] = $value` the key reads the new value |
| PhpValues.PutFrame | src/Validator.php:35 | the assignment leaves every other key's value as it was |
| PhpValues.PutKeys | src/Validator.php:35 | the assignment keeps the key order; a new key is appended last |
| PhpValues.PutKeepsDistinctKeys | src/Validator.php:35 | the assignment never creates a duplicate key |
| PhpValues.GetType | src/Exception/InvalidValidatorException.php:9 | gettype says "object" exactly for objects, the sentinel included, and "array" exactly for arrays |
| PhpValues.SameClassLower | src/Property/Type.php:116 | every class name names the same class as its ASCII lower-cased form, so names differing only in ASCII case name one class |
| PhpValues.QualifiedNameLookup | src/Property/Type.php:116 | a fully qualified class name (one leading backslash) is looked up as the bare name, and a bare name as itself |
| PhpValues.SameClassIgnoresCase | src/Property/Type.php:116 | an example: `DateTime` and `datetime` name one class; `DateTime` and `Date`, whose lower-cased forms differ, do not |
| MissingSentinel.Property | src/Property/Missing.php:14-24 | the sentinel is recognised as Missing, `name()` gives back the property name, and gettype calls it an object |
| MissingSentinel.IsMissing | src/Validator.php:27 | the sentinel is recognised by its class, and gettype calls it an object |
| MissingSentinel.Name | src/Property/Missing.php:21-24 | `name()` gives back the name the sentinel was made with, so the sentinel is rebuilt from it |
| MissingSentinel.SentinelEquality | src/Property/Missing.php:14-19 | two sentinels are alike iff made with the same name; a sentinel is distinguishable from every ordinary value, as is_a tells it apart |
| Errors.Message | src/Exception/StructValidationException.php:11-12 | the library's own messages are never empty, and a wrapper's message ends with its cause's message; the templates are stated by Errors.FieldFailureMessages, the UnexpectedProperty message lemmas, Errors.InvalidValidatorFor and Errors.WrapLeaf |
| Errors.Join | src/Exception/UnexpectedPropertyException.php:12 | implode's result is as long as all parts together plus one glue between each pair of neighbours, and empty for no parts |
| Errors.Wrap | src/Validator.php:55-59 | what leaves the catch block is a StructValidationException, or the TypeError its constructor raises when given an engine error |
| Errors.FieldFailureMessages | src/Exception/InvalidValueException.php:7-10 | the invalid-value and missing-property messages quote the property in their fixed templates |
| Errors.IsException | src/Exception/StructValidationException.php:9 | an engine error is never an `\Exception`, and a wrapper is one only over one; Errors.WrapChained states what the catch block makes of each |
| Errors.Previous | src/Exception/StructValidationException.php:11-15 | only the wrapper chains a cause; Errors.WrapLeaf states that the cause is the wrapped leaf |
| Errors.InvalidValidatorFor | src/Exception/InvalidValidatorException.php:7-11 | the exception is a leaf and its message names the rule's gettype |
| Errors.WrapChained | src/Validator.php:48-60 | anything that reaches the catch block leaves it as one wrapper over a leaf, or as an engine TypeError; a wrapper is rethrown unchanged |
| Errors.WrapOnce | src/Validator.php:55-57 | wrapping an already-wrapped failure changes nothing |
| Errors.WrapLeaf | src/Exception/StructValidationException.php:9-16 | the wrapper's message is "Struct '<name>' failed validation: " plus the cause's message, and the cause is kept as previous |
| Errors.UnexpectedPropertyMessageOne | src/Exception/UnexpectedPropertyException.php:7-14 | one key gives "Unexpected property '<key>'" |
| Errors.UnexpectedPropertyMessageMany | src/Exception/UnexpectedPropertyException.php:7-14 | two or more keys give the plural form with the keys joined by ", " |
| Errors.JoinAppend | src/Exception/UnexpectedPropertyException.php:12 | implode keeps the order: a further key appears at the end after the glue |
| Errors.JoinPrefix | src/Exception/UnexpectedPropertyException.php:12 | the joined list starts with the first key |
| Errors.MessagesNameTheirProperty | src/Exception/InvalidValueException.php:7-10 | the invalid-value, missing-property and invalid-validator messages determine the property (or type) they name |
| Schema.Of | src/Struct.php:24-34 | the struct stores name, interface and exhaustive flag unchanged (exhaustive by default); no rule is checked |
| Schema.Default | src/Struct.php:42-45 | the struct is named 'Struct' and is not exhaustive |
| Validation.PrimHolds | src/Validator.php:29-30 | no built-in type predicate accepts an array, an object or the sentinel; is_string, is_int, is_float, is_null and is_bool hold exactly when gettype names their type |
| Validation.IsA | src/Property/Type.php:116 | is_a is true only for objects, and true for an object whose class name equals the type, less one leading backslash, up to ASCII case, the sentinel included for the Missing class |
| Validation.UnexpectedKeys | src/Validator.php:18-20 | the list is no longer than the data; UnexpectedKeysExactly states that it holds exactly the undeclared keys, and ValidatorLaws.UnexpectedKeysAppend that it keeps their order |
| Validation.FieldValue | src/Validator.php:24-27 | a present key yields its stored value (null included); an absent key yields a sentinel naming the field |
| Validation.UnexpectedKeysExactly | src/Validator.php:18-20 | the undeclared keys are exactly the data's keys outside the interface |
| Validation.PutFills | src/Validator.php:34-36 | writing a substitute for an absent or sentinel field changes only that key, to a real value |
| Validation.Eval | src/Property/Type.php:25-161 | only optional hands back a different value, and only in place of a sentinel; what escapes is a user exception, an engine error or an already-wrapped struct failure |
| Validation.ByValue | src/Property/Type.php:27 | a closure taking `$value` by value returns its inner answer or exception unchanged, with the caller's value untouched (also anyOf, src/Property/Type.php:49) |
| Validation.AllOfFrom | src/Property/Type.php:27-35 | what allOf's foreach throws is a user exception, an engine error or a wrapped struct failure |
| Validation.AnyOfFrom | src/Property/Type.php:49-65 | what anyOf's foreach throws is a user exception, an engine error or a wrapped struct failure |
| Validation.ElementsPass | src/Property/Type.php:85-90 | arrayOf over a callable leaves the caller's value untouched |
| Validation.ElementsValidate | src/Property/Type.php:91-96 | arrayOf over a Struct never returns false: every element validates, or the failure is thrown |
| Validation.ValidateValue | src/Property/Type.php:56 | a nested validate returns true only for an array; its failure is a wrapped exception or an engine TypeError |
| Validation.CheckField | src/Validator.php:24-46 | a field's turn throws at most one wrapper over a leaf; a nested struct's defaults never reach the outer array |
| Validation.CheckFieldOutcomes | src/Validator.php:29-46 | InvalidValue exactly when a callable rule returns false; MissingProperty exactly when a Struct rule meets an absent key; InvalidValidator exactly for any other rule; each names the field; any other failure was thrown by the rule |
| Validation.CheckFieldFills | src/Validator.php:33-36 | a field's turn fills at most its own key, and only where it was absent or held a sentinel |
| Validation.CheckFieldWritesBack | src/Validator.php:29-36 | a passing callable rule goes on, and leaves at its key the value the rule substituted for a sentinel, and otherwise what the key held before |
| Validation.CheckFields | src/Validator.php:23-47 | the loop throws at most one wrapper over a leaf |
| Validation.CheckFieldsFills | src/Validator.php:23-47 | the loop from a field on fills only the keys of the fields it visits |
| Validation.ValidateStruct | src/Validator.php:15-63 | whatever validate throws is a single wrapper over a leaf, or an engine TypeError |
| Validation.ValidateStructFills | src/Validator.php:33-36 | the caller's array changes only where a declared field was absent or held a sentinel, to a real value, keeping the key order, whether the call returns or throws |
| Validator.Validate | src/Validator.php:15-63 | the imperative validate leaves the array and gives the verdict of ValidateStruct; a failure is wrapped once; only declared fields that were absent or held a sentinel are filled |
| Validator.ValidateFields | src/Validator.php:23-47 | the foreach, stopping at the first throw, computes the loop's result: the array as left and the first failure, if any |
| Validator.ValidateField | src/Validator.php:24-46 | one turn of the foreach computes the field's step; a throwing turn leaves the array alone |
| TypeLaws.AllOfFromAccepts | src/Property/Type.php:27-35 | allOf's loop returns true iff every remaining validator accepts |
| TypeLaws.AllOfFromRejects | src/Property/Type.php:27-35 | allOf's loop returns false iff some validator rejects after all before it accepted |
| TypeLaws.AllOfLaw | src/Property/Type.php:25-36 | allOf is true iff every validator accepts, false iff the first non-accepting one rejects, and true for an empty list |
| TypeLaws.AllOfFromPrefix | src/Property/Type.php:29-31 | once allOf's loop stops, validators after the stopping point make no difference |
| TypeLaws.AllOfStopsEarly | src/Property/Type.php:29-31 | appending validators after one that does not accept changes nothing |
| TypeLaws.AnyOfFromAccepts | src/Property/Type.php:49-65 | anyOf's loop returns true iff some member accepts and every member before it rejected |
| TypeLaws.AnyOfFromRejects | src/Property/Type.php:49-65 | anyOf's loop returns false iff every remaining member rejects |
| TypeLaws.AnyOfLaw | src/Property/Type.php:47-66 | anyOf is true at the first accepting member, false iff every member rejects, false when empty; a Struct member never rejects |
| TypeLaws.AnyOfFromPrefix | src/Property/Type.php:50-61 | once anyOf's loop stops, members after the stopping point make no difference |
| TypeLaws.AnyOfStopsEarly | src/Property/Type.php:50-61 | members after the first accepting (or throwing) one are never reached, even invalid ones |
| TypeLaws.AnyOfReached | src/Property/Type.php:55-61 | at the first non-rejecting member, a failing Struct throws its failure, an invalid member throws ArgumentCountError, and a throwing callable lets its exception out |
| TypeLaws.ElementsPassLaw | src/Property/Type.php:85-90 | arrayOf over a callable accepts iff every element is accepted, and rejects iff the first non-accepted element is rejected |
| TypeLaws.ElementsValidateLaw | src/Property/Type.php:91-96 | arrayOf over a Struct accepts iff every element validates |
| TypeLaws.ArrayOfLaw | src/Property/Type.php:78-103 | false for any non-array whatever the member; element-wise results on arrays (true when empty); an invalid member throws even on an empty array; the value is untouched |
| TypeLaws.NotLaw | src/Property/Type.php:129-134 | not accepts iff the validator rejects, and the reverse; exceptions pass through; the value is untouched |
| TypeLaws.ClassOfLaw | src/Property/Type.php:113-118 | classOf accepts exactly objects of the class (named up to ASCII case, with or without one leading backslash) or a derived one, including the sentinel for the Missing class |
| TypeLaws.ClassOfQualifiedName | src/Property/Type.php:113-118 | classOf('\\DateTime') accepts a DateTime object, whatever the hierarchy |
| TypeLaws.OptionalLaw | src/Property/Type.php:150-162 | on a sentinel with no default, true and the sentinel stays; with a default, the validator's answer for the default; otherwise the validator's answer for the value; the default's default is the class-name string |
| TypeLaws.AcceptedValueIsFixpoint | src/Property/Type.php:150-162 | a value a predicate accepted and left is accepted again and left unchanged |
| TypeLaws.DefaultDiscardedByAllOf | src/Property/Type.php:25-36 | inside allOf an optional's default is seen by the next validator but never reaches the field |
| TypeLaws.AnyOfThreadsRejectedDefault | src/Property/Type.php:47-66 | a rejecting optional's default is passed on to the next anyOf member, so anyOf(optional('is_string', 5), 'is_int') accepts an absent field |
| ValidatorLaws.UnexpectedKeysAppend | src/Validator.php:18-20 | undeclared keys are listed in the data's order |
| ValidatorLaws.ExhaustiveRejectsUnexpected | src/Validator.php:18-21 | an exhaustive struct with undeclared keys throws before any field is checked, leaves the array alone, and lists exactly those keys |
| ValidatorLaws.CheckFieldLocal | src/Validator.php:24-46 | a field's turn depends on the array only through the value at its key |
| ValidatorLaws.FirstFailureNone | src/Validator.php:23-47 | no field fails exactly when every field's turn goes on |
| ValidatorLaws.FirstFailureWitness | src/Validator.php:23-47 | a reported field failure is that of a field whose turn stops after all fields before it passed |
| ValidatorLaws.CheckFieldsFirstFailure | src/Validator.php:23-47 | the loop's verdict is that of the first failing field, each field judged on the caller's original value |
| ValidatorLaws.ValidateVerdict | src/Validator.php:15-63 | the verdict is the unexpected-key failure, else the first failing field's failure wrapped once, else true; true iff no undeclared key (when exhaustive) and every field passes |
| ValidatorLaws.NestedFailureNotRewrapped | src/Validator.php:37-43 | a nested struct's failure reaches the caller exactly as the nested validate threw it |
| ValidatorLaws.InvalidRuleReportedWhenReached | src/Validator.php:44-46 | an invalid rule is accepted by Struct::of and reported only by validate, as InvalidValidator with its type, wrapped |
| ValidatorLaws.RaisedExceptionWrapped | src/Validator.php:48-59 | a user rule's exception is wrapped once with the struct's name and kept as the cause |
| ValidatorLaws.CheckFieldsAgree | src/Validator.php:23-47 | arrays agreeing on the declared keys give the same loop verdict and the same declared values |
| ValidatorLaws.NonExhaustiveIgnoresExtras | src/Validator.php:18-19 | a non-exhaustive struct judges only declared keys and never changes other keys |
| ValidatorLaws.ExtraKeysIgnored | src/Validator.php:18-19 | appending undeclared keys does not change a non-exhaustive struct's verdict |
| ValidatorLaws.CheckFieldsWriteBack | src/Validator.php:23-47 | once the fields up to j pass on the caller's data, j's key holds the value its rule substituted for the sentinel when the loop ends, whether a later field throws or not |
| ValidatorLaws.ValidateWritesBack | src/Validator.php:33-36 | validate writes back a field's substitute for every field it gets past and does not undo it when a later field fails |
| ValidatorLaws.CheckFieldsKeepDistinctKeys | src/Validator.php:23-47 | the loop never puts a key into the array twice |
| ValidatorLaws.ValidateKeepsDistinctKeys | src/Validator.php:15-63 | the array the caller gets back has no duplicate key, whether validate returns or throws |
| ValidatorLaws.UpdatesNotTransactional | src/Validator.php:35 | a default written for an earlier field stays in the array when a later field fails |
| ValidatorLaws.CheckFieldsRerun | src/Validator.php:23-47 | running the loop again on the array a successful loop left changes nothing and succeeds |
| ValidatorLaws.ValidateIdempotent | src/Validator.php:15-63 | validating the array a successful validation left succeeds again and changes nothing |

## Left out

- Integer keys: PHP array keys may be integers; the model's keys are strings only.
- The built-in predicates are type-tag checks. `is_numeric` on strings and the class hierarchy used by `is_a` are parameters in `Env`, not interpreted. Class names are looked up with one leading backslash dropped and compared up to ASCII case, as `is_a` does; the hierarchy `Env.derives` receives the name without that backslash and must treat names that differ only in ASCII case alike.
- Floats are reals; no float arithmetic or formatting is modelled.
- User closures take their value by value and either return a boolean or throw an exception of their own (`Raised`, a leaf that validate wraps). A closure that takes `&$value` or throws an `\Error` is not modelled. Nor is a closure that throws a `StructValidationException`, for instance by calling `validate` on an inner struct. PHP rethrows that unchanged (src/Validator.php:55-59), so only the inner struct is named, whereas the model would wrap the closure's exception again.
- User closures are deterministic and stateless: `Env.custom` is a function of the closure's name and the value. A closure that keeps state through `use (&$x)`, such as a uniqueness check inside `arrayOf`, or that has side effects, is not modelled. ValidatorLaws.ValidateIdempotent and TypeLaws.AcceptedValueIsFixpoint rely on two calls agreeing, and TypeLaws.ElementsPassLaw judges each element on its own; all three hold only for such closures.
- An object of class `Missing` exists only as the sentinel `Missing(name)`. An `Obj` value never has class `Missing` or a class derived from it, so `MissingSentinel.IsMissing` needs no class hierarchy. A user-made `new Missing()` in the data, which PHP would treat as absent, is not modelled.
- Exception codes, stack traces and the exception class hierarchy are not modelled. Engine errors carry no message.
- src/functions.php is not part of this model: each of its functions forwards to `Type`, `Struct` or `Validator` unchanged.
- The repository's demonstration scripts are not part of this model. They print output, and one of them inspects the file system.
- `Struct::name()`, `interface()` and `isExhaustive()` are the fields of the `Struct` datatype.
- TypeLaws.AllOfFromAccepts: stated only for a value no validator from the current one on can replace (no sentinel, or no `optional`), as for TypeLaws.AllOfLaw.
- TypeLaws.AllOfFromRejects: stated only for a value no validator from the current one on can replace, as for TypeLaws.AllOfLaw.
- TypeLaws.AnyOfFromAccepts: stated only for a value no member from the current one on can replace, as for TypeLaws.AnyOfLaw.
- TypeLaws.AnyOfFromRejects: stated only for a value no member from the current one on can replace, as for TypeLaws.AnyOfLaw.
- TypeLaws.AnyOfReached: stated only for a value no member from the current one on can replace, as for TypeLaws.AnyOfLaw.
- TypeLaws.AnyOfFromSkip: stated only for a value no member from the current one on can replace, as for TypeLaws.AnyOfLaw.
- TypeLaws.AllOfLaw: stated only for a value no member can replace. That is a value other than the sentinel, or a list without `optional`. The threaded case is shown by TypeLaws.DefaultDiscardedByAllOf.
- TypeLaws.AnyOfLaw: stated only for a value no member can replace, as for allOf. The threaded case is shown by TypeLaws.AnyOfThreadsRejectedDefault.
- ValidatorLaws.ValidateVerdict, ValidatorLaws.ValidateIdempotent: stated for interfaces without repeated keys, which is every PHP array.
- ValidatorLaws.NestedFailureNotRewrapped, ValidatorLaws.CheckFieldsWriteBack, ValidatorLaws.ValidateWritesBack: stated for interfaces without repeated keys, which is every PHP array.
