/** Argument values and argument matchers: the per-position predicates that a
    verification request applies to the arguments of a recorded call. */
module Matchers {

  /** Identity of a PHP object: `===` between two objects compares these. */
  type ObjectId = nat

  /** A PHP value passed as a call argument. */
  datatype Value =
    | Null
    | Bool(b: bool)
    | Int(i: int)
    | Str(s: string)
    | Object(id: ObjectId)
    | List(items: seq<Value>)

  /** An argument matcher (an implementation of Phake_Matchers_IArgumentMatcher). */
  datatype Matcher =
    | EqualTo(expected: Value)          // the equals matcher
    | Adapter(accepts: Value -> bool)   // a wrapped PHPUnit constraint or Hamcrest matcher

  /** The matcher's `matches($argument)`. */
  function Matches(m: Matcher, v: Value): bool
  {
    match m
    case EqualTo(e) => v == e
    case Adapter(p) => p(v)
  }

  /** One element of the matcher list handed to the verifier: an argument
      matcher, or some other value that nobody wrapped in a matcher. */
  datatype Slot = ArgumentMatcher(matcher: Matcher) | Raw(value: Value)
}
