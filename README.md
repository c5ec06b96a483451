# Phake call verifier, modelled in Dafny

This project models the call-matching core of the Phake mocking framework for PHP: the class
`Phake_CallRecorder_Verifier`. A verifier is built from a call recorder and a mock object.
`verifyCall(method, argumentMatchers)` walks every call the recorder holds, in recorded order.
It keeps a call when four conditions all hold:

- the method name is equal;
- the object is identical;
- the argument count equals the matcher count;
- every matcher accepts the argument at its own position.

For each call it keeps, it returns the recorder's call info. The helper `validateArguments` applies
the matchers left to right. It returns FALSE at the first matcher that rejects. It throws
`InvalidArgumentException` when the slot it reaches holds something that is not a matcher.

Files:

- `matchers.dfy` (module `Matchers`): argument values, and argument matchers as opaque predicates.
  A matcher is an equals matcher or an adapter around a foreign predicate. `Slot` is one element
  of the matcher list: a matcher or a raw value.
- `recorder.dfy` (module `CallRecorder`): the recorded `Call` and the `CallInfo`. It also holds a
  `Recorder` class with its calls and the opaque map that its `getCallInfo` applies.
- `verifier.dfy` (module `Verification`): the specification functions `Validate` and
  `MatchedCalls`. It also holds the class `Verifier`, whose imperative methods `VerifyCall` and
  `ValidateArguments` are proved equal to those functions.
- `verifier_properties.dfy` (module `VerificationProperties`): the properties of the specification
  functions, stated declaratively and proved.

Object identity (`===`) is modelled as equality of an `ObjectId`. The exception is modelled as
`Err(InvalidMatcher(i))`. An error carries no partial result. `Validate` returns a `Verdict`.
`Reject(at)` carries the position of the rejecting matcher; PHP returns only FALSE. The position
is there so that the short-circuit can be stated.

## Model

| member | source | states |
|---|---|---|
| `Verification.Verifier.constructor` | src/Phake/CallRecorder/Verifier.php:67-71 | the verifier keeps the recorder and the object it was given |
| `Verification.Verifier.VerifyCall` | src/Phake/CallRecorder/Verifier.php:81-101 | the `foreach` over the recorded calls returns exactly what `MatchedCalls` defines; it returns as soon as the helper raises |
| `Verification.Verifier.ValidateArguments` | src/Phake/CallRecorder/Verifier.php:109-131 | the pointer walk over the matchers, with the early FALSE and the throw, computes exactly the verdict `Validate` defines; a missing matcher past the end of the list counts as a non-matcher |
| `Verification.MatchedCalls` | src/Phake/CallRecorder/Verifier.php:83-100 | a successful result has at most as many entries as there are recorded calls |
| `Verification.FailurePersists` | src/Phake/CallRecorder/Verifier.php:116-119 | once a call raises, the calls after it cannot change the outcome: the whole verification raises that same error |
| `VerificationProperties.ValidateVerdict` | src/Phake/CallRecorder/Verifier.php:109-131 | `Accept` holds iff every matcher accepts its argument. `Reject(k)` holds iff k is the first position whose matcher rejects. `NotAMatcher(k)` holds iff all matchers before k accepted and slot k holds no matcher |
| `VerificationProperties.LaterSlotsNotConsulted` | src/Phake/CallRecorder/Verifier.php:111-128 | evaluation stops at the first rejecting matcher or non-matcher. Slots after that point never affect the verdict, even when they are replaced by other matchers or raw values |
| `VerificationProperties.MatchIndices` | src/Phake/CallRecorder/Verifier.php:86-97 | the positions of the matching calls are strictly increasing and in range. Position j is among them iff call j satisfies the four-way conjunction |
| `VerificationProperties.MatchedCallsSpec` | src/Phake/CallRecorder/Verifier.php:83-100 | `verifyCall` raises iff some eligible call's check reaches a non-matcher. Otherwise entry k of the result is the info of the k-th matching call, in recorded order, and no other call contributes |
| `VerificationProperties.ErrorNamesFirstRaw` | src/Phake/CallRecorder/Verifier.php:116-119 | the error's index is the first slot of the matcher list that is not a matcher; every slot before it is a matcher |
| `VerificationProperties.IneligibleCallsIgnored` | src/Phake/CallRecorder/Verifier.php:89-93 | calls with another method, another object or another arity play no part. The outcome, error included, is the one computed on the eligible calls alone |
| `VerificationProperties.EmptyMatchersSelectNullaryCalls` | src/Phake/CallRecorder/Verifier.php:109-131 | an empty matcher list never raises. It selects exactly the zero-argument calls to that method on that object |

An empty recorder yields `Ok([])`. This follows from `MatchedCallsSpec` and `MatchIndices`, since
there are then no indices.

## Left out

- The recorder's internals (`getAllCalls`, `getCallInfo`, recording, reset, sequence numbers). The
  recorder is a class holding the recorded calls and an opaque map from a call to its info. That
  map is applied to call values, so two value-equal calls get the same info.
- PHP's loose `==` on the method name and in the equals matcher. Both are plain equality here.
- Matchers other than equals and opaque adapters. This includes argument capture and its side
  effects. The verdict's stopping position and `LaterSlotsNotConsulted` state which matchers are
  consulted, but no side effect is modelled.
- The coercion of raw values into equals matchers, and the adaptation of PHPUnit constraints and
  Hamcrest matchers. Both happen in the verifier proxy, which is not part of this model. A raw value
  that reaches the verifier is the error case.
- Verification modes (times, at least, never), in-order verification and the proxy that throws on a
  failed verification. None of their source is part of this model.
- The exception's message text. Only the offending index is kept.
- PHP array keys: the argument and matcher arrays are modelled as sequences indexed from 0, and the
  internal pointer walk as that index.
