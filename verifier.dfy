/** The call verifier: finds, among the calls a recorder holds, those made on
    one object to one method with arguments that a list of matchers accepts. */
module Verification {
  import opened Matchers
  import opened CallRecorder

  /** The invalid-argument exception: the slot at `index` is not a matcher. */
  datatype VerifyError = InvalidMatcher(index: nat)

  datatype Result<T> = Ok(value: T) | Err(error: VerifyError)

  /** How checking one call's arguments ends: every matcher accepted, the
      matcher at `at` rejected, or the slot at `at` is not a matcher. */
  datatype Verdict = Accept | Reject(at: nat) | NotAMatcher(at: nat)

  /** Whether the matcher list holds a matcher at position i; past its end it
      does not (PHP's `current()` then yields FALSE). */
  predicate IsMatcherAt(ms: seq<Slot>, i: nat)
  {
    i < |ms| && ms[i].ArgumentMatcher?
  }

  /** Whether position i of the list holds a matcher that accepts v. */
  predicate PassesAt(ms: seq<Slot>, i: nat, v: Value)
  {
    IsMatcherAt(ms, i) && Matches(ms[i].matcher, v)
  }

  /** Checking the arguments from position i on, strictly left to right,
      stopping at the first slot that is not a matcher or that rejects. */
  function ValidateFrom(args: seq<Value>, ms: seq<Slot>, i: nat): Verdict
    requires i <= |args|
    decreases |args| - i
  {
    if i == |args| then Accept
    else if !IsMatcherAt(ms, i) then NotAMatcher(i)
    else if !Matches(ms[i].matcher, args[i]) then Reject(i)
    else ValidateFrom(args, ms, i + 1)
  }

  /** The verdict of `validateArguments` on a call's arguments. */
  function Validate(args: seq<Value>, ms: seq<Slot>): Verdict
  {
    ValidateFrom(args, ms, 0)
  }

  /** The three guards `verifyCall` applies before looking at arguments:
      same method, the identical object, and as many arguments as matchers. */
  predicate Eligible(c: Call, obj: ObjectId, methodName: string, ms: seq<Slot>)
  {
    c.methodName == methodName && c.obj == obj && |c.args| == |ms|
  }

  /** The outcome of `verifyCall` over the recorded calls, defined on the
      calls made so far: the last call adds its info, adds nothing, or raises. */
  function MatchedCalls(calls: seq<Call>, obj: ObjectId, methodName: string, ms: seq<Slot>,
                        infoOf: Call -> CallInfo): (r: Result<seq<CallInfo>>)
    ensures r.Ok? ==> |r.value| <= |calls|
  {
    if calls == [] then Ok([])
    else
      var c := calls[|calls| - 1];
      match MatchedCalls(calls[..|calls| - 1], obj, methodName, ms, infoOf)
      case Err(e) => Err(e)
      case Ok(found) =>
        if !Eligible(c, obj, methodName, ms) then Ok(found)
        else
          match Validate(c.args, ms)
          case Accept => Ok(found + [infoOf(c)])
          case Reject(_) => Ok(found)
          case NotAMatcher(i) => Err(InvalidMatcher(i))
  }

  /** Once a prefix of the calls raises, the whole of them raises the same. */
  lemma {:induction false} FailurePersists(calls: seq<Call>, n: nat, obj: ObjectId, methodName: string,
                                           ms: seq<Slot>, infoOf: Call -> CallInfo)
    requires n <= |calls|
    requires MatchedCalls(calls[..n], obj, methodName, ms, infoOf).Err?
    ensures MatchedCalls(calls, obj, methodName, ms, infoOf) == MatchedCalls(calls[..n], obj, methodName, ms, infoOf)
    decreases |calls| - n
  {
    if n == |calls| {
      assert calls[..n] == calls;
    } else {
      var p := calls[..|calls| - 1];
      assert p[..n] == calls[..n];
      FailurePersists(p, n, obj, methodName, ms, infoOf);
    }
  }

  /** Verifies calls recorded into one recorder against one object. */
  class Verifier {
    const recorder: Recorder
    const obj: ObjectId

    constructor (recorder: Recorder, obj: ObjectId)
      ensures this.recorder == recorder && this.obj == obj
    {
      this.recorder := recorder;
      this.obj := obj;
    }

    /** The infos of the recorded calls that match, in recorded order, or the
        invalid-matcher error of the first call whose check reaches a non-matcher. */
    method VerifyCall(methodName: string, matchers: seq<Slot>) returns (r: Result<seq<CallInfo>>)
      ensures r == MatchedCalls(recorder.calls, obj, methodName, matchers, recorder.infoOf)
    {
      var calls := recorder.calls;
      var matched: seq<CallInfo> := [];
      for n := 0 to |calls|
        invariant MatchedCalls(calls[..n], obj, methodName, matchers, recorder.infoOf) == Ok(matched)
      {
        var call := calls[n];
        assert calls[..n + 1][..n] == calls[..n];
        if call.methodName == methodName && call.obj == obj && |call.args| == |matchers| {
          var verdict := ValidateArguments(call.args, matchers);
          if verdict.NotAMatcher? {
            r := Err(InvalidMatcher(verdict.at));
            FailurePersists(calls, n + 1, obj, methodName, matchers, recorder.infoOf);
            return;
          }
          if verdict.Accept? {
            matched := matched + [recorder.infoOf(call)];
          }
        }
      }
      assert calls[..|calls|] == calls;
      r := Ok(matched);
    }

    /** Walks the arguments and the matchers side by side, stopping at the
        first slot that is not a matcher and at the first matcher that rejects. */
    method ValidateArguments(args: seq<Value>, matchers: seq<Slot>) returns (v: Verdict)
      ensures v == Validate(args, matchers)
    {
      var i := 0;
      while i < |args|
        invariant 0 <= i <= |args|
        invariant Validate(args, matchers) == ValidateFrom(args, matchers, i)
      {
        if i >= |matchers| || matchers[i].Raw? {
          return NotAMatcher(i);
        }
        if !Matches(matchers[i].matcher, args[i]) {
          return Reject(i);
        }
        i := i + 1;
      }
      return Accept;
    }
  }
}
