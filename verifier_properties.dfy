/** What `verifyCall` promises, stated without reference to how it walks the
    calls and the matchers, and proved of the model in module Verification. */
module VerificationProperties {
  import opened Matchers
  import opened CallRecorder
  import opened Verification

  /** Every one of the first k arguments is accepted by the matcher at its position. */
  ghost predicate AllPassBefore(args: seq<Value>, ms: seq<Slot>, k: nat)
    requires k <= |args|
  {
    forall j :: 0 <= j < k ==> PassesAt(ms, j, args[j])
  }

  /** A call `verifyCall` returns: the four conditions, as one conjunction. */
  ghost predicate Satisfies(c: Call, obj: ObjectId, methodName: string, ms: seq<Slot>)
  {
    c.methodName == methodName && c.obj == obj && |c.args| == |ms|
    && AllPassBefore(c.args, ms, |c.args|)
  }

  /** A call whose check gets as far as a slot that is not a matcher. */
  ghost predicate ReachesRaw(c: Call, obj: ObjectId, methodName: string, ms: seq<Slot>)
  {
    Eligible(c, obj, methodName, ms) && Validate(c.args, ms).NotAMatcher?
  }

  lemma {:induction false} ValidateFromVerdict(args: seq<Value>, ms: seq<Slot>, i: nat, k: nat)
    requires i <= |args| && AllPassBefore(args, ms, i)
    ensures ValidateFrom(args, ms, i) == Accept <==> AllPassBefore(args, ms, |args|)
    ensures ValidateFrom(args, ms, i) == Reject(k) <==>
              k < |args| && AllPassBefore(args, ms, k) && IsMatcherAt(ms, k) && !Matches(ms[k].matcher, args[k])
    ensures ValidateFrom(args, ms, i) == NotAMatcher(k) <==>
              k < |args| && AllPassBefore(args, ms, k) && !IsMatcherAt(ms, k)
    decreases |args| - i
  {
    if i < |args| && PassesAt(ms, i, args[i]) {
      ValidateFromVerdict(args, ms, i + 1, k);
    } else {
      if k < i {
        assert PassesAt(ms, k, args[k]);
      } else if i < k && k <= |args| {
        assert !PassesAt(ms, i, args[i]);
        assert !AllPassBefore(args, ms, k);
      }
    }
  }

  /** The arguments of a call pass the check exactly when every matcher accepts
      its argument; the check rejects at k exactly when k is the first position
      whose matcher rejects; it raises for k exactly when every matcher before k
      accepted and position k holds no matcher. */
  lemma {:induction false} ValidateVerdict(args: seq<Value>, ms: seq<Slot>, k: nat)
    ensures Validate(args, ms) == Accept <==> AllPassBefore(args, ms, |args|)
    ensures Validate(args, ms) == Reject(k) <==>
              k < |args| && AllPassBefore(args, ms, k) && IsMatcherAt(ms, k) && !Matches(ms[k].matcher, args[k])
    ensures Validate(args, ms) == NotAMatcher(k) <==>
              k < |args| && AllPassBefore(args, ms, k) && !IsMatcherAt(ms, k)
  {
    ValidateFromVerdict(args, ms, 0, k);
  }

  /** How many slots the check examined before it stopped. */
  function Examined(v: Verdict, arity: nat): nat
  {
    match v
    case Accept => arity
    case Reject(k) => k + 1
    case NotAMatcher(k) => k + 1
  }

  /** Slot j of two matcher lists behaves alike on the value v. */
  ghost predicate SameAt(ms: seq<Slot>, ms': seq<Slot>, j: nat, v: Value)
  {
    IsMatcherAt(ms, j) == IsMatcherAt(ms', j) && (IsMatcherAt(ms, j) ==> Matches(ms[j].matcher, v) == Matches(ms'[j].matcher, v))
  }

  /** Short-circuit: the slots after the one where the check stopped are never
      consulted, so replacing them (by other matchers, or by non-matchers)
      changes nothing. */
  lemma {:induction false} LaterSlotsNotConsulted(args: seq<Value>, ms: seq<Slot>, ms': seq<Slot>)
    requires forall j :: 0 <= j < |args| && j < Examined(Validate(args, ms), |args|) ==> SameAt(ms, ms', j, args[j])
    ensures Validate(args, ms') == Validate(args, ms)
  {
    var v := Validate(args, ms);
    match v
    case Accept =>
      ValidateVerdict(args, ms, 0);
      ValidateVerdict(args, ms', 0);
    case Reject(k) =>
      ValidateVerdict(args, ms, k);
      ValidateVerdict(args, ms', k);
      assert SameAt(ms, ms', k, args[k]);
    case NotAMatcher(k) =>
      ValidateVerdict(args, ms, k);
      ValidateVerdict(args, ms', k);
      assert SameAt(ms, ms', k, args[k]);
  }

  /** The positions of the calls that satisfy the request, in recorded order. */
  ghost function MatchIndices(calls: seq<Call>, obj: ObjectId, methodName: string, ms: seq<Slot>): (idx: seq<nat>)
    ensures forall k :: 0 <= k < |idx| ==> idx[k] < |calls|
    ensures forall k, l :: 0 <= k < l < |idx| ==> idx[k] < idx[l]
    ensures forall j :: 0 <= j < |calls| ==> (j in idx <==> Satisfies(calls[j], obj, methodName, ms))
  {
    if calls == [] then []
    else
      var p := calls[..|calls| - 1];
      var prev := MatchIndices(p, obj, methodName, ms);
      assert forall j :: 0 <= j < |p| ==> p[j] == calls[j];
      if Satisfies(calls[|calls| - 1], obj, methodName, ms) then prev + [|calls| - 1] else prev
  }

  /** `verifyCall` raises exactly when some eligible call's check reaches a
      non-matcher; otherwise it returns, in recorded order, the info of every
      call that satisfies the request and of no other. */
  lemma {:induction false} MatchedCallsSpec(calls: seq<Call>, obj: ObjectId, methodName: string, ms: seq<Slot>,
                                            infoOf: Call -> CallInfo)
    ensures MatchedCalls(calls, obj, methodName, ms, infoOf).Err? <==>
              exists j :: 0 <= j < |calls| && ReachesRaw(calls[j], obj, methodName, ms)
    ensures MatchedCalls(calls, obj, methodName, ms, infoOf).Ok? ==>
              var r := MatchedCalls(calls, obj, methodName, ms, infoOf).value;
              var idx := MatchIndices(calls, obj, methodName, ms);
              |r| == |idx| && forall k :: 0 <= k < |r| ==> r[k] == infoOf(calls[idx[k]])
  {
    if calls != [] {
      var n := |calls| - 1;
      var p := calls[..n];
      var c := calls[n];
      MatchedCallsSpec(p, obj, methodName, ms, infoOf);
      assert forall j :: 0 <= j < n ==> p[j] == calls[j];
      ValidateVerdict(c.args, ms, 0);
      if MatchedCalls(p, obj, methodName, ms, infoOf).Err? {
        var j :| 0 <= j < |p| && ReachesRaw(p[j], obj, methodName, ms);
        assert ReachesRaw(calls[j], obj, methodName, ms);
      } else if ReachesRaw(c, obj, methodName, ms) {
        assert ReachesRaw(calls[n], obj, methodName, ms);
      }
    }
  }

  /** The error names the first slot of the list that is not a matcher. */
  lemma {:induction false} ErrorNamesFirstRaw(calls: seq<Call>, obj: ObjectId, methodName: string, ms: seq<Slot>,
                                              infoOf: Call -> CallInfo)
    requires MatchedCalls(calls, obj, methodName, ms, infoOf).Err?
    ensures var i := MatchedCalls(calls, obj, methodName, ms, infoOf).error.index;
            i < |ms| && ms[i].Raw? && forall k :: 0 <= k < i ==> ms[k].ArgumentMatcher?
  {
    var n := |calls| - 1;
    var p := calls[..n];
    var c := calls[n];
    if MatchedCalls(p, obj, methodName, ms, infoOf).Err? {
      ErrorNamesFirstRaw(p, obj, methodName, ms, infoOf);
    } else {
      assert Eligible(c, obj, methodName, ms);
      var i := Validate(c.args, ms).at;
      assert MatchedCalls(calls, obj, methodName, ms, infoOf).error.index == i;
      ValidateVerdict(c.args, ms, i);
      assert i < |c.args| && AllPassBefore(c.args, ms, i) && !IsMatcherAt(ms, i);
      forall k | 0 <= k < i
        ensures ms[k].ArgumentMatcher?
      {
        assert PassesAt(ms, k, c.args[k]);
      }
    }
  }

  /** The calls that pass the three guards (method, object, arity). */
  function EligibleOnly(calls: seq<Call>, obj: ObjectId, methodName: string, ms: seq<Slot>): (r: seq<Call>)
    ensures forall c :: c in r ==> c in calls && Eligible(c, obj, methodName, ms)
  {
    if calls == [] then []
    else
      var c := calls[|calls| - 1];
      var prev := EligibleOnly(calls[..|calls| - 1], obj, methodName, ms);
      if Eligible(c, obj, methodName, ms) then prev + [c] else prev
  }

  /** Calls on another method, another object or with another arity play no
      part: the outcome, error included, is the one computed on the eligible
      calls alone, whatever the matchers would say of their arguments. */
  lemma {:induction false} IneligibleCallsIgnored(calls: seq<Call>, obj: ObjectId, methodName: string, ms: seq<Slot>,
                                                  infoOf: Call -> CallInfo)
    ensures MatchedCalls(calls, obj, methodName, ms, infoOf) ==
            MatchedCalls(EligibleOnly(calls, obj, methodName, ms), obj, methodName, ms, infoOf)
  {
    if calls != [] {
      var p := calls[..|calls| - 1];
      var c := calls[|calls| - 1];
      IneligibleCallsIgnored(p, obj, methodName, ms, infoOf);
      var e := EligibleOnly(p, obj, methodName, ms);
      if Eligible(c, obj, methodName, ms) {
        assert (e + [c])[..|e + [c]| - 1] == e;
      }
    }
  }

  /** With an empty matcher list nothing is raised, and exactly the calls to the
      method on the object that took no arguments are returned. */
  lemma {:induction false} EmptyMatchersSelectNullaryCalls(calls: seq<Call>, obj: ObjectId, methodName: string,
                                                           infoOf: Call -> CallInfo)
    ensures MatchedCalls(calls, obj, methodName, [], infoOf).Ok?
    ensures forall j :: 0 <= j < |calls| ==>
              (j in MatchIndices(calls, obj, methodName, []) <==>
               calls[j].methodName == methodName && calls[j].obj == obj && calls[j].args == [])
  {
    MatchedCallsSpec(calls, obj, methodName, [], infoOf);
    forall j | 0 <= j < |calls|
      ensures !ReachesRaw(calls[j], obj, methodName, [])
    {
      ValidateVerdict(calls[j].args, [], 0);
    }
  }
}
