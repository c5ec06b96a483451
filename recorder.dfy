/** The part of the call recorder that the verifier reads. */
module CallRecorder {
  import opened Matchers

  /** One recorded invocation on a test double. */
  datatype Call = Call(methodName: string, obj: ObjectId, args: seq<Value>)

  /** What the recorder reports for a call: the call and its position. */
  datatype CallInfo = CallInfo(call: Call, position: nat)

  /** A recorder: the calls in the order they were made, and the map that
      its `getCallInfo` applies to one of them. */
  class Recorder {
    var calls: seq<Call>
    const infoOf: Call -> CallInfo

    constructor (calls: seq<Call>, infoOf: Call -> CallInfo)
      ensures this.calls == calls && this.infoOf == infoOf
    {
      this.calls := calls;
      this.infoOf := infoOf;
    }
  }
}
