/**
 * The publishing side of `MqttClient` (app.py:125-134): a bounded retry of one publish.
 * The broker is an oracle: the status code that the i-th publish call returns.
 */
module Mqtt {

  /** The number of publish calls `__publish__` makes at most (app.py:127). */
  const MaxAttempts := 5

  /** The status code of a successful publish (app.py:130). */
  const Ok := 0

  /** One publish call: the payload sent to a topic. */
  datatype Message = Message(topic: string, payload: string)

  /**
   * `MqttClient.__publish__`: publish `msg` until the broker answers `Ok` or `MaxAttempts`
   * calls have failed; never fails itself. `published` lists the calls made, in order;
   * `broker[i]` is the status the i-th call returns.
   */
  method Publish(msg: Message, broker: seq<int>) returns (published: seq<Message>, sent: bool)
    requires |broker| >= MaxAttempts
    ensures 1 <= |published| <= MaxAttempts
    ensures forall i :: 0 <= i < |published| ==> published[i] == msg
    ensures forall i :: 0 <= i < |published| - 1 ==> broker[i] != Ok
    ensures sent <==> broker[|published| - 1] == Ok
    ensures !sent ==> |published| == MaxAttempts
  {
    var attempts := 0;
    published := [];
    sent := false;
    while attempts < MaxAttempts
      invariant 0 <= attempts <= MaxAttempts
      invariant |published| == attempts
      invariant forall i :: 0 <= i < attempts ==> published[i] == msg && broker[i] != Ok
    {
      var status := broker[attempts];
      published := published + [msg];
      if status == Ok {
        sent := true;
        break;
      }
      attempts := attempts + 1;
    }
  }
}
