/**
 * The `main` loop of app.py (lines 150-180) as an object: the counter and the flag are
 * fields that `Step` updates once per scan, exactly as the loop body does. A ghost history of
 * the verdicts ties the fields to the pure fold `Presence.Run`, so the run-level lemmas of
 * `Presence` hold of the object after any number of steps.
 */
module Watcher {
  import opened Wrappers
  import opened Presence
  import opened Mqtt
  import opened AbsenceConfig

  /** The one payload the controller ever publishes (app.py:179). */
  const Payload := "on"

  class Controller {
    const triggers: seq<string>
    const retries: int
    const topic: string
    var absentCount: int
    var notified: bool
    /** The verdicts of the scans so far, oldest first. */
    ghost var history: seq<bool>

    ghost predicate Valid()
      reads this
    {
      Run(retries, history) == Snapshot(absentCount, notified)
    }

    /** The state before the first scan (app.py:161-162). */
    constructor (config: Config)
      ensures triggers == config.triggers && retries == config.retries && topic == config.mqttTopic
      ensures absentCount == 0 && !notified && history == []
      ensures Valid()
    {
      triggers := config.triggers;
      retries := config.retries;
      topic := config.mqttTopic;
      absentCount := 0;
      notified := false;
      history := [];
    }

    /**
     * One pass of the loop body (app.py:165-179) for the MAC addresses of one scan. Returns the
     * message to publish when this cycle notifies.
     */
    method Step(macs: seq<string>) returns (request: Option<Message>)
      requires Valid()
      modifies this
      ensures Valid()
      ensures history == old(history) + [Absent(triggers, macs)]
      // An absent cycle counts up by one and keeps the flag.
      ensures Absent(triggers, macs) ==>
        absentCount == old(absentCount) + 1 && notified == (old(notified) || absentCount > retries)
      // A cycle that sees any trigger resets the counter and re-arms; only a negative threshold fires again at once.
      ensures (exists i :: 0 <= i < |triggers| && triggers[i] in macs) ==>
        absentCount == 0 && notified == (retries < 0)
      // It notifies exactly when the counter exceeds the threshold and nothing was sent for this streak.
      ensures request.Some? <==> absentCount > retries && !(Absent(triggers, macs) && old(notified))
      ensures request.Some? ==> request.value == Message(topic, Payload) && notified
      // The counter is the current absence streak and the flag says whether it passed the threshold.
      ensures absentCount == TrailingAbsent(history) && (notified <==> absentCount > retries)
    {
      var absent := Absent(triggers, macs);
      ghost var before := Snapshot(absentCount, notified);
      if absent {
        absentCount := absentCount + 1;
      } else {
        absentCount := 0;
        notified := false;
      }
      request := None;
      if absentCount > retries && !notified {
        notified := true;
        request := Some(Message(topic, Payload));
      }
      assert Snapshot(absentCount, notified) == Cycle(before, absent, retries).next;
      RunAppend(retries, history, absent);
      history := history + [absent];
      RunCountsTrailingAbsence(retries, history);
      RunNotifiedIff(retries, history);
    }
  }

  /**
   * One full cycle of `main` after the scan: `Step`, then the notification through
   * `Publish` when the step asks for one. The flag stays set whether or not the broker
   * accepted the message; nothing is retried on a later cycle.
   */
  method RunCycle(c: Controller, macs: seq<string>, broker: seq<int>)
    returns (request: Option<Message>, published: seq<Message>, sent: bool)
    requires c.Valid() && |broker| >= MaxAttempts
    modifies c
    ensures c.Valid() && c.history == old(c.history) + [Absent(c.triggers, macs)]
    ensures request.Some? <==> c.absentCount > c.retries && !(Absent(c.triggers, macs) && old(c.notified))
    ensures request.None? ==> published == [] && !sent
    ensures request.Some? ==> request.value == Message(c.topic, Payload) && c.notified
    ensures request.Some? ==>
      && 1 <= |published| <= MaxAttempts
      && (forall i :: 0 <= i < |published| ==> published[i] == request.value)
      && (forall i :: 0 <= i < |published| - 1 ==> broker[i] != Ok)
      && (sent <==> broker[|published| - 1] == Ok)
      && (!sent ==> |published| == MaxAttempts)
  {
    request := c.Step(macs);
    published, sent := [], false;
    if request.Some? {
      published, sent := Publish(request.value, broker);
    }
  }
}
