/**
 * `process_pubsub_message`: read the instance id from the Pub/Sub message, create
 * one backup and read its status at once; on a status other than `"DONE"` run the
 * retry loop, and when the loop gives up, publish an alert. Every exception raised
 * on the way ends the invocation in the outer handler, which only logs it.
 *
 * `HandleMessage` is the specification of one invocation; the method
 * `ProcessPubsubMessage` follows main.py statement by statement and is proved
 * equal to it; the lemmas state when each outcome happens and what it costs.
 */
module Workflow {
  import opened BackupCalls
  import opened Trace
  import opened Retry

  /** The Pub/Sub message after base64 and JSON decoding: decoding raised, or it gave
      the message's `instance_id` field (None when the field is absent). */
  datatype Payload = Undecodable(reason: string) | Decoded(instanceId: Option<string>)

  /** The text of the exception raised for a message without a usable instance id. */
  const MissingInstanceId: string := "Missing 'instance_id' in Pub/Sub message."

  /** How an invocation ended. */
  datatype Outcome =
    | Aborted(reason: string)                // an exception reached the outer handler
    | BackedUp                               // the immediate status read reported `"DONE"`
    | Recovered                              // the retry loop returned true
    | Alerted(alert: Alert, publishReturned: bool) // the retry loop returned false; alert published

  datatype Invocation = Invocation(outcome: Outcome, trace: seq<Event>)

  /** The message names an instance: decoding worked and `instance_id` is present and
      not empty (Python's `not instance_id` is false). */
  function HasInstanceId(payload: Payload): (named: bool)
    ensures payload.Undecodable? ==> !named
    ensures payload == Decoded(None) ==> !named
    ensures payload == Decoded(Some("")) ==> !named
    ensures forall id: string :: payload == Decoded(Some(id)) && id != "" ==> named
  {
    payload.Decoded? && payload.instanceId.Some? && payload.instanceId.value != ""
  }

  /** The retry loop as the workflow runs it: after one creation and one status read. */
  function RetryAfterFirst(svc: Service, instanceId: string): Run
  {
    RetryFrom(svc, instanceId, 0, Calls(1, 1))
  }

  /** One invocation, with `now` the value `time.time()` gives when the alert is built. */
  function HandleMessage(svc: Service, payload: Payload, now: real): (r: Invocation)
    ensures r.trace == [] <==> !HasInstanceId(payload)
    ensures r.trace != [] ==> r.trace[0] == Initiate(payload.instanceId.value, svc.initReply(0))
    ensures r.outcome.Alerted? ==>
      |r.trace| > 0 && r.trace[|r.trace| - 1] == Publish(r.outcome.alert, svc.publishReply)
  {
    if !HasInstanceId(payload) then
      Invocation(Aborted(if payload.Undecodable? then payload.reason else MissingInstanceId), [])
    else
      var id := payload.instanceId.value;
      var init := svc.initReply(0);
      match InitiateBackup(init)
      case Raised(reason) => Invocation(Aborted(reason), [Initiate(id, init)])
      case Ok(name) =>
        var check := svc.checkReply(0);
        var opening := [Initiate(id, init), Check(name, check)];
        match CheckBackupStatus(check)
        case Raised(reason) => Invocation(Aborted(reason), opening)
        case Ok(status) =>
          if status.success then Invocation(BackedUp, opening)
          else
            var retry := RetryAfterFirst(svc, id);
            if retry.ok then Invocation(Recovered, opening + retry.trace)
            else
              var alert := Alert(id, ErrorText(status.error), now);
              Invocation(Alerted(alert, svc.publishReply.PublishAccepted?),
                         opening + retry.trace + [Publish(alert, svc.publishReply)])
  }

  /** `process_pubsub_message(event, context)`. */
  method ProcessPubsubMessage(svc: Service, payload: Payload, now: real)
    returns (outcome: Outcome, trace: seq<Event>)
    ensures Invocation(outcome, trace) == HandleMessage(svc, payload, now)
  {
    trace := [];
    if payload.Undecodable? {
      return Aborted(payload.reason), trace;
    }
    var instanceId := payload.instanceId;
    if instanceId.None? || instanceId.value == "" {
      return Aborted(MissingInstanceId), trace;
    }
    var id := instanceId.value;
    var init := svc.initReply(0);
    trace := trace + [Initiate(id, init)];
    var started := InitiateBackup(init);
    if started.Raised? {
      return Aborted(started.reason), trace;
    }
    var check := svc.checkReply(0);
    trace := trace + [Check(started.value, check)];
    var status := CheckBackupStatus(check);
    if status.Raised? {
      return Aborted(status.reason), trace;
    }
    if status.value.success {
      return BackedUp, trace;
    }
    ghost var opening := trace;
    assert opening == [Initiate(id, init), Check(started.value, check)];
    var recovered, retryTrace, retryCalls := RetryBackup(svc, id, Calls(1, 1));
    assert recovered == RetryAfterFirst(svc, id).ok && retryTrace == RetryAfterFirst(svc, id).trace;
    trace := trace + retryTrace;
    if recovered {
      return Recovered, trace;
    }
    var alert := Alert(id, ErrorText(status.value.error), now);
    trace := trace + [Publish(alert, svc.publishReply)];
    // publish_alert logs a failed publish and returns normally
    var publishReturned := svc.publishReply.PublishAccepted?;
    outcome := Alerted(alert, publishReturned);
    assert trace == opening + retryTrace + [Publish(alert, svc.publishReply)];
    assert HandleMessage(svc, payload, now) == Invocation(outcome, trace) by {
      WorkflowAlerts(svc, payload, now);
    }
  }

  /** `HandleMessage` on the path that ends with an alert. */
  lemma WorkflowAlerts(svc: Service, payload: Payload, now: real)
    requires FirstAttemptFailed(svc, payload) && !RetryAfterFirst(svc, payload.instanceId.value).ok
    ensures var id := payload.instanceId.value;
      var init := svc.initReply(0);
      var check := svc.checkReply(0);
      var alert := Alert(id, ErrorText(CheckBackupStatus(check).value.error), now);
      HandleMessage(svc, payload, now)
        == Invocation(Alerted(alert, svc.publishReply.PublishAccepted?),
                      [Initiate(id, init), Check(InitiateBackup(init).value, check)]
                        + RetryAfterFirst(svc, id).trace + [Publish(alert, svc.publishReply)])
  {
  }

  /** The immediate creation and status read, when both returned and the status was not
      `"DONE"`: the only case in which the retry loop runs. */
  predicate FirstAttemptFailed(svc: Service, payload: Payload)
  {
    && HasInstanceId(payload)
    && svc.initReply(0).InitReturned?
    && svc.checkReply(0).CheckReturned?
    && !Succeeded(svc.checkReply(0))
  }

  /** A message without a usable instance id is rejected by the outer handler before
      any call: no creation, no retry, no alert. */
  lemma RejectedMakesNoCalls(svc: Service, payload: Payload, now: real)
    requires !HasInstanceId(payload)
    ensures var r := HandleMessage(svc, payload, now);
      && r.outcome.Aborted?
      && (payload.Decoded? ==> r.outcome.reason == MissingInstanceId)
      && Count(r.trace, IsInitiate) == 0 && Count(r.trace, IsPublish) == 0
  {
  }

  /** When the immediate status read reports `"DONE"`, the invocation ends after one
      creation and one read: the retry loop never runs and no alert is sent. */
  lemma {:induction false} ImmediateSuccessStops(svc: Service, payload: Payload, now: real)
    requires HasInstanceId(payload)
    requires svc.initReply(0).InitReturned? && Succeeded(svc.checkReply(0))
    ensures var r := HandleMessage(svc, payload, now);
      && r.outcome == BackedUp
      && Count(r.trace, IsInitiate) == 1 && Count(r.trace, IsCheck) == 1
      && Count(r.trace, IsPublish) == 0 && TotalSleep(r.trace) == 0
  {
    var r := HandleMessage(svc, payload, now);
    OpeningCounts(r.trace[0], r.trace[1]);
    assert r.trace == [r.trace[0], r.trace[1]];
  }

  /** When the immediate creation or status read raises, the outer handler ends the
      invocation with that exception: no retry, no sleep, no alert. */
  lemma {:induction false} ImmediateErrorAborts(svc: Service, payload: Payload, now: real)
    requires HasInstanceId(payload)
    requires svc.initReply(0).InitRaised? || (svc.initReply(0).InitReturned? && svc.checkReply(0).CheckRaised?)
    ensures var r := HandleMessage(svc, payload, now);
      && r.outcome.Aborted?
      && r.outcome.reason == (if svc.initReply(0).InitRaised? then svc.initReply(0).reason else svc.checkReply(0).reason)
      && Count(r.trace, IsInitiate) == 1 && Count(r.trace, IsPublish) == 0 && TotalSleep(r.trace) == 0
  {
    var r := HandleMessage(svc, payload, now);
    if svc.initReply(0).InitRaised? {
      assert r.trace[1..] == [];
    } else {
      OpeningCounts(r.trace[0], r.trace[1]);
      assert r.trace == [r.trace[0], r.trace[1]];
    }
  }

  /** The immediate creation and status read: one of each, no sleep, no alert. */
  lemma OpeningCounts(initiate: Event, check: Event)
    requires initiate.Initiate? && check.Check?
    ensures var t := [initiate, check];
      && Count(t, IsInitiate) == 1 && Count(t, IsCheck) == 1
      && Count(t, IsPublish) == 0 && TotalSleep(t) == 0
  {
    var t := [initiate, check];
    assert t[1..] == [check] && [check][1..] == [];
    assert Count([check], IsInitiate) == 0 && Count([check], IsCheck) == 1;
    assert Count([check], IsPublish) == 0 && TotalSleep([check]) == 0;
  }

  /** The trace of an invocation that reached the retry loop: the immediate creation
      and read, the loop's own events, and the alert when the loop gave up. */
  lemma RetriedTrace(svc: Service, payload: Payload, now: real)
    requires FirstAttemptFailed(svc, payload)
    ensures var r := HandleMessage(svc, payload, now);
      var id := payload.instanceId.value;
      var retry := RetryAfterFirst(svc, id);
      var opening := [Initiate(id, svc.initReply(0)), Check(InitiateBackup(svc.initReply(0)).value, svc.checkReply(0))];
      && (retry.ok ==> r == Invocation(Recovered, opening + retry.trace))
      && (!retry.ok ==> r.outcome.Alerted? && r.trace == opening + retry.trace + [Publish(r.outcome.alert, svc.publishReply)])
  {
  }

  /** An alert is published at most once, and exactly when the immediate status read
      returned something other than `"DONE"` and the retry loop then returned false;
      its error is the immediate read's error, whatever the retries reported. */
  lemma AlertIffRetryExhausted(svc: Service, payload: Payload, now: real)
    ensures var r := HandleMessage(svc, payload, now);
      && Count(r.trace, IsPublish) <= 1
      && (Count(r.trace, IsPublish) == 1 <==> r.outcome.Alerted?)
      && (r.outcome.Alerted? <==>
            FirstAttemptFailed(svc, payload) && !RetryAfterFirst(svc, payload.instanceId.value).ok)
      && (r.outcome.Alerted? ==>
            r.outcome.alert == Alert(payload.instanceId.value, ErrorText(svc.checkReply(0).operation.error), now))
  {
    var r := HandleMessage(svc, payload, now);
    if FirstAttemptFailed(svc, payload) {
      var id := payload.instanceId.value;
      var retry := RetryAfterFirst(svc, id);
      var opening := [Initiate(id, svc.initReply(0)), Check(InitiateBackup(svc.initReply(0)).value, svc.checkReply(0))];
      assert Count(opening, IsPublish) == 0 by {
        OpeningCounts(opening[0], opening[1]);
      }
      assert Count(retry.trace, IsPublish) == 0 by {
        RetryNeverPublishes(svc, id, 0, Calls(1, 1));
      }
      RetriedTrace(svc, payload, now);
      CountAppend(opening, retry.trace, IsPublish);
      if !retry.ok {
        var p := [Publish(r.outcome.alert, svc.publishReply)];
        assert Count(p, IsPublish) == 1 by {
          assert p[1..] == [];
        }
        CountAppend(opening + retry.trace, p, IsPublish);
      }
    } else if HasInstanceId(payload) && svc.initReply(0).InitReturned? && Succeeded(svc.checkReply(0)) {
      ImmediateSuccessStops(svc, payload, now);
    } else if HasInstanceId(payload) {
      ImmediateErrorAborts(svc, payload, now);
    } else {
      RejectedMakesNoCalls(svc, payload, now);
    }
  }

  /** The loop is reached and recovers exactly when a status read inside it reports
      `"DONE"`; that read is the invocation's last event. */
  lemma RecoveredIffRetryDone(svc: Service, payload: Payload, now: real)
    ensures var r := HandleMessage(svc, payload, now);
      r.outcome.Recovered? <==>
        FirstAttemptFailed(svc, payload) && SomeDone(RetryAfterFirst(svc, payload.instanceId.value).trace)
    ensures var r := HandleMessage(svc, payload, now);
      r.outcome.Recovered? ==> DoneAt(r.trace, |r.trace| - 1)
  {
    var r := HandleMessage(svc, payload, now);
    if FirstAttemptFailed(svc, payload) {
      var id := payload.instanceId.value;
      var retry := RetryAfterFirst(svc, id);
      RetrySucceedsIffDone(svc, id, 0, Calls(1, 1));
      RetriedTrace(svc, payload, now);
      if retry.ok {
        var j :| DoneAt(retry.trace, j);
        assert j == |retry.trace| - 1;
        assert r.trace[|r.trace| - 1] == retry.trace[j];
      }
    }
  }

  /** What one invocation costs at most: four creations and four status reads (the
      immediate ones and RetryLimit more) and 1 + 2 + 4 = 7 seconds of sleep; an alert
      follows all RetryLimit retries. */
  lemma InvocationBounds(svc: Service, payload: Payload, now: real)
    ensures var r := HandleMessage(svc, payload, now);
      && Count(r.trace, IsInitiate) <= 1 + RetryLimit
      && Count(r.trace, IsCheck) <= 1 + RetryLimit
      && TotalSleep(r.trace) <= Pow2(RetryLimit) - 1
      && (r.outcome.Alerted? ==> Count(r.trace, IsInitiate) == 1 + RetryLimit)
  {
    var r := HandleMessage(svc, payload, now);
    if FirstAttemptFailed(svc, payload) {
      var id := payload.instanceId.value;
      var retry := RetryAfterFirst(svc, id);
      var opening := [Initiate(id, svc.initReply(0)), Check(InitiateBackup(svc.initReply(0)).value, svc.checkReply(0))];
      assert Count(opening, IsInitiate) == 1 && Count(opening, IsCheck) == 1 && TotalSleep(opening) == 0 by {
        OpeningCounts(opening[0], opening[1]);
      }
      assert Count(retry.trace, IsInitiate) <= RetryLimit
          && (!retry.ok ==> Count(retry.trace, IsInitiate) == RetryLimit)
          && TotalSleep(retry.trace) <= Pow2(RetryLimit) - 1 by {
        RetryBounds(svc, id, Calls(1, 1));
      }
      assert Count(retry.trace, IsCheck) <= Count(retry.trace, IsInitiate) by {
        RetryReadsPerCreation(svc, id, 0, Calls(1, 1));
      }
      RetriedTrace(svc, payload, now);
      CountAppend(opening, retry.trace, IsInitiate);
      CountAppend(opening, retry.trace, IsCheck);
      TotalSleepAppend(opening, retry.trace);
      if !retry.ok {
        var p := [Publish(r.outcome.alert, svc.publishReply)];
        assert Count(p, IsInitiate) == 0 && Count(p, IsCheck) == 0 && TotalSleep(p) == 0 by {
          assert p[1..] == [];
        }
        CountAppend(opening + retry.trace, p, IsInitiate);
        CountAppend(opening + retry.trace, p, IsCheck);
        TotalSleepAppend(opening + retry.trace, p);
      }
    } else if HasInstanceId(payload) && svc.initReply(0).InitReturned? && Succeeded(svc.checkReply(0)) {
      ImmediateSuccessStops(svc, payload, now);
    } else if HasInstanceId(payload) {
      ImmediateErrorAborts(svc, payload, now);
    } else {
      RejectedMakesNoCalls(svc, payload, now);
    }
  }

  /** A failed publish is swallowed: whatever the Pub/Sub client answers, the invocation
      takes the same course and builds the same alert; only `publishReturned` differs. */
  lemma PublishFailureSwallowed(svc: Service, payload: Payload, now: real, reply: PublishReply)
    ensures var r := HandleMessage(svc, payload, now);
      var s := HandleMessage(svc.(publishReply := reply), payload, now);
      && (r.outcome.Alerted? <==> s.outcome.Alerted?)
      && (!r.outcome.Alerted? ==> r == s)
      && (r.outcome.Alerted? ==>
            && s.outcome == Alerted(r.outcome.alert, reply.PublishAccepted?)
            && s.trace == r.trace[..|r.trace| - 1] + [Publish(r.outcome.alert, reply)])
  {
    var svc' := svc.(publishReply := reply);
    if HasInstanceId(payload) {
      var id := payload.instanceId.value;
      assert RetryAfterFirst(svc, id) == RetryAfterFirst(svc', id) by {
        RetryIgnoresPublish(svc, svc', id, 0, Calls(1, 1));
      }
    }
  }

  /** Every status read of an invocation is of the operation its own creation returned:
      the immediate read right after the immediate creation, and each retry's read right
      after that retry's creation and sleep. No read reuses an earlier operation name. */
  lemma InvocationReadsOwnOperation(svc: Service, payload: Payload, now: real)
    ensures ReadsOwnOperations(HandleMessage(svc, payload, now).trace)
  {
    var r := HandleMessage(svc, payload, now);
    if HasInstanceId(payload) && svc.initReply(0).InitReturned? {
      var id := payload.instanceId.value;
      var opening := [Initiate(id, svc.initReply(0)), Check(InitiateBackup(svc.initReply(0)).value, svc.checkReply(0))];
      assert ReadsOwnOperations(opening) by {
        forall i | CheckAt(opening, i)
          ensures ReadOfStartedAt(opening, i, 1)
        {
          assert i == 1;
        }
      }
      if FirstAttemptFailed(svc, payload) {
        var retry := RetryAfterFirst(svc, id);
        assert ReadsOwnOperations(retry.trace) by {
          RetryTraceShape(svc, id, 0, Calls(1, 1));
        }
        RetriedTrace(svc, payload, now);
        ReadsOwnAppend(opening, retry.trace);
        if !retry.ok {
          var p := [Publish(r.outcome.alert, svc.publishReply)];
          assert ReadsOwnOperations(p) by {
            assert forall i :: !CheckAt(p, i);
          }
          ReadsOwnAppend(opening + retry.trace, p);
        }
      } else {
        assert r.trace == opening;
      }
    } else {
      assert forall i :: !CheckAt(r.trace, i);
    }
  }
}
