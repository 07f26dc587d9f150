/**
 * `retry_backup`: up to RetryLimit attempts, each one creating a fresh backup,
 * sleeping 2^attempt seconds and reading its status; the first `"DONE"` ends the
 * loop with success, and every kind of failure (a raised creation, a raised status
 * read, a status other than `"DONE"`) consumes one attempt and is never re-raised.
 *
 * `Attempt` specifies one pass of the loop body and `RetryFrom` the loop from a given
 * attempt on; the methods `TryAttempt` and `RetryBackup` are the pass and the loop
 * themselves, proved equal to them, and the lemmas below state
 * what the loop promises in terms of its trace.
 */
module Retry {
  import opened BackupCalls
  import opened Trace

  /** The fixed number of attempts. */
  const RetryLimit: nat := 3

  /** `2 ** n`. */
  function Pow2(n: nat): (r: nat)
    ensures r >= 1
  {
    if n == 0 then 1 else 2 * Pow2(n - 1)
  }

  /** The return value of the loop, its trace, and the calls issued once it is over. */
  datatype Run = Run(ok: bool, trace: seq<Event>, calls: Calls)

  /** `r` with `prefix` prepended to its trace. */
  function Resume(prefix: seq<Event>, r: Run): Run
  {
    Run(r.ok, prefix + r.trace, r.calls)
  }

  /** One pass of the loop body, for attempt number `attempt`: `ok` tells whether the
      status read reported `"DONE"`. */
  function Attempt(svc: Service, instanceId: string, attempt: nat, calls: Calls): Run
  {
    var init := svc.initReply(calls.inits);
    var initiated := Calls(calls.inits + 1, calls.checks);
    match InitiateBackup(init)
    case Raised(_) => Run(false, [Initiate(instanceId, init)], initiated)
    case Ok(name) =>
      var check := svc.checkReply(calls.checks);
      Run(Succeeded(check),
          [Initiate(instanceId, init), Sleep(Pow2(attempt)), Check(name, check)],
          Calls(calls.inits + 1, calls.checks + 1))
  }

  /** The events of one attempt numbered `n` of instance `instanceId`, by themselves:
      a creation that raised, or a creation that returned, its 2^n-second sleep and a
      status read of the operation that creation returned. */
  predicate AttemptBlock(a: seq<Event>, instanceId: string, n: nat)
  {
    || (|a| == 1 && InitiateAt(a, 0) && a[0].instanceId == instanceId && a[0].initReply.InitRaised?)
    || (&& |a| == 3 && StartedAt(a, 0) && a[0].instanceId == instanceId
        && a[1] == Sleep(Pow2(n)) && ReadOfStartedAt(a, 2, 2))
  }

  /** What one attempt does: a raised creation is its only event; otherwise the
      creation, a 2^attempt-second sleep and one status read of the returned name. */
  lemma AttemptShape(svc: Service, instanceId: string, attempt: nat, calls: Calls)
    ensures var a := Attempt(svc, instanceId, attempt, calls);
      var init := svc.initReply(calls.inits);
      var check := svc.checkReply(calls.checks);
      && (init.InitRaised? ==>
            && a.trace == [Initiate(instanceId, init)] && !a.ok
            && a.calls == Calls(calls.inits + 1, calls.checks))
      && (init.InitReturned? ==>
            && a.trace == [Initiate(instanceId, init), Sleep(Pow2(attempt)), Check(InitiateBackup(init).value, check)]
            && a.ok == Succeeded(check)
            && a.calls == Calls(calls.inits + 1, calls.checks + 1))
  {
  }

  /** The same, as a property of the events alone: one attempt forms an AttemptBlock,
      and it succeeded exactly when its last event is a status read reporting `"DONE"`. */
  lemma AttemptIsBlock(svc: Service, instanceId: string, attempt: nat, calls: Calls)
    ensures var a := Attempt(svc, instanceId, attempt, calls);
      && AttemptBlock(a.trace, instanceId, attempt)
      && (a.ok <==> DoneAt(a.trace, |a.trace| - 1))
  {
    AttemptShape(svc, instanceId, attempt, calls);
  }

  /** One attempt issues one creation, at most one status read, at most one sleep, of
      2^attempt seconds, and no alert. */
  lemma AttemptCounts(svc: Service, instanceId: string, attempt: nat, calls: Calls)
    ensures var a := Attempt(svc, instanceId, attempt, calls);
      var returned := svc.initReply(calls.inits).InitReturned?;
      && Count(a.trace, IsInitiate) == 1
      && Count(a.trace, IsCheck) == (if returned then 1 else 0)
      && Count(a.trace, IsPublish) == 0
      && Count(a.trace, IsSleep) == (if returned then 1 else 0)
      && TotalSleep(a.trace) == (if returned then Pow2(attempt) else 0)
      && a.calls == Calls(calls.inits + 1, calls.checks + Count(a.trace, IsCheck))
  {
    AttemptShape(svc, instanceId, attempt, calls);
    var init := svc.initReply(calls.inits);
    if init.InitReturned? {
      var e0, e1, e2 := Initiate(instanceId, init), Sleep(Pow2(attempt)),
                        Check(InitiateBackup(init).value, svc.checkReply(calls.checks));
      assert [e0, e1, e2][1..] == [e1, e2];
      assert [e1, e2][1..] == [e2];
      assert [e2][1..] == [];
      assert Count([e2], IsInitiate) == 0 && Count([e2], IsCheck) == 1 && TotalSleep([e2]) == 0;
      assert Count([e2], IsPublish) == 0 && Count([e1, e2], IsPublish) == 0;
      assert Count([e2], IsSleep) == 0 && Count([e1, e2], IsSleep) == 1;
      assert Count([e1, e2], IsInitiate) == 0 && Count([e1, e2], IsCheck) == 1;
      assert TotalSleep([e1, e2]) == Pow2(attempt);
    } else {
      assert [Initiate(instanceId, init)][1..] == [];
    }
  }

  /** One attempt consumes the next creation answer and, when the creation returned,
      the next status answer. */
  lemma AttemptReplies(svc: Service, instanceId: string, attempt: nat, calls: Calls)
    ensures var a := Attempt(svc, instanceId, attempt, calls);
      var init := svc.initReply(calls.inits);
      && InitReplies(a.trace) == [init]
      && CheckReplies(a.trace) == (if init.InitReturned? then [svc.checkReply(calls.checks)] else [])
      && AnsweredFrom(a.trace, svc, calls)
  {
    AttemptShape(svc, instanceId, attempt, calls);
    var init := svc.initReply(calls.inits);
    if init.InitReturned? {
      var e0, e1, e2 := Initiate(instanceId, init), Sleep(Pow2(attempt)),
                        Check(InitiateBackup(init).value, svc.checkReply(calls.checks));
      assert [e0, e1, e2][1..] == [e1, e2];
      assert [e1, e2][1..] == [e2];
      assert [e2][1..] == [];
      assert InitReplies([e2]) == [] && CheckReplies([e2]) == [e2.checkReply];
      assert InitReplies([e1, e2]) == [] && CheckReplies([e1, e2]) == [e2.checkReply];
      var after := Calls(calls.inits + 1, calls.checks);
      assert AnsweredFrom([e2], svc, after);
      assert AnsweredFrom([e1, e2], svc, after);
    } else {
      assert [Initiate(instanceId, init)][1..] == [];
    }
  }

  /** The loop from attempt number `attempt` on, with `calls` issued before it. */
  function RetryFrom(svc: Service, instanceId: string, attempt: nat, calls: Calls): (r: Run)
    decreases RetryLimit - attempt
  {
    if attempt >= RetryLimit then Run(false, [], calls)
    else
      var a := Attempt(svc, instanceId, attempt, calls);
      if a.ok then a
      else Resume(a.trace, RetryFrom(svc, instanceId, attempt + 1, a.calls))
  }

  lemma ResumeAppend(p: seq<Event>, q: seq<Event>, r: Run)
    ensures Resume(p, Resume(q, r)) == Resume(p + q, r)
  {
    assert p + (q + r.trace) == (p + q) + r.trace;
  }

  /** One unfolding of the loop: attempt `attempt`, then, unless it succeeded, the rest. */
  lemma RetryFromStep(svc: Service, instanceId: string, attempt: nat, calls: Calls)
    requires attempt < RetryLimit
    ensures var a := Attempt(svc, instanceId, attempt, calls);
      RetryFrom(svc, instanceId, attempt, calls)
        == if a.ok then a else Resume(a.trace, RetryFrom(svc, instanceId, attempt + 1, a.calls))
  {
  }

  /** The body of the `try` in `retry_backup` for attempt number `attempt`: create a
      backup, sleep, read its status. An exception from the creation or the read is
      caught, so it ends the pass with `done` false. */
  method TryAttempt(svc: Service, instanceId: string, attempt: nat, calls: Calls)
    returns (done: bool, events: seq<Event>, after: Calls)
    ensures Run(done, events, after) == Attempt(svc, instanceId, attempt, calls)
  {
    var init := svc.initReply(calls.inits);
    after := calls.(inits := calls.inits + 1);
    events := [Initiate(instanceId, init)];
    var started := InitiateBackup(init);
    if started.Raised? {
      return false, events, after;
    }
    events := events + [Sleep(Pow2(attempt))];
    var check := svc.checkReply(after.checks);
    after := after.(checks := after.checks + 1);
    events := events + [Check(started.value, check)];
    var status := CheckBackupStatus(check);
    done := status.Ok? && status.value.success;
  }

  /** `retry_backup(instance_id)`, given the calls the invocation issued before it. */
  method RetryBackup(svc: Service, instanceId: string, calls0: Calls)
    returns (ok: bool, trace: seq<Event>, calls: Calls)
    ensures Run(ok, trace, calls) == RetryFrom(svc, instanceId, 0, calls0)
  {
    var attempt: nat := 0;
    trace, calls := [], calls0;
    while attempt < RetryLimit
      invariant attempt <= RetryLimit
      invariant RetryFrom(svc, instanceId, 0, calls0) == Resume(trace, RetryFrom(svc, instanceId, attempt, calls))
    {
      RetryFromStep(svc, instanceId, attempt, calls);
      ghost var prefix := trace;
      var done, events, after := TryAttempt(svc, instanceId, attempt, calls);
      trace, calls := trace + events, after;
      if done {
        ok := true;
        return;
      }
      attempt := attempt + 1;
      ResumeAppend(prefix, events, RetryFrom(svc, instanceId, attempt, calls));
    }
    ok := false;
  }

  /** The bounds the whole loop keeps: at most RetryLimit creations, all of them when it
      fails, and at most 2^RetryLimit - 1 = 7 seconds of sleep. */
  lemma RetryBounds(svc: Service, instanceId: string, calls0: Calls)
    ensures var r := RetryFrom(svc, instanceId, 0, calls0);
      && Count(r.trace, IsInitiate) <= RetryLimit
      && (!r.ok ==> Count(r.trace, IsInitiate) == RetryLimit)
      && TotalSleep(r.trace) <= Pow2(RetryLimit) - 1
  {
    RetryAttemptBound(svc, instanceId, 0, calls0);
    RetrySleepTotal(svc, instanceId, 0, calls0);
  }

  /** At most RetryLimit creations, and all of them when the loop fails. */
  lemma {:induction false} RetryAttemptBound(svc: Service, instanceId: string, attempt: nat, calls: Calls)
    requires attempt <= RetryLimit
    ensures var r := RetryFrom(svc, instanceId, attempt, calls);
      && Count(r.trace, IsInitiate) <= RetryLimit - attempt
      && (!r.ok ==> Count(r.trace, IsInitiate) == RetryLimit - attempt)
    decreases RetryLimit - attempt
  {
    if attempt < RetryLimit {
      var a := Attempt(svc, instanceId, attempt, calls);
      var rest := RetryFrom(svc, instanceId, attempt + 1, a.calls);
      assert RetryFrom(svc, instanceId, attempt, calls) == if a.ok then a else Resume(a.trace, rest) by {
        RetryFromStep(svc, instanceId, attempt, calls);
      }
      assert Count(a.trace, IsInitiate) == 1 by {
        AttemptCounts(svc, instanceId, attempt, calls);
      }
      if !a.ok {
        RetryAttemptBound(svc, instanceId, attempt + 1, a.calls);
        CountAppend(a.trace, rest.trace, IsInitiate);
      }
    }
  }

  /** The loop reads a status at most once per creation. */
  lemma {:induction false} RetryReadsPerCreation(svc: Service, instanceId: string, attempt: nat, calls: Calls)
    ensures var t := RetryFrom(svc, instanceId, attempt, calls).trace;
      Count(t, IsCheck) <= Count(t, IsInitiate)
    decreases RetryLimit - attempt
  {
    if attempt < RetryLimit {
      var a := Attempt(svc, instanceId, attempt, calls);
      var rest := RetryFrom(svc, instanceId, attempt + 1, a.calls);
      assert RetryFrom(svc, instanceId, attempt, calls) == if a.ok then a else Resume(a.trace, rest) by {
        RetryFromStep(svc, instanceId, attempt, calls);
      }
      assert Count(a.trace, IsCheck) <= Count(a.trace, IsInitiate) by {
        AttemptCounts(svc, instanceId, attempt, calls);
      }
      if !a.ok {
        RetryReadsPerCreation(svc, instanceId, attempt + 1, a.calls);
        CountAppend(a.trace, rest.trace, IsCheck);
        CountAppend(a.trace, rest.trace, IsInitiate);
      }
    }
  }


  /** The counters advance by one per creation and one per status read of the trace. */
  lemma {:induction false} RetryConsumesReplies(svc: Service, instanceId: string, attempt: nat, calls: Calls)
    ensures var r := RetryFrom(svc, instanceId, attempt, calls);
      r.calls == Calls(calls.inits + Count(r.trace, IsInitiate), calls.checks + Count(r.trace, IsCheck))
    decreases RetryLimit - attempt
  {
    if attempt < RetryLimit {
      var a := Attempt(svc, instanceId, attempt, calls);
      var rest := RetryFrom(svc, instanceId, attempt + 1, a.calls);
      assert RetryFrom(svc, instanceId, attempt, calls) == if a.ok then a else Resume(a.trace, rest) by {
        RetryFromStep(svc, instanceId, attempt, calls);
      }
      assert a.calls == Calls(calls.inits + Count(a.trace, IsInitiate), calls.checks + Count(a.trace, IsCheck)) by {
        AttemptCounts(svc, instanceId, attempt, calls);
      }
      if !a.ok {
        RetryConsumesReplies(svc, instanceId, attempt + 1, a.calls);
        CountAppend(a.trace, rest.trace, IsInitiate);
        CountAppend(a.trace, rest.trace, IsCheck);
      }
    }
  }

  /** Walking the loop's trace from `calls`, each creation and each status read got the
      oracle's next answer of its kind. */
  lemma {:induction false} RetryAnswered(svc: Service, instanceId: string, attempt: nat, calls: Calls)
    ensures AnsweredFrom(RetryFrom(svc, instanceId, attempt, calls).trace, svc, calls)
    decreases RetryLimit - attempt
  {
    if attempt < RetryLimit {
      var a := Attempt(svc, instanceId, attempt, calls);
      var b := if a.ok then [] else RetryFrom(svc, instanceId, attempt + 1, a.calls).trace;
      assert RetryFrom(svc, instanceId, attempt, calls).trace == a.trace + b by {
        RetryFromStep(svc, instanceId, attempt, calls);
      }
      assert a.calls == Calls(calls.inits + Count(a.trace, IsInitiate), calls.checks + Count(a.trace, IsCheck)) by {
        AttemptCounts(svc, instanceId, attempt, calls);
      }
      assert AnsweredFrom(a.trace, svc, calls) by {
        AttemptReplies(svc, instanceId, attempt, calls);
      }
      assert AnsweredFrom(b, svc, a.calls) by {
        if !a.ok {
          RetryAnswered(svc, instanceId, attempt + 1, a.calls);
        }
      }
      AnsweredFromAppend(a.trace, b, svc, calls, a.calls);
    }
  }

  /** The oracle is consumed in order: the k-th creation of the loop's trace got creation
      answer number `calls.inits + k`, and the k-th status read got status answer number
      `calls.checks + k`. */
  lemma RetryRepliesInOrder(svc: Service, instanceId: string, attempt: nat, calls: Calls)
    ensures var t := RetryFrom(svc, instanceId, attempt, calls).trace;
      && Answered(InitReplies(t), svc.initReply, calls.inits)
      && Answered(CheckReplies(t), svc.checkReply, calls.checks)
  {
    var t := RetryFrom(svc, instanceId, attempt, calls).trace;
    RetryAnswered(svc, instanceId, attempt, calls);
    AnsweredInOrder(t, svc, calls);
  }

  /** Some position of `t` holds a status read that reported `"DONE"`. */
  ghost predicate SomeDone(t: seq<Event>) { exists i :: DoneAt(t, i) }

  /** Only the last event of `t` can be a status read that reported `"DONE"`. */
  ghost predicate DoneOnlyAtEnd(t: seq<Event>) { forall i :: DoneAt(t, i) ==> i == |t| - 1 }

  lemma DoneAppend(a: seq<Event>, b: seq<Event>, instanceId: string, n: nat)
    requires AttemptBlock(a, instanceId, n)
    requires DoneOnlyAtEnd(b)
    requires b != [] ==> !DoneAt(a, |a| - 1)
    ensures DoneOnlyAtEnd(a + b)
    ensures SomeDone(a + b) <==> DoneAt(a, |a| - 1) || SomeDone(b)
  {
    var t := a + b;
    assert forall i :: DoneAt(a, i) ==> i == |a| - 1;
    forall i | DoneAt(t, i)
      ensures i == |t| - 1
      ensures i < |a| ==> i == |a| - 1 && DoneAt(a, i)
      ensures i >= |a| ==> DoneAt(b, i - |a|)
    {
      if i < |a| {
        assert t[i] == a[i];
        assert DoneAt(a, i);
        assert b == [];
      } else {
        assert t[i] == b[i - |a|];
        assert DoneAt(b, i - |a|);
      }
    }
    if DoneAt(a, |a| - 1) {
      assert t[|a| - 1] == a[|a| - 1] && DoneAt(t, |a| - 1);
    }
    if j :| DoneAt(b, j) {
      assert t[|a| + j] == b[j] && DoneAt(t, |a| + j);
    }
  }

  /** The loop returns true exactly when some status read reported `"DONE"`, and that
      read is the last thing it does. */
  lemma {:induction false} RetrySucceedsIffDone(svc: Service, instanceId: string, attempt: nat, calls: Calls)
    ensures var r := RetryFrom(svc, instanceId, attempt, calls);
      (r.ok <==> SomeDone(r.trace)) && DoneOnlyAtEnd(r.trace)
    decreases RetryLimit - attempt
  {
    if attempt < RetryLimit {
      var a := Attempt(svc, instanceId, attempt, calls);
      var rest := RetryFrom(svc, instanceId, attempt + 1, a.calls);
      var b := if a.ok then [] else rest.trace;
      assert RetryFrom(svc, instanceId, attempt, calls) == Run(a.ok || rest.ok, a.trace + b, if a.ok then a.calls else rest.calls) by {
        RetryFromStep(svc, instanceId, attempt, calls);
      }
      assert AttemptBlock(a.trace, instanceId, attempt) && (a.ok <==> DoneAt(a.trace, |a.trace| - 1)) by {
        AttemptIsBlock(svc, instanceId, attempt, calls);
      }
      assert (!a.ok ==> (rest.ok <==> SomeDone(b))) && DoneOnlyAtEnd(b) by {
        RetrySucceedsIffDone(svc, instanceId, attempt + 1, a.calls);
      }
      DoneAppend(a.trace, b, instanceId, attempt);
    }
  }

  /** The sleep at position `i` of `t` belongs to attempt number `first + n`, where `n`
      counts the creations before that attempt's own: it comes right after that
      attempt's creation, which returned, right before its status read, and lasts
      2^(first + n) seconds. */
  predicate SleepScheduled(t: seq<Event>, i: int, first: nat)
  {
    && 0 < i < |t| - 1
    && StartedAt(t, i - 1)
    && CheckAt(t, i + 1)
    && t[i] == Sleep(Pow2(first + Count(t[..i - 1], IsInitiate)))
  }

  /** Every sleep of `t` is scheduled as above, counting attempts from `first`. */
  ghost predicate Scheduled(t: seq<Event>, first: nat) { forall i :: SleepAt(t, i) ==> SleepScheduled(t, i, first) }

  /** An attempt holds exactly one creation. */
  lemma BlockInitiates(a: seq<Event>, instanceId: string, n: nat)
    requires AttemptBlock(a, instanceId, n)
    ensures Count(a, IsInitiate) == 1
  {
    if |a| == 1 {
      assert a[1..] == [];
    } else {
      assert a[1..][1..][1..] == [];
      assert Count(a[1..][1..], IsInitiate) == 0;
    }
  }

  lemma ScheduledAppend(a: seq<Event>, b: seq<Event>, instanceId: string, n: nat)
    requires AttemptBlock(a, instanceId, n)
    requires Scheduled(b, n + 1)
    ensures Scheduled(a + b, n)
  {
    var t := a + b;
    BlockInitiates(a, instanceId, n);
    forall i | SleepAt(t, i)
      ensures SleepScheduled(t, i, n)
    {
      if i < |a| {
        assert t[i] == a[i] && i == 1;
        assert t[0] == a[0] && t[2] == a[2];
        assert t[..0] == [];
      } else {
        var j := i - |a|;
        assert t[i] == b[j] && SleepAt(b, j);
        assert SleepScheduled(b, j, n + 1);
        assert t[i - 1] == b[j - 1] && t[i + 1] == b[j + 1];
        assert t[..i - 1] == a + b[..j - 1];
        CountAppend(a, b[..j - 1], IsInitiate);
      }
    }
  }

  /** Every sleep of the loop is scheduled: in attempt n it lasts 2^n seconds, right
      after a creation that returned and right before the status read. */
  lemma {:induction false} RetryBackoffSchedule(svc: Service, instanceId: string, attempt: nat, calls: Calls)
    ensures Scheduled(RetryFrom(svc, instanceId, attempt, calls).trace, attempt)
    decreases RetryLimit - attempt
  {
    if attempt < RetryLimit {
      var a := Attempt(svc, instanceId, attempt, calls);
      var rest := RetryFrom(svc, instanceId, attempt + 1, a.calls);
      var b := if a.ok then [] else rest.trace;
      assert RetryFrom(svc, instanceId, attempt, calls).trace == a.trace + b by {
        RetryFromStep(svc, instanceId, attempt, calls);
      }
      assert AttemptBlock(a.trace, instanceId, attempt) by {
        AttemptIsBlock(svc, instanceId, attempt, calls);
      }
      assert Scheduled(b, attempt + 1) by {
        RetryBackoffSchedule(svc, instanceId, attempt + 1, a.calls);
      }
      ScheduledAppend(a.trace, b, instanceId, attempt);
    }
  }

  /** The four shape properties of a retry trace (see RetryTraceShape). */
  ghost predicate WellShaped(t: seq<Event>, instanceId: string)
  {
    && (forall i :: InitiateAt(t, i) ==> t[i].instanceId == instanceId)
    && (forall i :: StartedAt(t, i) ==> SleepAt(t, i + 1))
    && (forall i :: CheckAt(t, i) ==> SleepAt(t, i - 1) && ReadOfStartedAt(t, i, 2))
    && (forall i :: FailedAt(t, i) && i < |t| - 1 ==> InitiateAt(t, i + 1))
  }

  /** A single attempt is well shaped, and a failed attempt followed by a well-shaped
      trace that is empty or starts with a creation is well shaped too. */
  lemma WellShapedAppend(a: seq<Event>, b: seq<Event>, instanceId: string, n: nat)
    requires AttemptBlock(a, instanceId, n)
    requires WellShaped(b, instanceId)
    requires b == [] || InitiateAt(b, 0)
    requires b != [] ==> !DoneAt(a, |a| - 1)
    ensures WellShaped(a, instanceId) && WellShaped(a + b, instanceId)
  {
    var t := a + b;
    forall i | 0 <= i < |t|
      ensures InitiateAt(t, i) ==> t[i].instanceId == instanceId
      ensures StartedAt(t, i) ==> SleepAt(t, i + 1)
      ensures CheckAt(t, i) ==> SleepAt(t, i - 1) && ReadOfStartedAt(t, i, 2)
      ensures FailedAt(t, i) && i < |t| - 1 ==> InitiateAt(t, i + 1)
    {
      if i < |a| {
        assert t[i] == a[i];
        if CheckAt(a, i) {
          assert i == 2 && t[i - 1] == a[i - 1] && t[i - 2] == a[i - 2];
        }
        if i + 1 < |a| {
          assert t[i + 1] == a[i + 1];
        } else if i + 1 < |t| {
          assert t[i + 1] == b[0];
        }
      } else {
        var j := i - |a|;
        assert t[i] == b[j];
        assert InitiateAt(t, i) == InitiateAt(b, j);
        assert StartedAt(t, i) == StartedAt(b, j);
        assert FailedAt(t, i) == FailedAt(b, j);
        if CheckAt(b, j) {
          assert SleepAt(b, j - 1) && ReadOfStartedAt(b, j, 2);
          assert t[i - 1] == b[j - 1] && t[i - 2] == b[j - 2];
        }
        if i + 1 < |t| {
          assert t[i + 1] == b[j + 1];
          assert SleepAt(t, i + 1) == SleepAt(b, j + 1);
          assert InitiateAt(t, i + 1) == InitiateAt(b, j + 1);
        } else {
          assert !SleepAt(b, j + 1);
        }
      }
    }
  }

  /** Every creation is for the same instance; a creation that returned is followed by
      its sleep; every status read comes right after such a sleep and is of the
      operation that the creation before the sleep returned; and any failure that is not the last event (a raised creation, a raised
      read, a status other than `"DONE"`) is followed by a fresh creation. */
  lemma {:induction false} RetryTraceShape(svc: Service, instanceId: string, attempt: nat, calls: Calls)
    ensures WellShaped(RetryFrom(svc, instanceId, attempt, calls).trace, instanceId)
    decreases RetryLimit - attempt
  {
    if attempt < RetryLimit {
      var a := Attempt(svc, instanceId, attempt, calls);
      var rest := RetryFrom(svc, instanceId, attempt + 1, a.calls);
      var b := if a.ok then [] else rest.trace;
      assert RetryFrom(svc, instanceId, attempt, calls).trace == a.trace + b by {
        RetryFromStep(svc, instanceId, attempt, calls);
      }
      assert AttemptBlock(a.trace, instanceId, attempt) && (a.ok <==> DoneAt(a.trace, |a.trace| - 1)) by {
        AttemptIsBlock(svc, instanceId, attempt, calls);
      }
      assert WellShaped(b, instanceId) && (b == [] || InitiateAt(b, 0)) by {
        RetryTraceShape(svc, instanceId, attempt + 1, a.calls);
        RetryStartsWithInitiate(svc, instanceId, attempt + 1, a.calls);
      }
      WellShapedAppend(a.trace, b, instanceId, attempt);
    }
  }

  /** A run of the loop that has attempts left begins with a creation. */
  lemma RetryStartsWithInitiate(svc: Service, instanceId: string, attempt: nat, calls: Calls)
    ensures var t := RetryFrom(svc, instanceId, attempt, calls).trace;
      (t == [] <==> attempt >= RetryLimit) && (t != [] ==> t[0].Initiate?)
  {
    if attempt < RetryLimit {
      RetryFromStep(svc, instanceId, attempt, calls);
      AttemptShape(svc, instanceId, attempt, calls);
    }
  }

  /** The loop itself never publishes an alert. */
  lemma {:induction false} RetryNeverPublishes(svc: Service, instanceId: string, attempt: nat, calls: Calls)
    ensures Count(RetryFrom(svc, instanceId, attempt, calls).trace, IsPublish) == 0
    decreases RetryLimit - attempt
  {
    if attempt < RetryLimit {
      var a := Attempt(svc, instanceId, attempt, calls);
      var rest := RetryFrom(svc, instanceId, attempt + 1, a.calls);
      var b := if a.ok then [] else rest.trace;
      assert RetryFrom(svc, instanceId, attempt, calls).trace == a.trace + b by {
        RetryFromStep(svc, instanceId, attempt, calls);
      }
      assert Count(a.trace, IsPublish) == 0 by {
        AttemptCounts(svc, instanceId, attempt, calls);
      }
      assert Count(b, IsPublish) == 0 by {
        if !a.ok {
          RetryNeverPublishes(svc, instanceId, attempt + 1, a.calls);
        }
      }
      CountAppend(a.trace, b, IsPublish);
    }
  }
  /** The retry loop never consults the publish answer. */
  lemma {:induction false} RetryIgnoresPublish(svc: Service, svc': Service, instanceId: string, attempt: nat, calls: Calls)
    requires svc.initReply == svc'.initReply && svc.checkReply == svc'.checkReply
    ensures RetryFrom(svc, instanceId, attempt, calls) == RetryFrom(svc', instanceId, attempt, calls)
    decreases RetryLimit - attempt
  {
    if attempt < RetryLimit {
      var a := Attempt(svc, instanceId, attempt, calls);
      assert a == Attempt(svc', instanceId, attempt, calls);
      RetryIgnoresPublish(svc, svc', instanceId, attempt + 1, a.calls);
    }
  }


  /** The sleeps of attempts `attempt` .. RetryLimit - 1 add up to at most
      2^RetryLimit - 2^attempt seconds: at most 1 + 2 + 4 = 7 for the whole loop. */
  lemma {:induction false} RetrySleepTotal(svc: Service, instanceId: string, attempt: nat, calls: Calls)
    requires attempt <= RetryLimit
    ensures TotalSleep(RetryFrom(svc, instanceId, attempt, calls).trace) <= Pow2(RetryLimit) - Pow2(attempt)
    decreases RetryLimit - attempt
  {
    if attempt < RetryLimit {
      var a := Attempt(svc, instanceId, attempt, calls);
      var rest := RetryFrom(svc, instanceId, attempt + 1, a.calls);
      var b := if a.ok then [] else rest.trace;
      assert RetryFrom(svc, instanceId, attempt, calls).trace == a.trace + b by {
        RetryFromStep(svc, instanceId, attempt, calls);
      }
      assert TotalSleep(a.trace) <= Pow2(attempt) by {
        AttemptCounts(svc, instanceId, attempt, calls);
      }
      assert TotalSleep(b) <= Pow2(RetryLimit) - 2 * Pow2(attempt) by {
        if !a.ok {
          RetrySleepTotal(svc, instanceId, attempt + 1, a.calls);
        } else {
          Pow2Grows(attempt, RetryLimit);
        }
      }
      TotalSleepAppend(a.trace, b);
    }
  }

  lemma {:induction false} Pow2Grows(m: nat, n: nat)
    requires m < n
    ensures 2 * Pow2(m) <= Pow2(n)
    decreases n
  {
    if m < n - 1 {
      Pow2Grows(m, n - 1);
    }
  }
}
