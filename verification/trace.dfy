/**
 * The observable effects of one invocation, in the order they happen: every
 * remote call with the answer it got, and every backoff sleep. Properties of the
 * retry loop and of the workflow are stated over such traces.
 */
module Trace {
  import opened BackupCalls

  /** The message `process_pubsub_message` publishes when every retry failed. */
  datatype Alert = Alert(instanceId: string, error: string, timestamp: real)

  datatype Event =
    | Initiate(instanceId: string, initReply: InitReply)  // one `initiate_backup` call
    | Sleep(seconds: nat)                                  // one `time.sleep`
    | Check(operationName: string, checkReply: CheckReply) // one `check_backup_status` call
    | Publish(alert: Alert, publishReply: PublishReply)   // one `publish_alert` call

  predicate IsInitiate(e: Event) { e.Initiate? }
  predicate IsCheck(e: Event) { e.Check? }
  predicate IsPublish(e: Event) { e.Publish? }
  predicate IsSleep(e: Event) { e.Sleep? }

  /** A status read that reported `"DONE"`. */
  predicate ReportsDone(e: Event) { e.Check? && Succeeded(e.checkReply) }

  // Positions in a trace. Each predicate includes the bounds check, so that quantifiers
  // over positions can be stated without indexing the trace directly.

  predicate InitiateAt(t: seq<Event>, i: int) { 0 <= i < |t| && t[i].Initiate? }

  /** A creation that returned an operation name. */
  predicate StartedAt(t: seq<Event>, i: int) { InitiateAt(t, i) && t[i].initReply.InitReturned? }

  predicate SleepAt(t: seq<Event>, i: int) { 0 <= i < |t| && t[i].Sleep? }

  predicate CheckAt(t: seq<Event>, i: int) { 0 <= i < |t| && t[i].Check? }

  /** A status read that reported `"DONE"`. */
  predicate DoneAt(t: seq<Event>, i: int) { 0 <= i < |t| && ReportsDone(t[i]) }

  /** A failed step of an attempt: a creation that raised, or a status read that raised
      or reported anything but `"DONE"`. */
  predicate FailedAt(t: seq<Event>, i: int)
  {
    (InitiateAt(t, i) && t[i].initReply.InitRaised?) || (CheckAt(t, i) && !ReportsDone(t[i]))
  }

  /** The status read at `i` is of the operation that the creation `back` events before
      it returned. */
  predicate ReadOfStartedAt(t: seq<Event>, i: int, back: nat)
  {
    && CheckAt(t, i) && StartedAt(t, i - back)
    && t[i].operationName == InitiateBackup(t[i - back].initReply).value
  }

  /** Every status read of `t` is of the operation returned by the creation right before
      it, or by the creation right before the sleep that precedes it: never a name that
      an earlier creation returned. */
  ghost predicate ReadsOwnOperations(t: seq<Event>)
  {
    forall i :: CheckAt(t, i) ==> ReadOfStartedAt(t, i, 1) || (SleepAt(t, i - 1) && ReadOfStartedAt(t, i, 2))
  }

  lemma ReadsOwnAppend(a: seq<Event>, b: seq<Event>)
    requires ReadsOwnOperations(a) && ReadsOwnOperations(b)
    ensures ReadsOwnOperations(a + b)
  {
    var t := a + b;
    forall i | CheckAt(t, i)
      ensures ReadOfStartedAt(t, i, 1) || (SleepAt(t, i - 1) && ReadOfStartedAt(t, i, 2))
    {
      if i < |a| {
        assert t[i] == a[i] && CheckAt(a, i);
        if i >= 1 { assert t[i - 1] == a[i - 1]; }
        if i >= 2 { assert t[i - 2] == a[i - 2]; }
      } else {
        var j := i - |a|;
        assert t[i] == b[j] && CheckAt(b, j);
        if j >= 1 { assert t[i - 1] == b[j - 1]; }
        if j >= 2 { assert t[i - 2] == b[j - 2]; }
      }
    }
  }

  /** The number of events of `t` that satisfy `p`. */
  function Count(t: seq<Event>, p: Event -> bool): (n: nat)
    ensures n <= |t|
  {
    if t == [] then 0 else (if p(t[0]) then 1 else 0) + Count(t[1..], p)
  }

  /** The seconds spent sleeping along `t`. */
  function TotalSleep(t: seq<Event>): nat
  {
    if t == [] then 0 else (if t[0].Sleep? then t[0].seconds else 0) + TotalSleep(t[1..])
  }

  /** The answers the creations of `t` got, in the order they were issued. */
  function InitReplies(t: seq<Event>): (replies: seq<InitReply>)
    ensures |replies| == Count(t, IsInitiate)
  {
    if t == [] then []
    else (if t[0].Initiate? then [t[0].initReply] else []) + InitReplies(t[1..])
  }

  /** The answers the status reads of `t` got, in the order they were issued. */
  function CheckReplies(t: seq<Event>): (replies: seq<CheckReply>)
    ensures |replies| == Count(t, IsCheck)
  {
    if t == [] then []
    else (if t[0].Check? then [t[0].checkReply] else []) + CheckReplies(t[1..])
  }

  /** `replies` are the answers `oracle` gives to the calls numbered `first`,
      `first + 1`, ... in that order. */
  ghost predicate Answered<T>(replies: seq<T>, oracle: nat -> T, first: nat)
  {
    forall k :: 0 <= k < |replies| ==> replies[k] == oracle(first + k)
  }

  /** Answers to calls `first` .. `next - 1` followed by answers to calls from `next` on. */
  lemma AnsweredAppend<T>(x: seq<T>, y: seq<T>, oracle: nat -> T, first: nat, next: nat)
    requires next == first + |x|
    requires Answered(x, oracle, first) && Answered(y, oracle, next)
    ensures Answered(x + y, oracle, first)
  {
    forall k | 0 <= k < |x + y|
      ensures (x + y)[k] == oracle(first + k)
    {
      if k >= |x| {
        assert (x + y)[k] == y[k - |x|];
      }
    }
  }

  lemma {:induction false} CountAppend(a: seq<Event>, b: seq<Event>, p: Event -> bool)
    ensures Count(a + b, p) == Count(a, p) + Count(b, p)
  {
    if a == [] {
      assert a + b == b;
    } else {
      assert (a + b)[1..] == a[1..] + b;
      CountAppend(a[1..], b, p);
    }
  }

  lemma {:induction false} TotalSleepAppend(a: seq<Event>, b: seq<Event>)
    ensures TotalSleep(a + b) == TotalSleep(a) + TotalSleep(b)
  {
    if a == [] {
      assert a + b == b;
    } else {
      assert (a + b)[1..] == a[1..] + b;
      TotalSleepAppend(a[1..], b);
    }
  }

  /** Walking `t` from the call counters `calls`: each creation got the creation answer
      numbered by the creations before it, and each status read the status answer
      numbered by the reads before it. */
  ghost predicate AnsweredFrom(t: seq<Event>, svc: Service, calls: Calls)
    decreases |t|
  {
    if t == [] then true
    else if t[0].Initiate? then
      t[0].initReply == svc.initReply(calls.inits) && AnsweredFrom(t[1..], svc, Calls(calls.inits + 1, calls.checks))
    else if t[0].Check? then
      t[0].checkReply == svc.checkReply(calls.checks) && AnsweredFrom(t[1..], svc, Calls(calls.inits, calls.checks + 1))
    else AnsweredFrom(t[1..], svc, calls)
  }

  lemma {:induction false} AnsweredFromAppend(a: seq<Event>, b: seq<Event>, svc: Service, calls: Calls, next: Calls)
    requires next == Calls(calls.inits + Count(a, IsInitiate), calls.checks + Count(a, IsCheck))
    requires AnsweredFrom(a, svc, calls) && AnsweredFrom(b, svc, next)
    ensures AnsweredFrom(a + b, svc, calls)
    decreases |a|
  {
    if a == [] {
      assert a + b == b;
    } else {
      assert (a + b)[1..] == a[1..] + b;
      var rest := if a[0].Initiate? then Calls(calls.inits + 1, calls.checks)
                  else if a[0].Check? then Calls(calls.inits, calls.checks + 1)
                  else calls;
      AnsweredFromAppend(a[1..], b, svc, rest, next);
    }
  }

  /** What `AnsweredFrom` means: the k-th creation of `t` got creation answer number
      `calls.inits + k`, and the k-th status read got status answer number
      `calls.checks + k`. */
  lemma {:induction false} AnsweredInOrder(t: seq<Event>, svc: Service, calls: Calls)
    requires AnsweredFrom(t, svc, calls)
    ensures Answered(InitReplies(t), svc.initReply, calls.inits)
    ensures Answered(CheckReplies(t), svc.checkReply, calls.checks)
    decreases |t|
  {
    if t != [] {
      var e := t[0];
      if e.Initiate? {
        AnsweredInOrder(t[1..], svc, Calls(calls.inits + 1, calls.checks));
        AnsweredAppend([e.initReply], InitReplies(t[1..]), svc.initReply, calls.inits, calls.inits + 1);
        assert CheckReplies(t) == [] + CheckReplies(t[1..]) == CheckReplies(t[1..]);
      } else if e.Check? {
        AnsweredInOrder(t[1..], svc, Calls(calls.inits, calls.checks + 1));
        AnsweredAppend([e.checkReply], CheckReplies(t[1..]), svc.checkReply, calls.checks, calls.checks + 1);
        assert InitReplies(t) == [] + InitReplies(t[1..]) == InitReplies(t[1..]);
      } else {
        AnsweredInOrder(t[1..], svc, calls);
        assert InitReplies(t) == [] + InitReplies(t[1..]) == InitReplies(t[1..]);
        assert CheckReplies(t) == [] + CheckReplies(t[1..]) == CheckReplies(t[1..]);
      }
    }
  }
}
