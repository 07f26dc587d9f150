# Cloud SQL backup orchestration, modelled in Dafny

main.py is a Cloud Function. It is triggered by a Pub/Sub message that names a Cloud SQL instance. It then:

1. starts an on-demand backup through the Cloud SQL Admin API (`initiate_backup`);
2. reads the status of the returned operation once, at once (`check_backup_status`);
3. if that status is not `"DONE"`, runs `retry_backup`: up to `RETRY_LIMIT = 3` attempts, each of which starts a new backup, sleeps `2 ** attempt` seconds and reads the status again;
4. if every retry fails, publishes an alert message to a Pub/Sub topic (`publish_alert`).

Any exception that reaches the top of `process_pubsub_message` is logged and the invocation ends.

The model has four modules.

- `BackupCalls` (backup_calls.dfy)
  - The external services are an oracle, `Service`. It gives the answer to the k-th backup creation, the answer to the k-th status read, and the answer of the Pub/Sub client. An answer is either a response or a raised exception.
  - `InitiateBackup` models the one decision of `initiate_backup`: the `"Unknown"` name default, with errors re-raised.
  - `CheckBackupStatus` models the one decision of `check_backup_status`: success exactly on `"DONE"`, with errors re-raised.
- `Trace` (trace.dfy)
  - An invocation's effects are a trace of events: `Initiate`, `Sleep(seconds)`, `Check` and `Publish`. Each remote call is recorded with the answer it got.
  - The module also counts events, adds up sleep time, and lists the answers the creations and the status reads got, in order.
- `Retry` (retry.dfy)
  - `RetryFrom` is the specification of the retry loop.
  - `RetryBackup` is the loop itself: a `while` loop over `attempt`. Each pass runs `TryAttempt`, which mirrors the try/except body of main.py. `TryAttempt` is proved equal to the one-pass specification `Attempt`, and `RetryBackup` is proved to produce exactly what `RetryFrom` specifies.
  - The lemmas about `RetryFrom` state what the loop guarantees:
    - it makes at most three attempts;
    - it returns true exactly when a read reports `"DONE"`, and stops right after that read;
    - it consumes the service's answers one by one, in the order it issues the calls;
    - the sleep of attempt n is 2^n seconds, and falls between a creation that returned and its status read;
    - the sleeps add up to at most 7 seconds;
    - every kind of failure consumes one attempt and is never re-raised.
- `Workflow` (workflow.dfy)
  - `HandleMessage` is the specification of one invocation of `process_pubsub_message`.
  - `ProcessPubsubMessage` follows main.py statement by statement and is proved equal to `HandleMessage`.
  - The lemmas state when each of the four outcomes happens:
    - rejected: an exception reached the outer handler;
    - backed up at once;
    - recovered by the retries;
    - alerted.
  - They also state what each outcome costs in calls and sleep time.

Two consequences of main.py's control flow are easy to miss. The model keeps both.

- **The alert's error.** `retry_backup` returns only a boolean, so the errors its own status reads report never leave it. The alert carries `str` of the error from the *immediate* status read, which is `"None"` when that read had no error. `Workflow.AlertIffRetryExhausted` states this.
- **Immediate failures are not retried.** The immediate `initiate_backup` and `check_backup_status` calls sit outside `retry_backup`. An exception from either goes straight to the outer handler: no retry and no alert (`Workflow.ImmediateErrorAborts`). Only errors inside `retry_backup` consume an attempt.

## Model

| member | source | states |
|---|---|---|
| `BackupCalls.InitiateBackup` | main.py:36-41 | the operation name is the response's `name`, or `"Unknown"` when the response has none; a service error is raised again with the same reason, never swallowed |
| `BackupCalls.CheckBackupStatus` | main.py:52-57 | success exactly when the status is `"DONE"` (an absent status is not success); the error component is the operation's `error` field, absent when it has none; a service error is raised again with the same reason |
| `BackupCalls.ErrorText` | main.py:107 | the alert's error text is the operation's error when it has one, and `"None"` (Python's `str(None)`) when it has none |
| `Retry.TryAttempt` | main.py:72-84 | one pass of the `try` body (creation, sleep, status read, with an exception from either call caught and ending the pass unsuccessfully) returns, records and consumes exactly what `Attempt` specifies |
| `Retry.AttemptIsBlock` | main.py:72-84 | one pass of the loop body: either a creation for the instance that raised, as the only event, or a creation that returned, a sleep of exactly 2^attempt seconds and one status read of the operation name that this creation returned; the pass returns true exactly when its last event is a read reporting `"DONE"` |
| `Retry.AttemptCounts` | main.py:73-75 | one pass issues exactly one creation and no alert; when the creation returned, exactly one sleep of 2^attempt seconds and one status read, otherwise neither; it consumes one creation answer and one read answer per read |
| `Retry.AttemptReplies` | main.py:73-75 | one pass records the creation answer numbered `calls.inits` and, when that creation returned, the status answer numbered `calls.checks`, and nothing else |
| `Retry.RetryBackup` | main.py:68-86 | the `while attempt < RETRY_LIMIT` loop returns, records and consumes exactly what the loop specification `RetryFrom` prescribes, from attempt 0 |
| `Retry.RetryBounds` | main.py:70-86 | the whole loop issues at most 3 creations, exactly 3 when it returns false, and sleeps at most 1 + 2 + 4 = 7 seconds |
| `Retry.RetryAttemptBound` | main.py:70-84 | from attempt n on, at most RETRY_LIMIT - n creations, and exactly that many when the loop returns false: every non-returning path consumes one attempt |
| `Retry.RetryConsumesReplies` | main.py:73-75 | the loop consumes exactly one creation answer per creation and one read answer per status read in its trace |
| `Retry.RetryRepliesInOrder` | main.py:71-84 | the k-th creation in the loop's trace got creation answer number `calls.inits + k`, and the k-th status read got read answer number `calls.checks + k`: the answers are consumed in the order the calls are issued |
| `Retry.RetrySucceedsIffDone` | main.py:75-78 | the loop returns true exactly when some status read in its trace reported `"DONE"`, and such a read is the trace's last event: nothing follows it |
| `Retry.RetryBackoffSchedule` | main.py:73-75 | every sleep comes right after a creation that returned and right before a status read, and lasts 2^n seconds where n is the number of the attempt it belongs to |
| `Retry.RetryTraceShape` | main.py:72-84 | every creation is for the requested instance; a creation that returned is followed by its sleep; every status read comes right after such a sleep and is of the operation that the creation before the sleep returned, never an earlier attempt's; every failure that is not the last event (raised creation, raised read, status other than `"DONE"`) is followed by a new creation, so no failure escapes the loop |
| `Retry.RetryReadsPerCreation` | main.py:72-75 | the loop issues at most one status read per creation |
| `Retry.RetryStartsWithInitiate` | main.py:71-73 | the loop does something exactly when attempts are left, and then it begins with a creation |
| `Retry.RetrySleepTotal` | main.py:74 | the sleeps from attempt n on add up to at most 2^RETRY_LIMIT - 2^n seconds |
| `Retry.RetryNeverPublishes` | main.py:68-86 | the retry loop publishes nothing |
| `Retry.RetryIgnoresPublish` | main.py:68-86 | the retry loop does not depend on the Pub/Sub client's answer |
| `Workflow.HasInstanceId` | main.py:91-95 | a message that did not decode, has no `instance_id`, or has an empty one is rejected (Python's `not instance_id`); any non-empty string id is accepted |
| `Workflow.HandleMessage` | main.py:88-112 | the trace is empty exactly when the message has no usable instance id; otherwise it begins with the creation for that instance; an alert is always the last event |
| `Workflow.ProcessPubsubMessage` | main.py:88-112 | the handler's outcome and trace are exactly those of `HandleMessage` |
| `Workflow.RejectedMakesNoCalls` | main.py:91-95 | a message that does not decode, or has no `instance_id` or an empty one, ends in the outer handler (with the "Missing 'instance_id'" error when it decoded), after zero creations and no alert |
| `Workflow.ImmediateSuccessStops` | main.py:97-101 | when the immediate read reports `"DONE"`, the invocation ends with one creation, one read, no sleep, no retry and no alert |
| `Workflow.ImmediateErrorAborts` | main.py:97-98 | when the immediate creation or read raises, the outer handler ends the invocation with that exception: one creation, no sleep, no retry, no alert |
| `Workflow.AlertIffRetryExhausted` | main.py:102-110 | at most one alert; an alert exactly when the immediate creation and read returned, the read was not `"DONE"` and the retry loop returned false; its error is `str` of the immediate read's error, never a retry's |
| `Workflow.RecoveredIffRetryDone` | main.py:102-104 | the invocation recovers exactly when the immediate read failed and a read inside the retry loop reported `"DONE"`, and that read is the invocation's last event |
| `Workflow.InvocationBounds` | main.py:97-110 | one invocation issues at most 4 creations and at most 4 status reads, and sleeps at most 7 seconds; an alert is preceded by exactly 4 creations (the immediate one and all 3 retries) |
| `Workflow.InvocationReadsOwnOperation` | main.py:97-98 | every status read of an invocation is of the operation name its own creation returned: the immediate read directly after the immediate creation, and each retry's read after that retry's creation and sleep |
| `Workflow.PublishFailureSwallowed` | main.py:59-66 | whatever the Pub/Sub client answers, the invocation takes the same course and builds the same alert; a failed publish only makes `publishReturned` false and is never raised |

## Left out

- Client construction and the remote calls are not modelled. This covers `discovery.build`, `backupRuns().insert`, `operations().get`, `execute()` and `pubsub_v1.PublisherClient`. Their answers are the oracle `Service`, indexed by call number.
- The project id from `PROJECT_ID`, passed with every request, is not modelled. The status read's answer is an oracle input that does not depend on the operation name. The name each read is issued for is recorded in its `Check` event, and `Retry.RetryTraceShape` and `Workflow.InvocationReadsOwnOperation` tie it to the name its own creation returned.
- Environment configuration (`PROJECT_ID`, `ALERT_TOPIC`) and the Cloud Logging setup are left out, because they are configuration. All `logging` calls are left out too, since they only log.
- The backup description built from `datetime.now(...).strftime(...)` is left out, because it is wall-clock text that no decision depends on.
- The alert timestamp `time.time()` is an input (`now`), because it is wall-clock.
- `time.sleep` does not block in the model. Only its duration is recorded, as a `Sleep` event.
- Base64, UTF-8 and JSON decoding are not modelled, because they are library code. `Payload` says only that decoding raised (or the message is not an object), or which `instance_id` value it gave.
- An `instance_id` that is not a string (a number, a list) is left out. Such a value would be passed on as it is, and its truthiness would follow Python's rules for its type.
- JSON serialisation of the alert is left out. The alert is the `Alert` value itself.
- Python's `str` of a structured `error` object is not modelled. An operation's `error` field is the text that `str` gives for it.
- A `name` field that is present but null is left out. `response.get` would then give `None` as the operation name, not `"Unknown"`.
