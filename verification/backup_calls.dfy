/**
 * The two calls to the Cloud SQL Admin API made by main.py (`initiate_backup`
 * and `check_backup_status`) and the alert sent through Pub/Sub. The remote
 * endpoints themselves are not modelled: what they answer is an input (the
 * `Service` oracle), and only the decisions main.py takes on those answers are
 * defined here.
 */
module BackupCalls {

  datatype Option<T> = None | Some(value: T)

  /** The result of a Python call that either returns a value or raises an exception. */
  datatype Result<T> = Ok(value: T) | Raised(reason: string)

  /** What `backupRuns().insert(...).execute()` gave back: the `name` field of the
      response (absent when the response has none), or an exception. */
  datatype InitReply = InitReturned(name: Option<string>) | InitRaised(reason: string)

  /** The operation resource read by `operations().get(...).execute()`: its `status`
      field and the text that `str` gives for its `error` field, each possibly absent. */
  datatype Operation = Operation(status: Option<string>, error: Option<string>)

  /** What the status read gave back. */
  datatype CheckReply = CheckReturned(operation: Operation) | CheckRaised(reason: string)

  /** What the Pub/Sub client did with an alert. */
  datatype PublishReply = PublishAccepted | PublishRaised(reason: string)

  /** The external collaborators as an oracle: `initReply(k)` is the answer to the
      k-th backup creation of an invocation (counting from 0), `checkReply(k)` the
      answer to the k-th status read, `publishReply` the answer to the one publish. */
  datatype Service = Service(initReply: nat -> InitReply, checkReply: nat -> CheckReply, publishReply: PublishReply)

  /** How many creations and status reads an invocation has issued so far. */
  datatype Calls = Calls(inits: nat, checks: nat)

  /** The pair `(success, error)` that `check_backup_status` returns. */
  datatype Status = Status(success: bool, error: Option<string>)

  /** The only status value the workflow treats as success. */
  const Done: string := "DONE"

  /** The operation name used when the creation response carries none. */
  const UnknownOperation: string := "Unknown"

  /** `initiate_backup`: the operation name of a started backup, `"Unknown"` when the
      response omits it; a service error is re-raised unchanged. */
  function InitiateBackup(reply: InitReply): (r: Result<string>)
    ensures r.Raised? <==> reply.InitRaised?
    ensures reply.InitRaised? ==> r.reason == reply.reason
    ensures reply.InitReturned? && reply.name.Some? ==> r.value == reply.name.value
    ensures reply.InitReturned? && reply.name.None? ==> r.value == UnknownOperation
  {
    match reply
    case InitRaised(reason) => Raised(reason)
    case InitReturned(name) => Ok(if name.Some? then name.value else UnknownOperation)
  }

  /** `check_backup_status`: success exactly when the status is `"DONE"`, together with
      the operation's error field (absent when the operation has none); a service error
      is re-raised unchanged. */
  function CheckBackupStatus(reply: CheckReply): (r: Result<Status>)
    ensures r.Raised? <==> reply.CheckRaised?
    ensures reply.CheckRaised? ==> r.reason == reply.reason
    ensures reply.CheckReturned? ==> (r.value.success <==> reply.operation.status == Some(Done))
    ensures reply.CheckReturned? ==> r.value.error == reply.operation.error
  {
    match reply
    case CheckRaised(reason) => Raised(reason)
    case CheckReturned(operation) => Ok(Status(operation.status == Some(Done), operation.error))
  }

  /** Python's `str` of the error value: `"None"` when the operation had no error. */
  function ErrorText(error: Option<string>): (text: string)
    ensures error.Some? ==> text == error.value
    ensures error.None? ==> text == "None"
  {
    if error.Some? then error.value else "None"
  }

  /** A status read that reported success. */
  predicate Succeeded(reply: CheckReply)
  {
    var status := CheckBackupStatus(reply);
    status.Ok? && status.value.success
  }
}
