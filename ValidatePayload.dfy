/**
 * `validateBulkPayloadStructure` of `server/middlewares/validatePayload.js`: the
 * Express middleware that checks the shape of a bulk-operation request body before
 * the dispatcher runs. Each check either answers 400 with an error or lets the next
 * one run; when all pass, `next()` is called.
 */
module ValidatePayload {
  import opened Wrappers
  import opened JsValue

  /** The failing check, in the order the checks run. */
  datatype ValidationError =
    | PayloadNotObject
    | OpsNotArray
    | BackupNotObject
    | BackupMissingCollections
    | InvalidOperation(index: nat)

  /** What the middleware does: call `next()`, or send `status` with an error body. */
  datatype Outcome = CallNext | Reject(status: int, error: ValidationError)

  /** The `error` text of each 400 response. */
  function ErrorMessage(e: ValidationError): string {
    match e
    case PayloadNotObject => "Payload must be a valid object"
    case OpsNotArray => "`ops` must be an array"
    case BackupNotObject => "`backup` must be an object"
    case BackupMissingCollections =>
      "`backup` must contain valid `tasks`, `projects`, `statuses`, and `userProfiles` objects"
    case InvalidOperation(_) => "Invalid operation at index " + NatToString(e.index)
  }

  /** The decimal digits of a non-negative number, as a template literal prints it. */
  function NatToString(n: nat): (s: string)
    ensures |s| >= 1
    ensures forall k :: 0 <= k < |s| ==> '0' <= s[k] <= '9'
    decreases n
  {
    var digit := [(48 + n % 10) as char];
    if n < 10 then digit else NatToString(n / 10) + digit
  }

  /** The op types this version allows. */
  const CurrentTypes: set<string> := {"task", "project", "status", "userProfile"}

  /** The operations both versions allow. */
  const Operations: set<string> := {"add", "update", "delete"}

  /** The per-op check of the loop: a truthy object with a known type, operation and a `data` key. */
  predicate OpValid(op: Value, types: set<string>) {
    && Truthy(op)
    && TypeofObject(op)
    && Get(op, "type").Str? && Get(op, "type").s in types
    && Get(op, "operation").Str? && Get(op, "operation").s in Operations
    && Has(op, "data")
  }

  /** The index of the first op that fails the check, or None when all pass. */
  function FirstInvalid(ops: seq<Value>, types: set<string>): (r: Option<nat>)
    ensures r.None? <==> forall i :: 0 <= i < |ops| ==> OpValid(ops[i], types)
    ensures r.Some? ==>
      && r.value < |ops| && !OpValid(ops[r.value], types)
      && forall j :: 0 <= j < r.value ==> OpValid(ops[j], types)
  {
    if ops == [] then None
    else if !OpValid(ops[0], types) then Some(0)
    else
      var rest := FirstInvalid(ops[1..], types);
      assert forall i :: 1 <= i < |ops| ==> ops[i] == ops[1..][i - 1];
      if rest.None? then None else Some(rest.value + 1)
  }

  /** `typeof v !== 'object' || v === null`, the test every collection of the backup must fail. */
  predicate NotObject(v: Value) {
    !TypeofObject(v) || v.Null?
  }

  /** The whole middleware. */
  function ValidateBulkPayloadStructure(payload: Value): Outcome {
    if NotObject(payload) then Reject(400, PayloadNotObject)
    else
      var ops, backup := Get(payload, "ops"), Get(payload, "backup");
      if !ops.Arr? then Reject(400, OpsNotArray)
      else if !Truthy(backup) || !TypeofObject(backup) then Reject(400, BackupNotObject)
      else if NotObject(Get(backup, "statuses")) || NotObject(Get(backup, "tasks"))
           || NotObject(Get(backup, "projects")) || NotObject(Get(backup, "userProfile"))
      then Reject(400, BackupMissingCollections)
      else match FirstInvalid(ops.items, CurrentTypes)
        case Some(i) => Reject(400, InvalidOperation(i))
        case None => CallNext
  }

  // ---------------------------------------------------------------------------
  // Properties
  // ---------------------------------------------------------------------------

  /** The payload passes the first three checks. */
  predicate PayloadShaped(payload: Value) {
    && IsNonNullObject(payload)
    && Get(payload, "ops").Arr?
    && IsNonNullObject(Get(payload, "backup"))
  }

  /** The backup holds the named collections, each an array or an object. */
  predicate HasCollections(backup: Value, names: set<string>) {
    forall name :: name in names ==> IsNonNullObject(Get(backup, name))
  }

  /** The collections this version requires. */
  const CurrentCollections: set<string> := {"statuses", "tasks", "projects", "userProfile"}

  /**
   * The checks run in source order and the first failing one decides the (always 400)
   * response: each error is sent exactly when every earlier check passed and its own
   * check failed. Arrays pass every "object" test.
   */
  lemma RejectsFirstFailure(payload: Value)
    ensures var out := ValidateBulkPayloadStructure(payload);
      && (out.Reject? ==> out.status == 400)
      && (out == Reject(400, PayloadNotObject) <==> !IsNonNullObject(payload))
      && (out == Reject(400, OpsNotArray) <==> IsNonNullObject(payload) && !Get(payload, "ops").Arr?)
      && (out == Reject(400, BackupNotObject) <==>
            && IsNonNullObject(payload) && Get(payload, "ops").Arr?
            && !IsNonNullObject(Get(payload, "backup")))
      && (out == Reject(400, BackupMissingCollections) <==>
            PayloadShaped(payload) && !HasCollections(Get(payload, "backup"), CurrentCollections))
      && forall i: nat :: out == Reject(400, InvalidOperation(i)) <==>
            && PayloadShaped(payload) && HasCollections(Get(payload, "backup"), CurrentCollections)
            && i < |Get(payload, "ops").items|
            && !OpValid(Get(payload, "ops").items[i], CurrentTypes)
            && forall j :: 0 <= j < i ==> OpValid(Get(payload, "ops").items[j], CurrentTypes)
  {
    var backup := Get(payload, "backup");
    assert HasCollections(backup, CurrentCollections) <==>
      !(NotObject(Get(backup, "statuses")) || NotObject(Get(backup, "tasks"))
        || NotObject(Get(backup, "projects")) || NotObject(Get(backup, "userProfile")));
  }

  /** `next()` is called exactly when every check passes; then no response is sent. */
  lemma NextIffAllPass(payload: Value)
    ensures ValidateBulkPayloadStructure(payload) == CallNext <==>
      && PayloadShaped(payload)
      && HasCollections(Get(payload, "backup"), CurrentCollections)
      && forall i :: 0 <= i < |Get(payload, "ops").items| ==> OpValid(Get(payload, "ops").items[i], CurrentTypes)
  {
    var backup := Get(payload, "backup");
    assert HasCollections(backup, CurrentCollections) <==>
      !(NotObject(Get(backup, "statuses")) || NotObject(Get(backup, "tasks"))
        || NotObject(Get(backup, "projects")) || NotObject(Get(backup, "userProfile")));
  }

  /** The per-op test is a non-null object whose type and operation are listed and which has `data`. */
  lemma OpValidMeans(op: Value, types: set<string>)
    ensures OpValid(op, types) <==>
      && op.Obj?
      && "type" in op.props && op.props["type"].Str? && op.props["type"].s in types
      && "operation" in op.props && op.props["operation"].Str? && op.props["operation"].s in {"add", "update", "delete"}
      && "data" in op.props
  {
  }
}
