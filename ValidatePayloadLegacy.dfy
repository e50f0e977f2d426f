/**
 * The older `validateBulkPayloadStructure` of `server/routes/validatePayload.js`: the
 * same checks, without the `userProfile` collection and without the `userProfile`
 * op type.
 */
module ValidatePayloadLegacy {
  import opened Wrappers
  import opened JsValue
  import opened ValidatePayload

  /** The op types this version allows. */
  const LegacyTypes: set<string> := {"task", "project", "status"}

  /** The collections this version requires. */
  const LegacyCollections: set<string> := {"statuses", "tasks", "projects"}

  /** The `error` text of each 400 response of this version. */
  function LegacyErrorMessage(e: ValidationError): string {
    if e.BackupMissingCollections? then "`backup` must contain valid `tasks`, `projects`, and `statuses` objects"
    else ErrorMessage(e)
  }

  /** The whole older middleware. */
  function ValidateBulkPayloadStructureLegacy(payload: Value): Outcome {
    if NotObject(payload) then Reject(400, PayloadNotObject)
    else
      var ops, backup := Get(payload, "ops"), Get(payload, "backup");
      if !ops.Arr? then Reject(400, OpsNotArray)
      else if !Truthy(backup) || !TypeofObject(backup) then Reject(400, BackupNotObject)
      else if NotObject(Get(backup, "statuses")) || NotObject(Get(backup, "tasks"))
           || NotObject(Get(backup, "projects"))
      then Reject(400, BackupMissingCollections)
      else match FirstInvalid(ops.items, LegacyTypes)
        case Some(i) => Reject(400, InvalidOperation(i))
        case None => CallNext
  }

  /**
   * The checks run in the same order as in the newer version; the backup needs only
   * `statuses`, `tasks` and `projects`, and an op is checked against the three older
   * types.
   */
  lemma LegacyRejectsFirstFailure(payload: Value)
    ensures var out := ValidateBulkPayloadStructureLegacy(payload);
      && (out.Reject? ==> out.status == 400)
      && (out == Reject(400, PayloadNotObject) <==> !IsNonNullObject(payload))
      && (out == Reject(400, OpsNotArray) <==> IsNonNullObject(payload) && !Get(payload, "ops").Arr?)
      && (out == Reject(400, BackupNotObject) <==>
            && IsNonNullObject(payload) && Get(payload, "ops").Arr?
            && !IsNonNullObject(Get(payload, "backup")))
      && (out == Reject(400, BackupMissingCollections) <==>
            PayloadShaped(payload) && !HasCollections(Get(payload, "backup"), LegacyCollections))
      && forall i: nat :: out == Reject(400, InvalidOperation(i)) <==>
            && PayloadShaped(payload) && HasCollections(Get(payload, "backup"), LegacyCollections)
            && i < |Get(payload, "ops").items|
            && !OpValid(Get(payload, "ops").items[i], LegacyTypes)
            && forall j :: 0 <= j < i ==> OpValid(Get(payload, "ops").items[j], LegacyTypes)
  {
    var backup := Get(payload, "backup");
    assert HasCollections(backup, LegacyCollections) <==>
      !(NotObject(Get(backup, "statuses")) || NotObject(Get(backup, "tasks"))
        || NotObject(Get(backup, "projects")));
  }

  /** `next()` is called exactly when every check passes. */
  lemma LegacyNextIffAllPass(payload: Value)
    ensures ValidateBulkPayloadStructureLegacy(payload) == CallNext <==>
      && PayloadShaped(payload)
      && HasCollections(Get(payload, "backup"), LegacyCollections)
      && forall i :: 0 <= i < |Get(payload, "ops").items| ==> OpValid(Get(payload, "ops").items[i], LegacyTypes)
  {
    var backup := Get(payload, "backup");
    assert HasCollections(backup, LegacyCollections) <==>
      !(NotObject(Get(backup, "statuses")) || NotObject(Get(backup, "tasks"))
        || NotObject(Get(backup, "projects")));
  }

  /** A `userProfile` op is rejected at its own index once the ops before it pass. */
  lemma UserProfileOpRejected(payload: Value, i: nat)
    requires PayloadShaped(payload) && HasCollections(Get(payload, "backup"), LegacyCollections)
    requires i < |Get(payload, "ops").items|
    requires Get(Get(payload, "ops").items[i], "type") == Str("userProfile")
    requires forall j :: 0 <= j < i ==> OpValid(Get(payload, "ops").items[j], LegacyTypes)
    ensures ValidateBulkPayloadStructureLegacy(payload) == Reject(400, InvalidOperation(i))
  {
    LegacyRejectsFirstFailure(payload);
  }

  /**
   * Every payload without `userProfile` ops that the newer middleware lets through is
   * let through by the older one too.
   */
  lemma NewerAcceptsImpliesLegacyAccepts(payload: Value)
    requires ValidateBulkPayloadStructure(payload) == CallNext
    requires forall i :: 0 <= i < |Get(payload, "ops").items| ==>
      Get(Get(payload, "ops").items[i], "type") != Str("userProfile")
    ensures ValidateBulkPayloadStructureLegacy(payload) == CallNext
  {
    NextIffAllPass(payload);
    LegacyNextIffAllPass(payload);
    var ops := Get(payload, "ops").items;
    forall i | 0 <= i < |ops| ensures OpValid(ops[i], LegacyTypes) {
      assert OpValid(ops[i], CurrentTypes);
    }
    assert HasCollections(Get(payload, "backup"), LegacyCollections) by {
      assert HasCollections(Get(payload, "backup"), CurrentCollections);
      assert LegacyCollections <= CurrentCollections;
    }
  }
}
