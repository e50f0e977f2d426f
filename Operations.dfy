/**
 * The bulk-operation route of `server/routes/operations.js`: it turns a list of
 * `{type, operation, data}` ops into MongoDB write models, one list per collection,
 * and answers 204 when the three main bulk writes report `ok === 1`, 500 otherwise.
 * The bulk writes themselves run in the database; their outcome is an input here.
 */
module Operations {
  import opened Wrappers
  import opened JsValue

  /** The four accumulator arrays of the route. */
  datatype Collection = Tasks | Projects | Statuses | UserProfiles

  /** A MongoDB bulk-write model as the route builds it. */
  datatype WriteModel =
    | InsertOne(document: Value)                 // { insertOne: { document } }
    | UpdateOne(filterId: Value, fields: Value)  // { updateOne: { filter: { id }, update: { $set } } }
    | DeleteOne(filterId: Value)                 // { deleteOne: { filter: { id } } }

  /** `TypeError: Cannot read properties of null/undefined`, caught by the route's `catch`. */
  datatype TypeError = TypeError

  /** The four write lists, in the order of the `Promise.all`. */
  datatype Batches = Batches(
    taskOps: seq<WriteModel>, projectOps: seq<WriteModel>,
    statusOps: seq<WriteModel>, userProfileOps: seq<WriteModel>)

  /** `v.key`, which throws on null and undefined. */
  function Prop(v: Value, key: string): Result<Value, TypeError> {
    if v.Undefined? || v.Null? then Err(TypeError) else Ok(Get(v, key))
  }

  /**
   * The `add`/`update`/`delete` cases of one collection: the write model they push,
   * after reading `op.data.id` (for the log line or the filter), which throws when
   * `data` is null or undefined. Any other operation pushes nothing.
   */
  function Write(collection: Collection, operation: Value, data: Value, allowed: set<string>)
    : Result<Option<(Collection, WriteModel)>, TypeError>
  {
    if operation.Str? && operation.s in allowed then
      var id :- Prop(data, "id");
      if operation.s == "add" then Ok(Some((collection, InsertOne(data))))
      else if operation.s == "update" then Ok(Some((collection, UpdateOne(id, Get(data, "updatedFields")))))
      else Ok(Some((collection, DeleteOne(id))))
    else Ok(None)
  }

  /**
   * The `switch` of one op: which list it pushes onto and what, None when it is
   * dropped (an unknown type or operation, a `userProfile` add or delete), or the
   * TypeError its property reads throw.
   */
  function Translate(op: Value): Result<Option<(Collection, WriteModel)>, TypeError> {
    var t :- Prop(op, "type");
    var operation := Get(op, "operation");
    var data := Get(op, "data");
    if t == Str("task") then Write(Tasks, operation, data, {"add", "update", "delete"})
    else if t == Str("project") then Write(Projects, operation, data, {"add", "update", "delete"})
    else if t == Str("status") then Write(Statuses, operation, data, {"add", "update", "delete"})
    else if t == Str("userProfile") then Write(UserProfiles, operation, data, {"update"})
    else Ok(None)
  }

  /** Every op translates without throwing. */
  predicate NoThrow(ops: seq<Value>) {
    forall i :: 0 <= i < |ops| ==> Translate(ops[i]).Ok?
  }

  /** The write models the ops push onto one list, in op order. */
  function Collect(ops: seq<Value>, c: Collection): seq<WriteModel>
    requires NoThrow(ops)
  {
    if ops == [] then []
    else
      var last := Translate(ops[|ops| - 1]).value;
      assert NoThrow(ops[..|ops| - 1]) by {
        assert forall i :: 0 <= i < |ops| - 1 ==> ops[..|ops| - 1][i] == ops[i];
      }
      Collect(ops[..|ops| - 1], c) + (if last.Some? && last.value.0 == c then [last.value.1] else [])
  }

  /** What the `forEach` leaves in the four lists, or the TypeError that aborts it. */
  function Dispatched(ops: seq<Value>): Result<Batches, TypeError> {
    if NoThrow(ops) then
      Ok(Batches(Collect(ops, Tasks), Collect(ops, Projects), Collect(ops, Statuses), Collect(ops, UserProfiles)))
    else Err(TypeError)
  }

  /** The `ops.forEach` of lines 22-125. */
  method Dispatch(ops: seq<Value>) returns (r: Result<Batches, TypeError>)
    ensures r == Dispatched(ops)
  {
    var taskOps, projectOps, statusOps, userProfileOps := [], [], [], [];
    for i := 0 to |ops|
      invariant NoThrow(ops[..i])
      invariant taskOps == Collect(ops[..i], Tasks)
      invariant projectOps == Collect(ops[..i], Projects)
      invariant statusOps == Collect(ops[..i], Statuses)
      invariant userProfileOps == Collect(ops[..i], UserProfiles)
    {
      var pushed := Translate(ops[i]);
      if pushed.Err? {
        assert !NoThrow(ops) by {
          assert !Translate(ops[i]).Ok?;
        }
        return Err(TypeError);
      }
      assert ops[..i + 1] == ops[..i] + [ops[i]];
      NoThrowSnoc(ops[..i], ops[i]);
      CollectAppend(ops[..i], ops[i], Tasks);
      CollectAppend(ops[..i], ops[i], Projects);
      CollectAppend(ops[..i], ops[i], Statuses);
      CollectAppend(ops[..i], ops[i], UserProfiles);
      if pushed.value.Some? {
        var (collection, model) := pushed.value.value;
        match collection
        case Tasks => taskOps := taskOps + [model];
        case Projects => projectOps := projectOps + [model];
        case Statuses => statusOps := statusOps + [model];
        case UserProfiles => userProfileOps := userProfileOps + [model];
      }
    }
    assert ops[..|ops|] == ops;
    r := Ok(Batches(taskOps, projectOps, statusOps, userProfileOps));
  }

  // ---------------------------------------------------------------------------
  // The response
  // ---------------------------------------------------------------------------

  /** The `ok` field of each bulk-write result. */
  datatype WriteResults = WriteResults(taskOk: Value, projectOk: Value, statusOk: Value, userProfileOk: Value)

  /** The status code and the `error` of the JSON body (none for the 204). */
  datatype Response = Response(status: int, error: Option<string>)

  /**
   * Lines 128-151: a TypeError from the dispatch or a rejected bulk write (`written`
   * is None) is caught and answered 500; otherwise 500 unless the task, project and
   * status results all have `ok === 1`, and then 204.
   */
  function Respond(dispatched: Result<Batches, TypeError>, written: Option<WriteResults>): Response {
    if dispatched.Err? || written.None? then Response(500, Some("Internal Server Error"))
    else
      var w := written.value;
      if w.taskOk != Num(1) || w.projectOk != Num(1) || w.statusOk != Num(1)
      then Response(500, Some("Bulk write operation failed"))
      else Response(204, None)
  }

  // ---------------------------------------------------------------------------
  // Properties
  // ---------------------------------------------------------------------------

  /**
   * The write model of each handled case: `add` inserts `data` as the document,
   * `update` sets `data.updatedFields` on the record with id `data.id`, `delete`
   * deletes the record with id `data.id`, each on the list of the op's own type.
   */
  lemma TranslateCases(op: Value, c: Collection, t: string)
    requires op.Obj?
    requires (c, t) in {(Tasks, "task"), (Projects, "project"), (Statuses, "status")}
    requires Get(op, "type") == Str(t)
    requires var data := Get(op, "data"); !data.Undefined? && !data.Null?
    ensures var data := Get(op, "data");
      && (Get(op, "operation") == Str("add") ==> Translate(op) == Ok(Some((c, InsertOne(data)))))
      && (Get(op, "operation") == Str("update") ==>
            Translate(op) == Ok(Some((c, UpdateOne(Get(data, "id"), Get(data, "updatedFields"))))))
      && (Get(op, "operation") == Str("delete") ==> Translate(op) == Ok(Some((c, DeleteOne(Get(data, "id"))))))
  {
  }

  /**
   * `userProfile` ops: only `update` is translated; `add` and `delete` are dropped,
   * without reading `data`. Ops of any unknown type are dropped too.
   */
  lemma UserProfileAndUnknownTypes(op: Value)
    requires op.Obj?
    ensures var data := Get(op, "data");
      && (Get(op, "type") == Str("userProfile") && Get(op, "operation") == Str("update") && !data.Undefined? && !data.Null? ==>
            Translate(op) == Ok(Some((UserProfiles, UpdateOne(Get(data, "id"), Get(data, "updatedFields"))))))
      && (Get(op, "type") == Str("userProfile") && Get(op, "operation") in {Str("add"), Str("delete")} ==>
            Translate(op) == Ok(None))
      && (Get(op, "type") !in {Str("task"), Str("project"), Str("status"), Str("userProfile")} ==>
            Translate(op) == Ok(None))
  {
  }

  /**
   * The dispatch throws exactly when some op is null or undefined, or is a handled
   * case whose `data` is null or undefined.
   */
  lemma ThrowsIffNullishData(op: Value)
    ensures Translate(op).Err? <==>
      || op.Undefined? || op.Null?
      || (var data := Get(op, "data");
          && (data.Undefined? || data.Null?)
          && (|| (Get(op, "type") in {Str("task"), Str("project"), Str("status")}
                  && Get(op, "operation") in {Str("add"), Str("update"), Str("delete")})
              || (Get(op, "type") == Str("userProfile") && Get(op, "operation") == Str("update"))))
  {
  }

  /** One more op adds its write model to the end of its own list and nothing to the others. */
  lemma CollectAppend(ops: seq<Value>, op: Value, c: Collection)
    requires NoThrow(ops + [op])
    ensures NoThrow(ops) && Translate(op).Ok?
    ensures var t := Translate(op).value;
      Collect(ops + [op], c) == Collect(ops, c) + (if t.Some? && t.value.0 == c then [t.value.1] else [])
  {
    assert (ops + [op])[..|ops|] == ops;
    assert forall i :: 0 <= i < |ops| ==> (ops + [op])[i] == ops[i];
    assert (ops + [op])[|ops|] == op;
  }

  /**
   * Order is preserved: the entries of the earlier ops come first, in each of the
   * four lists.
   */
  lemma {:induction false} CollectConcat(a: seq<Value>, b: seq<Value>, c: Collection)
    requires NoThrow(a + b)
    ensures NoThrow(a) && NoThrow(b)
    ensures Collect(a + b, c) == Collect(a, c) + Collect(b, c)
    decreases |b|
  {
    NoThrowSplit(a, b);
    if b == [] {
      assert a + b == a;
    } else {
      var b' := b[..|b| - 1];
      var op := b[|b| - 1];
      assert a + b == (a + b') + [op];
      assert b == b' + [op];
      CollectAppend(a + b', op, c);
      CollectConcat(a, b', c);
      CollectAppend(b', op, c);
    }
  }

  /** Both halves of ops that do not throw do not throw. */
  lemma NoThrowSplit(a: seq<Value>, b: seq<Value>)
    requires NoThrow(a + b)
    ensures NoThrow(a) && NoThrow(b)
  {
    assert forall i :: 0 <= i < |a| ==> (a + b)[i] == a[i];
    assert forall i :: 0 <= i < |b| ==> (a + b)[|a| + i] == b[i];
  }

  /** One more op that does not throw keeps the ops from throwing. */
  lemma NoThrowSnoc(ops: seq<Value>, op: Value)
    requires NoThrow(ops) && Translate(op).Ok?
    ensures NoThrow(ops + [op])
  {
    assert forall i :: 0 <= i < |ops| ==> (ops + [op])[i] == ops[i];
    assert (ops + [op])[|ops|] == op;
  }

  /** The number of ops that are dropped without a write model. */
  function Dropped(ops: seq<Value>): nat
    requires NoThrow(ops)
  {
    if ops == [] then 0
    else
      assert NoThrow(ops[..|ops| - 1]) by {
        assert forall i :: 0 <= i < |ops| - 1 ==> ops[..|ops| - 1][i] == ops[i];
      }
      Dropped(ops[..|ops| - 1]) + (if Translate(ops[|ops| - 1]).value.None? then 1 else 0)
  }

  /** The four lists together hold one entry per op that is not dropped. */
  lemma {:induction false} EntriesCount(ops: seq<Value>)
    requires NoThrow(ops)
    ensures |Collect(ops, Tasks)| + |Collect(ops, Projects)| + |Collect(ops, Statuses)|
            + |Collect(ops, UserProfiles)| == |ops| - Dropped(ops)
  {
    if ops != [] {
      var init := ops[..|ops| - 1];
      assert NoThrow(init) by {
        assert forall i :: 0 <= i < |ops| - 1 ==> init[i] == ops[i];
      }
      EntriesCount(init);
    }
  }

  /**
   * The response is 204 exactly when the dispatch does not throw, the bulk writes
   * resolve and the task, project and status results have `ok === 1`; any other case
   * is a 500.
   */
  lemma RespondsNoContentIff(dispatched: Result<Batches, TypeError>, written: Option<WriteResults>)
    ensures Respond(dispatched, written).status == 204 <==>
      && dispatched.Ok? && written.Some?
      && written.value.taskOk == Num(1) && written.value.projectOk == Num(1) && written.value.statusOk == Num(1)
    ensures Respond(dispatched, written).status != 204 ==> Respond(dispatched, written).status == 500
  {
  }

  /** The `userProfile` result's `ok` is never looked at. */
  lemma UserProfileOkIgnored(dispatched: Result<Batches, TypeError>, w: WriteResults, ok: Value)
    ensures Respond(dispatched, Some(w)) == Respond(dispatched, Some(w.(userProfileOk := ok)))
  {
  }
}
