/**
 * The task updaters of `web-client/src/components/Todolist.tsx`. Each one changes the
 * array of tasks in place and then renumbers the `order` of the tasks of one status:
 * it filters them, sorts them by their old `order` (a stable sort, so ties keep their
 * array order) and gives the task at sorted index `i` the order `i`.
 */
module Todolist {
  import opened Wrappers
  import JsValue

  /** A task of the array. `previousStatus` is None when the task has none (undefined). */
  datatype Task = Task(
    id: string, title: string, status: int, previousStatus: Option<int>, order: int,
    rest: JsValue.Record)

  /** The argument of `addTask`: a task without its id. */
  datatype NewTask = NewTask(
    title: string, status: int, previousStatus: Option<int>, order: int, rest: JsValue.Record)

  /** The `updatedFields` of `updateTask`: each field that is present, and any others. */
  datatype TaskPatch = TaskPatch(
    id: Option<string>, title: Option<string>, status: Option<int>,
    previousStatus: Option<int>, order: Option<int>, rest: JsValue.Record)

  /** `{ ...newTask, id }`. */
  function WithId(t: NewTask, id: string): Task {
    Task(id, t.title, t.status, t.previousStatus, t.order, t.rest)
  }

  /** `Object.assign(task, updatedFields)`: every present field of the patch overwrites the task's. */
  function Assign(t: Task, p: TaskPatch): (r: Task)
    ensures r.id == (if p.id.Some? then p.id.value else t.id)
    ensures r.title == (if p.title.Some? then p.title.value else t.title)
    ensures r.status == (if p.status.Some? then p.status.value else t.status)
    ensures r.previousStatus == (if p.previousStatus.Some? then p.previousStatus else t.previousStatus)
    ensures r.order == (if p.order.Some? then p.order.value else t.order)
    ensures r.rest.Keys == t.rest.Keys + p.rest.Keys
    ensures forall f :: f in r.rest ==> r.rest[f] == (if f in p.rest then p.rest[f] else t.rest[f])
  {
    Task(
      if p.id.Some? then p.id.value else t.id,
      if p.title.Some? then p.title.value else t.title,
      if p.status.Some? then p.status.value else t.status,
      if p.previousStatus.Some? then p.previousStatus else t.previousStatus,
      if p.order.Some? then p.order.value else t.order,
      t.rest + p.rest)
  }

  /** `draft.findIndex(task => task.id === id)`: the first position with that id, or -1. */
  function FindIndex(ts: seq<Task>, id: string): (r: int)
    ensures -1 <= r < |ts|
    ensures r >= 0 ==> ts[r].id == id && forall j :: 0 <= j < r ==> ts[j].id != id
    ensures r == -1 <==> forall j :: 0 <= j < |ts| ==> ts[j].id != id
  {
    if ts == [] then -1
    else if ts[0].id == id then 0
    else
      var r := FindIndex(ts[1..], id);
      assert forall j :: 1 <= j < |ts| ==> ts[j] == ts[1..][j - 1];
      if r == -1 then -1 else r + 1
  }

  // ---------------------------------------------------------------------------
  // Renumbering
  // ---------------------------------------------------------------------------

  /** `t.status === target`, where a None target is `undefined` and matches no number. */
  predicate HasStatus(t: Task, target: Option<int>) {
    target == Some(t.status)
  }

  /** Positions from `from` on whose task has the status, in array order: the `filter`. */
  function Positions(ts: seq<Task>, target: Option<int>, from: nat): (ps: seq<nat>)
    requires from <= |ts|
    ensures forall a :: 0 <= a < |ps| ==> from <= ps[a] < |ts| && HasStatus(ts[ps[a]], target)
    ensures forall k :: from <= k < |ts| && HasStatus(ts[k], target) ==> k in ps
    ensures forall a, b :: 0 <= a < b < |ps| ==> ps[a] < ps[b]
    decreases |ts| - from
  {
    if from == |ts| then []
    else (if HasStatus(ts[from], target) then [from] else []) + Positions(ts, target, from + 1)
  }

  /**
   * The comparator `(a, b) => a.order - b.order` of a stable sort over the filtered
   * tasks: a smaller `order` first, and equal orders in array order. Both are
   * positions of the array.
   */
  predicate Before(ts: seq<Task>, a: nat, b: nat) {
    a < |ts| && b < |ts| && (ts[a].order < ts[b].order || (ts[a].order == ts[b].order && a < b))
  }

  /** Every one of `ps` is a position of `ts`. */
  predicate InRange(ts: seq<Task>, ps: seq<nat>) {
    forall a :: 0 <= a < |ps| ==> ps[a] < |ts|
  }

  /** Positions in strictly ascending `Before` order. */
  predicate SortedBy(ts: seq<Task>, ps: seq<nat>) {
    forall a, b :: 0 <= a < b < |ps| ==> Before(ts, ps[a], ps[b])
  }

  /** Insert one position into a sorted sequence of positions. */
  function Insert(ts: seq<Task>, p: nat, ps: seq<nat>): (r: seq<nat>)
    requires p < |ts| && InRange(ts, ps)
    requires p !in ps && SortedBy(ts, ps)
    ensures multiset(r) == multiset(ps) + multiset{p}
    ensures InRange(ts, r)
    ensures SortedBy(ts, r)
  {
    if ps == [] then [p]
    else if Before(ts, p, ps[0]) then
      InsertFront(ts, p, ps);
      [p] + ps
    else
      var tail := Insert(ts, p, ps[1..]);
      InsertBehind(ts, p, ps, tail);
      [ps[0]] + tail
  }

  /** A position before the first of a sorted sequence goes in front. */
  lemma InsertFront(ts: seq<Task>, p: nat, ps: seq<nat>)
    requires p < |ts| && ps != [] && SortedBy(ts, ps) && Before(ts, p, ps[0])
    ensures SortedBy(ts, [p] + ps)
  {
    assert forall a :: 0 <= a < |ps| ==> Before(ts, p, ps[a]) by {
      assert forall a :: 0 < a < |ps| ==> Before(ts, ps[0], ps[a]);
    }
    ConsSorted(ts, p, ps);
  }

  /** A position after the first of a sorted sequence goes into its tail. */
  lemma InsertBehind(ts: seq<Task>, p: nat, ps: seq<nat>, tail: seq<nat>)
    requires p < |ts| && ps != [] && ps[0] < |ts| && p != ps[0] && !Before(ts, p, ps[0]) && SortedBy(ts, ps)
    requires InRange(ts, ps)
    requires multiset(tail) == multiset(ps[1..]) + multiset{p}
    requires InRange(ts, tail)
    requires SortedBy(ts, tail)
    ensures multiset([ps[0]] + tail) == multiset(ps) + multiset{p}
    ensures forall a :: 0 <= a < |[ps[0]] + tail| ==> ([ps[0]] + tail)[a] < |ts|
    ensures SortedBy(ts, [ps[0]] + tail)
  {
    assert ps == [ps[0]] + ps[1..];
    assert forall a :: 0 <= a < |ps[1..]| ==> Before(ts, ps[0], ps[1..][a]) by {
      assert forall a :: 0 < a < |ps| ==> Before(ts, ps[0], ps[a]);
    }
    InsertAbove(ts, ps[0], p, ps[1..], tail);
    ConsSorted(ts, ps[0], tail);
  }

  /** A position before `p` and before all of `ps` is before all of `p` inserted into `ps`. */
  lemma InsertAbove(ts: seq<Task>, q: nat, p: nat, ps: seq<nat>, r: seq<nat>)
    requires q < |ts| && p < |ts| && InRange(ts, ps)
    requires multiset(r) == multiset(ps) + multiset{p} && InRange(ts, r)
    requires Before(ts, q, p) && forall a :: 0 <= a < |ps| ==> Before(ts, q, ps[a])
    ensures forall b :: 0 <= b < |r| ==> Before(ts, q, r[b])
  {
    forall b | 0 <= b < |r| ensures Before(ts, q, r[b]) {
      assert r[b] in multiset(ps) + multiset{p};
      if r[b] != p {
        assert r[b] in ps;
      }
    }
  }

  /** A position before all of a sorted sequence extends it at the front. */
  lemma ConsSorted(ts: seq<Task>, q: nat, ps: seq<nat>)
    requires q < |ts| && InRange(ts, ps)
    requires SortedBy(ts, ps) && forall a :: 0 <= a < |ps| ==> Before(ts, q, ps[a])
    ensures SortedBy(ts, [q] + ps)
  {
    var r := [q] + ps;
    forall a, b | 0 <= a < b < |r| ensures Before(ts, r[a], r[b]) {
      assert r[b] == ps[b - 1];
      if a > 0 {
        assert r[a] == ps[a - 1];
      }
    }
  }

  /** `Array.prototype.sort` of the filtered positions with that comparator (an insertion sort). */
  function SortPositions(ts: seq<Task>, ps: seq<nat>): (r: seq<nat>)
    requires InRange(ts, ps)
    requires Distinct(ps)
    ensures multiset(r) == multiset(ps)
    ensures InRange(ts, r)
    ensures SortedBy(ts, r)
  {
    if ps == [] then []
    else
      DistinctRest(ts, ps);
      var tail := SortPositions(ts, ps[1..]);
      assert ps[0] !in tail && multiset(ps) == multiset(tail) + multiset{ps[0]} by {
        assert ps == [ps[0]] + ps[1..];
        assert ps[0] !in multiset(tail);
      }
      Insert(ts, ps[0], tail)
  }

  /** The rest of distinct positions of `ts` are distinct positions of `ts`, without the first. */
  lemma DistinctRest(ts: seq<Task>, ps: seq<nat>)
    requires ps != [] && InRange(ts, ps) && Distinct(ps)
    ensures InRange(ts, ps[1..]) && Distinct(ps[1..])
    ensures ps[0] !in multiset(ps[1..])
  {
    assert forall a :: 0 <= a < |ps[1..]| ==> ps[1..][a] == ps[a + 1];
  }

  /** The index of a position in a sequence of positions it occurs in. */
  function IndexIn(ps: seq<nat>, p: nat): (i: nat)
    requires p in ps
    ensures i < |ps| && ps[i] == p
  {
    if ps[0] == p then 0 else 1 + IndexIn(ps[1..], p)
  }

  /** Every position of `ps` gets its index in `ps` as its order; no other task changes. */
  function AssignRanks(ts: seq<Task>, ps: seq<nat>): (r: seq<Task>)
    ensures |r| == |ts|
  {
    seq(|ts|, k requires 0 <= k < |ts| =>
      if k in ps then ts[k].(order := IndexIn(ps, k)) else ts[k])
  }

  /** The sorted positions of the tasks with the status. */
  function Ranking(ts: seq<Task>, target: Option<int>): (r: seq<nat>)
    ensures InRange(ts, r)
    ensures SortedBy(ts, r)
    ensures forall k: nat :: k in r <==> k < |ts| && HasStatus(ts[k], target)
  {
    var ps := Positions(ts, target, 0);
    var r := SortPositions(ts, ps);
    assert forall k: nat :: k in r <==> k in ps by {
      forall k: nat ensures k in r <==> k in ps {
        assert k in r <==> k in multiset(r);
      }
    }
    r
  }

  /** The array after the `filter`, `sort` and `forEach` of one status. */
  function Renumbered(ts: seq<Task>, target: Option<int>): seq<Task> {
    AssignRanks(ts, Ranking(ts, target))
  }

  /** No position occurs twice. */
  predicate Distinct(ps: seq<nat>) {
    forall a, b :: 0 <= a < b < |ps| ==> ps[a] != ps[b]
  }

  /** Sorted positions are distinct. */
  lemma SortedDistinct(ts: seq<Task>, ps: seq<nat>)
    requires InRange(ts, ps)
    requires SortedBy(ts, ps)
    ensures Distinct(ps)
  {
    forall a, b | 0 <= a < b < |ps| ensures ps[a] != ps[b] {
      assert Before(ts, ps[a], ps[b]);
    }
  }

  /** The index of a distinct position is the one it sits at. */
  lemma IndexInDistinct(ps: seq<nat>, i: nat)
    requires Distinct(ps) && i < |ps|
    ensures IndexIn(ps, ps[i]) == i
  {
    var j := IndexIn(ps, ps[i]);
    assert ps[j] == ps[i];
  }

  /** One step of the `forEach`: the task at sorted index `i` gets order `i`. */
  lemma AssignStep(ts: seq<Task>, ps: seq<nat>, i: nat)
    requires Distinct(ps) && i < |ps| && InRange(ts, ps)
    ensures var cur := AssignRanks(ts, ps[..i]);
      AssignRanks(ts, ps[..i + 1]) == cur[ps[i] := cur[ps[i]].(order := i)]
  {
    var cur := AssignRanks(ts, ps[..i]);
    var next := AssignRanks(ts, ps[..i + 1]);
    assert ps[..i + 1] == ps[..i] + [ps[i]];
    assert ps[i] !in ps[..i];
    forall k | 0 <= k < |ts| ensures next[k] == cur[ps[i] := cur[ps[i]].(order := i)][k] {
      if k in ps[..i] {
        var j := IndexIn(ps[..i], k);
        IndexInDistinct(ps[..i + 1], j);
        IndexInDistinct(ps[..i], j);
      } else if k == ps[i] {
        IndexInDistinct(ps[..i + 1], i);
      }
    }
  }

  /** The array of tasks that the updaters change through `setTasks`. */
  class TaskList {
    var tasks: seq<Task>

    constructor (ts: seq<Task>)
      ensures tasks == ts
    {
      tasks := ts;
    }

    /**
     * The `filter`, `sort` and `forEach` that follow each update: the tasks with the
     * status, in stable `order` order, get the orders 0, 1, ... in turn.
     */
    method RenumberStatus(target: Option<int>)
      modifies this
      ensures tasks == Renumbered(old(tasks), target)
    {
      var filtered := Ranking(tasks, target);
      SortedDistinct(tasks, filtered);
      ghost var start := tasks;
      for index := 0 to |filtered|
        invariant tasks == AssignRanks(start, filtered[..index])
      {
        AssignStep(start, filtered, index);
        tasks := tasks[filtered[index] := tasks[filtered[index]].(order := index)];
      }
      assert filtered[..|filtered|] == filtered;
    }

    /** `addTask(newTask)`, with `id` the fresh id `crypto.randomUUID()` returns. */
    method AddTask(newTask: NewTask, id: string)
      modifies this
      ensures tasks == Renumbered(old(tasks) + [WithId(newTask, id)], Some(newTask.status))
    {
      tasks := tasks + [WithId(newTask, id)];
      RenumberStatus(Some(newTask.status));
    }

    /**
     * `updateTask(id, updatedFields)`: the first task with the id gets the fields,
     * then its (new) status is renumbered; an unknown id renumbers the tasks whose
     * status is undefined, which is none.
     */
    method UpdateTask(id: string, updatedFields: TaskPatch)
      modifies this
      ensures var i := FindIndex(old(tasks), id);
        tasks == if i >= 0
          then Renumbered(old(tasks)[i := Assign(old(tasks)[i], updatedFields)],
                          Some(Assign(old(tasks)[i], updatedFields).status))
          else Renumbered(old(tasks), None)
    {
      var i := FindIndex(tasks, id);
      var status: Option<int> := None;
      if i >= 0 {
        tasks := tasks[i := Assign(tasks[i], updatedFields)];
        status := Some(tasks[i].status);
      }
      RenumberStatus(status);
    }

    /**
     * `deleteTask(id)`: the task's status becomes -2 and the tasks with its
     * `previousStatus` are renumbered. An unknown id makes `deletedTask` undefined;
     * the filter reads its `previousStatus` only when it calls its callback, so on a
     * non-empty array it throws and the updater is abandoned, while on an empty
     * array it returns normally. Either way the array keeps its old value.
     */
    method DeleteTask(id: string) returns (r: Result<(), TypeError>)
      modifies this
      ensures var i := FindIndex(old(tasks), id);
        && (r.Err? <==> i == -1 && |old(tasks)| > 0)
        && tasks == if i >= 0
             then Renumbered(old(tasks)[i := old(tasks)[i].(status := -2)], old(tasks)[i].previousStatus)
             else old(tasks)
    {
      var index := FindIndex(tasks, id);
      if index == -1 {
        if |tasks| > 0 {
          return Err(TypeError);
        }
        return Ok(());
      }
      var previousStatus := tasks[index].previousStatus;
      tasks := tasks[index := tasks[index].(status := -2)];
      RenumberStatus(previousStatus);
      r := Ok(());
    }
  }

  /** `TypeError: Cannot read properties of undefined (reading 'previousStatus')`. */
  datatype TypeError = TypeError

  // ---------------------------------------------------------------------------
  // Properties of the renumbering
  // ---------------------------------------------------------------------------

  /**
   * Renumbering changes only `order`, and only for the tasks with the status: every
   * other task, and every other field, stays as it was.
   */
  lemma RenumberedKeepsOthers(ts: seq<Task>, target: Option<int>)
    ensures var r := Renumbered(ts, target);
      && |r| == |ts|
      && forall k :: 0 <= k < |ts| ==>
           && r[k] == ts[k].(order := r[k].order)
           && (!HasStatus(ts[k], target) ==> r[k] == ts[k])
  {
    var sp := Ranking(ts, target);
    var r := AssignRanks(ts, sp);
    forall k | 0 <= k < |ts| ensures r[k] == ts[k].(order := r[k].order) && (!HasStatus(ts[k], target) ==> r[k] == ts[k]) {
      assert r[k] == if k in sp then ts[k].(order := IndexIn(sp, k)) else ts[k];
    }
  }

  /** `Before` is a strict total order on positions. */
  lemma BeforeTotal(ts: seq<Task>, j: nat, k: nat)
    requires j < |ts| && k < |ts|
    ensures j != k ==> Before(ts, j, k) || Before(ts, k, j)
    ensures !(Before(ts, j, k) && Before(ts, k, j))
    ensures !Before(ts, j, j)
  {
  }

  /** Ranking the tasks with a status keeps exactly as many positions as the `filter`. */
  lemma RankingCount(ts: seq<Task>, target: Option<int>)
    ensures |Ranking(ts, target)| == |Positions(ts, target, 0)|
    ensures Distinct(Ranking(ts, target))
  {
    var ps := Positions(ts, target, 0);
    var sp := SortPositions(ts, ps);
    assert |multiset(sp)| == |multiset(ps)|;
    SortedDistinct(ts, sp);
  }

  /** The new order of a task with the status is its index in the ranking. */
  lemma RenumberedIsIndex(ts: seq<Task>, target: Option<int>, k: nat)
    requires k < |ts| && HasStatus(ts[k], target)
    ensures Renumbered(ts, target)[k].order == IndexIn(Ranking(ts, target), k)
  {
  }

  /**
   * After renumbering, the `k` tasks with the status (as many as the `filter` keeps)
   * carry the orders 0 .. k-1: the one at index `a` of the ranking gets `a`, so each
   * order is taken exactly once.
   */
  lemma RenumberedOrdersAreRanks(ts: seq<Task>, target: Option<int>)
    ensures var r := Renumbered(ts, target);
      var count := |Positions(ts, target, 0)|;
      && |r| == |ts|
      && |Ranking(ts, target)| == count
      && (forall k :: 0 <= k < |ts| && HasStatus(ts[k], target) ==> 0 <= r[k].order < count)
      && (forall a :: 0 <= a < count ==> r[Ranking(ts, target)[a]].order == a)
  {
    var sp := Ranking(ts, target);
    RankingCount(ts, target);
    forall k | 0 <= k < |ts| && HasStatus(ts[k], target)
      ensures 0 <= Renumbered(ts, target)[k].order < |sp|
    {
      RenumberedIsIndex(ts, target, k);
    }
    forall a | 0 <= a < |sp| ensures Renumbered(ts, target)[sp[a]].order == a {
      RenumberedIsIndex(ts, target, sp[a]);
      IndexInDistinct(sp, a);
    }
  }

  /**
   * A task with the status comes before another in the new order exactly when it had
   * a smaller old `order`, or an equal one and an earlier place in the array: the sort
   * is stable.
   */
  lemma RenumberedKeepsOldOrder(ts: seq<Task>, target: Option<int>, j: nat, k: nat)
    requires j < |ts| && k < |ts| && HasStatus(ts[j], target) && HasStatus(ts[k], target)
    ensures Before(ts, j, k) <==> Renumbered(ts, target)[j].order < Renumbered(ts, target)[k].order
  {
    var sp := Ranking(ts, target);
    RankingCount(ts, target);
    RenumberedIsIndex(ts, target, j);
    RenumberedIsIndex(ts, target, k);
    var a, b := IndexIn(sp, j), IndexIn(sp, k);
    BeforeTotal(ts, j, k);
    if a < b {
      assert Before(ts, sp[a], sp[b]);
    } else if b < a {
      assert Before(ts, sp[b], sp[a]);
    }
  }

  /** Renumbering the undefined status (an unknown id in `updateTask`) changes nothing. */
  lemma UndefinedStatusChangesNothing(ts: seq<Task>)
    ensures Renumbered(ts, None) == ts
  {
    RenumberedKeepsOthers(ts, None);
  }

  /**
   * `addTask` appends exactly one task, the new fields with the given id; only the
   * orders of the tasks with its status change.
   */
  lemma AddTaskAppends(ts: seq<Task>, newTask: NewTask, id: string)
    ensures var r := Renumbered(ts + [WithId(newTask, id)], Some(newTask.status));
      && |r| == |ts| + 1
      && r[|ts|] == WithId(newTask, id).(order := r[|ts|].order)
      && forall k :: 0 <= k < |ts| ==>
           && r[k] == ts[k].(order := r[k].order)
           && (ts[k].status != newTask.status ==> r[k] == ts[k])
  {
    var ts' := ts + [WithId(newTask, id)];
    RenumberedKeepsOthers(ts', Some(newTask.status));
    assert forall k :: 0 <= k < |ts| ==> ts'[k] == ts[k];
  }

  /** Writing one task and then renumbering: that task keeps what was written but its order. */
  lemma WriteThenRenumber(ts: seq<Task>, i: nat, t: Task, target: Option<int>)
    requires i < |ts|
    ensures var r := Renumbered(ts[i := t], target);
      && |r| == |ts|
      && r[i] == t.(order := r[i].order)
      && forall k :: 0 <= k < |ts| && k != i ==>
           && r[k] == ts[k].(order := r[k].order)
           && (!HasStatus(ts[k], target) ==> r[k] == ts[k])
  {
    var ts' := ts[i := t];
    RenumberedKeepsOthers(ts', target);
    assert forall k :: 0 <= k < |ts| && k != i ==> ts'[k] == ts[k];
  }

  /**
   * `updateTask` on a known id leaves that task with every field of the patch (its
   * order is then renumbered) and changes no other task except in `order`.
   */
  lemma UpdateTaskAssigns(ts: seq<Task>, id: string, patch: TaskPatch)
    requires FindIndex(ts, id) >= 0
    ensures var i := FindIndex(ts, id);
      var t := Assign(ts[i], patch);
      var r := Renumbered(ts[i := t], Some(t.status));
      && |r| == |ts|
      && r[i] == t.(order := r[i].order)
      && forall k :: 0 <= k < |ts| && k != i ==>
           && r[k] == ts[k].(order := r[k].order)
           && (ts[k].status != t.status ==> r[k] == ts[k])
  {
    var i := FindIndex(ts, id);
    WriteThenRenumber(ts, i, Assign(ts[i], patch), Some(Assign(ts[i], patch).status));
  }

  /**
   * `deleteTask` on a known id leaves that task with status -2 and keeps every
   * status but that one; only the tasks with its `previousStatus` get new orders.
   */
  lemma DeleteTaskMarks(ts: seq<Task>, id: string)
    requires FindIndex(ts, id) >= 0
    ensures var i := FindIndex(ts, id);
      var r := Renumbered(ts[i := ts[i].(status := -2)], ts[i].previousStatus);
      && |r| == |ts|
      && r[i] == ts[i].(status := -2, order := r[i].order)
      && forall k :: 0 <= k < |ts| && k != i ==>
           && r[k] == ts[k].(order := r[k].order)
           && (Some(ts[k].status) != ts[i].previousStatus ==> r[k] == ts[k])
  {
    var i := FindIndex(ts, id);
    WriteThenRenumber(ts, i, ts[i].(status := -2), ts[i].previousStatus);
  }
}
