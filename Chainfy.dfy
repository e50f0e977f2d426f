/**
 * The one-pass chain builder `web-client/src/data/Chainfy.py`. It links the records of
 * `projectList` by key position (`prevProject`/`nextProject`), links the records of
 * `taskList` inside maximal runs of equal (`status`, `project`) pairs
 * (`prevTask`/`nextTask`) and drops every record's `order`. Each mapping is given as
 * its entries in key order; the file read and the JSON dump are not part of the model.
 */
module Chainfy {
  import opened Wrappers
  import opened JsValue

  /** A key of `projectList` or `taskList` with its record. */
  type Entry = (string, Record)

  /** Python's KeyError, naming the field that a subscript or `pop` did not find. */
  datatype KeyError = KeyError(field: string)

  /** The two mappings of the document, each as its entries in key order. */
  datatype Document = Document(projectList: seq<Entry>, taskList: seq<Entry>)

  /** `record[f]`, which raises KeyError when the field is absent. */
  function Field(r: Record, f: string): Result<Value, KeyError> {
    if f in r then Ok(r[f]) else Err(KeyError(f))
  }

  /** `record.update(links)` followed by `record.pop('order')`. */
  function UpdateAndPop(r: Record, links: Record): Result<Record, KeyError> {
    if "order" in r then Ok((r + links) - {"order"}) else Err(KeyError("order"))
  }

  /** The key at position `j` as a link value, None when there is no such position. */
  function KeyAt(es: seq<Entry>, j: int): Value {
    if 0 <= j < |es| then Str(es[j].0) else Null
  }

  // ---------------------------------------------------------------------------
  // Projects: one chain over the whole mapping

  /** The record the project loop leaves at position `i`. */
  function LinkedProject(ps: seq<Entry>, i: nat): Result<Record, KeyError>
    requires i < |ps|
  {
    UpdateAndPop(ps[i].1, map["prevProject" := KeyAt(ps, i - 1), "nextProject" := KeyAt(ps, i + 1)])
  }

  /** The first `n` project entries after the loop has run over them, or its KeyError. */
  function LinkProjects(ps: seq<Entry>, n: nat): Result<seq<Entry>, KeyError>
    requires n <= |ps|
  {
    if n == 0 then Ok([])
    else
      var done :- LinkProjects(ps, n - 1);
      var rec :- LinkedProject(ps, n - 1);
      Ok(done + [(ps[n - 1].0, rec)])
  }

  // ---------------------------------------------------------------------------
  // Tasks: chains inside runs of equal (status, project)

  /**
   * `a['status'] != b['status'] or a['project'] != b['project']`, evaluated left
   * to right with Python's short circuit, so `project` is read only on equal statuses.
   */
  function Differ(a: Record, b: Record): Result<bool, KeyError> {
    var sa :- Field(a, "status");
    var sb :- Field(b, "status");
    if sa != sb then Ok(true)
    else
      var pa :- Field(a, "project");
      var pb :- Field(b, "project");
      Ok(pa != pb)
  }

  /** The guard of line 23: the task at `i` opens a run. */
  function StartsRun(ts: seq<Entry>, i: nat): Result<bool, KeyError>
    requires i < |ts|
  {
    if i == 0 then Ok(true) else Differ(ts[i].1, ts[i - 1].1)
  }

  /** The guard of lines 24 and 36: the task at `i` closes a run. */
  function EndsRun(ts: seq<Entry>, i: nat): Result<bool, KeyError>
    requires i < |ts|
  {
    if i == |ts| - 1 then Ok(true) else Differ(ts[i].1, ts[i + 1].1)
  }

  /** The record the task loop leaves at position `i`. */
  function LinkedTask(ts: seq<Entry>, i: nat): Result<Record, KeyError>
    requires i < |ts|
  {
    var starts :- StartsRun(ts, i);
    var ends :- EndsRun(ts, i);
    UpdateAndPop(ts[i].1, map["prevTask" := if starts then Null else KeyAt(ts, i - 1),
                              "nextTask" := if ends then Null else KeyAt(ts, i + 1)])
  }

  /** The first `n` task entries after the loop has run over them, or its KeyError. */
  function LinkTasks(ts: seq<Entry>, n: nat): Result<seq<Entry>, KeyError>
    requires n <= |ts|
  {
    if n == 0 then Ok([])
    else
      var done :- LinkTasks(ts, n - 1);
      var rec :- LinkedTask(ts, n - 1);
      Ok(done + [(ts[n - 1].0, rec)])
  }

  /** The whole script: the project pass, then the task pass; any KeyError aborts it. */
  function Transform(projectList: seq<Entry>, taskList: seq<Entry>): Result<Document, KeyError> {
    var projects :- LinkProjects(projectList, |projectList|);
    var tasks :- LinkTasks(taskList, |taskList|);
    Ok(Document(projects, tasks))
  }

  // ---------------------------------------------------------------------------
  // The script's two loops

  /** `a` and `b` agree on the presence and the values of `status` and `project`. */
  predicate KeepsRunFields(a: Record, b: Record) {
    && ("status" in a <==> "status" in b)
    && ("project" in a <==> "project" in b)
    && ("status" in a ==> a["status"] == b["status"])
    && ("project" in a ==> a["project"] == b["project"])
  }

  /** The script: the project loop, then the task loop; a KeyError in either aborts it. */
  method Chainfy(projectList: seq<Entry>, taskList: seq<Entry>) returns (r: Result<Document, KeyError>)
    ensures r == Transform(projectList, taskList)
  {
    var projects := ChainProjects(projectList);
    if projects.Err? {
      return Err(projects.error);
    }
    var tasks := ChainTasks(taskList);
    if tasks.Err? {
      return Err(tasks.error);
    }
    r := Ok(Document(projects.value, tasks.value));
  }

  /** The project loop (lines 10-15), updating the entries in place. */
  method ChainProjects(projectList: seq<Entry>) returns (r: Result<seq<Entry>, KeyError>)
    ensures r == LinkProjects(projectList, |projectList|)
  {
    var projects := projectList;
    var n := |projects|;
    for i := 0 to n
      invariant |projects| == n
      invariant forall k :: 0 <= k < n ==> projects[k].0 == projectList[k].0
      invariant projects[i..] == projectList[i..]
      invariant LinkProjects(projectList, i) == Ok(projects[..i])
    {
      var rec := projects[i].1 + map["prevProject" := if i > 0 then Str(projects[i - 1].0) else Null,
                                     "nextProject" := if i < n - 1 then Str(projects[i + 1].0) else Null];
      if "order" !in rec {
        LinkProjectsStaysFailed(projectList, i + 1, n);
        return Err(KeyError("order"));
      }
      assert projects[i] == projectList[i];
      projects := projects[i := (projects[i].0, rec - {"order"})];
      assert projects[..i + 1] == projects[..i] + [projects[i]];
    }
    assert projects[..n] == projects;
    r := Ok(projects);
  }

  /**
   * The task loop (lines 22-46), updating the entries in place: the guard on the
   * left neighbour reads the record that the previous round already linked.
   */
  method ChainTasks(taskList: seq<Entry>) returns (r: Result<seq<Entry>, KeyError>)
    ensures r == LinkTasks(taskList, |taskList|)
  {
    var tasks := taskList;
    var m := |tasks|;
    for i := 0 to m
      invariant |tasks| == m
      invariant forall k :: 0 <= k < m ==> tasks[k].0 == taskList[k].0
      invariant forall k :: 0 <= k < m ==> KeepsRunFields(tasks[k].1, taskList[k].1)
      invariant tasks[i..] == taskList[i..]
      invariant LinkTasks(taskList, i) == Ok(tasks[..i])
    {
      assert tasks[i] == taskList[i];
      assert i + 1 < m ==> tasks[i + 1] == taskList[i + 1];
      if i > 0 {
        DifferKeepsRunFields(tasks[i].1, tasks[i - 1].1, taskList[i - 1].1);
      }
      var starts := if i == 0 then Ok(true) else Differ(tasks[i].1, tasks[i - 1].1);
      if starts.Err? {
        LinkTasksStaysFailed(taskList, i + 1, m);
        return Err(starts.error);
      }
      var ends := if i == m - 1 then Ok(true) else Differ(tasks[i].1, tasks[i + 1].1);
      if ends.Err? {
        LinkTasksStaysFailed(taskList, i + 1, m);
        return Err(ends.error);
      }
      var prev, next;
      if starts.value {
        if ends.value {
          prev, next := Null, Null;
        } else {
          prev, next := Null, Str(tasks[i + 1].0);
        }
      } else {
        if ends.value {
          prev, next := Str(tasks[i - 1].0), Null;
        } else {
          prev, next := Str(tasks[i - 1].0), Str(tasks[i + 1].0);
        }
      }
      var rec := tasks[i].1 + map["prevTask" := prev, "nextTask" := next];
      if "order" !in rec {
        LinkTasksStaysFailed(taskList, i + 1, m);
        return Err(KeyError("order"));
      }
      assert LinkedTask(taskList, i) == Ok(rec - {"order"});
      assert KeepsRunFields(rec - {"order"}, taskList[i].1);
      tasks := tasks[i := (tasks[i].0, rec - {"order"})];
      assert tasks[..i + 1] == tasks[..i] + [tasks[i]];
    }
    assert tasks[..m] == tasks;
    r := Ok(tasks);
  }

  /** Reading the run fields of a neighbour that kept them gives the same comparison. */
  lemma DifferKeepsRunFields(a: Record, b: Record, b': Record)
    requires KeepsRunFields(b, b')
    ensures Differ(a, b) == Differ(a, b')
  {
  }

  lemma {:induction false} LinkProjectsStaysFailed(ps: seq<Entry>, m: nat, n: nat)
    requires 0 < m <= n <= |ps|
    requires LinkProjects(ps, m - 1).Ok? && LinkedProject(ps, m - 1).Err?
    ensures LinkProjects(ps, n) == Err(LinkedProject(ps, m - 1).error)
  {
    if n > m {
      LinkProjectsStaysFailed(ps, m, n - 1);
    }
  }

  lemma {:induction false} LinkTasksStaysFailed(ts: seq<Entry>, m: nat, n: nat)
    requires 0 < m <= n <= |ts|
    requires LinkTasks(ts, m - 1).Ok? && LinkedTask(ts, m - 1).Err?
    ensures LinkTasks(ts, n) == Err(LinkedTask(ts, m - 1).error)
  {
    if n > m {
      LinkTasksStaysFailed(ts, m, n - 1);
    }
  }
}

// -----------------------------------------------------------------------------
// What the transformation guarantees

module ChainfyProperties {
  import opened Wrappers
  import opened JsValue
  import opened Chainfy

  /** Both records carry `status` and `project`, with equal values: one run. */
  predicate SameRun(a: Record, b: Record) {
    && "status" in a && "status" in b && a["status"] == b["status"]
    && "project" in a && "project" in b && a["project"] == b["project"]
  }

  /** The project pass reads nothing but `order`. */
  predicate ProjectsHaveOrder(ps: seq<Entry>) {
    forall k :: 0 <= k < |ps| ==> "order" in ps[k].1
  }

  /** Comparing two neighbours reads `status` of both, and `project` of both when the statuses agree. */
  predicate Comparable(a: Record, b: Record) {
    && "status" in a && "status" in b
    && (a["status"] == b["status"] ==> "project" in a && "project" in b)
  }

  /**
   * Every field the task pass reads is present: every `order`; every `status` once
   * there are two tasks; and both `project` fields of neighbours with equal statuses.
   */
  predicate TasksReadable(ts: seq<Entry>) {
    && (forall k :: 0 <= k < |ts| ==> "order" in ts[k].1)
    && (|ts| >= 2 ==> forall k :: 0 <= k < |ts| ==> "status" in ts[k].1)
    && (forall k :: 0 <= k < |ts| - 1 ==> Comparable(ts[k].1, ts[k + 1].1))
  }

  lemma DifferOk(a: Record, b: Record)
    ensures Differ(a, b).Ok? <==> Comparable(a, b)
    ensures Differ(a, b).Ok? ==> Differ(a, b).value == !SameRun(a, b)
    ensures Differ(a, b).Err? ==> Differ(a, b).error.field in {"status", "project"}
  {
  }

  /** Updating with links that do not name `order`, then popping `order`. */
  lemma UpdateAndPopShape(r: Record, links: Record)
    requires "order" in r && "order" !in links
    ensures UpdateAndPop(r, links).Ok?
    ensures UpdateAndPop(r, links).value == r - ({"order"} + links.Keys) + links
  {
    var a := UpdateAndPop(r, links).value;
    var b := r - ({"order"} + links.Keys) + links;
    assert a.Keys == b.Keys;
    assert forall f :: f in a ==> a[f] == b[f];
  }

  lemma LinkedProjectOk(ps: seq<Entry>, i: nat)
    requires i < |ps|
    ensures LinkedProject(ps, i).Ok? <==> "order" in ps[i].1
    ensures LinkedProject(ps, i).Err? ==> LinkedProject(ps, i).error == KeyError("order")
  {
  }

  lemma LinkProjectsOk(ps: seq<Entry>, n: nat)
    requires n <= |ps|
    ensures LinkProjects(ps, n).Ok? <==> forall k :: 0 <= k < n ==> "order" in ps[k].1
    ensures LinkProjects(ps, n).Err? ==> LinkProjects(ps, n).error == KeyError("order")
    ensures LinkProjects(ps, n).Ok? ==>
      var out := LinkProjects(ps, n).value;
      |out| == n && forall k :: 0 <= k < n ==> LinkedProject(ps, k).Ok? && out[k] == (ps[k].0, LinkedProject(ps, k).value)
  {
    LinkProjectsFails(ps, n);
    LinkProjectsValue(ps, n);
  }

  /** The project pass fails exactly when some record has no `order`, and then on `order`. */
  lemma {:induction false} LinkProjectsFails(ps: seq<Entry>, n: nat)
    requires n <= |ps|
    ensures LinkProjects(ps, n).Ok? <==> forall k :: 0 <= k < n ==> "order" in ps[k].1
    ensures LinkProjects(ps, n).Err? ==> LinkProjects(ps, n).error == KeyError("order")
  {
    if n > 0 {
      LinkProjectsFails(ps, n - 1);
      LinkedProjectOk(ps, n - 1);
    }
  }

  /** A successful project pass holds each project's linked record at its own position. */
  lemma LinkProjectsValue(ps: seq<Entry>, n: nat)
    requires n <= |ps|
    ensures LinkProjects(ps, n).Ok? ==>
      var out := LinkProjects(ps, n).value;
      |out| == n && forall k :: 0 <= k < n ==> LinkedProject(ps, k).Ok? && out[k] == (ps[k].0, LinkedProject(ps, k).value)
  {
    if LinkProjects(ps, n).Ok? {
      LinkProjectsLength(ps, n);
      forall k | 0 <= k < n
        ensures LinkedProject(ps, k).Ok? && LinkProjects(ps, n).value[k] == (ps[k].0, LinkedProject(ps, k).value)
      {
        LinkProjectsAt(ps, n, k);
      }
    }
  }

  /** A successful project pass keeps one entry per project. */
  lemma {:induction false} LinkProjectsLength(ps: seq<Entry>, n: nat)
    requires n <= |ps| && LinkProjects(ps, n).Ok?
    ensures |LinkProjects(ps, n).value| == n
  {
    if n > 0 {
      LinkProjectsLength(ps, n - 1);
    }
  }

  /** Position `k` of a successful project pass is project `k` with its linked record. */
  lemma {:induction false} LinkProjectsAt(ps: seq<Entry>, n: nat, k: nat)
    requires k < n <= |ps| && LinkProjects(ps, n).Ok?
    ensures LinkedProject(ps, k).Ok? && k < |LinkProjects(ps, n).value|
    ensures LinkProjects(ps, n).value[k] == (ps[k].0, LinkedProject(ps, k).value)
  {
    var prefix := LinkProjects(ps, n - 1).value;
    LinkProjectsLength(ps, n - 1);
    assert LinkProjects(ps, n).value == prefix + [(ps[n - 1].0, LinkedProject(ps, n - 1).value)];
    if k < n - 1 {
      LinkProjectsAt(ps, n - 1, k);
      assert LinkProjects(ps, n).value[k] == prefix[k];
    } else {
      assert LinkProjects(ps, n).value[k] == (ps[n - 1].0, LinkedProject(ps, n - 1).value);
    }
  }

  lemma LinkTasksOk(ts: seq<Entry>, n: nat)
    requires n <= |ts|
    ensures LinkTasks(ts, n).Ok? <==> forall k :: 0 <= k < n ==> LinkedTask(ts, k).Ok?
    ensures LinkTasks(ts, n).Err? ==>
      exists k :: 0 <= k < n && LinkedTask(ts, k).Err? && LinkTasks(ts, n).error == LinkedTask(ts, k).error
                  && forall j :: 0 <= j < k ==> LinkedTask(ts, j).Ok?
    ensures LinkTasks(ts, n).Ok? ==>
      var out := LinkTasks(ts, n).value;
      |out| == n && forall k :: 0 <= k < n ==> LinkedTask(ts, k).Ok? && out[k] == (ts[k].0, LinkedTask(ts, k).value)
  {
    LinkTasksFails(ts, n);
    LinkTasksValue(ts, n);
  }

  /** The task pass fails exactly when some task's record fails, and with that task's KeyError. */
  lemma {:induction false} LinkTasksFails(ts: seq<Entry>, n: nat)
    requires n <= |ts|
    ensures LinkTasks(ts, n).Ok? <==> forall k :: 0 <= k < n ==> LinkedTask(ts, k).Ok?
    ensures LinkTasks(ts, n).Err? ==>
      exists k :: 0 <= k < n && LinkedTask(ts, k).Err? && LinkTasks(ts, n).error == LinkedTask(ts, k).error
                  && forall j :: 0 <= j < k ==> LinkedTask(ts, j).Ok?
  {
    if n > 0 {
      LinkTasksFails(ts, n - 1);
      var prefix := LinkTasks(ts, n - 1);
      if prefix.Err? {
        var k :| 0 <= k < n - 1 && LinkedTask(ts, k).Err? && prefix.error == LinkedTask(ts, k).error
                 && forall j :: 0 <= j < k ==> LinkedTask(ts, j).Ok?;
        assert LinkTasks(ts, n).error == LinkedTask(ts, k).error;
      } else if LinkedTask(ts, n - 1).Err? {
        assert LinkTasks(ts, n).error == LinkedTask(ts, n - 1).error;
      }
    }
  }

  /** A successful task pass holds each task's linked record at its own position. */
  lemma LinkTasksValue(ts: seq<Entry>, n: nat)
    requires n <= |ts|
    ensures LinkTasks(ts, n).Ok? ==>
      var out := LinkTasks(ts, n).value;
      |out| == n && forall k :: 0 <= k < n ==> LinkedTask(ts, k).Ok? && out[k] == (ts[k].0, LinkedTask(ts, k).value)
  {
    if LinkTasks(ts, n).Ok? {
      LinkTasksLength(ts, n);
      forall k | 0 <= k < n
        ensures LinkedTask(ts, k).Ok? && LinkTasks(ts, n).value[k] == (ts[k].0, LinkedTask(ts, k).value)
      {
        LinkTasksAt(ts, n, k);
      }
    }
  }

  /** A successful task pass keeps one entry per task. */
  lemma {:induction false} LinkTasksLength(ts: seq<Entry>, n: nat)
    requires n <= |ts| && LinkTasks(ts, n).Ok?
    ensures |LinkTasks(ts, n).value| == n
  {
    if n > 0 {
      LinkTasksLength(ts, n - 1);
    }
  }

  /** Position `k` of a successful task pass is task `k` with its linked record. */
  lemma {:induction false} LinkTasksAt(ts: seq<Entry>, n: nat, k: nat)
    requires k < n <= |ts| && LinkTasks(ts, n).Ok?
    ensures LinkedTask(ts, k).Ok? && k < |LinkTasks(ts, n).value|
    ensures LinkTasks(ts, n).value[k] == (ts[k].0, LinkedTask(ts, k).value)
  {
    var prefix := LinkTasks(ts, n - 1).value;
    LinkTasksLength(ts, n - 1);
    assert LinkTasks(ts, n).value == prefix + [(ts[n - 1].0, LinkedTask(ts, n - 1).value)];
    if k < n - 1 {
      LinkTasksAt(ts, n - 1, k);
      assert LinkTasks(ts, n).value[k] == prefix[k];
    } else {
      assert LinkTasks(ts, n).value[k] == (ts[n - 1].0, LinkedTask(ts, n - 1).value);
    }
  }

  /** The record of one task: which fields it reads, and the links it gets. */
  lemma LinkedTaskOk(ts: seq<Entry>, i: nat)
    requires i < |ts|
    ensures LinkedTask(ts, i).Ok? <==>
      && (i > 0 ==> Comparable(ts[i].1, ts[i - 1].1))
      && (i < |ts| - 1 ==> Comparable(ts[i].1, ts[i + 1].1))
      && "order" in ts[i].1
    ensures LinkedTask(ts, i).Err? ==> LinkedTask(ts, i).error.field in {"order", "status", "project"}
    ensures LinkedTask(ts, i).Ok? ==>
      LinkedTask(ts, i).value == ts[i].1 - {"order", "prevTask", "nextTask"} + map[
        "prevTask" := if i > 0 && SameRun(ts[i].1, ts[i - 1].1) then Str(ts[i - 1].0) else Null,
        "nextTask" := if i < |ts| - 1 && SameRun(ts[i].1, ts[i + 1].1) then Str(ts[i + 1].0) else Null]
  {
    if i > 0 {
      DifferOk(ts[i].1, ts[i - 1].1);
    }
    if i < |ts| - 1 {
      DifferOk(ts[i].1, ts[i + 1].1);
    }
  }

  /**
   * Project `i` of the output keeps its key and every field but `order` and the two
   * links, loses `order`, and gets as `prevProject` the key before it (None for the
   * first) and as `nextProject` the key after it (None for the last).
   */
  lemma ProjectAt(ps: seq<Entry>, ts: seq<Entry>, i: nat)
    requires Transform(ps, ts).Ok? && i < |ps|
    ensures |Transform(ps, ts).value.projectList| == |ps|
    ensures var out := Transform(ps, ts).value.projectList[i];
      && out.0 == ps[i].0
      && "order" !in out.1 && "prevProject" in out.1 && "nextProject" in out.1
      && out.1["prevProject"] == (if i > 0 then Str(ps[i - 1].0) else Null)
      && out.1["nextProject"] == (if i < |ps| - 1 then Str(ps[i + 1].0) else Null)
      && out.1 - {"prevProject", "nextProject"} == ps[i].1 - {"order", "prevProject", "nextProject"}
  {
    assert |Transform(ps, ts).value.projectList| == |ps|
      && Transform(ps, ts).value.projectList[i] == (ps[i].0, LinkedProject(ps, i).value) by {
      LinkProjectsOk(ps, |ps|);
      TransformParts(ps, ts);
    }
    var out := Transform(ps, ts).value.projectList[i];
    var links := map["prevProject" := KeyAt(ps, i - 1), "nextProject" := KeyAt(ps, i + 1)];
    assert out.1 == ps[i].1 - {"order", "prevProject", "nextProject"} + links by {
      LinkedProjectOk(ps, i);
      UpdateAndPopShape(ps[i].1, links);
      assert {"order"} + links.Keys == {"order", "prevProject", "nextProject"};
    }
    MapWithLinks(ps[i].1, out.1, "order", "prevProject", "nextProject", KeyAt(ps, i - 1), KeyAt(ps, i + 1));
  }

  /** A record rebuilt as `r` without `x`, `p`, `n`, plus `p` and `n`: what it holds. */
  lemma MapWithLinks(r: Record, out: Record, x: string, p: string, n: string, pv: Value, nv: Value)
    requires x != p && x != n && p != n
    requires out == r - {x, p, n} + map[p := pv, n := nv]
    ensures x !in out && p in out && n in out && out[p] == pv && out[n] == nv
    ensures out - {p, n} == r - {x, p, n}
  {
  }

  lemma TransformParts(ps: seq<Entry>, ts: seq<Entry>)
    ensures Transform(ps, ts).Ok? <==> LinkProjects(ps, |ps|).Ok? && LinkTasks(ts, |ts|).Ok?
    ensures Transform(ps, ts).Ok? ==>
      && Transform(ps, ts).value.projectList == LinkProjects(ps, |ps|).value
      && Transform(ps, ts).value.taskList == LinkTasks(ts, |ts|).value
  {
  }

  /** The project records of the output form one chain in key order. */
  lemma ProjectsChained(ps: seq<Entry>, ts: seq<Entry>)
    requires Transform(ps, ts).Ok?
    ensures var out := Transform(ps, ts).value.projectList;
      && |out| == |ps|
      && (forall i :: 0 <= i < |out| ==>
            && out[i].0 == ps[i].0
            && "order" !in out[i].1 && "prevProject" in out[i].1 && "nextProject" in out[i].1)
      && (|out| > 0 ==> out[0].1["prevProject"] == Null && out[|out| - 1].1["nextProject"] == Null)
      && forall i :: 0 <= i < |out| - 1 ==>
           out[i].1["nextProject"] == Str(out[i + 1].0) && out[i + 1].1["prevProject"] == Str(out[i].0)
  {
    var out := Transform(ps, ts).value.projectList;
    assert |out| == |ps| by {
      LinkProjectsOk(ps, |ps|);
      TransformParts(ps, ts);
    }
    forall i | 0 <= i < |ps|
      ensures |out| == |ps|
      ensures out[i].0 == ps[i].0 && "order" !in out[i].1 && "prevProject" in out[i].1 && "nextProject" in out[i].1
      ensures out[i].1["prevProject"] == KeyAt(ps, i - 1) && out[i].1["nextProject"] == KeyAt(ps, i + 1)
    {
      ProjectAt(ps, ts, i);
    }
  }

  /**
   * Task `i` of the output keeps its key and every field but `order` and the two
   * links, loses `order`, and gets as `prevTask` the key before it exactly when that
   * task is in the same run and as `nextTask` the key after it exactly when that one
   * is, and None otherwise.
   */
  lemma TaskAt(ps: seq<Entry>, ts: seq<Entry>, i: nat)
    requires Transform(ps, ts).Ok? && i < |ts|
    ensures |Transform(ps, ts).value.taskList| == |ts|
    ensures var out := Transform(ps, ts).value.taskList[i];
      && out.0 == ts[i].0
      && "order" !in out.1 && "prevTask" in out.1 && "nextTask" in out.1
      && out.1["prevTask"] == (if i > 0 && SameRun(ts[i].1, ts[i - 1].1) then Str(ts[i - 1].0) else Null)
      && out.1["nextTask"] == (if i < |ts| - 1 && SameRun(ts[i].1, ts[i + 1].1) then Str(ts[i + 1].0) else Null)
      && out.1 - {"prevTask", "nextTask"} == ts[i].1 - {"order", "prevTask", "nextTask"}
  {
    assert |Transform(ps, ts).value.taskList| == |ts|
      && LinkedTask(ts, i).Ok?
      && Transform(ps, ts).value.taskList[i] == (ts[i].0, LinkedTask(ts, i).value) by {
      LinkTasksOk(ts, |ts|);
      TransformParts(ps, ts);
    }
    var out := Transform(ps, ts).value.taskList[i];
    var prev := if i > 0 && SameRun(ts[i].1, ts[i - 1].1) then Str(ts[i - 1].0) else Null;
    var next := if i < |ts| - 1 && SameRun(ts[i].1, ts[i + 1].1) then Str(ts[i + 1].0) else Null;
    assert out.1 == ts[i].1 - {"order", "prevTask", "nextTask"} + map["prevTask" := prev, "nextTask" := next] by {
      LinkedTaskOk(ts, i);
    }
    MapWithLinks(ts[i].1, out.1, "order", "prevTask", "nextTask", prev, next);
  }

  /**
   * The task records of the output are chained inside runs only: two neighbours are
   * joined both ways exactly when they share status and project, and not at all
   * otherwise; the first task has no predecessor and the last no successor.
   */
  lemma TasksChained(ps: seq<Entry>, ts: seq<Entry>)
    requires Transform(ps, ts).Ok?
    ensures var out := Transform(ps, ts).value.taskList;
      && |out| == |ts|
      && (forall i :: 0 <= i < |out| ==>
            && out[i].0 == ts[i].0
            && "order" !in out[i].1 && "prevTask" in out[i].1 && "nextTask" in out[i].1)
      && (|out| > 0 ==> out[0].1["prevTask"] == Null && out[|out| - 1].1["nextTask"] == Null)
      && forall i :: 0 <= i < |out| - 1 ==>
           && (out[i].1["nextTask"] == Str(out[i + 1].0) <==> SameRun(ts[i].1, ts[i + 1].1))
           && (out[i + 1].1["prevTask"] == Str(out[i].0) <==> SameRun(ts[i].1, ts[i + 1].1))
           && (out[i].1["nextTask"] == Null <==> !SameRun(ts[i].1, ts[i + 1].1))
           && (out[i + 1].1["prevTask"] == Null <==> !SameRun(ts[i].1, ts[i + 1].1))
  {
    TasksKeepKeys(ps, ts);
    TasksJoinedInRuns(ps, ts);
    if |ts| > 0 {
      TaskAt(ps, ts, 0);
      TaskAt(ps, ts, |ts| - 1);
    }
  }

  /** Every task keeps its key, loses `order` and has both links. */
  lemma TasksKeepKeys(ps: seq<Entry>, ts: seq<Entry>)
    requires Transform(ps, ts).Ok?
    ensures var out := Transform(ps, ts).value.taskList;
      && |out| == |ts|
      && forall i :: 0 <= i < |out| ==>
           && out[i].0 == ts[i].0
           && "order" !in out[i].1 && "prevTask" in out[i].1 && "nextTask" in out[i].1
  {
    var out := Transform(ps, ts).value.taskList;
    assert |out| == |ts| by {
      LinkTasksOk(ts, |ts|);
      TransformParts(ps, ts);
    }
    forall i | 0 <= i < |ts|
      ensures out[i].0 == ts[i].0 && "order" !in out[i].1 && "prevTask" in out[i].1 && "nextTask" in out[i].1
    {
      TaskAt(ps, ts, i);
    }
  }

  /** Neighbouring tasks are joined both ways exactly when they share a run. */
  lemma TasksJoinedInRuns(ps: seq<Entry>, ts: seq<Entry>)
    requires Transform(ps, ts).Ok?
    ensures |Transform(ps, ts).value.taskList| == |ts|
    ensures var out := Transform(ps, ts).value.taskList;
      forall i :: 0 <= i < |out| ==> "prevTask" in out[i].1 && "nextTask" in out[i].1
    ensures var out := Transform(ps, ts).value.taskList;
      forall i :: 0 <= i < |out| - 1 ==>
        && (out[i].1["nextTask"] == Str(out[i + 1].0) <==> SameRun(ts[i].1, ts[i + 1].1))
        && (out[i + 1].1["prevTask"] == Str(out[i].0) <==> SameRun(ts[i].1, ts[i + 1].1))
        && (out[i].1["nextTask"] == Null <==> !SameRun(ts[i].1, ts[i + 1].1))
        && (out[i + 1].1["prevTask"] == Null <==> !SameRun(ts[i].1, ts[i + 1].1))
  {
    var out := Transform(ps, ts).value.taskList;
    assert |out| == |ts| by {
      LinkTasksOk(ts, |ts|);
      TransformParts(ps, ts);
    }
    TasksKeepKeys(ps, ts);
    forall i | 0 <= i < |out| - 1
      ensures && (out[i].1["nextTask"] == Str(out[i + 1].0) <==> SameRun(ts[i].1, ts[i + 1].1))
              && (out[i + 1].1["prevTask"] == Str(out[i].0) <==> SameRun(ts[i].1, ts[i + 1].1))
              && (out[i].1["nextTask"] == Null <==> !SameRun(ts[i].1, ts[i + 1].1))
              && (out[i + 1].1["prevTask"] == Null <==> !SameRun(ts[i].1, ts[i + 1].1))
    {
      TaskPairAt(ps, ts, i);
    }
  }

  /** Tasks `i` and `i + 1` of the output are joined both ways exactly when they share a run. */
  lemma TaskPairAt(ps: seq<Entry>, ts: seq<Entry>, i: nat)
    requires Transform(ps, ts).Ok? && i + 1 < |ts|
    ensures |Transform(ps, ts).value.taskList| == |ts|
    ensures var out := Transform(ps, ts).value.taskList;
      && "prevTask" in out[i + 1].1 && "nextTask" in out[i].1
      && (out[i].1["nextTask"] == Str(out[i + 1].0) <==> SameRun(ts[i].1, ts[i + 1].1))
      && (out[i + 1].1["prevTask"] == Str(out[i].0) <==> SameRun(ts[i].1, ts[i + 1].1))
      && (out[i].1["nextTask"] == Null <==> !SameRun(ts[i].1, ts[i + 1].1))
      && (out[i + 1].1["prevTask"] == Null <==> !SameRun(ts[i].1, ts[i + 1].1))
  {
    TaskAt(ps, ts, i);
    TaskAt(ps, ts, i + 1);
    assert SameRun(ts[i + 1].1, ts[i].1) <==> SameRun(ts[i].1, ts[i + 1].1);
  }

  /**
   * The script completes exactly when every field it reads is present; otherwise it
   * raises KeyError for `order`, `status` or `project`, and a project without `order`
   * stops it before any task is read.
   */
  lemma TransformSucceedsIff(ps: seq<Entry>, ts: seq<Entry>)
    ensures Transform(ps, ts).Ok? <==> ProjectsHaveOrder(ps) && TasksReadable(ts)
    ensures Transform(ps, ts).Err? ==> Transform(ps, ts).error.field in {"order", "status", "project"}
    ensures !ProjectsHaveOrder(ps) ==> Transform(ps, ts) == Err(KeyError("order"))
  {
    LinkProjectsOk(ps, |ps|);
    LinkTasksOk(ts, |ts|);
    forall k | 0 <= k < |ts| {
      LinkedTaskOk(ts, k);
    }
    if TasksReadable(ts) {
      forall k | 0 <= k < |ts| ensures LinkedTask(ts, k).Ok? {
        assert k > 0 ==> Comparable(ts[k - 1].1, ts[k].1);
        ComparableSymmetric(ts[k - 1 + (if k == 0 then 1 else 0)].1, ts[k].1);
      }
    }
    if LinkTasks(ts, |ts|).Ok? {
      forall k | 0 <= k < |ts| ensures "order" in ts[k].1 {
        assert LinkedTask(ts, k).Ok?;
      }
      if |ts| >= 2 {
        forall k | 0 <= k < |ts| ensures "status" in ts[k].1 {
          assert LinkedTask(ts, k).Ok?;
        }
      }
      forall k | 0 <= k < |ts| - 1 ensures Comparable(ts[k].1, ts[k + 1].1) {
        assert LinkedTask(ts, k).Ok?;
      }
    }
  }

  lemma ComparableSymmetric(a: Record, b: Record)
    ensures Comparable(a, b) <==> Comparable(b, a)
  {
  }

  /**
   * The output carries no `order`, so running the script again on a non-empty
   * output fails with KeyError('order').
   */
  lemma TransformNotRerunnable(ps: seq<Entry>, ts: seq<Entry>)
    requires Transform(ps, ts).Ok?
    requires |ps| > 0 || |ts| > 0
    ensures var doc := Transform(ps, ts).value;
      Transform(doc.projectList, doc.taskList) == Err(KeyError("order"))
  {
    var doc := Transform(ps, ts).value;
    ProjectsChained(ps, ts);
    TasksChained(ps, ts);
    TransformSucceedsIff(doc.projectList, doc.taskList);
    if |ps| == 0 {
      var out := doc.taskList;
      TransformSucceedsIff(ps, ts);
      if |ts| > 1 {
        TaskAt(ps, ts, 0);
        TaskAt(ps, ts, 1);
        assert Comparable(ts[0].1, ts[1].1);
        KeepsRunFieldsOfShape(out[0].1, ts[0].1);
        KeepsRunFieldsOfShape(out[1].1, ts[1].1);
        DifferKeepsRunFields(out[0].1, out[1].1, ts[1].1);
        DifferOk(ts[0].1, ts[1].1);
        DifferOk(out[0].1, ts[1].1);
      }
      assert LinkedTask(out, 0) == Err(KeyError("order"));
      LinkTasksStaysFailed(out, 1, |out|);
    }
  }

  lemma KeepsRunFieldsOfShape(out: Record, r: Record)
    requires out - {"prevTask", "nextTask"} == r - {"order", "prevTask", "nextTask"}
    ensures KeepsRunFields(out, r)
  {
    assert "status" in out <==> "status" in out - {"prevTask", "nextTask"};
    assert "project" in out <==> "project" in out - {"prevTask", "nextTask"};
    assert "status" in r <==> "status" in r - {"order", "prevTask", "nextTask"};
    assert "project" in r <==> "project" in r - {"order", "prevTask", "nextTask"};
  }

  /** Neighbours `i` and `i + 1` of `out` share a run exactly when those of `ts` do. */
  predicate RunKeptAt(out: seq<Entry>, ts: seq<Entry>, i: nat)
    requires i + 1 < |out| && |out| == |ts|
  {
    SameRun(out[i].1, out[i + 1].1) <==> SameRun(ts[i].1, ts[i + 1].1)
  }

  /** The links between `i` and `i + 1` are those that run detection computes from `out` itself. */
  predicate LinksDetectedAt(out: seq<Entry>, i: nat)
    requires i + 1 < |out|
  {
    && "nextTask" in out[i].1 && "prevTask" in out[i + 1].1
    && out[i].1["nextTask"] == (if SameRun(out[i].1, out[i + 1].1) then Str(out[i + 1].0) else Null)
    && out[i + 1].1["prevTask"] == (if SameRun(out[i].1, out[i + 1].1) then Str(out[i].0) else Null)
  }

  /**
   * Run detection is stable: the output keeps every `status` and `project`, so two
   * neighbours of the output share a run exactly when they did in the input, and the
   * links the output carries are the ones run detection computes from the output.
   */
  lemma RunsDetectedAgain(ps: seq<Entry>, ts: seq<Entry>)
    requires Transform(ps, ts).Ok?
    ensures |Transform(ps, ts).value.taskList| == |ts|
    ensures var out := Transform(ps, ts).value.taskList;
      forall i :: 0 <= i < |out| - 1 ==> RunKeptAt(out, ts, i) && LinksDetectedAt(out, i)
  {
    var out := Transform(ps, ts).value.taskList;
    assert |out| == |ts| by {
      LinkTasksOk(ts, |ts|);
      TransformParts(ps, ts);
    }
    forall i | 0 <= i < |out| - 1 ensures RunKeptAt(out, ts, i) && LinksDetectedAt(out, i) {
      RunDetectedAgainAt(ps, ts, i);
    }
  }

  /** The pair at `i` and `i + 1` of the output, as run detection sees it again. */
  lemma RunDetectedAgainAt(ps: seq<Entry>, ts: seq<Entry>, i: nat)
    requires Transform(ps, ts).Ok? && i + 1 < |ts|
    ensures |Transform(ps, ts).value.taskList| == |ts|
    ensures RunKeptAt(Transform(ps, ts).value.taskList, ts, i)
    ensures LinksDetectedAt(Transform(ps, ts).value.taskList, i)
  {
    var out := Transform(ps, ts).value.taskList;
    TaskAt(ps, ts, i);
    TaskAt(ps, ts, i + 1);
    KeepsRunFieldsOfShape(out[i].1, ts[i].1);
    KeepsRunFieldsOfShape(out[i + 1].1, ts[i + 1].1);
    assert SameRun(ts[i + 1].1, ts[i].1) <==> SameRun(ts[i].1, ts[i + 1].1);
  }
}
