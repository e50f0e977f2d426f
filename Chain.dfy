/**
 * The shape of the doubly linked records of the web client
 * (`web-client/src/utils/type.ts`): a task, project or status lives in an id-keyed
 * map and carries the nullable ids of its neighbours in `prev` and `next`.
 */
module Chain {
  import opened Wrappers
  import JsValue

  /** A nullable id, `string | null`. */
  datatype Ref = Null | Id(id: string)

  /** JavaScript truthiness of a `string | null`: null and the empty string are falsy. */
  predicate Truthy(r: Ref) {
    r.Id? && r.id != ""
  }

  /** A linked record: its two links and the rest of its fields. */
  datatype Item = Item(prev: Ref, next: Ref, fields: JsValue.Record)

  /** An `[id, record]` pair, as `Object.entries` yields them. */
  type Entry = (string, Item)

  /** The ids (keys) of a sequence of `[id, value]` pairs, in order. */
  function Ids<T>(es: seq<(string, T)>): (ids: seq<string>)
    ensures |ids| == |es|
    ensures forall k :: 0 <= k < |es| ==> ids[k] == es[k].0
  {
    if es == [] then [] else [es[0].0] + Ids(es[1..])
  }

  /** No id occurs twice, as in the keys of a JavaScript object. */
  predicate DistinctIds(es: seq<Entry>) {
    forall j, k :: 0 <= j < k < |es| ==> es[j].0 != es[k].0
  }

  /** `chain[id]`: the record stored under `id`, or None (`undefined`). */
  function Lookup(es: seq<Entry>, id: string): (r: Option<Item>)
    ensures r.Some? <==> exists k :: 0 <= k < |es| && es[k].0 == id
    ensures r.Some? ==> exists k :: 0 <= k < |es| && es[k] == (id, r.value)
  {
    if es == [] then None
    else if es[0].0 == id then Some(es[0].1)
    else
      var r := Lookup(es[1..], id);
      assert forall k :: 1 <= k < |es| ==> es[k] == es[1..][k - 1];
      r
  }

  /**
   * The links agree with the positions: the first entry has no `prev`, the last no
   * `next`, and every other entry points at its neighbours.
   */
  predicate LinkedByPosition(es: seq<Entry>) {
    forall k: nat :: k < |es| ==> LinkedAt(es, k)
  }

  /** The entry at position `k` points at its neighbours by position. */
  predicate LinkedAt(es: seq<Entry>, k: nat)
    requires k < |es|
  {
    es[k].1.prev == PrevId(es, k) && es[k].1.next == NextId(es, k)
  }

  /** The id before position `k`, or null at the front. */
  function PrevId(es: seq<Entry>, k: nat): Ref
    requires k < |es|
  {
    if k > 0 then Id(es[k - 1].0) else Null
  }

  /** The id after position `k`, or null at the back. */
  function NextId(es: seq<Entry>, k: nat): Ref
    requires k < |es|
  {
    if k < |es| - 1 then Id(es[k + 1].0) else Null
  }

  /** With distinct ids, the lookup finds the entry at that id's position. */
  lemma LookupDistinct(es: seq<Entry>, k: nat)
    requires DistinctIds(es) && k < |es|
    ensures Lookup(es, es[k].0) == Some(es[k].1)
  {
    var r := Lookup(es, es[k].0);
    var j :| 0 <= j < |es| && es[j] == (es[k].0, r.value);
    assert j == k;
  }
}
