/**
 * How the output of `web-client/src/data/Chainfy.py` reads to the web client's
 * `sortChain`: once `prevProject`/`nextProject` are renamed to `prev`/`next`, the
 * project chain walks back in the original key order.
 */
module ChainfyBridge {
  import opened Wrappers
  import JsValue
  import Chain
  import Chainfy
  import ChainfyProperties
  import SortChain

  /** A link value as Chainfy writes it (a key, or None) read as a nullable id. */
  function AsRef(v: JsValue.Value): Chain.Ref {
    if v.Str? then Chain.Id(v.s) else Chain.Null
  }

  /** A linked project record with its link fields renamed to `prev` and `next`. */
  function Renamed(e: Chainfy.Entry): Chain.Entry {
    var r := e.1;
    var prev := if "prevProject" in r then AsRef(r["prevProject"]) else Chain.Null;
    var next := if "nextProject" in r then AsRef(r["nextProject"]) else Chain.Null;
    (e.0, Chain.Item(prev, next, r - {"prevProject", "nextProject"}))
  }

  /** The project list of a Chainfy output as a chain of `prev`/`next` records. */
  function RenamedAll(es: seq<Chainfy.Entry>): (c: seq<Chain.Entry>)
    ensures |c| == |es|
    ensures forall k :: 0 <= k < |es| ==> c[k].0 == es[k].0
  {
    if es == [] then [] else [Renamed(es[0])] + RenamedAll(es[1..])
  }

  /** The record at position `k` is the renamed record at that position. */
  lemma {:induction false} RenamedAllAt(es: seq<Chainfy.Entry>, k: nat)
    requires k < |es|
    ensures RenamedAll(es)[k] == Renamed(es[k])
  {
    if k > 0 {
      RenamedAllAt(es[1..], k - 1);
    }
  }

  /** The two mappings have the same keys at the same positions. */
  predicate SameKeys(a: seq<Chainfy.Entry>, b: seq<Chainfy.Entry>) {
    |a| == |b| && forall k :: 0 <= k < |a| ==> a[k].0 == b[k].0
  }

  /** Every record links to its neighbours' keys by position, as Chainfy writes them. */
  predicate LinkedInKeyOrder(out: seq<Chainfy.Entry>) {
    forall i :: 0 <= i < |out| ==>
      && "prevProject" in out[i].1 && out[i].1["prevProject"] == Chainfy.KeyAt(out, i - 1)
      && "nextProject" in out[i].1 && out[i].1["nextProject"] == Chainfy.KeyAt(out, i + 1)
  }

  /**
   * With distinct, non-empty project keys, `sortChain` over the renamed project
   * output of a successful Chainfy run terminates, returns every project record
   * once, and lists them in the original key order.
   */
  lemma ChainfiedProjectsSortInKeyOrder(ps: seq<Chainfy.Entry>, ts: seq<Chainfy.Entry>)
    requires Chainfy.Transform(ps, ts).Ok?
    requires forall j, k :: 0 <= j < k < |ps| ==> ps[j].0 != ps[k].0
    requires forall k :: 0 <= k < |ps| ==> ps[k].0 != ""
    ensures var c := RenamedAll(Chainfy.Transform(ps, ts).value.projectList);
      && SortChain.Terminates(c)
      && SortChain.Sorted(c) == Ok(c)
      && Chain.Ids(SortChain.Sorted(c).value) == Chain.Ids(ps)
  {
    var out := Chainfy.Transform(ps, ts).value.projectList;
    OutputLinkedInKeyOrder(ps, ts);
    KeyOrderSorts(ps, out);
  }

  /** Records keyed as `ps` and linked in that order, renamed, walk back in that order. */
  lemma KeyOrderSorts(ps: seq<Chainfy.Entry>, out: seq<Chainfy.Entry>)
    requires SameKeys(out, ps) && LinkedInKeyOrder(out)
    requires forall j, k :: 0 <= j < k < |ps| ==> ps[j].0 != ps[k].0
    requires forall k :: 0 <= k < |ps| ==> ps[k].0 != ""
    ensures var c := RenamedAll(out);
      && SortChain.Terminates(c)
      && SortChain.Sorted(c) == Ok(c)
      && Chain.Ids(SortChain.Sorted(c).value) == Chain.Ids(ps)
  {
    RenamedLinked(out);
    RenamedDistinct(ps, out);
    ChainSortsItself(RenamedAll(out));
    RenamedKeys(out);
    assert Chain.Ids(out) == Chain.Ids(ps);
  }

  /** Renamed records keyed as `ps` carry distinct, non-empty ids. */
  lemma RenamedDistinct(ps: seq<Chainfy.Entry>, out: seq<Chainfy.Entry>)
    requires SameKeys(out, ps)
    requires forall j, k :: 0 <= j < k < |ps| ==> ps[j].0 != ps[k].0
    requires forall k :: 0 <= k < |ps| ==> ps[k].0 != ""
    ensures Chain.DistinctIds(RenamedAll(out))
    ensures forall k :: 0 <= k < |out| ==> RenamedAll(out)[k].0 != ""
  {
    var c := RenamedAll(out);
    forall k | 0 <= k < |c|
      ensures c[k].0 == ps[k].0
    {
      assert c[k].0 == out[k].0;
    }
  }

  /** Chainfy's project output keeps the keys and links them in key order. */
  lemma OutputLinkedInKeyOrder(ps: seq<Chainfy.Entry>, ts: seq<Chainfy.Entry>)
    requires Chainfy.Transform(ps, ts).Ok?
    ensures var out := Chainfy.Transform(ps, ts).value.projectList;
      && SameKeys(out, ps)
      && LinkedInKeyOrder(out)
  {
    var out := Chainfy.Transform(ps, ts).value.projectList;
    ChainfyProperties.ProjectsChained(ps, ts);
    forall i | 0 <= i < |out|
      ensures "prevProject" in out[i].1 && out[i].1["prevProject"] == Chainfy.KeyAt(out, i - 1)
      ensures "nextProject" in out[i].1 && out[i].1["nextProject"] == Chainfy.KeyAt(out, i + 1)
    {
      if i > 0 {
        assert out[i].1["prevProject"] == JsValue.Str(out[i - 1].0);
      } else {
        assert out[0].1["prevProject"] == JsValue.Null;
      }
      if i < |out| - 1 {
        assert out[i].1["nextProject"] == JsValue.Str(out[i + 1].0);
      } else {
        assert out[|out| - 1].1["nextProject"] == JsValue.Null;
      }
    }
  }

  /** A chain linked by position, with distinct non-empty ids, walks back as it is listed. */
  lemma ChainSortsItself(c: seq<Chain.Entry>)
    requires Chain.DistinctIds(c) && Chain.LinkedByPosition(c)
    requires forall k :: 0 <= k < |c| ==> c[k].0 != ""
    ensures SortChain.Terminates(c) && SortChain.Sorted(c) == Ok(c)
  {
    if c == [] {
      assert SortChain.FindHead(c) == Chain.Null;
    } else {
      SortChain.WellFormedChainIsListed(c, c);
    }
  }

  /** Renaming keeps the keys. */
  lemma RenamedKeys(out: seq<Chainfy.Entry>)
    ensures Chain.Ids(RenamedAll(out)) == Chain.Ids(out)
  {
    var c := RenamedAll(out);
    assert |Chain.Ids(c)| == |Chain.Ids(out)|;
    assert forall k :: 0 <= k < |c| ==> Chain.Ids(c)[k] == Chain.Ids(out)[k];
  }

  /** Renaming turns links by key order into links by position. */
  lemma RenamedLinked(out: seq<Chainfy.Entry>)
    requires LinkedInKeyOrder(out)
    ensures Chain.LinkedByPosition(RenamedAll(out))
  {
    var c := RenamedAll(out);
    forall k | 0 <= k < |c|
      ensures Chain.LinkedAt(c, k)
    {
      RenamedAt(out, k);
    }
  }

  /** The renamed record at position `k` points at its neighbours' keys. */
  lemma RenamedAt(out: seq<Chainfy.Entry>, k: nat)
    requires LinkedInKeyOrder(out) && k < |out|
    ensures var c := RenamedAll(out);
      Chain.LinkedAt(c, k)
  {
    var c := RenamedAll(out);
    RenamedAllAt(out, k);
    if k > 0 {
      assert c[k - 1].0 == out[k - 1].0;
    }
    if k < |out| - 1 {
      assert c[k + 1].0 == out[k + 1].0;
    }
  }
}
