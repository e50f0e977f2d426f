/**
 * `removeItemFromList` of `web-client/src/utils/actions.ts`: splice an `[id, record]`
 * pair out of an ordered array and ask the caller, through two callbacks, to delete
 * the record and to relink its former neighbours. The callbacks are modelled as an
 * appended log of the calls they receive.
 */
module Actions {
  import opened Chain

  /** The patch object passed to `updateMethod`. */
  datatype Patch = SetPrev(prev: Ref) | SetNext(next: Ref)

  /** One call of a callback: `removeMethod(id)` or `updateMethod(id, patch)`. */
  datatype Call = Remove(id: string) | Update(id: string, patch: Patch)

  /**
   * `list.indexOf(item)`: the first position holding `item`, or -1. Pairs are
   * compared by value.
   */
  function IndexOf(es: seq<Entry>, item: Entry): (r: int)
    ensures -1 <= r < |es|
    ensures r >= 0 ==> es[r] == item && forall j :: 0 <= j < r ==> es[j] != item
    ensures r == -1 <==> item !in es
  {
    if es == [] then -1
    else if es[0] == item then 0
    else
      var r := IndexOf(es[1..], item);
      assert forall j :: 1 <= j < |es| ==> es[j] == es[1..][j - 1];
      assert item in es[1..] ==> item in es;
      assert item in es && item != es[0] ==> item in es[1..] by {
        if item in es && item != es[0] {
          var j :| 0 <= j < |es| && es[j] == item;
          assert es[1..][j - 1] == item;
        }
      }
      if r == -1 then -1 else r + 1
  }

  /**
   * `list.splice(start, 1)`: a negative start counts from the end (and is clamped at
   * 0), a start past the end is clamped to the length; one element is removed when
   * the start is a position of the array.
   */
  function SpliceOne(es: seq<Entry>, start: int): seq<Entry> {
    var s := if start < 0 then (if |es| + start < 0 then 0 else |es| + start)
             else if start > |es| then |es| else start;
    if s < |es| then es[..s] + es[s + 1..] else es
  }

  /**
   * The `updateMethod` calls of lines 28-50 for the list `rest` that is left after the
   * splice, given the index `indexOf` returned.
   */
  function Relinks(rest: seq<Entry>, index: int): seq<Call> {
    (if index == 0 && |rest| > 0 then [Update(rest[0].0, SetPrev(Null))] else [])
    + (if index == |rest| && |rest| > 0 then [Update(rest[index - 1].0, SetNext(Null))] else [])
    + (if 0 < index < |rest| then
         [Update(rest[index - 1].0, SetNext(Id(rest[index].0))),
          Update(rest[index].0, SetPrev(Id(rest[index - 1].0)))]
       else [])
  }

  /** The ordered array the function works on, and the calls its callbacks received. */
  class ItemList {
    var entries: seq<Entry>
    var log: seq<Call>

    constructor (es: seq<Entry>)
      ensures entries == es && log == []
    {
      entries := es;
      log := [];
    }

    /**
     * `removeItemFromList(list, item, removeMethod, updateMethod)`: one `removeMethod`
     * call with the item's id, the splice at `indexOf(item)` and the relinking
     * updates for the spliced list.
     */
    method RemoveItemFromList(item: Entry)
      modifies this
      ensures entries == SpliceOne(old(entries), IndexOf(old(entries), item))
      ensures log == old(log) + [Remove(item.0)] + Relinks(entries, IndexOf(old(entries), item))
    {
      var index := IndexOf(entries, item);
      log := log + [Remove(item.0)];
      entries := SpliceOne(entries, index);
      if index == 0 && |entries| > 0 {
        log := log + [Update(entries[0].0, SetPrev(Null))];
      }
      if index == |entries| && |entries| > 0 {
        log := log + [Update(entries[index - 1].0, SetNext(Null))];
      }
      if index > 0 && index < |entries| {
        log := log + [Update(entries[index - 1].0, SetNext(Id(entries[index].0)))];
        log := log + [Update(entries[index].0, SetPrev(Id(entries[index - 1].0)))];
      }
    }
  }

  // ---------------------------------------------------------------------------
  // Properties
  // ---------------------------------------------------------------------------

  /** The relinking issues no `removeMethod` call, so the item is removed exactly once. */
  lemma RelinksNeverRemove(rest: seq<Entry>, index: int)
    ensures forall c :: c in Relinks(rest, index) ==> c.Update?
  {
  }

  /**
   * For an item of the list, the splice removes exactly that position and the list
   * gets one shorter.
   */
  lemma SpliceRemovesItem(es: seq<Entry>, item: Entry)
    requires item in es
    ensures var i := IndexOf(es, item);
      && SpliceOne(es, i) == es[..i] + es[i + 1..]
      && |SpliceOne(es, i)| == |es| - 1
  {
  }

  /**
   * For an item not in a non-empty list, `indexOf` is -1 and `splice(-1, 1)` removes
   * the last element instead, with no relinking.
   */
  lemma MissingItemDropsLast(es: seq<Entry>, item: Entry)
    requires item !in es && es != []
    ensures SpliceOne(es, IndexOf(es, item)) == es[..|es| - 1]
    ensures Relinks(SpliceOne(es, IndexOf(es, item)), IndexOf(es, item)) == []
  {
  }

  /**
   * The calls for each case of the comment at lines 17-22: removing the first of
   * several items sets the new first's `prev` to null, removing the last sets the new
   * last's `next` to null, removing a middle item joins its two neighbours, and
   * removing the only item issues no update.
   */
  lemma RelinkCases(es: seq<Entry>, item: Entry)
    requires item in es
    ensures var i := IndexOf(es, item);
      var calls := Relinks(SpliceOne(es, i), i);
      && (i == 0 && |es| >= 2 ==> calls == [Update(es[1].0, SetPrev(Null))])
      && (i == |es| - 1 && |es| >= 2 ==> calls == [Update(es[|es| - 2].0, SetNext(Null))])
      && (0 < i < |es| - 1 ==>
            calls == [Update(es[i - 1].0, SetNext(Id(es[i + 1].0))),
                      Update(es[i + 1].0, SetPrev(Id(es[i - 1].0)))])
      && (|es| == 1 ==> calls == [])
  {
    var i := IndexOf(es, item);
    var rest := SpliceOne(es, i);
    SpliceRemovesItem(es, item);
    if 0 < i < |es| - 1 {
      assert rest[i - 1] == es[i - 1] && rest[i] == es[i + 1];
    } else if i == |es| - 1 && |es| >= 2 {
      assert rest[i - 1] == es[i - 1];
    } else if i == 0 && |es| >= 2 {
      assert rest[0] == es[1];
    }
  }

  // ---------------------------------------------------------------------------
  // Applying the logged updates
  // ---------------------------------------------------------------------------

  /** A record with one link replaced. */
  function Patched(item: Item, p: Patch): Item {
    match p
    case SetPrev(r) => item.(prev := r)
    case SetNext(r) => item.(next := r)
  }

  /** What one `updateMethod` call does to the records of the list. */
  function ApplyCall(es: seq<Entry>, c: Call): (r: seq<Entry>)
    ensures |r| == |es|
    ensures forall k :: 0 <= k < |es| ==> r[k].0 == es[k].0
  {
    if c.Remove? then es
    else
      seq(|es|, k requires 0 <= k < |es| =>
        if es[k].0 == c.id then (es[k].0, Patched(es[k].1, c.patch)) else es[k])
  }

  /** The updates of a log applied in order. */
  function Apply(es: seq<Entry>, calls: seq<Call>): seq<Entry>
    decreases |calls|
  {
    if calls == [] then es else Apply(ApplyCall(es, calls[0]), calls[1..])
  }

  /** An update of the record at position `j` changes that record and no other. */
  lemma ApplyAt(es: seq<Entry>, j: nat, p: Patch)
    requires DistinctIds(es) && j < |es|
    ensures var r := ApplyCall(es, Update(es[j].0, p));
      && r[j] == (es[j].0, Patched(es[j].1, p))
      && forall k :: 0 <= k < |es| && k != j ==> r[k] == es[k]
  {
  }

  /**
   * If the links agreed with the positions before the removal, they agree with the
   * new positions once the logged updates are applied to the spliced list.
   */
  lemma RelinkRestoresLinks(es: seq<Entry>, item: Entry)
    requires DistinctIds(es) && LinkedByPosition(es)
    requires item in es
    ensures var i := IndexOf(es, item);
      var rest := SpliceOne(es, i);
      LinkedByPosition(Apply(rest, Relinks(rest, i)))
  {
    var i := IndexOf(es, item);
    var rest := SpliceOne(es, i);
    SpliceRemovesItem(es, item);
    SpliceKeepsDistinct(es, i);
    if |es| == 1 {
      assert rest == [];
    } else if i == 0 {
      assert rest == es[1..];
      RemoveFirst(es, rest);
    } else if i == |es| - 1 {
      assert rest == es[..|es| - 1];
      RemoveLast(es, rest);
    } else {
      RemoveMiddle(es, rest, i);
    }
  }

  /** Removing one position keeps the ids distinct. */
  lemma SpliceKeepsDistinct(es: seq<Entry>, i: nat)
    requires DistinctIds(es) && i < |es|
    ensures DistinctIds(es[..i] + es[i + 1..])
  {
    var rest := es[..i] + es[i + 1..];
    forall a, b | 0 <= a < b < |rest| ensures rest[a].0 != rest[b].0 {
      var a' := if a < i then a else a + 1;
      var b' := if b < i then b else b + 1;
      assert rest[a] == es[a'] && rest[b] == es[b'];
    }
  }

  lemma RemoveFirst(es: seq<Entry>, rest: seq<Entry>)
    requires LinkedByPosition(es) && |es| >= 2
    requires rest == es[1..] && DistinctIds(rest)
    ensures LinkedByPosition(Apply(rest, Relinks(rest, 0)))
  {
    var calls := Relinks(rest, 0);
    assert calls == [Update(rest[0].0, SetPrev(Null))];
    var r := ApplyCall(rest, calls[0]);
    assert Apply(rest, calls) == r;
    ApplyAt(rest, 0, SetPrev(Null));
    forall k | 0 <= k < |r| ensures LinkedAt(r, k) {
      assert LinkedAt(es, k + 1);
    }
  }

  lemma RemoveLast(es: seq<Entry>, rest: seq<Entry>)
    requires LinkedByPosition(es) && |es| >= 2
    requires rest == es[..|es| - 1] && DistinctIds(rest)
    ensures LinkedByPosition(Apply(rest, Relinks(rest, |es| - 1)))
  {
    var n := |rest|;
    var calls := Relinks(rest, n);
    assert calls == [Update(rest[n - 1].0, SetNext(Null))];
    var r := ApplyCall(rest, calls[0]);
    assert Apply(rest, calls) == r;
    ApplyAt(rest, n - 1, SetNext(Null));
    forall k | 0 <= k < |r| ensures LinkedAt(r, k) {
      assert LinkedAt(es, k);
    }
  }

  lemma RemoveMiddle(es: seq<Entry>, rest: seq<Entry>, i: nat)
    requires LinkedByPosition(es) && 0 < i < |es| - 1
    requires rest == es[..i] + es[i + 1..] && DistinctIds(rest)
    ensures LinkedByPosition(Apply(rest, Relinks(rest, i)))
  {
    var r := Apply(rest, Relinks(rest, i));
    JoinNeighbours(rest, i);
    forall k | 0 <= k < |r| ensures LinkedAt(r, k) {
      MiddleAt(es, rest, r, i, k);
    }
  }

  /** The two updates of the middle case, applied: they join positions `i - 1` and `i`. */
  lemma JoinNeighbours(rest: seq<Entry>, i: nat)
    requires 0 < i < |rest| && DistinctIds(rest)
    ensures var r := Apply(rest, Relinks(rest, i));
      && |r| == |rest|
      && r[i - 1] == (rest[i - 1].0, rest[i - 1].1.(next := Id(rest[i].0)))
      && r[i] == (rest[i].0, rest[i].1.(prev := Id(rest[i - 1].0)))
      && forall k :: 0 <= k < |rest| && k != i - 1 && k != i ==> r[k] == rest[k]
  {
    var left, right := rest[i - 1], rest[i];
    var calls := Relinks(rest, i);
    assert calls == [Update(left.0, SetNext(Id(right.0))), Update(right.0, SetPrev(Id(left.0)))];
    var r1 := ApplyCall(rest, calls[0]);
    ApplyAt(rest, i - 1, SetNext(Id(right.0)));
    assert DistinctIds(r1);
    var r2 := ApplyCall(r1, calls[1]);
    ApplyAt(r1, i, SetPrev(Id(left.0)));
    assert Apply(rest, calls) == r2 by {
      var tail := calls[1..];
      assert tail[0] == calls[1] && tail[1..] == [];
      assert Apply(r1, tail) == Apply(r2, []);
    }
  }

  /** Position `k` of the relinked list in the middle case. */
  lemma MiddleAt(es: seq<Entry>, rest: seq<Entry>, r: seq<Entry>, i: nat, k: nat)
    requires LinkedByPosition(es) && 0 < i < |es| - 1
    requires rest == es[..i] + es[i + 1..]
    requires |r| == |rest| && k < |r|
    requires r[i - 1] == (rest[i - 1].0, rest[i - 1].1.(next := Id(rest[i].0)))
    requires r[i] == (rest[i].0, rest[i].1.(prev := Id(rest[i - 1].0)))
    requires forall j :: 0 <= j < |rest| && j != i - 1 && j != i ==> r[j] == rest[j]
    ensures LinkedAt(r, k)
  {
    var k' := if k < i then k else k + 1;
    assert rest[k] == es[k'];
    assert LinkedAt(es, k');
    if k > 0 {
      assert r[k - 1].0 == rest[k - 1].0 == es[if k - 1 < i then k - 1 else k].0;
    }
    if k < |r| - 1 {
      assert r[k + 1].0 == rest[k + 1].0 == es[if k + 1 < i then k + 1 else k + 2].0;
    }
  }
}
