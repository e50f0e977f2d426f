/**
 * `sortChain` of `web-client/src/utils/utils.ts`: find the head of a chain (the first
 * entry whose `prev` is null), follow `next` until it is falsy and return the visited
 * `[id, record]` pairs, warning when they are fewer or more than the chain's keys.
 * The chain is given as its entries in `Object.entries` order.
 */
module SortChain {
  import opened Wrappers
  import opened Chain

  /** How a walk along `next` ended. */
  datatype End =
    | Stop        // a falsy `next`
    | Missing     // an id that is not a key: `chain[id]` is undefined and reading its `next` throws
    | OutOfFuel   // the walk was cut off after the given number of lookups

  /** The records a walk visited, in order, and how it ended. */
  datatype Walk = Walk(visited: seq<Entry>, end: End)

  /** `TypeError: Cannot read properties of undefined (reading 'next')`. */
  datatype TypeError = TypeError

  /**
   * The `find` of line 10: the id of the first entry, in iteration order, whose `prev`
   * is null, or null when there is none.
   */
  function FindHead(chain: seq<Entry>): Ref {
    if chain == [] then Null
    else if chain[0].1.prev == Null then Id(chain[0].0)
    else FindHead(chain[1..])
  }

  /** The head is the first entry whose `prev` is null; without one it is null. */
  lemma {:induction false} FindHeadIsFirst(chain: seq<Entry>)
    ensures FindHead(chain).Null? <==> forall p :: 0 <= p < |chain| ==> chain[p].1.prev != Null
    ensures FindHead(chain).Id? ==>
      exists p :: 0 <= p < |chain| && chain[p].0 == FindHead(chain).id && chain[p].1.prev == Null
                  && forall q :: 0 <= q < p ==> chain[q].1.prev != Null
  {
    if chain != [] && chain[0].1.prev != Null {
      var tail := chain[1..];
      FindHeadIsFirst(tail);
      assert forall p :: 1 <= p < |chain| ==> chain[p] == tail[p - 1];
      if FindHead(tail).Id? {
        var p :| 0 <= p < |tail| && tail[p].0 == FindHead(tail).id && tail[p].1.prev == Null
                  && forall q :: 0 <= q < p ==> tail[q].1.prev != Null;
        forall q | 0 <= q < p + 1 ensures chain[q].1.prev != Null {
          if q > 0 { assert chain[q] == tail[q - 1]; }
        }
        assert chain[p + 1] == tail[p];
      } else {
        forall p | 0 <= p < |chain| ensures chain[p].1.prev != Null {
          if p > 0 { assert chain[p] == tail[p - 1]; }
        }
      }
    }
  }

  /** The loop of lines 15-20 from `id`, allowed at most `fuel` lookups. */
  function WalkFrom(chain: seq<Entry>, id: string, fuel: nat): Walk
    decreases fuel
  {
    if fuel == 0 then Walk([], OutOfFuel)
    else match Lookup(chain, id)
      case None => Walk([], Missing)
      case Some(item) =>
        if !Truthy(item.next) then Walk([(id, item)], Stop)
        else
          var rest := WalkFrom(chain, item.next.id, fuel - 1);
          Walk([(id, item)] + rest.visited, rest.end)
  }

  /**
   * The walk from the head ends. A walk that ends at all takes at most one lookup
   * per key and one more, so `|chain| + 1` lookups decide it (`TerminatesIsExact`).
   */
  predicate Terminates(chain: seq<Entry>) {
    var head := FindHead(chain);
    Truthy(head) ==> WalkFrom(chain, head.id, |chain| + 1).end != OutOfFuel
  }

  /** What `sortChain` returns, or the TypeError it throws. */
  function Sorted(chain: seq<Entry>): Result<seq<Entry>, TypeError>
    requires Terminates(chain)
  {
    var head := FindHead(chain);
    if !Truthy(head) then Ok([])
    else
      var w := WalkFrom(chain, head.id, |chain| + 1);
      if w.end == Stop then Ok(w.visited) else Err(TypeError)
  }

  /** The visited records followed by the rest of a walk. */
  function Then(done: seq<Entry>, w: Walk): Walk {
    Walk(done + w.visited, w.end)
  }

  /** One lookup of the walk. */
  lemma WalkStep(chain: seq<Entry>, id: string, fuel: nat)
    requires fuel > 0
    ensures Lookup(chain, id).None? ==> WalkFrom(chain, id, fuel) == Walk([], Missing)
    ensures Lookup(chain, id).Some? ==>
      var item := Lookup(chain, id).value;
      WalkFrom(chain, id, fuel) ==
        Then([(id, item)], if Truthy(item.next) then WalkFrom(chain, item.next.id, fuel - 1) else Walk([], Stop))
  {
  }

  lemma ThenAssoc(a: seq<Entry>, b: seq<Entry>, w: Walk)
    ensures Then(a, Then(b, w)) == Then(a + b, w)
  {
  }

  /**
   * `sortChain`. The result is the walk from the head; `warned` says whether the
   * `console.warn` of line 22 fires, which happens when the walk completes and its
   * length differs from the number of keys.
   */
  method SortChain(chain: seq<Entry>) returns (sorted: Result<seq<Entry>, TypeError>, warned: bool)
    requires DistinctIds(chain)
    requires Terminates(chain)
    ensures sorted == Sorted(chain)
    ensures warned <==> sorted.Ok? && Truthy(FindHead(chain)) && |sorted.value| != |chain|
  {
    var firstItem := FindHead(chain);
    var sortedChain: seq<Entry> := [];
    warned := false;
    if Truthy(firstItem) {
      var index := 0;
      var currentItemID := firstItem;
      ghost var fuel: nat := |chain| + 1;
      ghost var whole := WalkFrom(chain, firstItem.id, fuel);
      while Truthy(currentItemID)
        invariant index == |sortedChain|
        invariant Truthy(currentItemID) ==>
          && WalkFrom(chain, currentItemID.id, fuel).end != OutOfFuel
          && whole == Then(sortedChain, WalkFrom(chain, currentItemID.id, fuel))
        invariant !Truthy(currentItemID) ==> whole == Walk(sortedChain, Stop)
        decreases fuel
      {
        var itemInfo := Lookup(chain, currentItemID.id);
        WalkStep(chain, currentItemID.id, fuel);
        if itemInfo.None? {
          return Err(TypeError), false;
        }
        ThenAssoc(sortedChain, [(currentItemID.id, itemInfo.value)],
                  if Truthy(itemInfo.value.next) then WalkFrom(chain, itemInfo.value.next.id, fuel - 1) else Walk([], Stop));
        sortedChain := sortedChain + [(currentItemID.id, itemInfo.value)];
        currentItemID := itemInfo.value.next;
        index := index + 1;
        fuel := fuel - 1;
      }
      if index != |chain| {
        warned := true;
      }
    }
    sorted := Ok(sortedChain);
  }

  // ---------------------------------------------------------------------------
  // The walk
  // ---------------------------------------------------------------------------

  /** The last entry of a non-empty sequence. */
  function Last(s: seq<Entry>): Entry
    requires s != []
  {
    s[|s| - 1]
  }

  /** Each pair is the map's own record under its id: `[id, chain[id]]`. */
  predicate RecordsOf(chain: seq<Entry>, s: seq<Entry>) {
    forall k :: 0 <= k < |s| ==> Lookup(chain, s[k].0) == Some(s[k].1)
  }

  /** Each id after the first is the previous record's truthy `next`. */
  predicate FollowsNext(s: seq<Entry>) {
    forall k :: 0 <= k < |s| - 1 ==> NextIs(s[k], s[k + 1].0)
  }

  /** The record's `next` is the truthy id `id`. */
  predicate NextIs(e: Entry, id: string) {
    Truthy(e.1.next) && e.1.next == Id(id)
  }

  /** How the walk from `id` ended, read off its last record. */
  predicate EndsAsSaid(chain: seq<Entry>, id: string, w: Walk) {
    && (w.end == Stop ==> w.visited != [] && !Truthy(Last(w.visited).1.next))
    && (w.end == Missing ==>
          if w.visited == [] then Lookup(chain, id).None?
          else Truthy(Last(w.visited).1.next) && Lookup(chain, Last(w.visited).1.next.id).None?)
  }

  /**
   * The shape of every walk: it starts at `id`, holds the map's own records, follows
   * `next`, and ends as its last record says.
   */
  lemma {:induction false} WalkShape(chain: seq<Entry>, id: string, fuel: nat)
    ensures WalkFrom(chain, id, fuel).visited != [] ==> WalkFrom(chain, id, fuel).visited[0].0 == id
    ensures RecordsOf(chain, WalkFrom(chain, id, fuel).visited)
    ensures FollowsNext(WalkFrom(chain, id, fuel).visited)
    ensures EndsAsSaid(chain, id, WalkFrom(chain, id, fuel))
    decreases fuel
  {
    if fuel > 0 && Lookup(chain, id).Some? && Truthy(Lookup(chain, id).value.next) {
      var item := Lookup(chain, id).value;
      var rest := WalkFrom(chain, item.next.id, fuel - 1);
      WalkShape(chain, item.next.id, fuel - 1);
      var v := [(id, item)] + rest.visited;
      assert WalkFrom(chain, id, fuel) == Walk(v, rest.end);
      assert forall k :: 1 <= k < |v| ==> v[k] == rest.visited[k - 1];
      assert RecordsOf(chain, v) by {
        assert RecordsOf(chain, rest.visited);
      }
      assert FollowsNext(v) by {
        assert FollowsNext(rest.visited);
        if rest.visited != [] {
          assert NextIs(v[0], v[1].0);
        }
      }
      if rest.visited != [] {
        assert Last(v) == Last(rest.visited);
      }
    }
  }

  /** More fuel does not change a walk that already ended. */
  lemma {:induction false} WalkFuel(chain: seq<Entry>, id: string, fuel: nat, more: nat)
    requires fuel <= more
    requires WalkFrom(chain, id, fuel).end != OutOfFuel
    ensures WalkFrom(chain, id, more) == WalkFrom(chain, id, fuel)
    decreases fuel
  {
    var item := Lookup(chain, id);
    if item.Some? && Truthy(item.value.next) {
      WalkFuel(chain, item.value.next.id, fuel - 1, more - 1);
    }
  }

  /** Two walks from the same id that both end are the same walk. */
  lemma WalksAgree(chain: seq<Entry>, id: string, f: nat, g: nat)
    requires WalkFrom(chain, id, f).end != OutOfFuel
    requires WalkFrom(chain, id, g).end != OutOfFuel
    ensures WalkFrom(chain, id, f) == WalkFrom(chain, id, g)
  {
    if f <= g { WalkFuel(chain, id, f, g); } else { WalkFuel(chain, id, g, f); }
  }

  /** Walks that both end and start at the same id are the same walk. */
  lemma WalksAgreeAt(chain: seq<Entry>, x: string, y: string, f: nat, g: nat)
    requires WalkFrom(chain, x, f).end != OutOfFuel
    requires WalkFrom(chain, y, g).end != OutOfFuel
    ensures x == y ==> WalkFrom(chain, x, f) == WalkFrom(chain, y, g)
  {
    if x == y { WalksAgree(chain, x, f, g); }
  }

  /** From the `k`-th visited id the walk goes on exactly as the whole walk did. */
  lemma {:induction false} WalkSuffix(chain: seq<Entry>, id: string, fuel: nat, k: nat)
    requires k < |WalkFrom(chain, id, fuel).visited|
    ensures k < fuel
    ensures var w := WalkFrom(chain, id, fuel);
      WalkFrom(chain, w.visited[k].0, fuel - k) == Walk(w.visited[k..], w.end)
    decreases k
  {
    var w := WalkFrom(chain, id, fuel);
    WalkShape(chain, id, fuel);
    if k > 0 {
      var item := Lookup(chain, id).value;
      var rest := WalkFrom(chain, item.next.id, fuel - 1);
      assert w.visited == [(id, item)] + rest.visited;
      WalkSuffix(chain, item.next.id, fuel - 1, k - 1);
      assert w.visited[k..] == rest.visited[k - 1..];
    }
  }

  /** A walk that ends visits no id twice. */
  lemma WalkDistinct(chain: seq<Entry>, id: string, fuel: nat)
    requires WalkFrom(chain, id, fuel).end != OutOfFuel
    ensures DistinctIds(WalkFrom(chain, id, fuel).visited)
  {
    var w := WalkFrom(chain, id, fuel);
    forall i, j | 0 <= i < j < |w.visited| ensures w.visited[i].0 != w.visited[j].0 {
      WalkSuffix(chain, id, fuel, i);
      WalkSuffix(chain, id, fuel, j);
      assert |w.visited[i..]| != |w.visited[j..]|;
      WalksAgreeAt(chain, w.visited[i].0, w.visited[j].0, fuel - i, fuel - j);
    }
  }

  /** A walk that ends needs no more than one lookup per visited record and one more. */
  lemma {:induction false} WalkFuelNeeded(chain: seq<Entry>, id: string, fuel: nat)
    requires WalkFrom(chain, id, fuel).end != OutOfFuel
    ensures WalkFrom(chain, id, |WalkFrom(chain, id, fuel).visited| + 1) == WalkFrom(chain, id, fuel)
    decreases fuel
  {
    var item := Lookup(chain, id);
    if item.Some? && Truthy(item.value.next) {
      WalkFuelNeeded(chain, item.value.next.id, fuel - 1);
    }
  }

  /** The set of ids of a sequence of entries. */
  function Keys(es: seq<Entry>): (ks: set<string>)
    ensures forall x :: x in ks <==> exists k :: 0 <= k < |es| && es[k].0 == x
    ensures |ks| <= |es|
    ensures DistinctIds(es) ==> |ks| == |es|
  {
    if es == [] then {}
    else
      var ks := Keys(es[1..]);
      assert forall k :: 1 <= k < |es| ==> es[k] == es[1..][k - 1];
      assert DistinctIds(es) ==> es[0].0 !in ks && DistinctIds(es[1..]);
      {es[0].0} + ks
  }

  lemma SubsetCard(a: set<string>, b: set<string>)
    requires a <= b
    ensures |a| <= |b|
    ensures |a| == |b| ==> a == b
  {
    assert b == a + (b - a);
    if |a| == |b| {
      assert |b - a| == 0;
    }
  }

  /** Distinct ids that are all keys of the chain are no more than the keys. */
  lemma KeysCover(s: seq<Entry>, chain: seq<Entry>)
    requires DistinctIds(s)
    requires forall k :: 0 <= k < |s| ==> Lookup(chain, s[k].0).Some?
    ensures |s| <= |chain|
    ensures |s| == |chain| ==> Keys(s) == Keys(chain)
  {
    var a, b := Keys(s), Keys(chain);
    assert a <= b by {
      forall x | x in a ensures x in b {
        var k :| 0 <= k < |s| && s[k].0 == x;
        assert Lookup(chain, x).Some?;
      }
    }
    SubsetCard(a, b);
  }

  /**
   * `Terminates` is exactly "the loop ends": the walk from the head ends for some
   * number of lookups if and only if it ends within `|chain| + 1`.
   */
  lemma TerminatesIsExact(chain: seq<Entry>)
    ensures Terminates(chain) <==>
      (Truthy(FindHead(chain)) ==> exists fuel: nat :: WalkFrom(chain, FindHead(chain).id, fuel).end != OutOfFuel)
  {
    var head := FindHead(chain);
    if Truthy(head) && exists fuel: nat :: WalkFrom(chain, head.id, fuel).end != OutOfFuel {
      var fuel: nat :| WalkFrom(chain, head.id, fuel).end != OutOfFuel;
      var w := WalkFrom(chain, head.id, fuel);
      WalkShape(chain, head.id, fuel);
      WalkDistinct(chain, head.id, fuel);
      KeysCover(w.visited, chain);
      WalkFuelNeeded(chain, head.id, fuel);
      WalkFuel(chain, head.id, |w.visited| + 1, |chain| + 1);
    }
  }

  // ---------------------------------------------------------------------------
  // What sortChain returns
  // ---------------------------------------------------------------------------

  /** The result is empty exactly when there is no head or the head id is empty. */
  lemma SortedEmpty(chain: seq<Entry>)
    requires Terminates(chain)
    ensures Sorted(chain) == Ok([]) <==> !Truthy(FindHead(chain))
  {
    if Truthy(FindHead(chain)) {
      WalkShape(chain, FindHead(chain).id, |chain| + 1);
    }
  }

  /**
   * A result starts at the head, takes each later id from the previous record's
   * `next`, holds the map's own record under each id, visits each key at most once
   * and ends at a falsy `next`.
   */
  lemma SortedFollowsLinks(chain: seq<Entry>)
    requires Terminates(chain)
    requires Sorted(chain).Ok? && Sorted(chain).value != []
    ensures var s := Sorted(chain).value;
      && FindHead(chain) == Id(s[0].0)
      && RecordsOf(chain, s)
      && FollowsNext(s)
      && DistinctIds(s)
      && !Truthy(Last(s).1.next)
  {
    var head := FindHead(chain);
    WalkShape(chain, head.id, |chain| + 1);
    WalkDistinct(chain, head.id, |chain| + 1);
  }

  /**
   * The TypeError is thrown only when the walk from the head reaches an id that
   * is not a key: the last record it read has a truthy `next` naming no record.
   * `MissingKeyFails` proves the converse.
   */
  lemma SortedFailsAtMissingKey(chain: seq<Entry>)
    requires Terminates(chain)
    requires Sorted(chain).Err?
    ensures Truthy(FindHead(chain))
    ensures var w := WalkFrom(chain, FindHead(chain).id, |chain| + 1);
      && w.visited != []
      && Truthy(Last(w.visited).1.next)
      && Lookup(chain, Last(w.visited).1.next.id).None?
  {
    var head := FindHead(chain);
    var w := WalkFrom(chain, head.id, |chain| + 1);
    assert w.end == Missing;
    HeadIsKey(chain);
    WalkShape(chain, head.id, |chain| + 1);
  }

  /**
   * The converse of `SortedFailsAtMissingKey`: once the walk from a truthy head
   * reaches a truthy `next` that names no key, the following round reads
   * `itemInfo.next` of `undefined` and throws.
   */
  lemma MissingKeyFails(chain: seq<Entry>)
    requires Terminates(chain)
    requires Truthy(FindHead(chain))
    requires var w := WalkFrom(chain, FindHead(chain).id, |chain| + 1);
      && w.visited != []
      && Truthy(Last(w.visited).1.next)
      && Lookup(chain, Last(w.visited).1.next.id).None?
    ensures Sorted(chain).Err?
  {
    if Sorted(chain).Ok? {
      SortedFollowsLinks(chain);
    }
  }

  /** The head, when there is one, is a key of the chain. */
  lemma HeadIsKey(chain: seq<Entry>)
    ensures FindHead(chain).Id? ==> Lookup(chain, FindHead(chain).id).Some?
  {
    FindHeadIsFirst(chain);
  }

  /**
   * Every result has at most one pair per key; when it has as many pairs as the chain
   * has keys (no warning), every key of the chain appears in it.
   */
  lemma SortedCoversWithoutWarning(chain: seq<Entry>)
    requires Terminates(chain)
    requires Sorted(chain).Ok?
    ensures |Sorted(chain).value| <= |chain|
    ensures |Sorted(chain).value| == |chain| ==>
      forall k :: 0 <= k < |chain| ==> exists j :: 0 <= j < |chain| && Sorted(chain).value[j].0 == chain[k].0
  {
    var s := Sorted(chain).value;
    if s != [] {
      SortedFollowsLinks(chain);
      KeysCover(s, chain);
      if |s| == |chain| {
        EveryKeyListed(s, chain);
      }
    }
  }

  /**
   * For a chain with distinct keys, a result that lists every key has one pair per
   * key, and one with fewer pairs misses a key: the warning of line 22 fires exactly
   * when some key of the chain is not in the result.
   */
  lemma WarnsIffKeyMissing(chain: seq<Entry>)
    requires DistinctIds(chain)
    requires Terminates(chain)
    requires Sorted(chain).Ok?
    ensures |Sorted(chain).value| == |chain| <==>
      forall k :: 0 <= k < |chain| ==> Listed(Sorted(chain).value, chain[k].0)
  {
    var s := Sorted(chain).value;
    if s != [] {
      SortedFollowsLinks(chain);
      assert forall k :: 0 <= k < |s| ==> Lookup(chain, s[k].0).Some?;
    }
    CompleteIffAllListed(s, chain);
  }

  /**
   * Distinct ids that are all keys of a chain with distinct keys are as many as the
   * keys exactly when every key is among them.
   */
  lemma CompleteIffAllListed(s: seq<Entry>, chain: seq<Entry>)
    requires DistinctIds(chain) && DistinctIds(s)
    requires forall k :: 0 <= k < |s| ==> Lookup(chain, s[k].0).Some?
    ensures |s| == |chain| <==> forall k :: 0 <= k < |chain| ==> Listed(s, chain[k].0)
  {
    if |s| == |chain| {
      KeysCover(s, chain);
      EveryKeyListed(s, chain);
      forall k | 0 <= k < |chain| ensures Listed(s, chain[k].0) {
        var j :| 0 <= j < |chain| && s[j].0 == chain[k].0;
      }
    }
    if forall k :: 0 <= k < |chain| ==> Listed(s, chain[k].0) {
      AllListedComplete(s, chain);
    }
  }

  /** When every key of the chain is among distinct ids that are all keys, they are as many. */
  lemma AllListedComplete(s: seq<Entry>, chain: seq<Entry>)
    requires DistinctIds(chain) && DistinctIds(s)
    requires forall k :: 0 <= k < |s| ==> Lookup(chain, s[k].0).Some?
    requires forall k :: 0 <= k < |chain| ==> Listed(s, chain[k].0)
    ensures |s| == |chain|
  {
    KeysCover(s, chain);
    var a, b := Keys(s), Keys(chain);
    assert b <= a by {
      forall x | x in b ensures x in a {
        var k :| 0 <= k < |chain| && chain[k].0 == x;
        assert Listed(s, chain[k].0);
      }
    }
    SubsetCard(b, a);
  }

  /** Some pair of `s` has the id. */
  predicate Listed(s: seq<Entry>, id: string) {
    exists j :: 0 <= j < |s| && s[j].0 == id
  }

  /** With the same ids, every key of the chain is the id of some entry of `s`. */
  lemma EveryKeyListed(s: seq<Entry>, chain: seq<Entry>)
    requires |s| == |chain| && Keys(s) == Keys(chain)
    ensures forall k :: 0 <= k < |chain| ==> exists j :: 0 <= j < |chain| && s[j].0 == chain[k].0
  {
    forall k | 0 <= k < |chain| ensures exists j :: 0 <= j < |chain| && s[j].0 == chain[k].0 {
      assert chain[k].0 in Keys(chain);
    }
  }

  /**
   * A well-formed chain: some listing of exactly the chain's entries, with non-empty
   * ids, whose links agree with its positions. The walk then terminates, returns that
   * listing, and so covers every key once and does not warn.
   */
  lemma WellFormedChainIsListed(chain: seq<Entry>, listing: seq<Entry>)
    requires DistinctIds(chain)
    requires multiset(listing) == multiset(chain)
    requires listing != []
    requires LinkedByPosition(listing)
    requires forall k :: 0 <= k < |listing| ==> listing[k].0 != ""
    ensures Terminates(chain)
    ensures Sorted(chain) == Ok(listing)
    ensures |Sorted(chain).value| == |chain|
  {
    var n := |listing|;
    assert |chain| == n by {
      assert |multiset(listing)| == |multiset(chain)|;
    }
    ListedRecords(chain, listing);
    ListedSuffixWalks(chain, listing, 0);
    ListedHead(chain, listing);
    WalkFuel(chain, listing[0].0, n, n + 1);
  }

  /** The entries of a listing are the chain's own records. */
  lemma ListedRecords(chain: seq<Entry>, listing: seq<Entry>)
    requires DistinctIds(chain)
    requires multiset(listing) == multiset(chain)
    ensures RecordsOf(chain, listing)
  {
    forall k | 0 <= k < |listing| ensures Lookup(chain, listing[k].0) == Some(listing[k].1) {
      assert listing[k] in multiset(chain);
      var j :| 0 <= j < |chain| && chain[j] == listing[k];
      LookupDistinct(chain, j);
    }
  }

  /** The head of the chain is the first entry of a listing whose links agree with its positions. */
  lemma ListedHead(chain: seq<Entry>, listing: seq<Entry>)
    requires multiset(listing) == multiset(chain)
    requires listing != []
    requires LinkedByPosition(listing)
    ensures FindHead(chain) == Id(listing[0].0)
  {
    FindHeadIsFirst(chain);
    assert listing[0] in multiset(chain);
    var j0 :| 0 <= j0 < |chain| && chain[j0] == listing[0];
    assert LinkedAt(listing, 0);
    var head := FindHead(chain);
    var p :| 0 <= p < |chain| && chain[p].0 == head.id && chain[p].1.prev == Null
             && forall q :: 0 <= q < p ==> chain[q].1.prev != Null;
    assert chain[p] in multiset(listing);
    var q :| 0 <= q < |listing| && listing[q] == chain[p];
    assert LinkedAt(listing, q);
  }

  /** Along a listing whose links agree with its positions, the walk follows the listing. */
  lemma {:induction false} ListedSuffixWalks(chain: seq<Entry>, listing: seq<Entry>, k: nat)
    requires k < |listing|
    requires LinkedByPosition(listing)
    requires forall j :: 0 <= j < |listing| ==> listing[j].0 != ""
    requires RecordsOf(chain, listing)
    ensures WalkFrom(chain, listing[k].0, |listing| - k) == Walk(listing[k..], Stop)
    decreases |listing| - k, 1
  {
    ListedAt(chain, listing, k);
    if k + 1 < |listing| {
      ListedSuffixStep(chain, listing, k);
    } else {
      WalkLast(chain, listing[k], |listing| - k);
      assert listing[k..] == [listing[k]];
    }
  }

  /** One step of `ListedSuffixWalks`: a record with a successor in the listing. */
  lemma {:induction false} ListedSuffixStep(chain: seq<Entry>, listing: seq<Entry>, k: nat)
    requires k + 1 < |listing|
    requires LinkedByPosition(listing)
    requires forall j :: 0 <= j < |listing| ==> listing[j].0 != ""
    requires RecordsOf(chain, listing)
    ensures WalkFrom(chain, listing[k].0, |listing| - k) == Walk(listing[k..], Stop)
    decreases |listing| - k, 0
  {
    ListedAt(chain, listing, k);
    ListedSuffixWalks(chain, listing, k + 1);
    WalkCons(chain, listing[k], |listing| - k, Walk(listing[k + 1..], Stop));
    assert listing[k..] == [listing[k]] + listing[k + 1..];
  }

  /** What a listing whose links agree with its positions says about its `k`-th record. */
  lemma ListedAt(chain: seq<Entry>, listing: seq<Entry>, k: nat)
    requires k < |listing|
    requires LinkedByPosition(listing)
    requires forall j :: 0 <= j < |listing| ==> listing[j].0 != ""
    requires RecordsOf(chain, listing)
    ensures Lookup(chain, listing[k].0) == Some(listing[k].1)
    ensures k + 1 < |listing| ==> Truthy(listing[k].1.next) && listing[k].1.next.id == listing[k + 1].0
    ensures k + 1 == |listing| ==> !Truthy(listing[k].1.next)
  {
    assert LinkedAt(listing, k);
    if k + 1 < |listing| {
      assert listing[k + 1].0 != "";
    }
  }

  /** A walk through a record with a truthy `next` is that record and the walk from `next`. */
  lemma WalkCons(chain: seq<Entry>, e: Entry, fuel: nat, rest: Walk)
    requires fuel > 0 && Lookup(chain, e.0) == Some(e.1) && Truthy(e.1.next)
    requires WalkFrom(chain, e.1.next.id, fuel - 1) == rest
    ensures WalkFrom(chain, e.0, fuel) == Walk([e] + rest.visited, rest.end)
  {
  }

  /** A walk through a record with a falsy `next` stops there. */
  lemma WalkLast(chain: seq<Entry>, e: Entry, fuel: nat)
    requires fuel > 0 && Lookup(chain, e.0) == Some(e.1) && !Truthy(e.1.next)
    ensures WalkFrom(chain, e.0, fuel) == Walk([e], Stop)
  {
  }
}
