/**
 * The older `sortChain` of `web-client/src/components/utils.ts`: the same head search
 * and walk along `next`, without the count of visited items and the warning.
 */
module SortChainLegacy {
  import opened Wrappers
  import opened Chain
  import SortChain

  /**
   * The older `sortChain`. On every chain on which the walk ends it returns exactly
   * what the newer `sortChain` returns, including the TypeError on a missing key.
   */
  method SortChainLegacy(chain: seq<Entry>) returns (sorted: Result<seq<Entry>, SortChain.TypeError>)
    requires DistinctIds(chain)
    requires SortChain.Terminates(chain)
    ensures sorted == SortChain.Sorted(chain)
  {
    var firstItem := SortChain.FindHead(chain);
    var sortedChain: seq<Entry> := [];
    if Truthy(firstItem) {
      var currentItemID := firstItem;
      ghost var fuel: nat := |chain| + 1;
      ghost var whole := SortChain.WalkFrom(chain, firstItem.id, fuel);
      while Truthy(currentItemID)
        invariant Truthy(currentItemID) ==>
          && SortChain.WalkFrom(chain, currentItemID.id, fuel).end != SortChain.OutOfFuel
          && whole == SortChain.Then(sortedChain, SortChain.WalkFrom(chain, currentItemID.id, fuel))
        invariant !Truthy(currentItemID) ==> whole == SortChain.Walk(sortedChain, SortChain.Stop)
        decreases fuel
      {
        var itemInfo := Lookup(chain, currentItemID.id);
        SortChain.WalkStep(chain, currentItemID.id, fuel);
        if itemInfo.None? {
          return Err(SortChain.TypeError);
        }
        var rest := if Truthy(itemInfo.value.next)
                    then SortChain.WalkFrom(chain, itemInfo.value.next.id, fuel - 1)
                    else SortChain.Walk([], SortChain.Stop);
        SortChain.ThenAssoc(sortedChain, [(currentItemID.id, itemInfo.value)], rest);
        sortedChain := sortedChain + [(currentItemID.id, itemInfo.value)];
        currentItemID := itemInfo.value.next;
        fuel := fuel - 1;
      }
    }
    sorted := Ok(sortedChain);
  }
}
