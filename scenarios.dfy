/**
 * Clients of the item registry: request sequences run against a fresh
 * registry (Widget then two lookups, the same request twice, an omitted
 * versus an empty description, N creates in a row), each stating what the
 * caller observes.
 */
module Scenarios {
  import opened ItemRegistry

  /**
   * Create Widget (price 2.5, quantity 4, no description), read it back, then
   * look up an id that was never handed out.
   */
  method WidgetScenario() returns (created: ItemResponse, again: Lookup, missing: Lookup)
    ensures created == ItemResponse(1, "Widget", None, 2.5, 4, 10.0)
    ensures again == Found(created)
    ensures missing == NotFound("Item not found")
  {
    var store := new ItemStore();
    created := store.Create(ItemRequest("Widget", None, 2.5, 4));
    again := store.Get(1);
    missing := store.Get(999);
  }

  /** Two creates of the same request get ids 1 and 2 and differ only in id. */
  method SameRequestTwice(req: ItemRequest) returns (first: ItemResponse, second: ItemResponse)
    ensures first.id == 1 && second.id == 2
    ensures first != second
    ensures RequestOf(first) == RequestOf(second) == req
    ensures second == first.(id := 2)
  {
    var store := new ItemStore();
    first := store.Create(req);
    second := store.Create(req);
  }

  /**
   * An omitted description is kept as None and an empty one as the empty
   * string; lookups return each as it was stored.
   */
  method OmittedVersusEmptyDescription(name: string, price: real, quantity: int)
    returns (omitted: Lookup, empty: Lookup)
    ensures omitted.Found? && omitted.item.description == None
    ensures empty.Found? && empty.item.description == Some("")
    ensures omitted.item.description != empty.item.description
  {
    var store := new ItemStore();
    var a := store.Create(ItemRequest(name, None, price, quantity));
    var b := store.Create(ItemRequest(name, Some(""), price, quantity));
    omitted := store.Get(a.id);
    empty := store.Get(b.id);
  }

  /**
   * N creates on a fresh registry return the ids 1 .. N in order; afterwards
   * id k finds the record of the k-th request and no other id is stored.
   */
  method CreateEach(reqs: seq<ItemRequest>) returns (store: ItemStore, ids: seq<int>)
    ensures fresh(store) && store.Valid()
    ensures store.State() == CreateAll(Empty(), reqs)
    ensures ids == seq(|reqs|, k => k + 1)
    ensures store.nextId == |reqs| + 1
    ensures forall k :: 0 <= k < |reqs| ==>
      Find(store.State(), k + 1) == Found(NewRecord(k + 1, reqs[k]))
  {
    store := new ItemStore();
    ids := [];
    var i := 0;
    while i < |reqs|
      invariant 0 <= i <= |reqs|
      invariant store.Valid()
      invariant store.State() == CreateAll(Empty(), reqs[..i])
      invariant ids == IdsIssued(Empty(), reqs[..i])
    {
      var r := store.Create(reqs[i]);
      CreateAllThenInsert(Empty(), reqs[..i], reqs[i]);
      assert reqs[..i + 1] == reqs[..i] + [reqs[i]];
      ids := ids + [r.id];
      i := i + 1;
    }
    assert reqs[..i] == reqs;
    FreshStoreIssuesOneToN(reqs);
    IdsAreConsecutive(Empty(), reqs);
  }
}
