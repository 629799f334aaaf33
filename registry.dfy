/**
 * The item registry of a small HTTP items service: an in-memory table from
 * integer ids to item records, and a counter that hands out the next id.
 * Creating an item takes the counter's value as the new id, bumps the
 * counter, computes the item's total and stores the record; looking an id up
 * returns the stored record or the not-found outcome.
 *
 * Prices and totals are modelled as mathematical reals; the rounding of
 * floating-point multiplication is not modelled.
 */
module ItemRegistry {

  datatype Option<T> = None | Some(value: T)

  /** What a client supplies to create an item; an omitted description is None. */
  datatype ItemRequest = ItemRequest(
    name: string,
    description: Option<string>,
    price: real,
    quantity: int)

  /** A stored item, as returned by create and by lookup. */
  datatype ItemResponse = ItemResponse(
    id: int,
    name: string,
    description: Option<string>,
    price: real,
    quantity: int,
    total: real)

  /** The message the service attaches to the not-found outcome. */
  const NotFoundDetail: string := "Item not found"

  /** The outcome of a lookup: the stored record, or not found with its message. */
  datatype Lookup = Found(item: ItemResponse) | NotFound(detail: string)

  /** The registry's state as a value: the table and the next id to hand out. */
  datatype Snapshot = Snapshot(items: map<int, ItemResponse>, nextId: int)

  /** The state the service starts in: no items, counter at 1. */
  function Empty(): Snapshot {
    Snapshot(map[], 1)
  }

  /** The fields of a record that came from the client's request. */
  function RequestOf(r: ItemResponse): ItemRequest {
    ItemRequest(r.name, r.description, r.price, r.quantity)
  }

  /** A record's total is its price times its quantity. */
  predicate Consistent(r: ItemResponse) {
    r.total == r.price * r.quantity as real
  }

  /**
   * The registry invariant: the stored ids are exactly 1 .. nextId-1, each
   * record carries its own key as id, and each total is consistent.
   */
  ghost predicate Sequential(s: Snapshot) {
    && s.nextId >= 1
    && (forall i :: i in s.items <==> 1 <= i < s.nextId)
    && (forall i :: i in s.items ==> s.items[i].id == i && Consistent(s.items[i]))
  }

  /** The record that create builds for the request under the given id. */
  function NewRecord(id: int, req: ItemRequest): (r: ItemResponse)
    ensures r.id == id
    ensures RequestOf(r) == req
    ensures Consistent(r)
  {
    var total := req.price * req.quantity as real;
    ItemResponse(id, req.name, req.description, req.price, req.quantity, total)
  }

  /** A consistent record is rebuilt exactly from its id and its request fields. */
  lemma NewRecordOfRequest(r: ItemResponse)
    requires Consistent(r)
    ensures NewRecord(r.id, RequestOf(r)) == r
  {
  }

  /** The state after one create of req: the current counter value becomes the id. */
  function Insert(s: Snapshot, req: ItemRequest): (t: Snapshot)
    ensures t.nextId == s.nextId + 1
    ensures t.items.Keys == s.items.Keys + {s.nextId}
    ensures Sequential(s) ==> s.nextId !in s.items && Sequential(t)
  {
    Snapshot(s.items[s.nextId := NewRecord(s.nextId, req)], s.nextId + 1)
  }

  /** Lookup of an id in a state: the stored record, or not found with the fixed message. */
  function Find(s: Snapshot, id: int): (r: Lookup)
    ensures r.Found? <==> id in s.items
    ensures r.Found? ==> r.item == s.items[id]
    ensures r.NotFound? ==> r.detail == NotFoundDetail
  {
    if id in s.items then Found(s.items[id]) else NotFound(NotFoundDetail)
  }

  /** In a state that keeps the invariant, an id is found exactly when it was handed out. */
  lemma FoundIffIssued(s: Snapshot, id: int)
    requires Sequential(s)
    ensures Find(s, id).Found? <==> 1 <= id < s.nextId
    ensures Find(s, id).Found? ==> Find(s, id).item.id == id && Consistent(Find(s, id).item)
  {
  }

  /**
   * After a create, the new id finds the new record, and every other id finds
   * what it found before.
   */
  lemma FindAfterInsert(s: Snapshot, req: ItemRequest, id: int)
    ensures Find(Insert(s, req), s.nextId) == Found(NewRecord(s.nextId, req))
    ensures id != s.nextId ==> Find(Insert(s, req), id) == Find(s, id)
  {
  }

  /** The state after creating each request of reqs in order. */
  function CreateAll(s: Snapshot, reqs: seq<ItemRequest>): Snapshot
    decreases |reqs|
  {
    if reqs == [] then s else CreateAll(Insert(s, reqs[0]), reqs[1..])
  }

  /** The ids returned, in order, by creating each request of reqs. */
  function IdsIssued(s: Snapshot, reqs: seq<ItemRequest>): seq<int>
    decreases |reqs|
  {
    if reqs == [] then [] else [s.nextId] + IdsIssued(Insert(s, reqs[0]), reqs[1..])
  }

  /** A run of creates followed by one more create is the longer run. */
  lemma {:induction false} CreateAllThenInsert(s: Snapshot, reqs: seq<ItemRequest>, req: ItemRequest)
    ensures CreateAll(s, reqs + [req]) == Insert(CreateAll(s, reqs), req)
    ensures IdsIssued(s, reqs + [req]) == IdsIssued(s, reqs) + [CreateAll(s, reqs).nextId]
    decreases |reqs|
  {
    if reqs != [] {
      assert (reqs + [req])[1..] == reqs[1..] + [req];
      CreateAllThenInsert(Insert(s, reqs[0]), reqs[1..], req);
    } else {
      assert reqs + [req] == [req];
    }
  }

  /**
   * N creates from a state with counter c return the ids c, c+1, ..., c+N-1
   * in that order and leave the counter at c+N.
   */
  lemma {:induction false} IdsAreConsecutive(s: Snapshot, reqs: seq<ItemRequest>)
    ensures CreateAll(s, reqs).nextId == s.nextId + |reqs|
    ensures |IdsIssued(s, reqs)| == |reqs|
    ensures forall k :: 0 <= k < |reqs| ==> IdsIssued(s, reqs)[k] == s.nextId + k
    decreases |reqs|
  {
    if reqs != [] {
      IdsAreConsecutive(Insert(s, reqs[0]), reqs[1..]);
    }
  }

  /**
   * N creates keep the invariant, store the k-th request under the k-th id,
   * and leave every record that was there before untouched.
   */
  lemma {:induction false} CreateAllStores(s: Snapshot, reqs: seq<ItemRequest>)
    requires Sequential(s)
    ensures Sequential(CreateAll(s, reqs))
    ensures forall i :: i in s.items ==> Find(CreateAll(s, reqs), i) == Find(s, i)
    ensures forall k :: 0 <= k < |reqs| ==>
      Find(CreateAll(s, reqs), s.nextId + k) == Found(NewRecord(s.nextId + k, reqs[k]))
    decreases |reqs|
  {
    if reqs != [] {
      var t := Insert(s, reqs[0]);
      CreateAllStores(t, reqs[1..]);
      forall k | 0 <= k < |reqs|
        ensures Find(CreateAll(s, reqs), s.nextId + k) == Found(NewRecord(s.nextId + k, reqs[k]))
      {
        if k == 0 {
          assert s.nextId in t.items;
        } else {
          assert reqs[1..][k - 1] == reqs[k];
          assert t.nextId + (k - 1) == s.nextId + k;
        }
      }
    }
  }

  /**
   * Ids are never reused: starting from a state that keeps the invariant, the
   * ids a run of creates returns are strictly increasing and none of them was
   * already in the table.
   */
  lemma IdsAreFresh(s: Snapshot, reqs: seq<ItemRequest>)
    requires Sequential(s)
    ensures forall j, k :: 0 <= j < k < |IdsIssued(s, reqs)| ==>
      IdsIssued(s, reqs)[j] < IdsIssued(s, reqs)[k]
    ensures forall k :: 0 <= k < |IdsIssued(s, reqs)| ==> IdsIssued(s, reqs)[k] !in s.items
  {
    IdsAreConsecutive(s, reqs);
  }

  /**
   * From the starting state, N creates return the ids 1 .. N in order, the
   * table then holds exactly those ids, and id k finds the k-th request's record.
   */
  lemma FreshStoreIssuesOneToN(reqs: seq<ItemRequest>)
    ensures IdsIssued(Empty(), reqs) == seq(|reqs|, k => k + 1)
    ensures forall i :: i in CreateAll(Empty(), reqs).items <==> 1 <= i <= |reqs|
    ensures forall k :: 0 <= k < |reqs| ==>
      Find(CreateAll(Empty(), reqs), k + 1) == Found(NewRecord(k + 1, reqs[k]))
  {
    var e := Empty();
    assert Sequential(e);
    IdsAreConsecutive(e, reqs);
    CreateAllStores(e, reqs);
    var ids := IdsIssued(e, reqs);
    assert forall k :: 0 <= k < |ids| ==> ids[k] == k + 1;
    var t := CreateAll(e, reqs);
    assert t.nextId == |reqs| + 1;
    assert Sequential(t);
  }

  /**
   * The registry object: the `fake_db` table and the `item_id_counter`
   * counter, updated in place by Create.
   */
  class ItemStore {
    var items: map<int, ItemResponse>
    var nextId: int

    function State(): Snapshot
      reads this
    {
      Snapshot(items, nextId)
    }

    ghost predicate Valid()
      reads this
    {
      Sequential(State())
    }

    /** A fresh registry: empty table, counter at 1. */
    constructor ()
      ensures Valid()
      ensures State() == Empty()
    {
      items := map[];
      nextId := 1;
    }

    /**
     * Creates an item: the id is the counter's value before the call, the
     * counter goes up by one, and the only change to the table is the new
     * record under the new id.
     */
    method Create(req: ItemRequest) returns (r: ItemResponse)
      requires Valid()
      modifies this
      ensures Valid()
      ensures r.id == old(nextId) && nextId == old(nextId) + 1
      ensures r.id !in old(items)
      ensures RequestOf(r) == req && Consistent(r)
      ensures items == old(items)[r.id := r]
      ensures State() == Insert(old(State()), req)
    {
      var itemId := nextId;
      nextId := nextId + 1;

      var itemData := NewRecord(itemId, req);

      items := items[itemId := itemData];
      r := itemData;
    }

    /**
     * Looks an id up: the stored record if there is one, otherwise the
     * not-found outcome. It changes nothing.
     */
    method Get(itemId: int) returns (r: Lookup)
      ensures r == Find(State(), itemId)
      ensures Valid() ==> (r.Found? <==> 1 <= itemId < nextId)
    {
      var item := if itemId in items then Some(items[itemId]) else None;
      if item.None? {
        r := NotFound(NotFoundDetail);
      } else {
        r := Found(item.value);
      }
    }
  }
}
