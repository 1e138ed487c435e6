/** The module-level state of the server and the operations on it: the
    write handlers only stage intents, the selection tick and the addition
    tick apply them, and the read handlers compute pages of matches. */
module Server {

  import opened Sequences
  import opened Options
  import opened Decimal
  import opened Items
  import opened Coalescer
  import opened SelectionState
  import opened Listing

  /** What the checks of `/add` decide (400, 409 or 202). */
  datatype AddOutcome = InvalidId | AlreadyExists | Accepted

  class Store {
    // allItems, as its keys in insertion order and the map
    var catalogKeys: seq<int>
    var catalogItems: map<int, Item>
    // the selection
    var selectedOrder: seq<int>
    var selectedSet: set<int>
    // pendingSelectOps, as its keys in insertion order and the map
    var pendingOrder: seq<int>
    var pendingOps: map<int, Op>
    // pendingReorder; None is null
    var pendingReorder: Option<seq<int>>
    // addQueue, a JS Set: its elements in insertion order
    var addQueue: seq<int>

    function CatalogView(): Catalog
      reads this
    {
      Catalog(catalogKeys, catalogItems)
    }

    function SelectionView(): Selection
      reads this
    {
      Selection(selectedOrder, selectedSet)
    }

    function PendingView(): Pending
      reads this
    {
      Pending(pendingOrder, pendingOps)
    }

    /** The representation invariant of the three ordered collections. The
        selection's own invariant is not part of it: a reorder with a
        repeated id breaks it, and the source allows that. */
    ghost predicate Valid()
      reads this
    {
      && Items.WellFormed(CatalogView())
      && Coalescer.WellFormed(PendingView())
      && NoDup(addQueue)
    }

    /** Startup: `initData` fills the catalog with the ids 1..n; everything
        else starts empty. */
    constructor (n: nat)
      ensures Valid()
      ensures CatalogView() == InitialCatalog(n)
      ensures SelectionView() == Selection([], {}) && Canonical(SelectionView())
      ensures PendingView() == Coalescer.Empty() && pendingReorder == None && addQueue == []
    {
      var keys: seq<int> := [];
      var items: map<int, Item> := map[];
      var i := 1;
      while i <= n
        invariant 1 <= i <= n + 1
        invariant keys == Range(i - 1)
        invariant items == map k | 1 <= k < i :: Item(k)
      {
        keys := keys + [i];
        items := items[i := Item(i)];
        i := i + 1;
      }
      catalogKeys, catalogItems := keys, items;
      selectedOrder, selectedSet := [], {};
      pendingOrder, pendingOps := [], map[];
      pendingReorder := None;
      addQueue := [];
      new;
      InitialCatalogSpec(n);
    }

    /** `pendingSelectOps.set(id, op)`. */
    method SetIntent(id: int, op: Op)
      requires Valid()
      modifies this
      ensures Valid()
      ensures PendingView() == Stage(old(PendingView()), id, op)
      ensures CatalogView() == old(CatalogView()) && SelectionView() == old(SelectionView())
      ensures pendingReorder == old(pendingReorder) && addQueue == old(addQueue)
    {
      StageSpec(PendingView(), id, op);
      if id !in pendingOps {
        pendingOrder := pendingOrder + [id];
      }
      pendingOps := pendingOps[id := op];
    }

    /** `queueSelect(id)`: records a select intent for `id`, replacing an
        earlier one in this interval without moving `id`. */
    method QueueSelect(id: int)
      requires Valid()
      modifies this
      ensures Valid()
      ensures PendingView() == Stage(old(PendingView()), id, Select)
      ensures pendingOps[id] == Select
      ensures old(pendingOrder) <= pendingOrder
      ensures CatalogView() == old(CatalogView()) && SelectionView() == old(SelectionView())
      ensures pendingReorder == old(pendingReorder) && addQueue == old(addQueue)
    {
      SetIntent(id, Select);
    }

    /** `queueUnselect(id)`: as `QueueSelect`, with an unselect intent. */
    method QueueUnselect(id: int)
      requires Valid()
      modifies this
      ensures Valid()
      ensures PendingView() == Stage(old(PendingView()), id, Unselect)
      ensures pendingOps[id] == Unselect
      ensures old(pendingOrder) <= pendingOrder
      ensures CatalogView() == old(CatalogView()) && SelectionView() == old(SelectionView())
      ensures pendingReorder == old(pendingReorder) && addQueue == old(addQueue)
    {
      SetIntent(id, Unselect);
    }

    /** `queueReorder(newOrder)`: stages the sequence as given, discarding an
        earlier staged one. */
    method QueueReorder(newOrder: seq<int>)
      requires Valid()
      modifies this
      ensures Valid()
      ensures pendingReorder == Some(newOrder)
      ensures CatalogView() == old(CatalogView()) && SelectionView() == old(SelectionView())
      ensures PendingView() == old(PendingView()) && addQueue == old(addQueue)
    {
      pendingReorder := Some(newOrder);
    }

    /** The body of `/add`: a non-positive id and an id already in the
        catalog are refused; any other id joins the addition queue, where
        staging it again changes nothing. */
    method QueueAdd(id: int) returns (outcome: AddOutcome)
      requires Valid()
      modifies this
      ensures Valid()
      ensures outcome == if id <= 0 then InvalidId
                         else if id in old(catalogItems) then AlreadyExists
                         else Accepted
      ensures addQueue == if outcome == Accepted && id !in old(addQueue) then old(addQueue) + [id]
                          else old(addQueue)
      ensures Elements(addQueue) == Elements(old(addQueue)) + (if outcome == Accepted then {id} else {})
      ensures CatalogView() == old(CatalogView()) && SelectionView() == old(SelectionView())
      ensures PendingView() == old(PendingView()) && pendingReorder == old(pendingReorder)
    {
      if id <= 0 {
        return InvalidId;
      }
      if id in catalogItems {
        return AlreadyExists;
      }
      ElementsConcat(addQueue, [id]);
      NoDupConcat(addQueue, [id]);
      assert Elements([id]) == {id};
      if id !in addQueue {
        addQueue := addQueue + [id];
      }
      outcome := Accepted;
    }

    /** One entry of the select/unselect batch, applied in place. */
    method ApplyIntent(id: int, op: Op)
      modifies this`selectedOrder, this`selectedSet
      ensures SelectionView() == Apply(old(SelectionView()), id, op)
    {
      if op == Select {
        if id !in selectedSet {
          selectedSet := selectedSet + {id};
          selectedOrder := selectedOrder + [id];
        }
      } else {
        if id in selectedSet {
          selectedSet := selectedSet - {id};
          var idx := IndexOf(selectedOrder, id);
          if idx != -1 {
            RemoveFirstAt(selectedOrder, id, idx);
            selectedOrder := selectedOrder[..idx] + selectedOrder[idx + 1..];
          } else {
            RemoveFirstCount(selectedOrder, id);
          }
        }
      }
    }

    /** The select/unselect half of the tick: every staged intent, in
        first-queued order; the staging area is cleared afterwards. */
    method ApplySelectBatch()
      requires Coalescer.WellFormed(PendingView())
      modifies this`selectedOrder, this`selectedSet, this`pendingOrder, this`pendingOps
      ensures SelectionView() == ApplyBatch(old(SelectionView()), old(pendingOrder), old(pendingOps))
      ensures PendingView() == Coalescer.Empty()
    {
      if |pendingOrder| > 0 {
        for i := 0 to |pendingOrder|
          invariant pendingOrder == old(pendingOrder) && pendingOps == old(pendingOps)
          invariant Elements(pendingOrder[i..]) <= pendingOps.Keys
          invariant ApplyBatch(SelectionView(), pendingOrder[i..], pendingOps)
                 == ApplyBatch(old(SelectionView()), pendingOrder, pendingOps)
        {
          var id := pendingOrder[i];
          assert id in Elements(pendingOrder[i..]);
          assert pendingOrder[i..][1..] == pendingOrder[i + 1..];
          ApplyIntent(id, pendingOps[id]);
        }
        assert pendingOrder[|pendingOrder|..] == [];
        pendingOrder, pendingOps := [], map[];
      }
    }

    /** The reorder half of the tick: the staged ids, then the untouched
        tail; the membership index is rebuilt from the new order. */
    method ApplyReorderBatch()
      modifies this`selectedOrder, this`selectedSet, this`pendingReorder
      ensures SelectionView() == match old(pendingReorder)
                                 case None => old(SelectionView())
                                 case Some(staged) => Reorder(old(SelectionView()), staged)
      ensures pendingReorder == None
    {
      if pendingReorder.Some? {
        var subset := pendingReorder.value;
        var subsetSet := Elements(subset);
        var tail := Without(selectedOrder, subsetSet);
        selectedOrder := subset + tail;
        var rebuilt: set<int> := {};
        for j := 0 to |selectedOrder|
          invariant rebuilt == Elements(selectedOrder[..j])
          modifies {}
        {
          assert selectedOrder[..j + 1] == selectedOrder[..j] + [selectedOrder[j]];
          ElementsConcat(selectedOrder[..j], [selectedOrder[j]]);
          rebuilt := rebuilt + {selectedOrder[j]};
        }
        assert selectedOrder[..|selectedOrder|] == selectedOrder;
        selectedSet := rebuilt;
        pendingReorder := None;
      }
    }

    /** The selection tick: the select/unselect batch in first-queued order,
        then the staged reorder; both staging areas are empty afterwards. */
    method SelectionTick()
      requires Valid()
      modifies this
      ensures Valid()
      ensures SelectionView() == Flush(old(SelectionView()), old(PendingView()), old(pendingReorder))
      ensures PendingView() == Coalescer.Empty() && pendingReorder == None
      ensures CatalogView() == old(CatalogView()) && addQueue == old(addQueue)
      ensures old(Canonical(SelectionView())) && (old(pendingReorder).Some? ==> NoDup(old(pendingReorder).value))
              ==> Canonical(SelectionView())
      ensures old(pendingReorder).Some? ==> Consistent(SelectionView())
    {
      FlushInvariant(SelectionView(), PendingView(), pendingReorder);
      ApplySelectBatch();
      ApplyReorderBatch();
    }

    /** The addition tick: every queued id missing from the catalog is
        inserted as `{ id }`, in queue order; the queue is empty afterwards. */
    method AdditionTick()
      requires Valid()
      modifies this
      ensures Valid()
      ensures CatalogView() == InsertAll(old(CatalogView()), old(addQueue))
      ensures catalogItems.Keys == old(catalogItems).Keys + Elements(old(addQueue))
      ensures forall k | k in old(catalogItems) :: catalogItems[k] == old(catalogItems)[k]
      ensures old(catalogKeys) <= catalogKeys
      ensures addQueue == []
      ensures SelectionView() == old(SelectionView())
      ensures PendingView() == old(PendingView()) && pendingReorder == old(pendingReorder)
    {
      ghost var target := InsertAll(CatalogView(), addQueue);
      InsertAllSpec(CatalogView(), addQueue);
      var queue := addQueue;
      for i := 0 to |queue|
        modifies this`catalogKeys, this`catalogItems
        invariant InsertAll(CatalogView(), queue[i..]) == target
      {
        var id := queue[i];
        InsertAllStep(CatalogView(), queue, i);
        if id !in catalogItems {
          catalogKeys := catalogKeys + [id];
          catalogItems := catalogItems[id := Item(id)];
        }
      }
      assert queue[|queue|..] == [];
      addQueue := [];
    }

    /** `/items`: the page of unselected catalog entries whose id contains
        the filter, and the number of such entries. */
    method ListItems(filter: string, offset: int, limit: int) returns (items: seq<Item>, total: nat)
      requires Valid()
      ensures total == |UnselectedMatches(catalogKeys, catalogItems, selectedSet, filter)|
      ensures items == Slice(UnselectedMatches(catalogKeys, catalogItems, selectedSet, filter), offset, offset + limit)
    {
      var keys, entries, selected := catalogKeys, catalogItems, selectedSet;
      assert Elements(keys) <= entries.Keys;
      assert keys[0..] == keys;
      var result: seq<Item> := [];
      for i := 0 to |keys|
        invariant Elements(keys[i..]) <= entries.Keys
        invariant result + UnselectedMatches(keys[i..], entries, selected, filter)
               == UnselectedMatches(keys, entries, selected, filter)
      {
        UnselectedMatchesStep(keys, entries, selected, filter, i);
        var id := keys[i];
        var item := entries[id];
        if id in selected {
          continue;
        }
        if filter != "" && !Contains(IntString(id), filter) {
          continue;
        }
        result := result + [item];
      }
      assert keys[|keys|..] == [];
      items := Slice(result, offset, offset + limit);
      total := |result|;
    }

    /** `/selected`: the page of selected ids, in selection order, that
        contain the filter and exist in the catalog, and their number. */
    method ListSelected(filter: string, offset: int, limit: int) returns (items: seq<Item>, total: nat)
      ensures total == |SelectedMatches(selectedOrder, catalogItems, filter)|
      ensures items == Slice(SelectedMatches(selectedOrder, catalogItems, filter), offset, offset + limit)
    {
      var out: seq<Item> := [];
      for i := 0 to |selectedOrder|
        invariant out + SelectedMatches(selectedOrder[i..], catalogItems, filter)
               == SelectedMatches(selectedOrder, catalogItems, filter)
      {
        SelectedMatchesStep(selectedOrder, catalogItems, filter, i);
        var id := selectedOrder[i];
        if filter != "" && !Contains(IntString(id), filter) {
          continue;
        }
        if id in catalogItems {
          out := out + [catalogItems[id]];
        }
      }
      assert selectedOrder[|selectedOrder|..] == [];
      items := Slice(out, offset, offset + limit);
      total := |out|;
    }
  }
}
