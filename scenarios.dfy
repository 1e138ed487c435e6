/** Worked examples: methods that replay request sequences on a freshly
    built store, and the lemmas over the pure functions that they rely on. */
module Scenarios {

  import opened Sequences
  import opened Items
  import opened Coalescer
  import opened SelectionState
  import opened Listing
  import opened Server
  import opened Options

  /** A newly inserted id is the last entry `/items` lists when nothing is
      selected and the filter is empty. */
  lemma InsertedListedLast(c: Catalog, id: int)
    requires Items.WellFormed(c) && id !in c.items
    ensures |UnselectedMatches(Insert(c, id).keys, Insert(c, id).items, {}, "")| == |c.keys| + 1
    ensures Slice(UnselectedMatches(Insert(c, id).keys, Insert(c, id).items, {}, ""), |c.keys|, |c.keys| + 20)
         == [Item(id)]
  {
    var c1 := Insert(c, id);
    InsertWellFormed(c, id);
    UnfilteredMatchesAll(c1.keys, c1.items);
    var r := UnselectedMatches(c1.keys, c1.items, {}, "");
    SliceWindow(r, |c.keys|, 20);
    assert r[|c.keys|] == c1.items[c1.keys[|c.keys|]] == Item(id);
  }

  /** One addition tick inserting 2000000 into a fresh catalog of `n`
      items: `/items` then lists `n + 1` entries and the new one last. */
  lemma AddOnceListed(n: nat)
    requires n < 2000000
    ensures var c1 := InsertAll(InitialCatalog(n), [2000000]);
            Items.WellFormed(c1)
            && |UnselectedMatches(c1.keys, c1.items, {}, "")| == n + 1
            && Slice(UnselectedMatches(c1.keys, c1.items, {}, ""), n, n + 20) == [Item(2000000)]
  {
    var c := InitialCatalog(n);
    InitialCatalogSpec(n);
    assert 2000000 !in c.items;
    InsertAllStep(c, [2000000], 0);
    assert [2000000][1..] == [];
    assert InsertAll(c, [2000000]) == Insert(c, 2000000);
    InsertWellFormed(c, 2000000);
    InsertedListedLast(c, 2000000);
  }

  /** `/add` of id 2000000, twice, then one addition tick, on a fresh
      catalog of `n` items: the id is inserted once, so `/items` lists
      `n + 1` entries and the new one is the last. */
  method AdditionScenario(n: nat) returns (total: nat, tailPage: seq<Item>)
    requires n < 2000000
    ensures total == n + 1
    ensures tailPage == [Item(2000000)]
  {
    var store := new Store(n);
    ghost var c := InitialCatalog(n);
    assert 2000000 !in c.items by {
      InitialCatalogSpec(n);
    }
    var first := store.QueueAdd(2000000);
    var second := store.QueueAdd(2000000);
    assert store.addQueue == [2000000] && store.CatalogView() == c;
    store.AdditionTick();
    ghost var c1 := InsertAll(c, [2000000]);
    assert store.CatalogView() == c1;
    assert store.selectedSet == {};
    AddOnceListed(n);
    tailPage, total := store.ListItems("", n, 20);
  }

  /** `select(5)`, `unselect(5)`, `select(5)` in one interval, then one
      selection tick: 5 ends up selected, once. */
  method CoalesceScenario() returns (selected: seq<Item>, total: nat)
    ensures total == 1
    ensures selected == [Item(5)]
  {
    var store := new Store(10);
    store.QueueSelect(5);
    store.QueueUnselect(5);
    store.QueueSelect(5);
    assert store.PendingView() == Pending([5], map[5 := Select]);
    store.SelectionTick();
    assert store.selectedOrder == [5];
    InitialCatalogSpec(10);
    assert 5 in store.catalogItems;
    selected, total := store.ListSelected("", 0, 20);
    assert SelectedMatches([5][1..], store.catalogItems, "") == [];
  }

  /** Applying select intents for 1, 2, 3, 4 to an empty selection. */
  lemma SelectFourExample()
    ensures var ops := map[1 := Select, 2 := Select, 3 := Select, 4 := Select];
            Elements([1, 2, 3, 4]) == ops.Keys
            && ApplyBatch(Selection([], {}), [1, 2, 3, 4], ops) == Selection([1, 2, 3, 4], {1, 2, 3, 4})
  {
    var ops := map[1 := Select, 2 := Select, 3 := Select, 4 := Select];
    var ids := [1, 2, 3, 4];
    assert Elements(ids) == {1, 2, 3, 4} == ops.Keys;
    assert forall i | 0 <= i < |ids| :: ops[ids[i]] == Select;
    ApplyBatchSelectFresh(Selection([], {}), ids, ops);
    assert [] + ids == ids;
  }

  /** Staging `select` of 1, 2, 3, 4 on an empty staging area keeps them in
      that order. */
  lemma StageFour()
    ensures Stage(Stage(Stage(Stage(Coalescer.Empty(), 1, Select), 2, Select), 3, Select), 4, Select)
         == Pending([1, 2, 3, 4], map[1 := Select, 2 := Select, 3 := Select, 4 := Select])
  {
    var p1 := Stage(Coalescer.Empty(), 1, Select);
    assert p1 == Pending([1], map[1 := Select]);
    var p2 := Stage(p1, 2, Select);
    assert p2 == Pending([1, 2], map[1 := Select, 2 := Select]);
    var p3 := Stage(p2, 3, Select);
    assert p3 == Pending([1, 2, 3], map[1 := Select, 2 := Select, 3 := Select]);
  }

  /** The staging area after `select` of 1, 2, 3, 4, flushed together with
      a reorder by `[3, 1]`. */
  lemma SelectFourThenReorder()
    ensures var p := Stage(Stage(Stage(Stage(Coalescer.Empty(), 1, Select), 2, Select), 3, Select), 4, Select);
            Coalescer.WellFormed(p) && Flush(Selection([], {}), p, Some([3, 1])).order == [3, 1, 2, 4]
  {
    var ops := map[1 := Select, 2 := Select, 3 := Select, 4 := Select];
    var ids := [1, 2, 3, 4];
    var p := Pending(ids, ops);
    StageFour();
    SelectFourExample();
    assert NoDup(ids);
    var s4 := Selection([1, 2, 3, 4], {1, 2, 3, 4});
    assert ApplyBatch(Selection([], {}), p.order, p.ops) == s4;
    ReorderExample();
    assert Flush(Selection([], {}), p, Some([3, 1])) == Reorder(s4, [3, 1]);
  }

  /** Selects of 1, 2, 3, 4 and a reorder by `[3, 1]` queued in the same
      interval, then one selection tick: the reorder sees the selects
      already applied, giving `[3, 1, 2, 4]`. */
  method ReorderScenario() returns (order: seq<int>)
    ensures order == [3, 1, 2, 4]
  {
    var store := new Store(10);
    store.QueueSelect(1);
    store.QueueSelect(2);
    store.QueueSelect(3);
    store.QueueSelect(4);
    store.QueueReorder([3, 1]);
    SelectFourThenReorder();
    store.SelectionTick();
    order := store.selectedOrder;
  }
}
