/** The catalog `allItems`: an insertion-ordered map from id to item,
    written as the sequence of its keys in insertion order beside the map
    itself, and the addition batch that inserts staged ids into it. */
module Items {

  import opened Sequences

  datatype Item = Item(id: int)

  datatype Catalog = Catalog(keys: seq<int>, items: map<int, Item>)

  /** Every key is listed once, in insertion order, and every entry is the
      item `{ id }` stored under its own id. */
  ghost predicate WellFormed(c: Catalog)
  {
    && NoDup(c.keys)
    && Elements(c.keys) == c.items.Keys
    && forall k | k in c.items :: c.items[k] == Item(k)
  }

  /** The ids 1..n, in increasing order. */
  function Range(n: nat): seq<int>
  {
    seq(n, i => i + 1)
  }

  /** The catalog `initData` builds, with its item count as a parameter. */
  function InitialCatalog(n: nat): Catalog
  {
    Catalog(Range(n), map k | 1 <= k <= n :: Item(k))
  }

  lemma InitialCatalogSpec(n: nat)
    ensures WellFormed(InitialCatalog(n))
    ensures |InitialCatalog(n).keys| == n
    ensures forall i | 0 <= i < n :: InitialCatalog(n).keys[i] == i + 1
  {
    var c := InitialCatalog(n);
    forall k | k in c.items ensures k in Elements(c.keys) {
      assert c.keys[k - 1] == k;
    }
  }

  /** One step of the addition batch: `if (!allItems.has(id))
      allItems.set(id, { id })`. */
  function Insert(c: Catalog, id: int): Catalog
  {
    if id in c.items then c else Catalog(c.keys + [id], c.items[id := Item(id)])
  }

  /** The addition batch: the staged ids inserted one by one, in the order
      they were staged. */
  function InsertAll(c: Catalog, ids: seq<int>): Catalog
    decreases |ids|
  {
    if ids == [] then c else InsertAll(Insert(c, ids[0]), ids[1..])
  }

  lemma InsertWellFormed(c: Catalog, id: int)
    requires WellFormed(c)
    ensures WellFormed(Insert(c, id))
    ensures Insert(c, id).items.Keys == c.items.Keys + {id}
    ensures forall k | k in c.items :: Insert(c, id).items[k] == c.items[k]
    ensures c.keys <= Insert(c, id).keys
  {
    if id !in c.items {
      NoDupConcat(c.keys, [id]);
      ElementsConcat(c.keys, [id]);
      assert Elements([id]) == {id};
    }
  }

  /** One loop step of the addition batch. */
  lemma InsertAllStep(c: Catalog, ids: seq<int>, i: nat)
    requires i < |ids|
    ensures InsertAll(c, ids[i..]) == InsertAll(Insert(c, ids[i]), ids[i + 1..])
  {
    assert ids[i..][0] == ids[i] && ids[i..][1..] == ids[i + 1..];
  }

  /** The addition batch keeps the catalog well formed, so each staged id is
      present exactly once, however often it was staged. */
  lemma {:induction false} InsertAllWellFormed(c: Catalog, ids: seq<int>)
    requires WellFormed(c)
    ensures WellFormed(InsertAll(c, ids))
    decreases |ids|
  {
    if ids != [] {
      InsertWellFormed(c, ids[0]);
      InsertAllWellFormed(Insert(c, ids[0]), ids[1..]);
    }
  }

  /** The addition batch inserts every staged id and leaves every existing
      entry alone. */
  lemma {:induction false} InsertAllEntries(c: Catalog, ids: seq<int>)
    ensures InsertAll(c, ids).items.Keys == c.items.Keys + Elements(ids)
    ensures forall k | k in c.items :: InsertAll(c, ids).items[k] == c.items[k]
    decreases |ids|
  {
    if ids != [] {
      var c1 := Insert(c, ids[0]);
      assert c1.items.Keys == c.items.Keys + {ids[0]};
      InsertAllEntries(c1, ids[1..]);
      assert ids == [ids[0]] + ids[1..];
      ElementsConcat([ids[0]], ids[1..]);
      assert Elements([ids[0]]) == {ids[0]};
    }
  }

  /** The addition batch keeps the catalog well formed, inserts every staged
      id, and leaves every existing entry and its position alone. */
  lemma InsertAllSpec(c: Catalog, ids: seq<int>)
    requires WellFormed(c)
    ensures WellFormed(InsertAll(c, ids))
    ensures InsertAll(c, ids).items.Keys == c.items.Keys + Elements(ids)
    ensures forall k | k in c.items :: InsertAll(c, ids).items[k] == c.items[k]
    ensures c.keys <= InsertAll(c, ids).keys
  {
    InsertAllWellFormed(c, ids);
    InsertAllEntries(c, ids);
    InsertAllPrefix(c, ids);
  }

  /** Existing keys keep their positions. */
  lemma {:induction false} InsertAllPrefix(c: Catalog, ids: seq<int>)
    ensures c.keys <= InsertAll(c, ids).keys
    decreases |ids|
  {
    if ids != [] {
      InsertAllPrefix(Insert(c, ids[0]), ids[1..]);
    }
  }

  /** The new ids follow the existing ones, in the order they were staged. */
  lemma {:induction false} InsertAllOrder(c: Catalog, ids: seq<int>)
    ensures |c.keys| <= |InsertAll(c, ids).keys|
    ensures IsSubsequence(InsertAll(c, ids).keys[|c.keys|..], ids)
    decreases |ids|
  {
    var k := |c.keys|;
    InsertAllPrefix(c, ids);
    if ids == [] {
      assert InsertAll(c, ids).keys[k..] == [];
    } else {
      var c1 := Insert(c, ids[0]);
      var r := InsertAll(c1, ids[1..]);
      InsertAllPrefix(c1, ids[1..]);
      InsertAllOrder(c1, ids[1..]);
      assert ids[1..] == ([ids[0]] + ids[1..])[1..];
      if ids[0] in c.items {
        SubsequenceConsRight(r.keys[k..], ids[1..], ids[0]);
      } else {
        assert c1.keys[k] == ids[0];
        assert r.keys[k..] == [ids[0]] + r.keys[k + 1..];
      }
    }
  }

  /** The batch inserts exactly the staged ids that were absent. */
  lemma InsertAllCount(c: Catalog, ids: seq<int>)
    requires WellFormed(c)
    ensures |InsertAll(c, ids).keys| == |c.keys| + |Elements(ids) - c.items.Keys|
  {
    var r := InsertAll(c, ids);
    InsertAllWellFormed(c, ids);
    InsertAllEntries(c, ids);
    NoDupCard(c.keys);
    NoDupCard(r.keys);
    var added := Elements(ids) - c.items.Keys;
    assert r.items.Keys == c.items.Keys + added;
    assert c.items.Keys * added == {};
  }

  /** Staging an id twice before a batch inserts it once. */
  lemma InsertTwiceOnce(c: Catalog, id: int)
    ensures InsertAll(c, [id, id]) == InsertAll(c, [id])
  {
    assert [id, id][1..] == [id];
    assert [id][1..] == [];
  }
}
