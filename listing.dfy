/** The computations inside the two read handlers: `/items` lists the
    unselected catalog entries in catalog order, `/selected` lists the
    selected ids that exist in the catalog in selection order; both keep
    only ids whose decimal form contains the filter, and return the page
    `slice(offset, offset + limit)` of the matches and their count. */
module Listing {

  import opened Sequences
  import opened Decimal
  import opened Items

  /** The ids of a list of items. */
  function ItemIds(r: seq<Item>): seq<int>
  {
    seq(|r|, i requires 0 <= i < |r| => r[i].id)
  }

  /** The matches of `/items`: catalog entries, in catalog order, that are
      not selected and pass the filter. */
  function UnselectedMatches(keys: seq<int>, items: map<int, Item>, members: set<int>, filter: string): seq<Item>
    requires Elements(keys) <= items.Keys
    decreases |keys|
  {
    if keys == [] then []
    else
      assert keys[0] in Elements(keys) && Elements(keys[1..]) <= Elements(keys);
      var rest := UnselectedMatches(keys[1..], items, members, filter);
      if keys[0] in members || !Matches(keys[0], filter) then rest
      else [items[keys[0]]] + rest
  }

  /** The matches of `/selected`: ids of the order, in that order, that pass
      the filter and have a catalog entry. */
  function SelectedMatches(order: seq<int>, items: map<int, Item>, filter: string): seq<Item>
    decreases |order|
  {
    if order == [] then []
    else
      var rest := SelectedMatches(order[1..], items, filter);
      if !Matches(order[0], filter) || order[0] !in items then rest
      else [items[order[0]]] + rest
  }

  /** `Array.prototype.slice` index normalisation: a negative index counts
      from the end, and the result is clamped to `[0, len]`. */
  function SliceIndex(i: int, len: nat): nat
  {
    if i < 0 then (if len + i < 0 then 0 else len + i)
    else if i > len then len
    else i
  }

  /** `Array.prototype.slice(start, end)`. */
  function Slice<T>(s: seq<T>, start: int, end: int): seq<T>
  {
    var from := SliceIndex(start, |s|);
    var to := SliceIndex(end, |s|);
    if from < to then s[from..to] else []
  }

  /** One loop step of `/items`. */
  lemma UnselectedMatchesStep(keys: seq<int>, items: map<int, Item>, members: set<int>, filter: string, i: nat)
    requires Elements(keys) <= items.Keys && i < |keys|
    ensures Elements(keys[i..]) <= items.Keys && Elements(keys[i + 1..]) <= items.Keys
    ensures keys[i] in items
    ensures UnselectedMatches(keys[i..], items, members, filter)
         == (if keys[i] in members || !Matches(keys[i], filter) then [] else [items[keys[i]]])
            + UnselectedMatches(keys[i + 1..], items, members, filter)
  {
    assert keys[i] in Elements(keys);
    assert keys[i..][0] == keys[i] && keys[i..][1..] == keys[i + 1..];
    assert forall x | x in keys[i..] :: x in keys;
    assert forall x | x in keys[i + 1..] :: x in keys;
  }

  /** One loop step of `/selected`. */
  lemma SelectedMatchesStep(order: seq<int>, items: map<int, Item>, filter: string, i: nat)
    requires i < |order|
    ensures SelectedMatches(order[i..], items, filter)
         == (if !Matches(order[i], filter) || order[i] !in items then [] else [items[order[i]]])
            + SelectedMatches(order[i + 1..], items, filter)
  {
    assert order[i..][0] == order[i] && order[i..][1..] == order[i + 1..];
  }

  lemma ItemIdsCons(it: Item, r: seq<Item>)
    ensures ItemIds([it] + r) == [it.id] + ItemIds(r)
  {
  }

  /** The `/items` matches: each id is an unselected catalog id that passes
      the filter, each such id is there, they keep the catalog order, none
      is listed twice, and each is the catalog's entry for it. */
  lemma {:induction false} UnselectedMatchesSpec(c: Catalog, members: set<int>, filter: string)
    requires WellFormed(c)
    ensures forall k :: k in ItemIds(UnselectedMatches(c.keys, c.items, members, filter)) <==>
              k in c.keys && k !in members && Matches(k, filter)
    ensures IsSubsequence(ItemIds(UnselectedMatches(c.keys, c.items, members, filter)), c.keys)
    ensures NoDup(ItemIds(UnselectedMatches(c.keys, c.items, members, filter)))
    ensures forall it | it in UnselectedMatches(c.keys, c.items, members, filter) :: it == Item(it.id)
  {
    UnselectedMatchesShape(c.keys, c.items, members, filter);
    SubsequenceNoDup(ItemIds(UnselectedMatches(c.keys, c.items, members, filter)), c.keys);
  }

  lemma {:induction false} UnselectedMatchesShape(keys: seq<int>, items: map<int, Item>, members: set<int>, filter: string)
    requires Elements(keys) <= items.Keys
    requires forall k | k in items :: items[k] == Item(k)
    ensures forall k :: k in ItemIds(UnselectedMatches(keys, items, members, filter)) <==>
              k in keys && k !in members && Matches(k, filter)
    ensures IsSubsequence(ItemIds(UnselectedMatches(keys, items, members, filter)), keys)
    ensures forall it | it in UnselectedMatches(keys, items, members, filter) :: it == Item(it.id)
    decreases |keys|
  {
    if keys != [] {
      assert keys[0] in Elements(keys) && Elements(keys[1..]) <= Elements(keys);
      var rest := UnselectedMatches(keys[1..], items, members, filter);
      UnselectedMatchesShape(keys[1..], items, members, filter);
      assert keys == [keys[0]] + keys[1..];
      if keys[0] in members || !Matches(keys[0], filter) {
        SubsequenceConsRight(ItemIds(rest), keys[1..], keys[0]);
      } else {
        ItemIdsCons(items[keys[0]], rest);
        assert ([keys[0]] + ItemIds(rest))[1..] == ItemIds(rest);
      }
    }
  }

  /** The `/selected` matches: each id is an id of the order that passes the
      filter and has a catalog entry, each such id is there as often as in
      the order, and they keep the selection order. */
  lemma {:induction false} SelectedMatchesSpec(order: seq<int>, items: map<int, Item>, filter: string)
    requires forall k | k in items :: items[k] == Item(k)
    ensures forall k :: k in ItemIds(SelectedMatches(order, items, filter)) <==>
              k in order && Matches(k, filter) && k in items
    ensures forall k :: multiset(ItemIds(SelectedMatches(order, items, filter)))[k] ==
              if Matches(k, filter) && k in items then multiset(order)[k] else 0
    ensures IsSubsequence(ItemIds(SelectedMatches(order, items, filter)), order)
    ensures forall it | it in SelectedMatches(order, items, filter) :: it == Item(it.id)
    decreases |order|
  {
    SelectedMatchesCount(order, items, filter);
    if order != [] {
      var rest := SelectedMatches(order[1..], items, filter);
      SelectedMatchesSpec(order[1..], items, filter);
      assert order == [order[0]] + order[1..];
      if !Matches(order[0], filter) || order[0] !in items {
        SubsequenceConsRight(ItemIds(rest), order[1..], order[0]);
      } else {
        ItemIdsCons(items[order[0]], rest);
        assert ([order[0]] + ItemIds(rest))[1..] == ItemIds(rest);
      }
    }
  }

  /** Each id of the order that passes the filter and has a catalog entry
      is listed by `/selected` once per copy in the order. */
  lemma {:induction false} SelectedMatchesCount(order: seq<int>, items: map<int, Item>, filter: string)
    requires forall k | k in items :: items[k] == Item(k)
    ensures forall k :: multiset(ItemIds(SelectedMatches(order, items, filter)))[k] ==
              if Matches(k, filter) && k in items then multiset(order)[k] else 0
    decreases |order|
  {
    if order != [] {
      var rest := SelectedMatches(order[1..], items, filter);
      SelectedMatchesCount(order[1..], items, filter);
      assert order == [order[0]] + order[1..];
      assert multiset(order) == multiset{order[0]} + multiset(order[1..]);
      if Matches(order[0], filter) && order[0] in items {
        ItemIdsCons(items[order[0]], rest);
        assert multiset([order[0]] + ItemIds(rest)) == multiset{order[0]} + multiset(ItemIds(rest));
      }
    }
  }

  /** For a non-negative offset and limit the page is the window
      `[offset, offset + limit)` of the matches, cut at their end. */
  lemma SliceWindow<T>(s: seq<T>, offset: nat, limit: nat)
    ensures |Slice(s, offset, offset + limit)| ==
              if offset >= |s| then 0 else if limit < |s| - offset then limit else |s| - offset
    ensures var page := Slice(s, offset, offset + limit);
              forall k | 0 <= k < |page| :: page[k] == s[offset + k]
  {
  }

  /** A negative offset counts from the end of the matches, as in JS. */
  lemma SliceNegativeOffset<T>(s: seq<T>, offset: int)
    requires -|s| <= offset < 0
    ensures Slice(s, offset, 0) == []
    ensures Slice(s, offset, |s|) == s[|s| + offset..]
  {
  }

  /** With nothing selected and an empty filter, `/items` lists the whole
      catalog in order. */
  lemma {:induction false} UnfilteredMatchesAll(keys: seq<int>, items: map<int, Item>)
    requires Elements(keys) <= items.Keys
    ensures |UnselectedMatches(keys, items, {}, "")| == |keys|
    ensures forall i | 0 <= i < |keys| :: UnselectedMatches(keys, items, {}, "")[i] == items[keys[i]]
    decreases |keys|
  {
    if keys != [] {
      assert keys[0] in Elements(keys) && Elements(keys[1..]) <= Elements(keys);
      UnfilteredMatchesAll(keys[1..], items);
    }
  }

  /** On a fresh catalog of `n >= 20` items with nothing selected,
      `/items` with the default page returns ids 1..20 and total `n`. */
  lemma FreshCatalogFirstPage(n: nat)
    requires n >= 20
    ensures |UnselectedMatches(InitialCatalog(n).keys, InitialCatalog(n).items, {}, "")| == n
    ensures ItemIds(Slice(UnselectedMatches(InitialCatalog(n).keys, InitialCatalog(n).items, {}, ""), 0, 0 + 20))
         == Range(20)
  {
    var c := InitialCatalog(n);
    InitialCatalogSpec(n);
    UnfilteredMatchesAll(c.keys, c.items);
    var r := UnselectedMatches(c.keys, c.items, {}, "");
    SliceWindow(r, 0, 20);
  }
}
