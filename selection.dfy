/** The selection (`selectedOrder` with its membership index `selectedSet`)
    and what one selection tick does to it: the select/unselect batch in the
    staging order, then the staged reorder. */
module SelectionState {

  import opened Sequences
  import opened Options
  import opened Coalescer

  datatype Selection = Selection(order: seq<int>, members: set<int>)

  /** The membership index holds exactly the ids of the order. */
  ghost predicate Consistent(s: Selection)
  {
    s.members == Elements(s.order)
  }

  /** Consistent, and no id is listed twice. */
  ghost predicate Canonical(s: Selection)
  {
    Consistent(s) && NoDup(s.order)
  }

  /** One entry of the select/unselect batch. A select appends an id not
      yet selected; an unselect of a selected id drops it from the index
      and splices out its first occurrence. */
  function Apply(s: Selection, id: int, op: Op): Selection
  {
    match op
    case Select =>
      if id in s.members then s else Selection(s.order + [id], s.members + {id})
    case Unselect =>
      if id in s.members then Selection(RemoveFirst(s.order, id), s.members - {id}) else s
  }

  /** The select/unselect batch: the entries applied in the given order. */
  function ApplyBatch(s: Selection, ids: seq<int>, ops: map<int, Op>): Selection
    requires Elements(ids) <= ops.Keys
    decreases |ids|
  {
    if ids == [] then s
    else
      assert ids[0] in Elements(ids) && Elements(ids[1..]) <= Elements(ids);
      ApplyBatch(Apply(s, ids[0], ops[ids[0]]), ids[1..], ops)
  }

  /** The reorder batch: the staged ids verbatim, then the old order without
      them, with the membership index rebuilt from the result. */
  function Reorder(s: Selection, staged: seq<int>): Selection
  {
    var order := staged + Without(s.order, Elements(staged));
    Selection(order, Elements(order))
  }

  /** One selection tick: the batch first, then the reorder, if one is
      staged. */
  function Flush(s: Selection, p: Pending, reorder: Option<seq<int>>): Selection
    requires WellFormed(p)
  {
    var afterBatch := ApplyBatch(s, p.order, p.ops);
    match reorder
    case None => afterBatch
    case Some(staged) => Reorder(afterBatch, staged)
  }

  /** Selecting: the id is selected afterwards, the old order is a prefix of
      the new one, and at most that id is added. */
  lemma ApplySelectSpec(s: Selection, id: int)
    requires Canonical(s)
    ensures Canonical(Apply(s, id, Select))
    ensures Apply(s, id, Select).members == s.members + {id}
    ensures s.order <= Apply(s, id, Select).order
    ensures |Apply(s, id, Select).order| == |s.order| + (if id in s.members then 0 else 1)
  {
    if id !in s.members {
      NoDupConcat(s.order, [id]);
      ElementsConcat(s.order, [id]);
      assert Elements([id]) == {id};
    }
  }

  /** Unselecting: the id is no longer selected, exactly one copy leaves the
      order when it was selected, and the rest keep their relative order. */
  lemma ApplyUnselectSpec(s: Selection, id: int)
    requires Canonical(s)
    ensures Canonical(Apply(s, id, Unselect))
    ensures Apply(s, id, Unselect).members == s.members - {id}
    ensures multiset(Apply(s, id, Unselect).order) == multiset(s.order) - multiset{id}
    ensures IsSubsequence(Apply(s, id, Unselect).order, s.order)
  {
    RemoveFirstCount(s.order, id);
    RemoveFirstOrder(s.order, id);
    RemoveFirstNoDup(s.order, id);
    if id !in s.members {
      SubsequenceRefl(s.order);
    }
  }

  /** A selection with a repeated id (possible only after a reorder with a
      repeated id) loses consistency on an unselect of that id: the index
      forgets it while one copy stays in the order. */
  lemma DuplicateUnselectDesync()
    ensures Apply(Selection([7, 7], {7}), 7, Unselect) == Selection([7], {})
    ensures Consistent(Selection([7, 7], {7}))
    ensures !Consistent(Apply(Selection([7, 7], {7}), 7, Unselect))
  {
    assert RemoveFirst([7, 7], 7) == [7];
    assert 7 in Elements([7]);
  }

  lemma {:induction false} ApplyBatchCanonical(s: Selection, ids: seq<int>, ops: map<int, Op>)
    requires Canonical(s) && Elements(ids) <= ops.Keys
    ensures Canonical(ApplyBatch(s, ids, ops))
    decreases |ids|
  {
    if ids != [] {
      assert ids[0] in Elements(ids) && Elements(ids[1..]) <= Elements(ids);
      if ops[ids[0]] == Select {
        ApplySelectSpec(s, ids[0]);
      } else {
        ApplyUnselectSpec(s, ids[0]);
      }
      ApplyBatchCanonical(Apply(s, ids[0], ops[ids[0]]), ids[1..], ops);
    }
  }

  /** After the batch, an id is selected exactly when its last intent was
      select, or, when it had no intent, when it was selected before. */
  lemma {:induction false} ApplyBatchMembers(s: Selection, ids: seq<int>, ops: map<int, Op>, x: int)
    requires NoDup(ids) && Elements(ids) <= ops.Keys
    ensures x in ApplyBatch(s, ids, ops).members <==>
              if x in ids then ops[x] == Select else x in s.members
    decreases |ids|
  {
    if ids != [] {
      assert ids[0] in Elements(ids) && Elements(ids[1..]) <= Elements(ids);
      assert ids == [ids[0]] + ids[1..];
      NoDupConcat([ids[0]], ids[1..]);
      assert ids[0] in Elements([ids[0]]);
      var s1 := Apply(s, ids[0], ops[ids[0]]);
      ApplyBatchMembers(s1, ids[1..], ops, x);
    }
  }

  /** Selecting ids that are distinct and not yet selected appends them to
      the order in batch order. */
  lemma {:induction false} ApplyBatchSelectFresh(s: Selection, ids: seq<int>, ops: map<int, Op>)
    requires Elements(ids) <= ops.Keys
    requires forall i | 0 <= i < |ids| :: ops[ids[i]] == Select
    requires NoDup(ids) && Elements(ids) !! s.members
    ensures ApplyBatch(s, ids, ops) == Selection(s.order + ids, s.members + Elements(ids))
    decreases |ids|
  {
    if ids != [] {
      var id, rest := ids[0], ids[1..];
      assert id in Elements(ids) && Elements(rest) <= Elements(ids);
      assert ops[id] == Select;
      var s1 := Apply(s, id, Select);
      assert s1 == Selection(s.order + [id], s.members + {id});
      assert NoDup(rest) by {
        forall i, j | 0 <= i < j < |rest| ensures rest[i] != rest[j] {
          assert rest[i] == ids[i + 1] && rest[j] == ids[j + 1];
        }
      }
      assert id !in rest by {
        forall j | 0 <= j < |rest| ensures rest[j] != id {
          assert rest[j] == ids[j + 1];
        }
      }
      assert forall i | 0 <= i < |rest| :: ops[rest[i]] == Select by {
        forall i | 0 <= i < |rest| ensures ops[rest[i]] == Select {
          assert rest[i] == ids[i + 1];
        }
      }
      ApplyBatchSelectFresh(s1, rest, ops);
      assert ids == [id] + rest;
      assert s.order + [id] + rest == s.order + ids;
      ElementsConcat([id], rest);
      assert Elements([id]) == {id};
    }
  }

  /** An unselect leaves the ids outside the batch where they were. */
  lemma {:induction false} WithoutRemoveFirst(s: seq<int>, x: int, xs: set<int>)
    requires x in xs
    ensures Without(RemoveFirst(s, x), xs) == Without(s, xs)
    decreases |s|
  {
    if s != [] && s[0] != x {
      WithoutRemoveFirst(s[1..], x, xs);
      assert ([s[0]] + RemoveFirst(s[1..], x))[1..] == RemoveFirst(s[1..], x);
    }
  }

  /** The ids the batch does not name keep their relative order. */
  lemma {:induction false} ApplyBatchKeepsOthers(s: Selection, ids: seq<int>, ops: map<int, Op>, xs: set<int>)
    requires Elements(ids) <= ops.Keys && Elements(ids) <= xs
    ensures Without(ApplyBatch(s, ids, ops).order, xs) == Without(s.order, xs)
    decreases |ids|
  {
    if ids != [] {
      var id := ids[0];
      assert id in Elements(ids) && Elements(ids[1..]) <= Elements(ids);
      var s1 := Apply(s, id, ops[id]);
      if ops[id] == Select && id !in s.members {
        WithoutConcat(s.order, [id], xs);
        assert Without([id], xs) == [];
      } else if ops[id] == Unselect && id in s.members {
        WithoutRemoveFirst(s.order, id, xs);
      }
      assert Without(s1.order, xs) == Without(s.order, xs);
      ApplyBatchKeepsOthers(s1, ids[1..], ops, xs);
    }
  }

  /** The reorder: the staged ids come first, verbatim; after them the old
      ids that were not staged, in their old order; the index is rebuilt,
      so every staged id is selected afterwards; and the order stays free of
      duplicates when the staged sequence is. */
  lemma ReorderSpec(s: Selection, staged: seq<int>)
    ensures Consistent(Reorder(s, staged))
    ensures staged <= Reorder(s, staged).order
    ensures Elements(Reorder(s, staged).order[|staged|..]) == Elements(s.order) - Elements(staged)
    ensures IsSubsequence(Reorder(s, staged).order[|staged|..], s.order)
    ensures Reorder(s, staged).members == Elements(staged) + Elements(s.order)
    ensures NoDup(staged) && NoDup(s.order) ==> Canonical(Reorder(s, staged))
    ensures forall x :: multiset(Reorder(s, staged).order[|staged|..])[x]
                        == if x in staged then 0 else multiset(s.order)[x]
  {
    var tail := Without(s.order, Elements(staged));
    var r := Reorder(s, staged);
    assert r.order[|staged|..] == tail;
    WithoutSpec(s.order, Elements(staged));
    assert forall x :: x in staged <==> x in Elements(staged);
    ElementsConcat(staged, tail);
    NoDupConcat(staged, tail);
  }

  /** Reordering twice with the same staged sequence is reordering once. */
  lemma ReorderIdempotent(s: Selection, staged: seq<int>)
    ensures Reorder(Reorder(s, staged), staged) == Reorder(s, staged)
  {
    var tail := Without(s.order, Elements(staged));
    WithoutSpec(s.order, Elements(staged));
    WithoutConcat(staged, tail, Elements(staged));
    WithoutAll(staged);
    WithoutDisjoint(tail, Elements(staged));
    assert [] + tail == tail;
  }

  /** `[1,2,3,4]` reordered by `[3,1]` is `[3,1,2,4]`. */
  lemma ReorderExample()
    ensures Reorder(Selection([1, 2, 3, 4], {1, 2, 3, 4}), [3, 1]).order == [3, 1, 2, 4]
  {
    var xs := Elements([3, 1]);
    assert 1 in xs && 3 in xs && 2 !in xs && 4 !in xs;
    assert [1, 2, 3, 4][1..] == [2, 3, 4];
    assert [2, 3, 4][1..] == [3, 4];
    assert [3, 4][1..] == [4];
    assert Without([4], xs) == [4];
  }

  /** Reordering by an unselected id selects it: `[1,2]` reordered by `[9]`
      is `[9,1,2]` with 9 selected. */
  lemma ReorderGrowsExample()
    ensures Reorder(Selection([1, 2], {1, 2}), [9]) == Selection([9, 1, 2], {9, 1, 2})
  {
    var xs := Elements([9]);
    assert xs == {9};
    assert [1, 2][1..] == [2];
    assert Without([2], xs) == [2];
    assert Without([1, 2], xs) == [1, 2];
    var o := [9, 1, 2];
    assert Elements(o) == {9, 1, 2} by {
      assert o[0] == 9 && o[1] == 1 && o[2] == 2;
    }
  }

  /** A tick keeps the selection canonical when the staged reorder, if any,
      is free of duplicates; a tick with a staged reorder always leaves the
      index equal to the ids of the order. */
  lemma FlushInvariant(s: Selection, p: Pending, reorder: Option<seq<int>>)
    requires WellFormed(p)
    ensures Canonical(s) && (reorder.Some? ==> NoDup(reorder.value)) ==> Canonical(Flush(s, p, reorder))
    ensures reorder.Some? ==> Consistent(Flush(s, p, reorder))
  {
    var b := ApplyBatch(s, p.order, p.ops);
    if Canonical(s) {
      ApplyBatchCanonical(s, p.order, p.ops);
    }
    if reorder.Some? {
      ReorderSpec(b, reorder.value);
    }
  }

  /** With nothing staged, a tick changes nothing; so a second tick right
      after a first one (which clears both staging areas) is a no-op. */
  lemma FlushNothingStaged(s: Selection)
    ensures Flush(s, Empty(), None) == s
  {
  }

  /** Repeated ids in a reorder: a reorder by `[7,7]` keeps both copies
      in the order while the index holds 7 once, and a later unselect of 7
      leaves one copy in the order and none in the index. */
  lemma DuplicateReorderExample()
    ensures Flush(Selection([], {}), Empty(), Some([7, 7])) == Selection([7, 7], {7})
    ensures Flush(Selection([7, 7], {7}), Stage(Empty(), 7, Unselect), None) == Selection([7], {})
  {
    assert Elements([7, 7]) == {7};
    var p := Stage(Empty(), 7, Unselect);
    assert p.order == [7];
    assert p.order[1..] == [];
    DuplicateUnselectDesync();
  }
}
