/** The staging area `pendingSelectOps` of select/unselect intents. It is a
    JS `Map`, which iterates in first-insertion order and keeps a key's place
    when its value is overwritten; it is written here as the sequence of its
    keys in insertion order beside the map of intents. */
module Coalescer {

  import opened Sequences

  datatype Op = Select | Unselect

  datatype Pending = Pending(order: seq<int>, ops: map<int, Op>)

  /** One intent issued by a write request (`queueSelect`/`queueUnselect`). */
  datatype Intent = Intent(id: int, op: Op)

  /** Every queued id is listed once, in the order it was first queued. */
  ghost predicate WellFormed(p: Pending)
  {
    NoDup(p.order) && Elements(p.order) == p.ops.Keys
  }

  /** The empty staging area, as after `pendingSelectOps.clear()`. */
  function Empty(): Pending
  {
    Pending([], map[])
  }

  /** `pendingSelectOps.set(id, op)`. */
  function Stage(p: Pending, id: int, op: Op): Pending
  {
    Pending(if id in p.ops then p.order else p.order + [id], p.ops[id := op])
  }

  /** The staging area after a run of intents, issued in order. */
  function StageAll(p: Pending, intents: seq<Intent>): Pending
    decreases |intents|
  {
    if intents == [] then p
    else
      var last := intents[|intents| - 1];
      Stage(StageAll(p, intents[..|intents| - 1]), last.id, last.op)
  }

  /** The ids the intents name, in the order they were issued. */
  function IntentIds(intents: seq<Intent>): seq<int>
  {
    seq(|intents|, i requires 0 <= i < |intents| => intents[i].id)
  }

  /** Staging records the intent, keeps every other one, and never moves an
      id that is already queued. */
  lemma StageSpec(p: Pending, id: int, op: Op)
    requires WellFormed(p)
    ensures WellFormed(Stage(p, id, op))
    ensures Stage(p, id, op).ops.Keys == p.ops.Keys + {id}
    ensures Stage(p, id, op).ops[id] == op
    ensures forall k | k in p.ops && k != id :: Stage(p, id, op).ops[k] == p.ops[k]
    ensures p.order <= Stage(p, id, op).order
  {
    if id !in p.ops {
      NoDupConcat(p.order, [id]);
      ElementsConcat(p.order, [id]);
      assert Elements([id]) == {id};
    }
  }

  /** A second intent for the same id overwrites the first: last intent
      wins, and the id keeps the place it got when first queued. */
  lemma StageLastWins(p: Pending, id: int, first: Op, second: Op)
    ensures Stage(Stage(p, id, first), id, second) == Stage(p, id, second)
  {
  }

  /** After a run of intents, the staging area is well formed, holds the
      old ids and the newly named ones, and the old ids keep their places. */
  lemma {:induction false} StageAllSpec(p: Pending, intents: seq<Intent>)
    requires WellFormed(p)
    ensures WellFormed(StageAll(p, intents))
    ensures StageAll(p, intents).ops.Keys == p.ops.Keys + Elements(IntentIds(intents))
    ensures p.order <= StageAll(p, intents).order
    decreases |intents|
  {
    if intents != [] {
      var n := |intents| - 1;
      var q := StageAll(p, intents[..n]);
      StageAllSpec(p, intents[..n]);
      StageSpec(q, intents[n].id, intents[n].op);
      assert IntentIds(intents) == IntentIds(intents[..n]) + [intents[n].id];
      ElementsConcat(IntentIds(intents[..n]), [intents[n].id]);
      assert Elements([intents[n].id]) == {intents[n].id};
    }
  }

  /** Last intent wins: the recorded intent of an id is the one issued last
      for it. */
  lemma {:induction false} StageAllLastWins(p: Pending, intents: seq<Intent>, i: nat)
    requires i < |intents|
    requires forall j | i < j < |intents| :: intents[j].id != intents[i].id
    ensures intents[i].id in StageAll(p, intents).ops
    ensures StageAll(p, intents).ops[intents[i].id] == intents[i].op
    decreases |intents|
  {
    var n := |intents| - 1;
    if i < n {
      StageAllLastWins(p, intents[..n], i);
    }
  }

  /** Ids the intents do not name keep their recorded intent. */
  lemma {:induction false} StageAllUntouched(p: Pending, intents: seq<Intent>, k: int)
    requires k in p.ops && k !in IntentIds(intents)
    ensures k in StageAll(p, intents).ops
    ensures StageAll(p, intents).ops[k] == p.ops[k]
    decreases |intents|
  {
    if intents != [] {
      var n := |intents| - 1;
      assert IntentIds(intents[..n]) == IntentIds(intents)[..n];
      assert intents[n].id == IntentIds(intents)[n];
      StageAllUntouched(p, intents[..n], k);
    }
  }

  /** The key order at any moment is a prefix of the key order at any later
      moment: ids are only ever appended. */
  lemma {:induction false} StageAllPrefix(p: Pending, intents: seq<Intent>, m: nat)
    requires WellFormed(p)
    requires m <= |intents|
    ensures StageAll(p, intents[..m]).order <= StageAll(p, intents).order
    decreases |intents| - m
  {
    if m < |intents| {
      var n := |intents| - 1;
      assert intents[..n][..m] == intents[..m];
      StageAllPrefix(p, intents[..n], m);
      StageAllSpec(p, intents[..n]);
      StageSpec(StageAll(p, intents[..n]), intents[n].id, intents[n].op);
    } else {
      assert intents[..m] == intents;
    }
  }

  /** An id's place in the batch is fixed when it is first queued: it sits
      right after the ids that were queued before it. */
  lemma FirstQueuedPosition(p: Pending, intents: seq<Intent>, i: nat)
    requires WellFormed(p)
    requires i < |intents|
    requires intents[i].id !in p.ops && intents[i].id !in IntentIds(intents[..i])
    ensures |StageAll(p, intents[..i]).order| < |StageAll(p, intents).order|
    ensures StageAll(p, intents).order[|StageAll(p, intents[..i]).order|] == intents[i].id
  {
    var before := StageAll(p, intents[..i]);
    StageAllSpec(p, intents[..i]);
    assert intents[..i + 1][..i] == intents[..i];
    assert intents[..i + 1][i] == intents[i];
    assert intents[i].id !in before.ops;
    StageAllPrefix(p, intents, i + 1);
  }

  /** Queuing `select(5)`, `unselect(5)`, `select(5)` in one interval stages
      the same as a single `select(5)`. */
  lemma CoalesceExample(p: Pending)
    ensures StageAll(p, [Intent(5, Select), Intent(5, Unselect), Intent(5, Select)])
         == Stage(p, 5, Select)
  {
    var intents := [Intent(5, Select), Intent(5, Unselect), Intent(5, Select)];
    assert intents[..2][..1] == [Intent(5, Select)];
    assert [Intent(5, Select)][..0] == [];
    StageLastWins(p, 5, Select, Unselect);
    StageLastWins(p, 5, Unselect, Select);
  }
}
