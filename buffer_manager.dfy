/** The `_buffers` table of `buffer_manager` (otb/buffer_manager.hpp): the
    GL handle of every buffer created so far, by creation order. Released
    buffers keep their slot, overwritten with `UINT32_MAX`, so an index is
    never handed out twice. The GL calls and context switches are left out;
    the handle `glGenBuffers` returns is a parameter. */
module Buffers {
  import opened Scalar
  import opened Wrappers

  /** `std::numeric_limits<buffer_handle>::max()`, written into released slots. */
  const Tombstone: U32Value := U32Max

  /** One call on the manager. */
  datatype Op = Create(handle: U32Value) | Release(index: nat)

  /** The table after one call, or None where `release_buffer`'s assertion
      `index < _buffers.size()` fails. */
  function Apply(table: seq<U32Value>, op: Op): (r: Option<seq<U32Value>>)
    ensures op.Create? ==> r == Some(table + [op.handle])
    ensures op.Release? ==> (r.Some? <==> op.index < |table|)
    ensures op.Release? && r.Some? ==>
      |r.value| == |table| && r.value[op.index] == Tombstone &&
      forall k :: 0 <= k < |table| && k != op.index ==> r.value[k] == table[k]
  {
    match op
    case Create(h) => Some(table + [h])
    case Release(i) => if i < |table| then Some(table[i := Tombstone]) else None
  }

  /** The table after a sequence of calls on a new manager. */
  function Replay(ops: seq<Op>): Option<seq<U32Value>>
  {
    if ops == [] then Some([])
    else
      match Replay(ops[..|ops| - 1])
      case None => None
      case Some(t) => Apply(t, ops[|ops| - 1])
  }

  /** The number of `create_buffer` calls among `ops`. */
  function CreateCount(ops: seq<Op>): nat
  {
    if ops == [] then 0
    else CreateCount(ops[..|ops| - 1]) + (if ops[|ops| - 1].Create? then 1 else 0)
  }

  /** The index `create_buffer` returned for call i: the table's length
      just before it. */
  function ReturnedIndex(ops: seq<Op>, i: nat): nat
    requires i < |ops| && Replay(ops).Some?
  {
    ReplayPrefix(ops, i);
    |Replay(ops[..i]).value|
  }

  /** The table only ever grows by `create_buffer`: its length is the number
      of creations. */
  lemma {:induction false} ReplayLength(ops: seq<Op>)
    requires Replay(ops).Some?
    ensures |Replay(ops).value| == CreateCount(ops)
  {
    if ops != [] {
      ReplayLength(ops[..|ops| - 1]);
    }
  }

  /** A call sequence that succeeds succeeded up to every point. */
  lemma {:induction false} ReplayPrefix(ops: seq<Op>, i: nat)
    requires i <= |ops| && Replay(ops).Some?
    ensures Replay(ops[..i]).Some?
    decreases |ops|
  {
    if i < |ops| {
      assert ops[..|ops| - 1][..i] == ops[..i];
      ReplayPrefix(ops[..|ops| - 1], i);
    } else {
      assert ops[..i] == ops;
    }
  }

  /** Counting the creations of a longer prefix counts at least as many,
      and one more when the extra calls contain a creation at position i. */
  lemma {:induction false} CreateCountGrows(ops: seq<Op>, i: nat, j: nat)
    requires i < j <= |ops|
    ensures CreateCount(ops[..i]) + (if ops[i].Create? then 1 else 0) <= CreateCount(ops[..j])
    decreases j - i
  {
    assert ops[..i + 1][..i] == ops[..i];
    if j > i + 1 {
      CreateCountGrows(ops, i + 1, j);
      assert ops[..j][..j - 1] == ops[..j - 1];
      CreateCountMonotone(ops, i + 1, j);
    }
  }

  lemma {:induction false} CreateCountMonotone(ops: seq<Op>, i: nat, j: nat)
    requires i <= j <= |ops|
    ensures CreateCount(ops[..i]) <= CreateCount(ops[..j])
    decreases j - i
  {
    if i < j {
      assert ops[..j][..j - 1] == ops[..j - 1];
      CreateCountMonotone(ops, i, j - 1);
    }
  }

  /** Indices are never reused: a later `create_buffer` returns a strictly
      larger index than an earlier one, whatever was released in between. */
  lemma IndicesNeverReused(ops: seq<Op>, i: nat, j: nat)
    requires Replay(ops).Some? && i < j < |ops| && ops[i].Create? && ops[j].Create?
    ensures ReturnedIndex(ops, i) < ReturnedIndex(ops, j)
  {
    ReplayPrefix(ops, i);
    ReplayPrefix(ops, j);
    ReplayLength(ops[..i]);
    ReplayLength(ops[..j]);
    CreateCountGrows(ops, i, j);
  }

  /** Once released, a slot holds the tombstone for good: later creations
      append elsewhere and later releases write the tombstone again. */
  lemma {:induction false} ReleasedStaysTombstoned(ops: seq<Op>, i: nat)
    requires Replay(ops).Some? && i < |ops| && ops[i].Release?
    ensures ops[i].index < |Replay(ops).value| && Replay(ops).value[ops[i].index] == Tombstone
  {
    var last := |ops| - 1;
    ReplayPrefix(ops, last);
    if i < last {
      assert ops[..last][i] == ops[i];
      ReleasedStaysTombstoned(ops[..last], i);
    }
  }

  /** A created handle stays in the slot it was given until that slot is
      released. */
  lemma {:induction false} CreatedHandleKept(ops: seq<Op>, i: nat)
    requires Replay(ops).Some? && i < |ops| && ops[i].Create?
    requires forall k :: i < k < |ops| ==> ops[k] != Release(ReturnedIndex(ops, i))
    ensures ReturnedIndex(ops, i) < |Replay(ops).value|
    ensures Replay(ops).value[ReturnedIndex(ops, i)] == ops[i].handle
  {
    var last := |ops| - 1;
    var prefix := ops[..last];
    ReplayPrefix(ops, last);
    if i < last {
      assert prefix[..i] == ops[..i];
      assert prefix[i] == ops[i];
      assert ReturnedIndex(prefix, i) == ReturnedIndex(ops, i);
      forall k | i < k < |prefix|
        ensures prefix[k] != Release(ReturnedIndex(prefix, i))
      {
        assert prefix[k] == ops[k];
      }
      CreatedHandleKept(prefix, i);
    } else {
      assert ops[..i] == prefix;
    }
  }

  /** Every release in a history that succeeds named a slot that existed,
      so it lies inside the final table. */
  lemma {:induction false} ReleasedIndexInRange(ops: seq<Op>, x: nat)
    requires Replay(ops).Some? && Release(x) in ops
    ensures x < |Replay(ops).value|
  {
    var init := ops[..|ops| - 1];
    ReplayPrefix(ops, |ops| - 1);
    if Release(x) in init {
      ReleasedIndexInRange(init, x);
    }
  }

  /** No `create_buffer` call was handed the tombstone value as its handle. */
  predicate NoTombstoneHandles(ops: seq<Op>)
  {
    forall k :: 0 <= k < |ops| && ops[k].Create? ==> ops[k].handle != Tombstone
  }

  /** When GL never returns `UINT32_MAX` as a name, a slot holds the
      tombstone exactly when it was released. */
  lemma {:induction false} TombstoneIffReleased(ops: seq<Op>, x: nat)
    requires Replay(ops).Some? && NoTombstoneHandles(ops) && x < |Replay(ops).value|
    ensures Replay(ops).value[x] == Tombstone <==> Release(x) in ops
  {
    var init := ops[..|ops| - 1];
    var last := ops[|ops| - 1];
    assert ops == init + [last];
    ReplayPrefix(ops, |ops| - 1);
    var table := Replay(init).value;
    assert NoTombstoneHandles(init) by {
      forall k | 0 <= k < |init| && init[k].Create?
        ensures init[k].handle != Tombstone
      {
        assert init[k] == ops[k];
      }
    }
    assert Release(x) in ops <==> Release(x) in init || last == Release(x);
    if x < |table| {
      TombstoneIffReleased(init, x);
    } else {
      assert last.Create?;
      if Release(x) in init {
        ReleasedIndexInRange(init, x);
      }
    }
  }

  class BufferManager {
    /** `_buffers` */
    var buffers: seq<U32Value>
    /** The calls made so far. */
    ghost var history: seq<Op>

    ghost predicate Valid()
      reads this
    {
      Replay(history) == Some(buffers)
    }

    constructor ()
      ensures Valid() && buffers == [] && history == []
    {
      buffers := [];
      history := [];
    }

    /** `create_buffer`: appends the new handle and returns the slot it
        went to, the previous length of the table. */
    method CreateBuffer(handle: U32Value) returns (index: nat)
      requires Valid()
      modifies this
      ensures Valid() && history == old(history) + [Create(handle)]
      ensures index == |old(buffers)| && buffers == old(buffers) + [handle]
    {
      index := |buffers|;
      buffers := buffers + [handle];
      history := history + [Create(handle)];
      assert history[..|history| - 1] == old(history);
    }

    /** `release_buffer`: asserts the index is in range and tombstones the
        slot; the length and every other slot are unchanged. */
    method ReleaseBuffer(index: nat)
      requires Valid() && index < |buffers|
      modifies this
      ensures Valid() && history == old(history) + [Release(index)]
      ensures buffers == old(buffers)[index := Tombstone]
    {
      buffers := buffers[index := Tombstone];
      history := history + [Release(index)];
      assert history[..|history| - 1] == old(history);
    }

    /** `get`: the bounds-checked read `_buffers.at(index)`; None stands for
        the `std::out_of_range` it throws. */
    function Get(index: nat): (r: Option<U32Value>)
      reads this
      ensures r.Some? <==> index < |buffers|
      ensures r.Some? ==> r.value == At(index)
    {
      if index < |buffers| then Some(buffers[index]) else None
    }

    /** `operator[]`: the unchecked read, defined only in range. */
    function At(index: nat): (r: U32Value)
      reads this
      requires index < |buffers|
    {
      buffers[index]
    }
  }
}
