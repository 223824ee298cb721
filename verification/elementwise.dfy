/** The per-chunk step of `_execute_kernel` for an elementwise kernel `f`:
    the operands' chunks at one position are fed to the kernel, and the
    pending updates of at most one operand are pushed through the kernel
    instead of being applied first (`_prepare_updates`). With two or more
    operands holding updates, every operand is drained beforehand. Either way
    the new chunk settles, in replica mode, to `f` of what the operands
    settle to. */
module Elementwise {
  import opened Wrappers
  import opened Slices
  import opened IndexAlgebra
  import opened Modes
  import opened Chunks

  // ---------------------------------------------------------------------
  // _prepare_updates

  /** Operand `j` is the only one among the first `i` with pending updates. */
  predicate OnlyPendingIn<V>(queues: seq<seq<Update<V>>>, j: int, i: int) {
    0 <= j < i <= |queues| && queues[j] != [] && forall k :: 0 <= k < i && k != j ==> queues[k] == []
  }

  /** Two operands have pending updates. */
  predicate TwoPending<V>(queues: seq<seq<Update<V>>>) {
    exists i, j :: 0 <= i < j < |queues| && queues[i] != [] && queues[j] != []
  }

  /** The loop of `_prepare_updates` from operand `i` on, with the operand
      found so far and its updates; it breaks at a second operand with
      updates, which makes the caller drain every operand. */
  function PrepareFrom<V>(queues: seq<seq<Update<V>>>, i: nat, index: Option<nat>, updates: seq<Update<V>>): (r: (Option<nat>, seq<Update<V>>, bool))
    requires i <= |queues|
    requires updates == [] ==> index == None && forall k :: 0 <= k < i ==> queues[k] == []
    requires updates != [] ==> index.Some? && OnlyPendingIn(queues, index.value, i) && updates == queues[index.value]
    ensures r.2 <==> TwoPending(queues)
    ensures r.2 ==> r.0 == None && r.1 == []
    ensures !r.2 && r.1 == [] ==> r.0 == None && forall k :: 0 <= k < |queues| ==> queues[k] == []
    ensures !r.2 && r.1 != [] ==> r.0.Some? && OnlyPendingIn(queues, r.0.value, |queues|) && r.1 == queues[r.0.value]
    decreases |queues| - i
  {
    if i == |queues| then
      assert !TwoPending(queues) by {
        if updates != [] {
          assert OnlyPendingIn(queues, index.value, i);
        }
      }
      (index, updates, false)
    else if queues[i] != [] then
      if updates != [] then
        assert TwoPending(queues) by {
          assert queues[index.value] != [] && queues[i] != [] && index.value < i;
        }
        (None, [], true)
      else PrepareFrom(queues, i + 1, Some(i), queues[i])
    else PrepareFrom(queues, i + 1, index, updates)
  }

  /** `_prepare_updates(dist_args, dev, chunk_i)` on the operands' queues:
      the operand with updates and its updates when at most one has any,
      and whether every operand must be drained first. */
  function PrepareUpdates<V>(queues: seq<seq<Update<V>>>): (r: (Option<nat>, seq<Update<V>>, bool))
    ensures r.2 <==> TwoPending(queues)
    ensures r.2 ==> r.0 == None && r.1 == []
    ensures forall j :: OnlyPendingIn(queues, j, |queues|) ==> r == (Some(j), queues[j], false)
    ensures (forall k :: 0 <= k < |queues| ==> queues[k] == []) ==> r == (None, [], false)
  {
    var r := PrepareFrom(queues, 0, None, []);
    assert forall j :: OnlyPendingIn(queues, j, |queues|) ==> !TwoPending(queues);
    r
  }

  // ---------------------------------------------------------------------
  // The kernel step

  /** The operands' buffers at a cell. */
  function Row<V>(ops: seq<Chunk<V>>, c: Cell): (row: seq<V>)
    ensures |row| == |ops|
  {
    seq(|ops|, i requires 0 <= i < |ops| => ops[i].data(c))
  }

  /** What the operands settle to at a cell in replica mode. */
  function SettledRow<V>(ops: seq<Chunk<V>>, shape: seq<nat>, c: Cell): (row: seq<V>)
    ensures |row| == |ops|
  {
    seq(|ops|, i requires 0 <= i < |ops| => Settled(ops[i], Replica, shape, c))
  }

  /** The arguments with the incoming operand's slot replaced by an
      update's data. */
  function WithIncoming<V>(row: seq<V>, incoming: Option<nat>, v: V): seq<V> {
    match incoming
    case Some(i) => if i < |row| then row[i := v] else row
    case None => row
  }

  /** The kernel applied to a whole chunk position, and once per pushed
      update on the update's region. */
  function KernelChunk<V>(f: seq<V> -> V, dev: int, index: seq<Slice>, ops: seq<Chunk<V>>, incoming: Option<nat>, updates: seq<Update<V>>): (r: Chunk<V>)
    ensures r.device == dev && r.index == index && |r.updates| == |updates|
    ensures forall k :: 0 <= k < |updates| ==> r.updates[k].index == updates[k].index
  {
    Chunk(dev, index, c => f(Row(ops, c)),
      seq(|updates|, k requires 0 <= k < |updates| =>
        Update(updates[k].index, c => f(WithIncoming(Row(ops, c), incoming, updates[k].payload(c))))))
  }

  /** The last pushed update covering a cell is the kernel applied to the
      last original update covering it. */
  lemma {:induction false} KernelLastWrite<V>(f: seq<V> -> V, dev: int, index: seq<Slice>, ops: seq<Chunk<V>>, incoming: Option<nat>,
                                              updates: seq<Update<V>>, shape: seq<nat>, c: Cell)
    ensures LastWrite(KernelChunk(f, dev, index, ops, incoming, updates).updates, shape, c) ==
      match LastWrite(updates, shape, c)
      case Some(v) => Some(f(WithIncoming(Row(ops, c), incoming, v)))
      case None => None
    decreases |updates|
  {
    if |updates| > 0 {
      var n := |updates| - 1;
      KernelLastWrite(f, dev, index, ops, incoming, updates[..n], shape, c);
      assert KernelChunk(f, dev, index, ops, incoming, updates).updates[..n] ==
        KernelChunk(f, dev, index, ops, incoming, updates[..n]).updates;
    }
  }

  /** Pushing one operand's updates through the kernel settles, in replica
      mode, to the kernel applied to what the operands settle to. */
  lemma KernelChunkSettles<V>(f: seq<V> -> V, dev: int, index: seq<Slice>, ops: seq<Chunk<V>>, incoming: Option<nat>,
                              updates: seq<Update<V>>, shape: seq<nat>, c: Cell)
    requires incoming.Some? ==> incoming.value < |ops|
    requires forall i :: 0 <= i < |ops| ==> ops[i].updates == if incoming == Some(i) then updates else []
    requires incoming.None? ==> updates == []
    ensures Settled(KernelChunk(f, dev, index, ops, incoming, updates), Replica, shape, c) == f(SettledRow(ops, shape, c))
  {
    var r := KernelChunk(f, dev, index, ops, incoming, updates);
    DrainReplica(r.data, r.updates, shape, c);
    KernelLastWrite(f, dev, index, ops, incoming, updates, shape, c);
    forall i | 0 <= i < |ops|
      ensures Settled(ops[i], Replica, shape, c) ==
        if incoming == Some(i) then (match LastWrite(updates, shape, c) case Some(v) => v case None => ops[i].data(c))
        else ops[i].data(c)
    {
      DrainReplica(ops[i].data, ops[i].updates, shape, c);
    }
    match LastWrite(updates, shape, c)
    case Some(v) =>
      assert WithIncoming(Row(ops, c), incoming, v) == SettledRow(ops, shape, c);
    case None =>
      assert Row(ops, c) == SettledRow(ops, shape, c);
  }

  /** One position of `_execute_kernel`'s loop: prepare the updates, drain
      every operand if two have some, run the kernel. */
  function ExecuteStep<V(!new)>(f: seq<V> -> V, dev: int, index: seq<Slice>, ops: seq<Chunk<V>>, shape: seq<nat>): (r: Chunk<V>)
    ensures r.device == dev && r.index == index
  {
    var queues := seq(|ops|, i requires 0 <= i < |ops| => ops[i].updates);
    var (incoming, updates, drain) := PrepareUpdates(queues);
    var ops' := if drain then seq(|ops|, i requires 0 <= i < |ops| => ApplyUpdates(ops[i], Replica, shape)) else ops;
    KernelChunk(f, dev, index, ops', incoming, updates)
  }

  /** An elementwise kernel commutes with the pending updates: the new chunk
      settles to `f` of what the operands settle to, whichever way
      `_prepare_updates` went. */
  lemma ExecuteStepSettles<V(!new)>(f: seq<V> -> V, dev: int, index: seq<Slice>, ops: seq<Chunk<V>>, shape: seq<nat>, c: Cell)
    ensures Settled(ExecuteStep(f, dev, index, ops, shape), Replica, shape, c) == f(SettledRow(ops, shape, c))
  {
    var queues := seq(|ops|, i requires 0 <= i < |ops| => ops[i].updates);
    var (incoming, updates, drain) := PrepareUpdates(queues);
    if drain {
      var ops' := seq(|ops|, i requires 0 <= i < |ops| => ApplyUpdates(ops[i], Replica, shape));
      KernelChunkSettles(f, dev, index, ops', None, [], shape, c);
      forall i | 0 <= i < |ops|
        ensures Settled(ops'[i], Replica, shape, c) == Settled(ops[i], Replica, shape, c)
      {
        ApplyUpdatesSettled(ops[i], Replica, shape, c);
      }
      assert SettledRow(ops', shape, c) == SettledRow(ops, shape, c);
    } else if updates == [] {
      KernelChunkSettles(f, dev, index, ops, None, [], shape, c);
    } else {
      var j := incoming.value;
      assert OnlyPendingIn(queues, j, |queues|) && updates == queues[j];
      KernelChunkSettles(f, dev, index, ops, incoming, updates, shape, c);
    }
  }

  /** Operands that agree at a cell give a new chunk that agrees there on
      `f` of their values: the kernel, its pushed updates included, keeps
      replica-mode copies consistent. */
  lemma ExecuteStepAgrees<V(!new)>(f: seq<V> -> V, dev: int, index: seq<Slice>, ops: seq<Chunk<V>>, shape: seq<nat>,
                                   c: Cell, row: seq<V>)
    requires |row| == |ops| && forall i :: 0 <= i < |ops| ==> Agrees(ops[i], shape, c, row[i])
    ensures Agrees(ExecuteStep(f, dev, index, ops, shape), shape, c, f(row))
  {
    var r := ExecuteStep(f, dev, index, ops, shape);
    ExecuteStepSettles(f, dev, index, ops, shape, c);
    assert SettledRow(ops, shape, c) == row;
    var queues := seq(|ops|, i requires 0 <= i < |ops| => ops[i].updates);
    var (incoming, updates, drain) := PrepareUpdates(queues);
    if !drain && updates != [] {
      var j := incoming.value;
      assert OnlyPendingIn(queues, j, |queues|);
      forall k | 0 <= k < |r.updates| && CellIn(r.updates[k].index, shape, c)
        ensures r.updates[k].payload(c) == f(row)
      {
        assert r.updates[k].payload(c) == f(WithIncoming(Row(ops, c), incoming, updates[k].payload(c)));
        assert updates[k] == ops[j].updates[k];
        forall i | 0 <= i < |ops| && i != j
          ensures ops[i].data(c) == row[i]
        {
          assert queues[i] == ops[i].updates == [];
        }
        assert WithIncoming(Row(ops, c), incoming, updates[k].payload(c)) == row;
      }
    }
  }
}
