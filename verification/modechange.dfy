/** Changing the consistency mode of a distributed array's chunks:
    `_replica_mode_chunks_map` and `_op_mode_chunks_map`. Both keep what
    `asnumpy()` returns at every cell some chunk holds. */
module ModeChange {
  import opened Wrappers
  import opened IndexAlgebra
  import opened Modes
  import opened Chunks
  import opened Consistency
  import opened Materialize
  import CellReduce

  /** `_replica_mode_chunks_map()`: the chunks of an op-mode array are
      all-reduced; a replica-mode array's chunks are kept as they are. */
  function ReplicaChunks<V(!new)>(mode: Mode<V>, shape: seq<nat>, cs: seq<Chunk<V>>): (r: seq<Chunk<V>>)
    requires ValidChunks(cs, shape)
    ensures SameLayout(cs, r) && ValidChunks(r, shape)
    ensures mode.Op? ==> forall k :: 0 <= k < |r| ==> r[k].updates == []
    ensures mode.Replica? ==> r == cs
    ensures Sound(mode) && mode.Op? ==> forall k, c :: 0 <= k < |r| && Covers(r[k], shape, c) ==>
      Some(r[k].data(c)) == Asnumpy(mode, shape, cs, c)
  {
    if mode.Op? then AllReduce(mode.monoid, mode.idempotent, shape, cs) else cs
  }

  /** Some chunk holds the cell, so a last one does. */
  lemma LastHolderExists(cov: seq<bool>, k: nat)
    requires k < |cov| && cov[k]
    ensures exists l :: k <= l < |cov| && CellReduce.IsLast(cov, l)
    decreases |cov| - k
  {
    if !CellReduce.IsLast(cov, k) {
      var j :| k < j < |cov| && cov[j];
      LastHolderExists(cov, j);
    }
  }

  /** A chunk without pending updates settles to its buffer in every mode. */
  lemma SettledNoUpdates<V>(ch: Chunk<V>, mode: Mode<V>, shape: seq<nat>, c: Cell)
    requires ch.updates == []
    ensures Settled(ch, mode, shape, c) == ch.data(c)
  {
  }

  /** Converting to replica mode keeps `asnumpy()` at every held cell. */
  lemma ReplicaChunksKeepValues<V(!new)>(mode: Mode<V>, shape: seq<nat>, cs: seq<Chunk<V>>, c: Cell, k: nat)
    requires Sound(mode) && ValidChunks(cs, shape) && k < |cs| && Covers(cs[k], shape, c)
    ensures Asnumpy(Replica, shape, ReplicaChunks(mode, shape, cs), c) == Asnumpy(mode, shape, cs, c)
  {
    var r := ReplicaChunks(mode, shape, cs);
    var cov := Holders(r, shape, c);
    assert cov[k];
    LastHolderExists(cov, k);
    var l :| k <= l < |cov| && CellReduce.IsLast(cov, l);
    if mode.Op? {
      SettledNoUpdates(r[l], Replica, shape, c);
    }
  }

  /** The inner loop of `_op_mode_chunks_map`: `_set_identity_on_intersection`
      of chunk `a` with every chunk of `cs` from `j` on. */
  function MaskFrom<V>(identity: V, shape: seq<nat>, a: Chunk<V>, cs: seq<Chunk<V>>, j: nat): (r: Chunk<V>)
    requires ValidIndex(a.index, shape) && ValidChunks(cs, shape) && j <= |cs|
    ensures r.index == a.index && r.device == a.device && r.updates == a.updates
    ensures forall c ::
      r.data(c) == (if Covers(a, shape, c) && HeldFrom(cs, shape, c, j) then identity else a.data(c))
    decreases |cs| - j
  {
    if j == |cs| then a
    else
      var a' := SetIdentityOnIntersection(shape, identity, a, cs[j].index);
      var r := MaskFrom(identity, shape, a', cs, j + 1);
      assert forall c :: HeldFrom(cs, shape, c, j) <==>
        Covers(cs[j], shape, c) || exists k :: j + 1 <= k < |cs| && Covers(cs[k], shape, c);
      r
  }

  /** The outer loop of `_op_mode_chunks_map`: `MaskFrom` on every chunk
      with the chunks after it. */
  function MaskEarlier<V>(identity: V, shape: seq<nat>, cs: seq<Chunk<V>>): (r: seq<Chunk<V>>)
    requires ValidChunks(cs, shape)
    ensures SameLayout(cs, r) && ValidChunks(r, shape)
    ensures forall k :: 0 <= k < |r| ==> r[k].updates == cs[k].updates
  {
    seq(|cs|, k requires 0 <= k < |cs| => MaskFrom(identity, shape, cs[k], cs, k + 1))
  }

  /** Every chunk gets the identity on the cells a later chunk also holds,
      and keeps its buffer elsewhere. */
  lemma MaskEarlierData<V>(identity: V, shape: seq<nat>, cs: seq<Chunk<V>>, k: nat, c: Cell)
    requires ValidChunks(cs, shape) && k < |cs|
    ensures MaskEarlier(identity, shape, cs)[k].data(c)
      == if Covers(cs[k], shape, c) && HeldFrom(cs, shape, c, k + 1) then identity else cs[k].data(c)
  {
  }

  /** `_apply_updates(chunk, _REPLICA_MODE)` on every chunk. */
  function DrainAll<V(!new)>(shape: seq<nat>, cs: seq<Chunk<V>>): (r: seq<Chunk<V>>)
    requires ValidChunks(cs, shape)
    ensures SameLayout(cs, r) && ValidChunks(r, shape)
    ensures forall k :: 0 <= k < |r| ==> r[k].updates == []
    ensures forall k, c :: 0 <= k < |r| ==> r[k].data(c) == Settled(cs[k], Replica, shape, c)
  {
    var r := seq(|cs|, k requires 0 <= k < |cs| => ApplyUpdates(cs[k], Replica, shape));
    assert forall k, c :: 0 <= k < |r| ==> r[k].data(c) == Settled(cs[k], Replica, shape, c) by {
      forall k, c | 0 <= k < |r|
        ensures r[k].data(c) == Settled(cs[k], Replica, shape, c)
      {
        ApplyUpdatesSettled(cs[k], Replica, shape, c);
      }
    }
    r
  }

  /** `_op_mode_chunks_map(op_mode)` for an array not already in `op_mode`:
      the replica-mode chunks, drained, then masked. */
  function OpModeChunks<V(!new)>(src: Mode<V>, m: Monoid<V>, shape: seq<nat>, cs: seq<Chunk<V>>): (r: seq<Chunk<V>>)
    requires ValidChunks(cs, shape)
    ensures SameLayout(cs, r) && ValidChunks(r, shape)
    ensures forall k :: 0 <= k < |r| ==> r[k].updates == []
  {
    MaskEarlier(m.unit, shape, DrainAll(shape, ReplicaChunks(src, shape, cs)))
  }

  /** After `_op_mode_chunks_map` each cell keeps its value only in the last
      chunk holding it; every earlier holder holds the identity. */
  lemma OpModeChunksValues<V(!new)>(src: Mode<V>, m: Monoid<V>, shape: seq<nat>, cs: seq<Chunk<V>>)
    requires ValidChunks(cs, shape)
    ensures Sound(src) ==> forall k, c :: 0 <= k < |cs| && Covers(cs[k], shape, c) ==>
      Some(OpModeChunks(src, m, shape, cs)[k].data(c)) ==
        if HeldFrom(cs, shape, c, k + 1) then Some(m.unit) else Asnumpy(src, shape, cs, c)
  {
    if Sound(src) {
      forall k, c | 0 <= k < |cs| && Covers(cs[k], shape, c)
        ensures Some(OpModeChunks(src, m, shape, cs)[k].data(c)) ==
          if HeldFrom(cs, shape, c, k + 1) then Some(m.unit) else Asnumpy(src, shape, cs, c)
      {
        MaskedCell(src, m, shape, cs, c, k);
      }
    }
  }

  lemma MaskedCell<V(!new)>(src: Mode<V>, m: Monoid<V>, shape: seq<nat>, cs: seq<Chunk<V>>, c: Cell, k: nat)
    requires Sound(src) && ValidChunks(cs, shape)
    requires k < |cs| && Covers(cs[k], shape, c)
    ensures Some(OpModeChunks(src, m, shape, cs)[k].data(c)) ==
      if HeldFrom(cs, shape, c, k + 1) then Some(m.unit) else Asnumpy(src, shape, cs, c)
  {
    hide ReplicaChunks, DrainAll, MaskEarlier, Asnumpy, Settled;
    var rep := ReplicaChunks(src, shape, cs);
    var drained := DrainAll(shape, rep);
    assert SameLayout(cs, rep) && SameLayout(rep, drained);
    assert forall j :: 0 <= j < |cs| ==> drained[j].index == cs[j].index;
    assert HeldFrom(drained, shape, c, k + 1) == HeldFrom(cs, shape, c, k + 1);
    MaskEarlierData(m.unit, shape, drained, k, c);
    if !HeldFrom(cs, shape, c, k + 1) {
      if src.Op? {
        SettledNoUpdates(rep[k], Replica, shape, c);
      } else {
        assert rep == cs;
        assert CellReduce.IsLast(Holders(cs, shape, c), k);
      }
    }
  }

  /** Converting to an op mode keeps `asnumpy()` at every held cell: the
      only holder that does not hold the identity is the last one, and it
      holds the value. */
  lemma OpModeChunksKeepValues<V(!new)>(src: Mode<V>, m: Monoid<V>, idem: bool, shape: seq<nat>, cs: seq<Chunk<V>>, c: Cell, k: nat)
    requires Sound(src) && Sound(Op(m, idem)) && ValidChunks(cs, shape) && k < |cs| && Covers(cs[k], shape, c)
    ensures Asnumpy(Op(m, idem), shape, OpModeChunks(src, m, shape, cs), c) == Asnumpy(src, shape, cs, c)
  {
    hide OpModeChunks, Asnumpy, Column, Holders;
    var r := OpModeChunks(src, m, shape, cs);
    var cov, col := Holders(r, shape, c), Column(r, Op(m, idem), shape, c);
    HoldersAt(r, shape, c, k);
    LastHolderExists(cov, k);
    var l :| k <= l < |cov| && CellReduce.IsLast(cov, l);
    NoPendingColumn(r, Op(m, idem), shape, c);
    forall j | 0 <= j < |r| && j != l && cov[j]
      ensures col[j] == m.unit
    {
      HoldersAt(r, shape, c, j);
      HoldersAt(r, shape, c, l);
      assert j < l && Covers(cs[l], shape, c) && Covers(cs[j], shape, c);
      assert HeldFrom(cs, shape, c, j + 1);
      MaskedCell(src, m, shape, cs, c, j);
    }
    HoldersAt(r, shape, c, l);
    assert !HeldFrom(cs, shape, c, l + 1) by {
      forall j | l + 1 <= j < |r|
        ensures !Covers(cs[j], shape, c)
      {
        HoldersAt(r, shape, c, j);
      }
    }
    MaskedCell(src, m, shape, cs, c, l);
    CellReduce.PrefixOneHolder(m, cov, col, l, |r|);
  }
}
