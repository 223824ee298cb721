/** The data movement of `reshard`: every old chunk, drained, is sent to
    every new chunk it overlaps. In an op mode the transfer is
    `_apply_and_update_chunks` from a copy of the old chunk, whose resets carry
    from one new chunk to the next; in replica mode it is
    `_copy_on_intersection`. Either way `asnumpy()` is kept at every cell a
    new chunk holds (and, in replica mode, an old chunk held). */
module Resharding {
  import opened Wrappers
  import opened Slices
  import opened IndexAlgebra
  import opened Modes
  import opened Chunks
  import opened Consistency
  import opened Materialize
  import ModeChange
  import CellReduce

  /** A new chunk before any transfer: `cupy.full(dst_shape, identity)` in an
      op mode, `cupy.empty(dst_shape)` in replica mode, whose contents are
      the arbitrary `junk`. */
  function Fresh<V>(mode: Mode<V>, dev: int, idx: seq<Slice>, junk: Cell -> V): (ch: Chunk<V>)
    ensures ch.device == dev && ch.index == idx && ch.updates == []
    ensures mode.Op? ==> forall c :: ch.data(c) == mode.monoid.unit
  {
    Chunk(dev, idx, if mode.Op? then (c => mode.monoid.unit) else junk, [])
  }

  /** The inner loop in an op mode: `_apply_and_update_chunks` from `src`
      onto every new chunk from `j` on. */
  function ScatterOp<V>(m: Monoid<V>, idem: bool, shape: seq<nat>, src: Chunk<V>, dsts: seq<Chunk<V>>, j: nat): (r: seq<Chunk<V>>)
    requires ValidIndex(src.index, shape) && ValidChunks(dsts, shape) && j <= |dsts|
    ensures SameLayout(dsts, r) && ValidChunks(r, shape)
    ensures forall k :: 0 <= k < j ==> r[k] == dsts[k]
    decreases |dsts| - j
  {
    if j == |dsts| then dsts
    else
      var p := ApplyAndUpdate(m, idem, shape, src, dsts[j]);
      ScatterOp(m, idem, shape, p.0, dsts[j := p.1], j + 1)
  }

  /** The inner loop in replica mode: `_copy_on_intersection` from `src`
      onto every new chunk. */
  function ScatterReplica<V>(shape: seq<nat>, src: Chunk<V>, dsts: seq<Chunk<V>>): (r: seq<Chunk<V>>)
    requires ValidIndex(src.index, shape) && ValidChunks(dsts, shape)
    ensures SameLayout(dsts, r) && ValidChunks(r, shape)
    ensures forall k, c :: 0 <= k < |r| ==>
      Settled(r[k], Replica, shape, c) ==
        (if Covers(src, shape, c) && Covers(dsts[k], shape, c) then src.data(c) else Settled(dsts[k], Replica, shape, c))
  {
    seq(|dsts|, k requires 0 <= k < |dsts| => CopyOnIntersection(shape, src, dsts[k]))
  }

  /** The outer loop over the first `n` old chunks: each is drained in the
      array's mode, then scattered. */
  function ReshardFrom<V(!new)>(mode: Mode<V>, shape: seq<nat>, srcs: seq<Chunk<V>>, dsts: seq<Chunk<V>>, n: nat): (r: seq<Chunk<V>>)
    requires ValidChunks(srcs, shape) && ValidChunks(dsts, shape) && n <= |srcs|
    ensures SameLayout(dsts, r) && ValidChunks(r, shape)
    decreases n
  {
    if n == 0 then dsts
    else
      var prev := ReshardFrom(mode, shape, srcs, dsts, n - 1);
      var src := ApplyUpdates(srcs[n - 1], mode, shape);
      if mode.Replica? then ScatterReplica(shape, src, prev)
      else ScatterOp(mode.monoid, mode.idempotent, shape, src, prev, 0)
  }

  lemma ReshardFromStep<V(!new)>(mode: Mode<V>, shape: seq<nat>, srcs: seq<Chunk<V>>, dsts: seq<Chunk<V>>, n: nat)
    requires ValidChunks(srcs, shape) && ValidChunks(dsts, shape) && 0 < n <= |srcs|
    ensures
      var prev := ReshardFrom(mode, shape, srcs, dsts, n - 1);
      var src := ApplyUpdates(srcs[n - 1], mode, shape);
      ReshardFrom(mode, shape, srcs, dsts, n) ==
        if mode.Replica? then ScatterReplica(shape, src, prev)
        else ScatterOp(mode.monoid, mode.idempotent, shape, src, prev, 0)
  {
  }

  lemma ReshardFromZero<V(!new)>(mode: Mode<V>, shape: seq<nat>, srcs: seq<Chunk<V>>, dsts: seq<Chunk<V>>)
    requires ValidChunks(srcs, shape) && ValidChunks(dsts, shape)
    ensures ReshardFrom(mode, shape, srcs, dsts, 0) == dsts
  {
  }

  lemma PaintStep<V>(mode: Mode<V>, shape: seq<nat>, cs: seq<Chunk<V>>, c: Cell, n: nat)
    requires 0 < n <= |cs|
    ensures Paint(mode, shape, cs, c, n) ==
      if !Covers(cs[n - 1], shape, c) then Paint(mode, shape, cs, c, n - 1)
      else if mode.Op? then Some(mode.monoid.combine(Paint(mode, shape, cs, c, n - 1).value, Settled(cs[n - 1], mode, shape, c)))
      else Some(Settled(cs[n - 1], Replica, shape, c))
  {
  }

  lemma ColumnAt<V>(cs: seq<Chunk<V>>, mode: Mode<V>, shape: seq<nat>, c: Cell, k: nat)
    requires k < |cs|
    ensures Column(cs, mode, shape, c)[k] == Settled(cs[k], mode, shape, c)
  {
  }

  lemma ScatterOpStep<V>(m: Monoid<V>, idem: bool, shape: seq<nat>, src: Chunk<V>, dsts: seq<Chunk<V>>, j: nat)
    requires ValidIndex(src.index, shape) && ValidChunks(dsts, shape) && j < |dsts|
    ensures
      var p := ApplyAndUpdate(m, idem, shape, src, dsts[j]);
      ScatterOp(m, idem, shape, src, dsts, j) == ScatterOp(m, idem, shape, p.0, dsts[j := p.1], j + 1)
  {
  }

  // ---------------------------------------------------------------------
  // Replica mode

  /** In replica mode a new chunk settles, at each of its cells, to the last
      old chunk holding that cell, and keeps its own contents where none
      does. */
  lemma {:induction false} ReshardReplicaCell<V(!new)>(shape: seq<nat>, srcs: seq<Chunk<V>>, dsts: seq<Chunk<V>>, n: nat, c: Cell, k: nat)
    requires ValidChunks(srcs, shape) && ValidChunks(dsts, shape) && n <= |srcs| && k < |dsts|
    ensures Settled(ReshardFrom(Replica, shape, srcs, dsts, n)[k], Replica, shape, c) ==
      match Paint(Replica, shape, srcs, c, n)
      case Some(v) => (if Covers(dsts[k], shape, c) then v else Settled(dsts[k], Replica, shape, c))
      case None => Settled(dsts[k], Replica, shape, c)
    decreases n
  {
    hide ReshardFrom, ApplyUpdates, Settled, ScatterReplica, CopyOnIntersection;
    if n == 0 {
      ReshardFromZero(Replica, shape, srcs, dsts);
    } else {
      hide Paint;
      ReshardReplicaCell(shape, srcs, dsts, n - 1, c, k);
      ReshardFromStep(Replica, shape, srcs, dsts, n);
      PaintStep(Replica, shape, srcs, c, n);
      var prev := ReshardFrom(Replica, shape, srcs, dsts, n - 1);
      var src := ApplyUpdates(srcs[n - 1], Replica, shape);
      var r := ScatterReplica(shape, src, prev);
      assert prev[k].index == dsts[k].index && src.index == srcs[n - 1].index;
      ApplyUpdatesSettled(srcs[n - 1], Replica, shape, c);
      ModeChange.SettledNoUpdates(src, Replica, shape, c);
      var before := Settled(prev[k], Replica, shape, c);
      var after := Settled(r[k], Replica, shape, c);
      var own := Settled(dsts[k], Replica, shape, c);
      if Covers(srcs[n - 1], shape, c) {
        assert Paint(Replica, shape, srcs, c, n) == Some(Settled(srcs[n - 1], Replica, shape, c));
        if Covers(dsts[k], shape, c) {
          assert after == Settled(srcs[n - 1], Replica, shape, c);
        } else {
          assert before == own;
          assert after == own;
        }
      } else {
        assert Paint(Replica, shape, srcs, c, n) == Paint(Replica, shape, srcs, c, n - 1);
        assert after == before;
      }
    }
  }

  /** In replica mode every update queued on a new chunk at cell `c` carries
      what an old chunk holding `c` settled to; so when all of them settle
      to `v`, every queued update reaching `c` carries `v`. */
  lemma {:induction false} ReshardReplicaPayloads<V(!new)>(shape: seq<nat>, srcs: seq<Chunk<V>>, dsts: seq<Chunk<V>>, n: nat,
                                                          c: Cell, k: nat, v: V)
    requires ValidChunks(srcs, shape) && ValidChunks(dsts, shape) && n <= |srcs| && k < |dsts|
    requires forall j :: 0 <= j < n && Covers(srcs[j], shape, c) ==> Settled(srcs[j], Replica, shape, c) == v
    requires forall i :: 0 <= i < |dsts[k].updates| && CellIn(dsts[k].updates[i].index, shape, c) ==> dsts[k].updates[i].payload(c) == v
    ensures var r := ReshardFrom(Replica, shape, srcs, dsts, n)[k];
      forall i :: 0 <= i < |r.updates| && CellIn(r.updates[i].index, shape, c) ==> r.updates[i].payload(c) == v
    decreases n
  {
    hide ReshardFrom, ApplyUpdates, Settled;
    if n == 0 {
      ReshardFromZero(Replica, shape, srcs, dsts);
    } else {
      ReshardReplicaPayloads(shape, srcs, dsts, n - 1, c, k, v);
      ReshardFromStep(Replica, shape, srcs, dsts, n);
      var prev := ReshardFrom(Replica, shape, srcs, dsts, n - 1);
      var src := ApplyUpdates(srcs[n - 1], Replica, shape);
      assert src.index == srcs[n - 1].index && src.updates == [];
      if Covers(srcs[n - 1], shape, c) {
        ApplyUpdatesSettled(srcs[n - 1], Replica, shape, c);
        ModeChange.SettledNoUpdates(src, Replica, shape, c);
      }
      assert ScatterReplica(shape, src, prev)[k] == CopyOnIntersection(shape, src, prev[k]);
      CopyPayloads(shape, src, prev[k], c, v);
    }
  }

  /** `_copy_on_intersection` queues `src`'s buffer, so where `src` holds `v`
      and the queue carried `v`, the queue still carries `v`. */
  lemma CopyPayloads<V>(shape: seq<nat>, src: Chunk<V>, dst: Chunk<V>, c: Cell, v: V)
    requires ValidIndex(src.index, shape) && ValidIndex(dst.index, shape)
    requires Covers(src, shape, c) ==> src.data(c) == v
    requires forall i :: 0 <= i < |dst.updates| && CellIn(dst.updates[i].index, shape, c) ==> dst.updates[i].payload(c) == v
    ensures var d := CopyOnIntersection(shape, src, dst);
      forall i :: 0 <= i < |d.updates| && CellIn(d.updates[i].index, shape, c) ==> d.updates[i].payload(c) == v
  {
    hide Settled;
    var d := CopyOnIntersection(shape, src, dst);
    forall i | 0 <= i < |d.updates| && CellIn(d.updates[i].index, shape, c)
      ensures d.updates[i].payload(c) == v
    {
      if i >= |dst.updates| {
        var inter := IndexIntersection(src.index, dst.index, shape);
        assert inter.Some? && d.updates[i] == Update(inter.value, src.data);
      } else {
        assert d.updates[i] == dst.updates[i];
      }
    }
  }

  /** The last of the chunks holding a cell. */
  lemma LastHolder<V>(cs: seq<Chunk<V>>, shape: seq<nat>, c: Cell, h: nat) returns (l: nat)
    requires h < |cs| && Covers(cs[h], shape, c)
    ensures h <= l < |cs| && Covers(cs[l], shape, c) && forall j :: l < j < |cs| ==> !Covers(cs[j], shape, c)
    decreases |cs| - h
  {
    if exists j :: h < j < |cs| && Covers(cs[j], shape, c) {
      var j :| h < j < |cs| && Covers(cs[j], shape, c);
      l := LastHolder(cs, shape, c, j);
    } else {
      l := h;
    }
  }

  // ---------------------------------------------------------------------
  // Op modes

  /** What new chunk `k` settles to once `src`, holding `x` at `c`, has been
      scattered: `x` is combined into the first new holder, or into every
      holder for an idempotent operator. */
  function Bumped<V>(m: Monoid<V>, idem: bool, shape: seq<nat>, dsts: seq<Chunk<V>>, c: Cell, covS: bool, x: V, k: nat): V
    requires k < |dsts|
  {
    var v := Settled(dsts[k], Op(m, idem), shape, c);
    if covS && (idem || !CellReduce.CoverIn(Holders(dsts, shape, c), 0, k)) then m.combine(v, x) else v
  }

  ghost predicate ScatterInv<V>(m: Monoid<V>, idem: bool, shape: seq<nat>, covS: bool, x: V, c: Cell,
                                dsts0: seq<Chunk<V>>, src: Chunk<V>, dsts: seq<Chunk<V>>, j: nat)
    requires |dsts0| == |dsts| && j <= |dsts|
  {
    && Covers(src, shape, c) == covS
    && (covS ==> src.data(c) == if !idem && CellReduce.CoverIn(Holders(dsts0, shape, c), 0, j) then m.unit else x)
    && (forall k :: 0 <= k < j && Covers(dsts0[k], shape, c) ==>
          Settled(dsts[k], Op(m, idem), shape, c) == Bumped(m, idem, shape, dsts0, c, covS, x, k))
    && (forall k :: j <= k < |dsts| ==> dsts[k] == dsts0[k])
  }

  lemma ScatterStep<V(!new)>(m: Monoid<V>, idem: bool, shape: seq<nat>, covS: bool, x: V, c: Cell,
                             dsts0: seq<Chunk<V>>, src: Chunk<V>, dsts: seq<Chunk<V>>, j: nat)
    requires Sound(Op(m, idem))
    requires ValidIndex(src.index, shape) && ValidChunks(dsts, shape) && SameLayout(dsts0, dsts) && j < |dsts|
    requires ScatterInv(m, idem, shape, covS, x, c, dsts0, src, dsts, j)
    ensures
      var p := ApplyAndUpdate(m, idem, shape, src, dsts[j]);
      ScatterInv(m, idem, shape, covS, x, c, dsts0, p.0, dsts[j := p.1], j + 1)
  {
    hide Holders, ApplyAndUpdate, Settled;
    var p := ApplyAndUpdate(m, idem, shape, src, dsts[j]);
    var next := dsts[j := p.1];
    var cov := Holders(dsts0, shape, c);
    CellReduce.CoverInExtend(cov, 0, j);
    HoldersAt(dsts0, shape, c, j);
    assert dsts[j] == dsts0[j];
    if Covers(dsts0[j], shape, c) {
      var v := Settled(dsts0[j], Op(m, idem), shape, c);
      assert m.combine(v, m.unit) == m.combine(m.unit, v);
      assert Settled(next[j], Op(m, idem), shape, c) == Bumped(m, idem, shape, dsts0, c, covS, x, j);
    }
    assert forall k :: 0 <= k < j ==> next[k] == dsts[k];
  }

  lemma {:induction false} ScatterLoop<V(!new)>(m: Monoid<V>, idem: bool, shape: seq<nat>, covS: bool, x: V, c: Cell,
                                                dsts0: seq<Chunk<V>>, src: Chunk<V>, dsts: seq<Chunk<V>>, j: nat)
    requires Sound(Op(m, idem))
    requires ValidIndex(src.index, shape) && ValidChunks(dsts, shape) && SameLayout(dsts0, dsts) && j <= |dsts|
    requires ScatterInv(m, idem, shape, covS, x, c, dsts0, src, dsts, j)
    ensures forall k :: 0 <= k < |dsts| && Covers(dsts0[k], shape, c) ==>
      Settled(ScatterOp(m, idem, shape, src, dsts, j)[k], Op(m, idem), shape, c) == Bumped(m, idem, shape, dsts0, c, covS, x, k)
    decreases |dsts| - j
  {
    if j < |dsts| {
      hide ScatterOp, ApplyAndUpdate, ScatterInv, Bumped, Settled;
      var p := ApplyAndUpdate(m, idem, shape, src, dsts[j]);
      ScatterOpStep(m, idem, shape, src, dsts, j);
      ScatterStep(m, idem, shape, covS, x, c, dsts0, src, dsts, j);
      ScatterLoop(m, idem, shape, covS, x, c, dsts0, p.0, dsts[j := p.1], j + 1);
    }
  }

  /** Some holder comes first. */
  lemma FirstHolderExists(cov: seq<bool>, k: nat)
    requires k < |cov| && cov[k]
    ensures exists f :: 0 <= f <= k && cov[f] && !CellReduce.CoverIn(cov, 0, f)
    decreases k
  {
    if CellReduce.CoverIn(cov, 0, k) {
      var j :| 0 <= j < k && cov[j];
      FirstHolderExists(cov, j);
    }
  }

  lemma HoldersOfSameLayout<V>(a: seq<Chunk<V>>, b: seq<Chunk<V>>, shape: seq<nat>, c: Cell)
    requires SameLayout(a, b)
    ensures Holders(a, shape, c) == Holders(b, shape, c)
  {
  }

  /** Scattering a source that holds `x` at `c` combines `x` once into the
      op-mode value of the new chunks, provided one of them holds `c`. */
  lemma ScatterOpTotal<V(!new)>(m: Monoid<V>, idem: bool, shape: seq<nat>, src: Chunk<V>, dsts: seq<Chunk<V>>, c: Cell, h: nat)
    requires Sound(Op(m, idem))
    requires ValidIndex(src.index, shape) && ValidChunks(dsts, shape) && h < |dsts| && Covers(dsts[h], shape, c)
    ensures
      var cov := Holders(dsts, shape, c);
      CellReduce.Total(m, cov, Column(ScatterOp(m, idem, shape, src, dsts, 0), Op(m, idem), shape, c))
        == if Covers(src, shape, c) then m.combine(CellReduce.Total(m, cov, Column(dsts, Op(m, idem), shape, c)), src.data(c))
           else CellReduce.Total(m, cov, Column(dsts, Op(m, idem), shape, c))
  {
    hide ScatterOp, Holders;
    var covS, x := Covers(src, shape, c), src.data(c);
    var cov := Holders(dsts, shape, c);
    var r := ScatterOp(m, idem, shape, src, dsts, 0);
    var s, t := Column(dsts, Op(m, idem), shape, c), Column(r, Op(m, idem), shape, c);
    assert !CellReduce.CoverIn(cov, 0, 0);
    ScatterLoop(m, idem, shape, covS, x, c, dsts, src, dsts, 0);
    HoldersAt(dsts, shape, c, h);
    forall k | 0 <= k < |dsts| && cov[k]
      ensures t[k] == Bumped(m, idem, shape, dsts, c, covS, x, k)
    {
      HoldersAt(dsts, shape, c, k);
    }
    if !covS {
      assert m.combine(s[h], m.unit) == m.combine(m.unit, s[h]);
      CellReduce.PrefixBumpOne(m, cov, s, t, h, m.unit, |dsts|);
      var t0 := CellReduce.Total(m, cov, s);
      assert m.combine(t0, m.unit) == m.combine(m.unit, t0);
    } else if idem {
      CellReduce.PrefixBumpAll(m, cov, s, t, x, |dsts|);
      assert CellReduce.CoverIn(cov, 0, |dsts|);
    } else {
      FirstHolderExists(cov, h);
      var f :| 0 <= f <= h && cov[f] && !CellReduce.CoverIn(cov, 0, f);
      forall k | 0 <= k < |dsts| && k != f && cov[k]
        ensures t[k] == s[k]
      {
        if k > f {
          assert CellReduce.CoverIn(cov, 0, k);
        } else {
          assert false;
        }
      }
      CellReduce.PrefixBumpOne(m, cov, s, t, f, x, |dsts|);
    }
  }

  /** In an op mode the new chunks together hold, at a cell one of them
      holds, their initial op-mode value combined with that of the first
      `n` old chunks. */
  lemma {:induction false} ReshardOpTotal<V(!new)>(m: Monoid<V>, idem: bool, shape: seq<nat>, srcs: seq<Chunk<V>>, dsts: seq<Chunk<V>>,
                                                   n: nat, c: Cell, h: nat)
    requires Sound(Op(m, idem))
    requires ValidChunks(srcs, shape) && ValidChunks(dsts, shape) && n <= |srcs| && h < |dsts| && Covers(dsts[h], shape, c)
    ensures
      var cov := Holders(dsts, shape, c);
      CellReduce.Total(m, cov, Column(ReshardFrom(Op(m, idem), shape, srcs, dsts, n), Op(m, idem), shape, c))
        == m.combine(CellReduce.Total(m, cov, Column(dsts, Op(m, idem), shape, c)),
                     CellReduce.Prefix(m, Holders(srcs, shape, c), Column(srcs, Op(m, idem), shape, c), n))
    decreases n
  {
    hide ReshardFrom, ScatterOp, Holders, Column, CellReduce.Total, ApplyUpdates;
    var cov := Holders(dsts, shape, c);
    var t0 := CellReduce.Total(m, cov, Column(dsts, Op(m, idem), shape, c));
    if n == 0 {
      ReshardFromZero(Op(m, idem), shape, srcs, dsts);
      assert m.combine(t0, m.unit) == m.combine(m.unit, t0);
    } else {
      ReshardOpTotal(m, idem, shape, srcs, dsts, n - 1, c, h);
      var prev := ReshardFrom(Op(m, idem), shape, srcs, dsts, n - 1);
      var src := ApplyUpdates(srcs[n - 1], Op(m, idem), shape);
      HoldersOfSameLayout(dsts, prev, shape, c);
      ScatterOpTotal(m, idem, shape, src, prev, c, h);
      ApplyUpdatesSettled(srcs[n - 1], Op(m, idem), shape, c);
      ModeChange.SettledNoUpdates(src, Op(m, idem), shape, c);
      HoldersAt(srcs, shape, c, n - 1);
      var p := CellReduce.Prefix(m, Holders(srcs, shape, c), Column(srcs, Op(m, idem), shape, c), n - 1);
      var tp := CellReduce.Total(m, cov, Column(prev, Op(m, idem), shape, c));
      ReshardFromStep(Op(m, idem), shape, srcs, dsts, n);
      ColumnAt(srcs, Op(m, idem), shape, c, n - 1);
      if Covers(src, shape, c) {
        assert m.combine(m.combine(t0, p), src.data(c)) == m.combine(t0, m.combine(p, src.data(c)));
      } else {
        assert m.combine(p, m.unit) == m.combine(m.unit, p);
      }
    }
  }

  // ---------------------------------------------------------------------
  // The whole reshard

  /** The new chunks before any transfer, one per `(device, index)`; each
      `cupy.empty` leaves its own contents, `junk(k)` for target `k`. */
  function FreshChunks<V>(mode: Mode<V>, targets: seq<(int, seq<Slice>)>, junk: nat -> Cell -> V): (r: seq<Chunk<V>>)
    ensures |r| == |targets|
    ensures forall k :: 0 <= k < |r| ==> r[k] == Fresh(mode, targets[k].0, targets[k].1, junk(k))
  {
    seq(|targets|, k requires 0 <= k < |targets| => Fresh(mode, targets[k].0, targets[k].1, junk(k)))
  }

  predicate ValidTargets(targets: seq<(int, seq<Slice>)>, shape: seq<nat>) {
    forall k :: 0 <= k < |targets| ==> ValidIndex(targets[k].1, shape)
  }

  /** The chunk movement of `reshard`: chunks on the given `(device,
      index)` targets, in the array's mode, filled from the old chunks. */
  function Reshard<V(!new)>(mode: Mode<V>, shape: seq<nat>, srcs: seq<Chunk<V>>, targets: seq<(int, seq<Slice>)>, junk: nat -> Cell -> V): (r: seq<Chunk<V>>)
    requires ValidChunks(srcs, shape) && ValidTargets(targets, shape)
    ensures |r| == |targets| && ValidChunks(r, shape)
    ensures forall k :: 0 <= k < |r| ==> r[k].device == targets[k].0 && r[k].index == targets[k].1
  {
    ReshardFrom(mode, shape, srcs, FreshChunks(mode, targets, junk), |srcs|)
  }

  /** Resharding keeps `asnumpy()` at every cell a new chunk holds: in an op
      mode always, in replica mode where an old chunk held it too (elsewhere
      the new chunk keeps what `cupy.empty` left there). */
  lemma ReshardKeepsValues<V(!new)>(mode: Mode<V>, shape: seq<nat>, srcs: seq<Chunk<V>>, targets: seq<(int, seq<Slice>)>,
                                    junk: nat -> Cell -> V, c: Cell, h: nat)
    requires Sound(mode) && ValidChunks(srcs, shape) && ValidTargets(targets, shape)
    requires h < |targets| && CellIn(targets[h].1, shape, c)
    requires mode.Replica? ==> exists k :: 0 <= k < |srcs| && Covers(srcs[k], shape, c)
    ensures Asnumpy(mode, shape, Reshard(mode, shape, srcs, targets, junk), c) == Asnumpy(mode, shape, srcs, c)
  {
    hide Reshard, ReshardFrom, Asnumpy, Holders, Column;
    var blank := FreshChunks(mode, targets, junk);
    var r := Reshard(mode, shape, srcs, targets, junk);
    assert r == ReshardFrom(mode, shape, srcs, blank, |srcs|) by {
      ReshardIs(mode, shape, srcs, targets, junk);
    }
    assert Covers(blank[h], shape, c);
    if mode.Op? {
      var m := mode.monoid;
      ReshardOpTotal(m, mode.idempotent, shape, srcs, blank, |srcs|, c, h);
      var cov := Holders(blank, shape, c);
      HoldersOfSameLayout(blank, r, shape, c);
      var s := Column(blank, mode, shape, c);
      NoPendingColumn(blank, mode, shape, c);
      CellReduce.PrefixOneHolder(m, cov, s, h, |blank|);
      var p := CellReduce.Prefix(m, Holders(srcs, shape, c), Column(srcs, mode, shape, c), |srcs|);
      assert m.combine(m.unit, p) == p;
    } else {
      var cov := Holders(r, shape, c);
      HoldersAt(r, shape, c, h);
      ModeChange.LastHolderExists(cov, h);
      var l :| h <= l < |cov| && CellReduce.IsLast(cov, l);
      HoldersAt(r, shape, c, l);
      ReshardReplicaCell(shape, srcs, blank, |srcs|, c, l);
      AsnumpyIsPaint(mode, shape, srcs, c);
    }
  }

  /** In replica mode, where every old holder of a cell settles to `v`, every
      new chunk holding the cell agrees on `v`. */
  lemma ReshardReplicaAgrees<V(!new)>(shape: seq<nat>, srcs: seq<Chunk<V>>, targets: seq<(int, seq<Slice>)>, junk: nat -> Cell -> V,
                                      k: nat, c: Cell, v: V)
    requires ValidChunks(srcs, shape) && ValidTargets(targets, shape)
    requires k < |targets| && CellIn(targets[k].1, shape, c)
    requires exists j :: 0 <= j < |srcs| && Covers(srcs[j], shape, c)
    requires forall j :: 0 <= j < |srcs| && Covers(srcs[j], shape, c) ==> Settled(srcs[j], Replica, shape, c) == v
    ensures Agrees(Reshard(Replica, shape, srcs, targets, junk)[k], shape, c, v)
  {
    hide Reshard, ReshardFrom, Settled, Paint;
    var blank := FreshChunks(Replica, targets, junk);
    ReshardIs(Replica, shape, srcs, targets, junk);
    assert Covers(blank[k], shape, c) && blank[k].updates == [];
    var h :| 0 <= h < |srcs| && Covers(srcs[h], shape, c);
    PaintReplica(shape, srcs, c, |srcs|);
    var l := LastHolder(srcs, shape, c, h);
    assert Paint(Replica, shape, srcs, c, |srcs|) == Some(v);
    ReshardReplicaCell(shape, srcs, blank, |srcs|, c, k);
    ReshardReplicaPayloads(shape, srcs, blank, |srcs|, c, k, v);
  }

  lemma ReshardIs<V(!new)>(mode: Mode<V>, shape: seq<nat>, srcs: seq<Chunk<V>>, targets: seq<(int, seq<Slice>)>, junk: nat -> Cell -> V)
    requires ValidChunks(srcs, shape) && ValidTargets(targets, shape)
    ensures Reshard(mode, shape, srcs, targets, junk) == ReshardFrom(mode, shape, srcs, FreshChunks(mode, targets, junk), |srcs|)
  {
  }

  lemma AsnumpyIsPaint<V(!new)>(mode: Mode<V>, shape: seq<nat>, cs: seq<Chunk<V>>, c: Cell)
    ensures Asnumpy(mode, shape, cs, c) == Paint(mode, shape, cs, c, |cs|)
  {
  }
}
