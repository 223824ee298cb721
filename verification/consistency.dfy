/** `_all_reduce_intersections`: turning op-mode chunks into replica-mode
    chunks. The forward pass folds every chunk into the later chunks it
    overlaps; the backward pass copies the last holder's value back onto the
    earlier ones. At each cell the passes are the sequence algorithms of
    module CellReduce; the lemmas here show that projection. */
module Consistency {
  import opened Slices
  import opened IndexAlgebra
  import opened Modes
  import opened Chunks
  import CellReduce

  /** Which chunks hold cell `c`. */
  function Holders<V>(cs: seq<Chunk<V>>, shape: seq<nat>, c: Cell): (cov: seq<bool>)
    ensures |cov| == |cs|
  {
    seq(|cs|, k requires 0 <= k < |cs| => Covers(cs[k], shape, c))
  }

  /** What every chunk settles to at `c` under `mode`. */
  function Column<V>(cs: seq<Chunk<V>>, mode: Mode<V>, shape: seq<nat>, c: Cell): (col: seq<V>)
    ensures |col| == |cs|
  {
    seq(|cs|, k requires 0 <= k < |cs| => Settled(cs[k], mode, shape, c))
  }

  /** The op-mode value of cell `c`: the reduction, in chunk order, of what
      the holders of `c` settle to. */
  function OpValue<V>(cs: seq<Chunk<V>>, m: Monoid<V>, idem: bool, shape: seq<nat>, c: Cell): V {
    CellReduce.Total(m, Holders(cs, shape, c), Column(cs, Op(m, idem), shape, c))
  }

  // ---------------------------------------------------------------------
  // Forward pass

  /** `_apply_and_update_chunks` from chunk `i` onto chunk `j` of the list. */
  function Transfer<V>(m: Monoid<V>, idem: bool, shape: seq<nat>, cs: seq<Chunk<V>>, i: nat, j: nat): (r: seq<Chunk<V>>)
    requires ValidChunks(cs, shape) && i < j < |cs|
    ensures SameLayout(cs, r) && ValidChunks(r, shape)
    ensures forall k :: 0 <= k < |cs| && k != i && k != j ==> r[k] == cs[k]
    ensures r[i].updates == cs[i].updates
  {
    var p := ApplyAndUpdate(m, idem, shape, cs[i], cs[j]);
    cs[i := p.0][j := p.1]
  }

  /** The inner loop of the forward pass: `_apply_and_update_chunks` from
      chunk `i` onto every chunk from `j` on. */
  function Spread<V>(m: Monoid<V>, idem: bool, shape: seq<nat>, cs: seq<Chunk<V>>, i: nat, j: nat): (r: seq<Chunk<V>>)
    requires ValidChunks(cs, shape) && i < j <= |cs|
    ensures SameLayout(cs, r) && ValidChunks(r, shape)
    ensures forall k :: 0 <= k < i ==> r[k] == cs[k]
    ensures r[i].updates == cs[i].updates
    decreases |cs| - j
  {
    if j == |cs| then cs
    else Spread(m, idem, shape, Transfer(m, idem, shape, cs, i, j), i, j + 1)
  }

  /** One outer step of the forward pass: `_apply_updates` on chunk `i` in
      the op mode, then the inner loop from it. */
  function FwdStep<V(!new)>(m: Monoid<V>, idem: bool, shape: seq<nat>, cs: seq<Chunk<V>>, i: nat): (r: seq<Chunk<V>>)
    requires ValidChunks(cs, shape) && i < |cs|
    ensures SameLayout(cs, r) && ValidChunks(r, shape)
    ensures r[i].updates == []
    ensures forall k :: 0 <= k < i ==> r[k] == cs[k]
  {
    Spread(m, idem, shape, cs[i := ApplyUpdates(cs[i], Op(m, idem), shape)], i, i + 1)
  }

  /** The forward pass from chunk `i` on. */
  function Forward<V(!new)>(m: Monoid<V>, idem: bool, shape: seq<nat>, cs: seq<Chunk<V>>, i: nat): (r: seq<Chunk<V>>)
    requires ValidChunks(cs, shape) && i <= |cs|
    ensures SameLayout(cs, r) && ValidChunks(r, shape)
    ensures (forall k :: 0 <= k < i ==> cs[k].updates == []) ==> forall k :: 0 <= k < |r| ==> r[k].updates == []
    decreases |cs| - i
  {
    if i == |cs| then cs
    else Forward(m, idem, shape, FwdStep(m, idem, shape, cs, i), i + 1)
  }

  /** One transfer at cell `c` is CellReduce's transfer. The holders are
      read off a list `cs0` with the same layout throughout. */
  lemma TransferProjects<V>(m: Monoid<V>, idem: bool, shape: seq<nat>, cs0: seq<Chunk<V>>, cs: seq<Chunk<V>>, i: nat, j: nat, c: Cell)
    requires ValidChunks(cs, shape) && SameLayout(cs0, cs) && i < j < |cs| && cs[i].updates == []
    ensures Column(Transfer(m, idem, shape, cs, i, j), Op(m, idem), shape, c)
      == CellReduce.Transfer(m, idem, Holders(cs0, shape, c), Column(cs, Op(m, idem), shape, c), i, j)
  {
    var p := ApplyAndUpdate(m, idem, shape, cs[i], cs[j]);
    assert Covers(cs0[i], shape, c) == Covers(cs[i], shape, c);
    assert Covers(cs0[j], shape, c) == Covers(cs[j], shape, c);
    assert Settled(cs[i], Op(m, idem), shape, c) == cs[i].data(c);
    assert Settled(p.0, Op(m, idem), shape, c) == p.0.data(c);
  }

  /** The inner loop of the forward pass at cell `c` is CellReduce's. */
  lemma {:induction false} SpreadProjects<V>(m: Monoid<V>, idem: bool, shape: seq<nat>, cs0: seq<Chunk<V>>, cs: seq<Chunk<V>>, i: nat, j: nat, c: Cell)
    requires ValidChunks(cs, shape) && SameLayout(cs0, cs) && i < j <= |cs| && cs[i].updates == []
    ensures Column(Spread(m, idem, shape, cs, i, j), Op(m, idem), shape, c)
      == CellReduce.Spread(m, idem, Holders(cs0, shape, c), Column(cs, Op(m, idem), shape, c), i, j)
    decreases |cs| - j
  {
    hide Transfer, Column, Holders, CellReduce.Transfer;
    if j < |cs| {
      var cov, col := Holders(cs0, shape, c), Column(cs, Op(m, idem), shape, c);
      var t := Transfer(m, idem, shape, cs, i, j);
      TransferProjects(m, idem, shape, cs0, cs, i, j, c);
      SpreadProjects(m, idem, shape, cs0, t, i, j + 1, c);
      calc {
        Column(Spread(m, idem, shape, cs, i, j), Op(m, idem), shape, c);
        Column(Spread(m, idem, shape, t, i, j + 1), Op(m, idem), shape, c);
        CellReduce.Spread(m, idem, cov, Column(t, Op(m, idem), shape, c), i, j + 1);
        CellReduce.Spread(m, idem, cov, CellReduce.Transfer(m, idem, cov, col, i, j), i, j + 1);
        CellReduce.Spread(m, idem, cov, col, i, j);
      }
    }
  }

  lemma FwdStepProjects<V(!new)>(m: Monoid<V>, idem: bool, shape: seq<nat>, cs0: seq<Chunk<V>>, cs: seq<Chunk<V>>, i: nat, c: Cell)
    requires ValidChunks(cs, shape) && SameLayout(cs0, cs) && i < |cs|
    ensures Column(FwdStep(m, idem, shape, cs, i), Op(m, idem), shape, c)
      == CellReduce.Spread(m, idem, Holders(cs0, shape, c), Column(cs, Op(m, idem), shape, c), i, i + 1)
  {
    hide Spread, Column, Holders, ApplyUpdates;
    ApplyUpdatesColumn(cs, i, Op(m, idem), shape, c);
    var cs1 := cs[i := ApplyUpdates(cs[i], Op(m, idem), shape)];
    SpreadProjects(m, idem, shape, cs0, cs1, i, i + 1, c);
  }

  lemma {:induction false} ForwardProjects<V(!new)>(m: Monoid<V>, idem: bool, shape: seq<nat>, cs0: seq<Chunk<V>>, cs: seq<Chunk<V>>, i: nat, c: Cell)
    requires ValidChunks(cs, shape) && SameLayout(cs0, cs) && i <= |cs|
    ensures Column(Forward(m, idem, shape, cs, i), Op(m, idem), shape, c)
      == CellReduce.Forward(m, idem, Holders(cs0, shape, c), Column(cs, Op(m, idem), shape, c), i)
    decreases |cs| - i
  {
    hide FwdStep, Column, Holders;
    var cov, col := Holders(cs0, shape, c), Column(cs, Op(m, idem), shape, c);
    if i < |cs| {
      FwdStepProjects(m, idem, shape, cs0, cs, i, c);
      var cs2 := FwdStep(m, idem, shape, cs, i);
      ForwardProjects(m, idem, shape, cs0, cs2, i + 1, c);
      calc {
        Column(Forward(m, idem, shape, cs, i), Op(m, idem), shape, c);
        Column(Forward(m, idem, shape, cs2, i + 1), Op(m, idem), shape, c);
        CellReduce.Forward(m, idem, cov, Column(cs2, Op(m, idem), shape, c), i + 1);
        CellReduce.Forward(m, idem, cov, CellReduce.Spread(m, idem, cov, col, i, i + 1), i + 1);
        CellReduce.Forward(m, idem, cov, col, i);
      }
    } else {
      assert Forward(m, idem, shape, cs, i) == cs;
      assert CellReduce.Forward(m, idem, cov, col, i) == col;
    }
  }

  /** Applying a chunk's pending updates does not change what any chunk
      settles to. */
  lemma ApplyUpdatesColumn<V(!new)>(cs: seq<Chunk<V>>, i: nat, mode: Mode<V>, shape: seq<nat>, c: Cell)
    requires i < |cs|
    ensures Column(cs[i := ApplyUpdates(cs[i], mode, shape)], mode, shape, c) == Column(cs, mode, shape, c)
  {
  }

  // ---------------------------------------------------------------------
  // Backward pass

  /** The inner loop of the backward pass: `_copy_on_intersection` from
      chunk `j` onto every chunk from `i` up to `j`. */
  function CopyDown<V>(shape: seq<nat>, cs: seq<Chunk<V>>, j: nat, i: nat): (r: seq<Chunk<V>>)
    requires ValidChunks(cs, shape) && i <= j < |cs|
    ensures SameLayout(cs, r) && ValidChunks(r, shape)
    ensures forall k :: (0 <= k < i || j <= k < |cs|) ==> r[k] == cs[k]
    decreases j - i
  {
    if i == j then cs
    else CopyDown(shape, cs[i := CopyOnIntersection(shape, cs[j], cs[i])], j, i + 1)
  }

  /** One outer step of the backward pass: `_apply_updates` on chunk `j - 1`
      in replica mode, then the inner loop from it. */
  function BackStep<V(!new)>(shape: seq<nat>, cs: seq<Chunk<V>>, j: nat): (r: seq<Chunk<V>>)
    requires ValidChunks(cs, shape) && 0 < j <= |cs|
    ensures SameLayout(cs, r) && ValidChunks(r, shape)
    ensures r[j - 1].updates == []
    ensures forall k :: j <= k < |cs| ==> r[k] == cs[k]
  {
    CopyDown(shape, cs[j - 1 := ApplyUpdates(cs[j - 1], Replica, shape)], j - 1, 0)
  }

  /** The backward pass over the chunks before `j`. */
  function Backward<V(!new)>(shape: seq<nat>, cs: seq<Chunk<V>>, j: nat): (r: seq<Chunk<V>>)
    requires ValidChunks(cs, shape) && j <= |cs|
    ensures SameLayout(cs, r) && ValidChunks(r, shape)
    ensures (forall k :: j <= k < |cs| ==> cs[k].updates == []) ==> forall k :: 0 <= k < |r| ==> r[k].updates == []
    decreases j
  {
    if j == 0 then cs
    else Backward(shape, BackStep(shape, cs, j), j - 1)
  }

  lemma {:induction false} CopyDownCell<V>(shape: seq<nat>, cs: seq<Chunk<V>>, j: nat, i: nat, c: Cell)
    requires ValidChunks(cs, shape) && i <= j < |cs|
    ensures forall k :: i <= k < j ==>
      Settled(CopyDown(shape, cs, j, i)[k], Replica, shape, c) ==
        (if Covers(cs[j], shape, c) && Covers(cs[k], shape, c) then cs[j].data(c) else Settled(cs[k], Replica, shape, c))
    decreases j - i
  {
    if i < j {
      var cs' := cs[i := CopyOnIntersection(shape, cs[j], cs[i])];
      CopyDownCell(shape, cs', j, i + 1, c);
      var r := CopyDown(shape, cs', j, i + 1);
      assert r[i] == cs'[i];
      assert cs'[j] == cs[j];
      forall k | i < k < j
        ensures Settled(r[k], Replica, shape, c) ==
          (if Covers(cs[j], shape, c) && Covers(cs[k], shape, c) then cs[j].data(c) else Settled(cs[k], Replica, shape, c))
      {
        assert cs'[k] == cs[k];
      }
    }
  }

  lemma CopyDownProjects<V>(shape: seq<nat>, cs0: seq<Chunk<V>>, cs: seq<Chunk<V>>, j: nat, c: Cell)
    requires ValidChunks(cs, shape) && SameLayout(cs0, cs) && j < |cs| && cs[j].updates == []
    ensures Column(CopyDown(shape, cs, j, 0), Replica, shape, c)
      == CellReduce.CopyDown(Holders(cs0, shape, c), Column(cs, Replica, shape, c), j)
  {
    CopyDownCell(shape, cs, j, 0, c);
    assert Settled(cs[j], Replica, shape, c) == cs[j].data(c);
    assert forall k :: 0 <= k < |cs| ==> Covers(cs0[k], shape, c) == Covers(cs[k], shape, c);
  }

  lemma BackStepProjects<V(!new)>(shape: seq<nat>, cs0: seq<Chunk<V>>, cs: seq<Chunk<V>>, j: nat, c: Cell)
    requires ValidChunks(cs, shape) && SameLayout(cs0, cs) && 0 < j <= |cs|
    ensures Column(BackStep(shape, cs, j), Replica, shape, c)
      == CellReduce.CopyDown(Holders(cs0, shape, c), Column(cs, Replica, shape, c), j - 1)
  {
    hide CopyDown, Column, Holders, ApplyUpdates;
    ApplyUpdatesColumn(cs, j - 1, Replica, shape, c);
    var cs1 := cs[j - 1 := ApplyUpdates(cs[j - 1], Replica, shape)];
    CopyDownProjects(shape, cs0, cs1, j - 1, c);
  }

  lemma {:induction false} BackwardProjects<V(!new)>(shape: seq<nat>, cs0: seq<Chunk<V>>, cs: seq<Chunk<V>>, j: nat, c: Cell)
    requires ValidChunks(cs, shape) && SameLayout(cs0, cs) && j <= |cs|
    ensures Column(Backward(shape, cs, j), Replica, shape, c)
      == CellReduce.Backward(Holders(cs0, shape, c), Column(cs, Replica, shape, c), j)
    decreases j
  {
    hide BackStep, Column, Holders, CellReduce.CopyDown;
    var cov, col := Holders(cs0, shape, c), Column(cs, Replica, shape, c);
    if j > 0 {
      BackStepProjects(shape, cs0, cs, j, c);
      var cs2 := BackStep(shape, cs, j);
      BackwardProjects(shape, cs0, cs2, j - 1, c);
      calc {
        Column(Backward(shape, cs, j), Replica, shape, c);
        Column(Backward(shape, cs2, j - 1), Replica, shape, c);
        CellReduce.Backward(cov, Column(cs2, Replica, shape, c), j - 1);
        CellReduce.Backward(cov, CellReduce.CopyDown(cov, col, j - 1), j - 1);
        CellReduce.Backward(cov, col, j);
      }
    } else {
      assert Backward(shape, cs, j) == cs;
      assert CellReduce.Backward(cov, col, j) == col;
    }
  }

  // ---------------------------------------------------------------------
  // The whole all-reduce

  /** `_all_reduce_intersections(op_mode, shape, chunks)` on the flattened
      chunk list. Afterwards no update is pending and, for a lawful operator
      with an honest idempotent flag, every chunk holds at each of its cells
      the op-mode value that cell had before. */
  function AllReduce<V(!new)>(m: Monoid<V>, idem: bool, shape: seq<nat>, cs: seq<Chunk<V>>): (r: seq<Chunk<V>>)
    requires ValidChunks(cs, shape)
    ensures SameLayout(cs, r) && ValidChunks(r, shape)
    ensures forall k :: 0 <= k < |r| ==> r[k].updates == []
    ensures Sound(Op(m, idem)) ==> forall k, c :: 0 <= k < |r| && Covers(r[k], shape, c) ==>
      r[k].data(c) == OpValue(cs, m, idem, shape, c)
  {
    var r := Backward(shape, Forward(m, idem, shape, cs, 0), |cs|);
    AllReduceValues(m, idem, shape, cs, r);
    r
  }

  lemma AllReduceValues<V(!new)>(m: Monoid<V>, idem: bool, shape: seq<nat>, cs: seq<Chunk<V>>, r: seq<Chunk<V>>)
    requires ValidChunks(cs, shape) && r == Backward(shape, Forward(m, idem, shape, cs, 0), |cs|)
    ensures Sound(Op(m, idem)) ==> forall k, c :: 0 <= k < |r| && Covers(r[k], shape, c) ==>
      r[k].data(c) == OpValue(cs, m, idem, shape, c)
  {
    hide Column, Holders, Forward, Backward, CellIn;
    if Sound(Op(m, idem)) {
      forall k, c | 0 <= k < |r| && Covers(r[k], shape, c)
        ensures r[k].data(c) == OpValue(cs, m, idem, shape, c)
      {
        AllReduceProjects(m, idem, shape, cs, c);
        HoldersAt(cs, shape, c, k);
        assert r[k].index == cs[k].index;
        assert Covers(cs[k], shape, c);
        var cov, col := Holders(cs, shape, c), Column(cs, Op(m, idem), shape, c);
        assert cov[k];
        assert r[k].data(c) == CellReduce.AllReduce(m, idem, cov, col)[k];
        assert CellReduce.AllReduce(m, idem, cov, col)[k] == CellReduce.Total(m, cov, col);
      }
    }
  }

  lemma HoldersAt<V>(cs: seq<Chunk<V>>, shape: seq<nat>, c: Cell, k: nat)
    requires k < |cs|
    ensures Holders(cs, shape, c)[k] == Covers(cs[k], shape, c)
  {
  }

  /** At every cell the all-reduce is CellReduce's all-reduce. */
  lemma AllReduceProjects<V(!new)>(m: Monoid<V>, idem: bool, shape: seq<nat>, cs: seq<Chunk<V>>, c: Cell)
    requires ValidChunks(cs, shape)
    ensures
      var r := Backward(shape, Forward(m, idem, shape, cs, 0), |cs|);
      forall k :: 0 <= k < |r| ==>
        r[k].data(c) == CellReduce.AllReduce(m, idem, Holders(cs, shape, c), Column(cs, Op(m, idem), shape, c))[k]
  {
    hide Column, Holders, Forward, Backward;
    var fwd := Forward(m, idem, shape, cs, 0);
    var r := Backward(shape, fwd, |fwd|);
    ForwardProjects(m, idem, shape, cs, cs, 0, c);
    NoPendingColumn(fwd, Op(m, idem), shape, c);
    NoPendingColumn(fwd, Replica, shape, c);
    NoPendingColumn(r, Replica, shape, c);
    assert Column(fwd, Replica, shape, c) == Column(fwd, Op(m, idem), shape, c);
    BackwardProjects(shape, cs, fwd, |fwd|, c);
  }

  /** With no update pending, every mode settles a chunk to its buffer. */
  lemma NoPendingColumn<V>(cs: seq<Chunk<V>>, mode: Mode<V>, shape: seq<nat>, c: Cell)
    requires forall k :: 0 <= k < |cs| ==> cs[k].updates == []
    ensures forall k :: 0 <= k < |cs| ==> Column(cs, mode, shape, c)[k] == cs[k].data(c)
  {
  }
}
