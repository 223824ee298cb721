/** `__cupy_override_reduction_kernel__`: which mode a reduction runs in and
    which chunks it runs on, and the shape of its result. `max` and `min`
    run in their own mode on replica-mode chunks whose entries a pending
    update will overwrite are first set to the identity; `sum` and `prod` run
    on the chunks converted to their mode. In every case the chunks, read in
    the new mode, still hold `asnumpy()`'s values. */
module Reductions {
  import opened Wrappers
  import opened Slices
  import opened IndexAlgebra
  import opened Modes
  import opened Chunks
  import opened Consistency
  import opened Materialize
  import opened DistArrays
  import opened IndexMaps
  import Construction
  import ModeChange
  import CellReduce

  // ---------------------------------------------------------------------
  // The result shape

  /** Python's `s[:i]`. */
  function PyTake<T>(s: seq<T>, i: int): (r: seq<T>)
    ensures 0 <= i <= |s| ==> r == s[..i]
  {
    if i >= 0 then s[..if i < |s| then i else |s|]
    else s[..if |s| + i > 0 then |s| + i else 0]
  }

  /** Python's `s[i:]`. */
  function PyDrop<T>(s: seq<T>, i: int): (r: seq<T>)
    ensures 0 <= i <= |s| ==> r == s[i..]
  {
    if i >= 0 then s[if i < |s| then i else |s|..]
    else s[if |s| + i > 0 then |s| + i else 0..]
  }

  /** `shape[:axis] + shape[axis+1:]` as written, also used for every
      chunk's index. */
  function DropAxisAsWritten<T>(s: seq<T>, axis: int): (r: seq<T>)
    ensures 0 <= axis < |s| ==> DropAxis(s, axis) == Ok(r)
  {
    PyTake(s, axis) + PyDrop(s, axis + 1)
  }

  /** The axis a reduction removes: a negative axis counts from the end;
      one out of range is an AxisError, a ValueError. */
  function DropAxis<T>(s: seq<T>, axis: int): (r: Result<seq<T>>)
    ensures r.Ok? <==> -|s| <= axis < |s|
    ensures r.Err? ==> r.error == ValueError
    ensures r.Ok? ==> var a := if axis < 0 then axis + |s| else axis;
      |r.value| == |s| - 1
      && (forall i :: 0 <= i < a ==> r.value[i] == s[i])
      && (forall i :: a <= i < |r.value| ==> r.value[i] == s[i + 1])
  {
    if -|s| <= axis < |s| then
      var a := if axis < 0 then axis + |s| else axis;
      Ok(s[..a] + s[a + 1..])
    else Err(ValueError)
  }

  /** Putting the removed extent back gives the original shape. */
  lemma DropAxisRestores<T>(s: seq<T>, axis: int)
    requires DropAxis(s, axis).Ok?
    ensures var a := if axis < 0 then axis + |s| else axis;
      DropAxis(s, axis).value[..a] + [s[a]] + DropAxis(s, axis).value[a..] == s
  {
    var a := if axis < 0 then axis + |s| else axis;
    var r := DropAxis(s, axis).value;
    assert r[..a] == s[..a];
    assert r[a..] == s[a + 1..];
    assert s == s[..a] + [s[a]] + s[a + 1..];
  }

  /** With `axis=-1` on a 2-d array the shape as written keeps both extents
      and repeats the first. */
  lemma DropAxisNegativeCounterexample()
    ensures DropAxisAsWritten([2, 3], -1) == [2, 2, 3]
    ensures DropAxis([2, 3], -1) == Ok([2])
  {
    assert [2, 3][..1] == [2];
    assert [2, 3][..1] + [2, 3][2..] == [2];
  }

  // ---------------------------------------------------------------------
  // Consistency of replica-mode arrays

  /** What replica mode relies on: every copy of a cell carries the same
      value, `asnumpy()`'s. */
  ghost predicate ReplicaConsistent(a: DistArray) {
    forall k, c :: 0 <= k < |a.chunks| && Covers(a.chunks[k], a.shape, c) ==>
      Value(a, c).Some? && Agrees(a.chunks[k], a.shape, c, Value(a, c).value)
  }

  /** `distributed_array` in replica mode builds a consistent array. */
  lemma ConstructionConsistent(data: Cell -> Int64, shape: seq<nat>, indexMap: seq<(int, IdxSpec)>,
                               comms: set<int>, ncclAvailable: bool, conv: Conversion)
    requires DistributedArray(data, shape, indexMap, "replica", comms, ncclAvailable, conv).Ok?
    ensures ReplicaConsistent(DistributedArray(data, shape, indexMap, "replica", comms, ncclAvailable, conv).value)
  {
    var a := DistributedArray(data, shape, indexMap, "replica", comms, ncclAvailable, conv).value;
    var targets := Flatten(Normalize(shape, indexMap, conv).value);
    assert a.chunks == Construction.Split(ModeOf(a.mode), shape, data, targets);
    forall k, c | 0 <= k < |a.chunks| && Covers(a.chunks[k], a.shape, c)
      ensures Value(a, c).Some? && Agrees(a.chunks[k], a.shape, c, Value(a, c).value)
    {
      DistributedArrayRoundTrip(data, shape, indexMap, "replica", comms, ncclAvailable, conv, c);
      Construction.SplitData(ModeOf(a.mode), shape, data, targets, k, c);
    }
  }

  /** All-reduced op-mode chunks, read in replica mode, agree at each of
      their cells on the value `asnumpy()` reads there. */
  lemma AllReducedAgree(mode: Mode<Int64>, shape: seq<nat>, cs: seq<Chunk<Int64>>, k: nat, c: Cell)
    requires Sound(mode) && mode.Op? && ValidChunks(cs, shape)
    requires k < |cs| && Covers(cs[k], shape, c)
    ensures var r := ModeChange.ReplicaChunks(mode, shape, cs);
      Asnumpy(Replica, shape, r, c).Some? && Agrees(r[k], shape, c, Asnumpy(Replica, shape, r, c).value)
  {
    var r := ModeChange.ReplicaChunks(mode, shape, cs);
    hide ModeChange.ReplicaChunks, Asnumpy, Settled;
    var cov := Holders(r, shape, c);
    HoldersAt(r, shape, c, k);
    ModeChange.LastHolderExists(cov, k);
    var l :| k <= l < |cov| && CellReduce.IsLast(cov, l);
    HoldersAt(r, shape, c, l);
    assert Covers(r[l], shape, c) && r[k].updates == [] && r[l].updates == [];
    ModeChange.SettledNoUpdates(r[k], Replica, shape, c);
    ModeChange.SettledNoUpdates(r[l], Replica, shape, c);
    assert Some(r[k].data(c)) == Asnumpy(mode, shape, cs, c) == Some(r[l].data(c));
    assert Asnumpy(Replica, shape, r, c) == Some(Settled(r[l], Replica, shape, c));
    assert Agrees(r[k], shape, c, r[k].data(c));
  }

  /** `change_mode('replica')` gives a consistent array: from an op mode
      every chunk is all-reduced to `asnumpy()`'s value, and a replica-mode
      array is returned as it is. */
  lemma ChangeModeConsistent(a: DistArray)
    requires ValidArray(a) && (a.mode == ReplicaMode ==> ReplicaConsistent(a))
    ensures ChangeMode(a, "replica").Ok? && ReplicaConsistent(ChangeMode(a, "replica").value)
  {
    ChangeModeToReplica(a);
    hide ChangeMode, ModeChange.ReplicaChunks, Asnumpy, Agrees;
    if a.mode != ReplicaMode {
      var r := ToReplicaMode(a);
      ModeTableSound(a.mode);
      assert r.chunks == ModeChange.ReplicaChunks(ModeOf(a.mode), a.shape, a.chunks);
      assert r.shape == a.shape && r.mode == ReplicaMode;
      forall k, c | 0 <= k < |r.chunks| && Covers(r.chunks[k], r.shape, c)
        ensures Value(r, c).Some? && Agrees(r.chunks[k], r.shape, c, Value(r, c).value)
      {
        assert Covers(a.chunks[k], a.shape, c);
        AllReducedAgree(ModeOf(a.mode), a.shape, a.chunks, k, c);
      }
    }
  }

  /** `reshard` of a consistent replica-mode array is consistent at every
      cell an old chunk held: each new copy settles to `asnumpy()`'s value
      and every update queued on it carries that value. A cell no old chunk
      held keeps what `cupy.empty` left in each new chunk, which nothing
      makes equal. */
  lemma ReshardArrayConsistent(a: DistArray, indexMap: seq<(int, IdxSpec)>, conv: Conversion, junk: nat -> Cell -> Int64,
                               k: nat, c: Cell)
    requires ValidArray(a) && a.mode == ReplicaMode && ReplicaConsistent(a) && Held(a, c)
    requires ReshardArray(a, indexMap, conv, junk).Ok?
    requires k < |ReshardArray(a, indexMap, conv, junk).value.chunks|
    requires Covers(ReshardArray(a, indexMap, conv, junk).value.chunks[k], a.shape, c)
    ensures var r := ReshardArray(a, indexMap, conv, junk).value;
      Value(r, c).Some? && Agrees(r.chunks[k], r.shape, c, Value(r, c).value)
  {
    hide ReshardArray, Normalize, Flatten, Value, ReplicaConsistent, Resharding.Reshard, Settled, Agrees;
    var r := ReshardArray(a, indexMap, conv, junk).value;
    var targets := Flatten(Normalize(a.shape, indexMap, conv).value);
    ReshardArrayIs(a, indexMap, conv, junk);
    ReshardArrayKeepsValues(a, indexMap, conv, junk, c);
    ConsistentHolders(a, c);
    var v := Value(a, c).value;
    assert r.chunks[k].index == targets[k].1 && r.shape == a.shape;
    Resharding.ReshardReplicaAgrees(a.shape, a.chunks, targets, junk, k, c, v);
  }

  /** In a consistent array every holder of a cell settles to `asnumpy()`'s
      value there. */
  lemma ConsistentHolders(a: DistArray, c: Cell)
    requires ReplicaConsistent(a) && Held(a, c)
    ensures Value(a, c).Some?
    ensures forall j :: 0 <= j < |a.chunks| && Covers(a.chunks[j], a.shape, c) ==>
      Settled(a.chunks[j], Replica, a.shape, c) == Value(a, c).value
  {
    var h :| 0 <= h < |a.chunks| && Covers(a.chunks[h], a.shape, c);
    assert Agrees(a.chunks[h], a.shape, c, Value(a, c).value);
  }

  // ---------------------------------------------------------------------
  // The chunks a reduction runs on

  /** For an idempotent operator, payloads that all equal `v` reduce to `v`,
      or to the identity when none reaches the cell. */
  lemma {:induction false} ContributionsAllEqual(m: Monoid<Int64>, us: seq<Update<Int64>>, shape: seq<nat>, c: Cell, v: Int64)
    requires Lawful(m) && Idempotent(m)
    requires forall i :: 0 <= i < |us| && CellIn(us[i].index, shape, c) ==> us[i].payload(c) == v
    ensures Contributions(us, m, shape, c) == if LastWrite(us, shape, c).Some? then v else m.unit
    decreases |us|
  {
    if |us| > 0 {
      var n := |us| - 1;
      assert forall i :: 0 <= i < n ==> us[..n][i] == us[i];
      ContributionsAllEqual(m, us[..n], shape, c, v);
      assert LastWrite(us, shape, c).Some? <==> LastWrite(us[..n], shape, c).Some? || CellIn(us[n].index, shape, c);
    }
  }

  /** `_set_identity_on_ignored_entries` makes a chunk that agrees on `v`
      settle to `v` in an idempotent op mode too. */
  lemma OverwrittenSettles(m: Monoid<Int64>, ch: Chunk<Int64>, shape: seq<nat>, c: Cell, v: Int64)
    requires Lawful(m) && Idempotent(m) && Agrees(ch, shape, c, v)
    ensures Settled(SetIdentityOnIgnoredEntries(m.unit, ch, shape), Op(m, true), shape, c) == v
  {
    var ch' := SetIdentityOnIgnoredEntries(m.unit, ch, shape);
    DrainOp(ch'.data, ch'.updates, m, true, shape, c);
    DrainReplica(ch.data, ch.updates, shape, c);
    ContributionsAllEqual(m, ch.updates, shape, c, v);
    if LastWrite(ch.updates, shape, c).Some? {
      assert ch'.data(c) == m.unit;
      assert m.combine(m.unit, v) == v;
    } else {
      assert ch'.data(c) == ch.data(c) == v;
      assert m.combine(v, m.unit) == m.combine(m.unit, v) == v;
    }
  }

  /** The `overwrites` loop over every chunk. */
  function Overwrite(identity: Int64, shape: seq<nat>, cs: seq<Chunk<Int64>>): (r: seq<Chunk<Int64>>)
    ensures SameLayout(cs, r)
    ensures forall k :: 0 <= k < |r| ==> r[k] == SetIdentityOnIgnoredEntries(identity, cs[k], shape)
  {
    seq(|cs|, k requires 0 <= k < |cs| => SetIdentityOnIgnoredEntries(identity, cs[k], shape))
  }

  /** The mode each supported reduction kernel runs in: `cupy_<mode>` for
      the four op modes. */
  function KernelMode(kernel: string): (r: Option<ModeName>)
    ensures r.Some? ==> r.value != ReplicaMode && kernel == "cupy_" + ModeString(r.value)
    ensures r.None? ==> forall name :: name != ReplicaMode ==> kernel != "cupy_" + ModeString(name)
  {
    if kernel == "cupy_max" then Some(MaxMode)
    else if kernel == "cupy_min" then Some(MinMode)
    else if kernel == "cupy_sum" then Some(SumMode)
    else if kernel == "cupy_prod" then Some(ProdMode)
    else None
  }

  /** The mode a reduction kernel runs in, with the chunks it runs on: `out`
      and `keepdims` are rejected, and so is any kernel but `cupy_max`,
      `cupy_min`, `cupy_sum` and `cupy_prod`. */
  function ReductionChunks(a: DistArray, kernel: string, outGiven: bool, keepdims: bool): (r: Result<(ModeName, seq<Chunk<Int64>>)>)
    requires ValidArray(a)
    ensures r.Err? <==> outGiven || keepdims || KernelMode(kernel).None?
    ensures r.Err? ==> r.error == RuntimeError
    ensures r.Ok? ==> r.value.0 == KernelMode(kernel).value
    ensures r.Ok? ==> SameLayout(a.chunks, r.value.1) && ValidChunks(r.value.1, a.shape)
    ensures r.Ok? && r.value.0 == a.mode ==> r.value.1 == a.chunks
  {
    if outGiven || keepdims then Err(RuntimeError)
    else match KernelMode(kernel)
      case None => Err(RuntimeError)
      case Some(name) =>
        if a.mode == name then Ok((name, a.chunks))
        else if name == MaxMode || name == MinMode then
          var rep := ModeChange.ReplicaChunks(ModeOf(a.mode), a.shape, a.chunks);
          Ok((name, Overwrite(ModeOf(name).monoid.unit, a.shape, rep)))
        else Ok((name, ModeChange.OpModeChunks(ModeOf(a.mode), ModeOf(name).monoid, a.shape, a.chunks)))
  }

  /** In an idempotent op mode, holders that all settle to `v` give `v`. */
  lemma AllHoldersSettleTo(m: Monoid<Int64>, shape: seq<nat>, cs: seq<Chunk<Int64>>, c: Cell, v: Int64, h: nat)
    requires Lawful(m) && Idempotent(m) && h < |cs| && Covers(cs[h], shape, c)
    requires forall j :: 0 <= j < |cs| && Covers(cs[j], shape, c) ==> Settled(cs[j], Op(m, true), shape, c) == v
    ensures Asnumpy(Op(m, true), shape, cs, c) == Some(v)
  {
    var cov, col := Holders(cs, shape, c), Column(cs, Op(m, true), shape, c);
    CellReduce.PrefixAllEqual(m, cov, col, v, |cs|);
    assert cov[h];
  }

  /** `max` or `min` on an array in another mode: the replica-mode chunks,
      overwritten, hold the array's values when read in the new mode. */
  lemma OverwriteKeepsValues(a: DistArray, name: ModeName, c: Cell, h: nat)
    requires ValidArray(a) && (name == MaxMode || name == MinMode) && a.mode != name
    requires h < |a.chunks| && Covers(a.chunks[h], a.shape, c)
    requires a.mode == ReplicaMode ==> ReplicaConsistent(a)
    ensures Asnumpy(ModeOf(name), a.shape,
      Overwrite(ModeOf(name).monoid.unit, a.shape, ModeChange.ReplicaChunks(ModeOf(a.mode), a.shape, a.chunks)), c) == Value(a, c)
  {
    ModeTableSound(a.mode);
    ModeTableSound(name);
    hide Asnumpy, Settled;
    var m := ModeOf(name).monoid;
    var rep := ModeChange.ReplicaChunks(ModeOf(a.mode), a.shape, a.chunks);
    var cs := Overwrite(m.unit, a.shape, rep);
    assert Value(a, c).Some? by {
      if a.mode == ReplicaMode {
        assert Agrees(a.chunks[h], a.shape, c, Value(a, c).value);
      }
    }
    var v := Value(a, c).value;
    forall j | 0 <= j < |cs| && Covers(cs[j], a.shape, c)
      ensures Settled(cs[j], Op(m, true), a.shape, c) == v
    {
      assert Covers(a.chunks[j], a.shape, c);
      if a.mode == ReplicaMode {
        assert rep == a.chunks;
      } else {
        assert Some(rep[j].data(c)) == Value(a, c);
        ModeChange.SettledNoUpdates(rep[j], Replica, a.shape, c);
      }
      OverwrittenSettles(m, rep[j], a.shape, c, v);
    }
    AllHoldersSettleTo(m, a.shape, cs, c, v, h);
  }

  /** The chunks of an accepted reduction, by mode. */
  lemma ReductionChunksIs(a: DistArray, kernel: string, outGiven: bool, keepdims: bool)
    requires ValidArray(a) && ReductionChunks(a, kernel, outGiven, keepdims).Ok?
    ensures var (name, cs) := ReductionChunks(a, kernel, outGiven, keepdims).value;
      cs == if name == a.mode then a.chunks
        else if name == MaxMode || name == MinMode then
          Overwrite(ModeOf(name).monoid.unit, a.shape, ModeChange.ReplicaChunks(ModeOf(a.mode), a.shape, a.chunks))
        else ModeChange.OpModeChunks(ModeOf(a.mode), ModeOf(name).monoid, a.shape, a.chunks)
    ensures ReductionChunks(a, kernel, outGiven, keepdims).value.0 != ReplicaMode
  {
  }

  /** The chunks a reduction runs on, read in its mode, hold `asnumpy()`'s
      value at every held cell, provided a replica-mode array is
      consistent. */
  lemma ReductionKeepsValues(a: DistArray, kernel: string, outGiven: bool, keepdims: bool, c: Cell)
    requires ValidArray(a) && ReductionChunks(a, kernel, outGiven, keepdims).Ok? && Held(a, c)
    requires a.mode == ReplicaMode ==> ReplicaConsistent(a)
    ensures var (name, cs) := ReductionChunks(a, kernel, outGiven, keepdims).value;
      Asnumpy(ModeOf(name), a.shape, cs, c) == Value(a, c)
  {
    ReductionChunksIs(a, kernel, outGiven, keepdims);
    hide ReductionChunks, Asnumpy, ModeChange.OpModeChunks, ModeChange.ReplicaChunks, Overwrite, ReplicaConsistent;
    var (name, cs) := ReductionChunks(a, kernel, outGiven, keepdims).value;
    var h :| 0 <= h < |a.chunks| && Covers(a.chunks[h], a.shape, c);
    if name == a.mode {
    } else if name == MaxMode || name == MinMode {
      OverwriteKeepsValues(a, name, c, h);
    } else {
      ModeTableSound(a.mode);
      ModeTableSound(name);
      var to := ModeOf(name);
      ModeChange.OpModeChunksKeepValues(ModeOf(a.mode), to.monoid, to.idempotent, a.shape, a.chunks, c, h);
    }
  }
}
