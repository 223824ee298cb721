/** `_DistributedArray` over int64 elements: its shape, its mode (a key of
    `_MODES`), its devices in the order of its chunk map, its chunks
    flattened in that order, and the devices that have a communicator.
    `Value` is what `asnumpy()` returns at a cell. */
module DistArrays {
  import opened Wrappers
  import opened Slices
  import opened IndexAlgebra
  import opened Modes
  import opened Chunks
  import opened Consistency
  import opened Materialize
  import opened IndexMaps
  import Construction
  import ModeChange
  import Resharding

  datatype DistArray = DistArray(shape: seq<nat>, mode: ModeName, devices: seq<int>, chunks: seq<Chunk<Int64>>, comms: set<int>)

  /** Every chunk of the array has a valid index. */
  predicate ValidArray(a: DistArray) {
    ValidChunks(a.chunks, a.shape)
  }

  /** `a.asnumpy()[c]`; `None` is what `numpy.empty` left uninitialised. */
  function Value(a: DistArray, c: Cell): Option<Int64> {
    Asnumpy(ModeOf(a.mode), a.shape, a.chunks, c)
  }

  /** Some chunk of the array holds the cell. */
  predicate Held(a: DistArray, c: Cell) {
    exists k :: 0 <= k < |a.chunks| && Covers(a.chunks[k], a.shape, c)
  }

  /** The `mode` property: the key of `_MODES` the array's mode is stored
      under. */
  function ModeProperty(a: DistArray): (s: string)
    ensures ParseMode(s) == Ok(a.mode)
  {
    ParseModeString(a.mode);
    ModeString(a.mode)
  }

  /** The keys of `index_map`, in order. */
  function Keys(m: seq<(int, IdxSpec)>): (r: seq<int>)
    ensures |r| == |m| && forall k :: 0 <= k < |m| ==> r[k] == m[k].0
  {
    seq(|m|, k requires 0 <= k < |m| => m[k].0)
  }

  /** The communicators `__new__` keeps: the given ones when there are any,
      else one per device when NCCL is available, else RuntimeError. */
  function Comms(given: set<int>, devices: seq<int>, ncclAvailable: bool): (r: Result<set<int>>)
    ensures r.Err? <==> given == {} && !ncclAvailable
    ensures r.Err? ==> r.error == RuntimeError
    ensures r.Ok? && given != {} ==> r.value == given
    ensures r.Ok? && given == {} ==> forall d :: d in r.value <==> d in devices
  {
    if given != {} then Ok(given)
    else if ncclAvailable then Ok(set k | 0 <= k < |devices| :: devices[k])
    else Err(RuntimeError)
  }

  // ---------------------------------------------------------------------
  // distributed_array

  /** `distributed_array(array, index_map, mode, comms)` for an array of
      the given shape whose element at `c` is `data(c)`, with the index map
      converted as `conv` says. */
  function DistributedArray(data: Cell -> Int64, shape: seq<nat>, indexMap: seq<(int, IdxSpec)>, mode: string,
                            comms: set<int>, ncclAvailable: bool, conv: Conversion): (r: Result<DistArray>)
    ensures ParseMode(mode).Err? ==> r == Err(RuntimeError)
    ensures ParseMode(mode).Ok? && Normalize(shape, indexMap, conv).Err? ==> r == Err(Normalize(shape, indexMap, conv).error)
    ensures ParseMode(mode).Ok? && Normalize(shape, indexMap, conv).Ok? ==> (r.Err? <==> comms == {} && !ncclAvailable)
    ensures r.Ok? ==> ValidArray(r.value) && r.value.shape == shape && ModeString(r.value.mode) == mode
    ensures r.Ok? ==> r.value.devices == Keys(indexMap)
    ensures r.Ok? ==> forall k :: 0 <= k < |r.value.chunks| ==> r.value.chunks[k].updates == []
    ensures r.Ok? ==> var t := Flatten(Normalize(shape, indexMap, conv).value);
      |r.value.chunks| == |t| &&
      forall k :: 0 <= k < |t| ==> r.value.chunks[k].device == t[k].0 && r.value.chunks[k].index == t[k].1
  {
    var name :- ParseMode(mode);
    var n :- Normalize(shape, indexMap, conv);
    var targets := Flatten(n);
    var cs := Construction.Split(ModeOf(name), shape, data, targets);
    var comms' :- Comms(comms, Keys(indexMap), ncclAvailable);
    FlattenValid(shape, indexMap, conv);
    assert ValidChunks(cs, shape) by {
      forall k | 0 <= k < |cs|
        ensures ValidIndex(cs[k].index, shape)
      {
        assert targets[k] in targets;
      }
    }
    Ok(DistArray(shape, name, Keys(indexMap), cs, comms'))
  }

  /** The chunks `distributed_array` builds: the split of the array over
      the normalised map's (device, index) pairs, in map order. */
  lemma DistributedArrayIs(data: Cell -> Int64, shape: seq<nat>, indexMap: seq<(int, IdxSpec)>, mode: string,
                           comms: set<int>, ncclAvailable: bool, conv: Conversion)
    requires DistributedArray(data, shape, indexMap, mode, comms, ncclAvailable, conv).Ok?
    ensures var a := DistributedArray(data, shape, indexMap, mode, comms, ncclAvailable, conv).value;
      a.chunks == Construction.Split(ModeOf(a.mode), shape, data, Flatten(Normalize(shape, indexMap, conv).value))
  {
  }

  /** Some index the normalised map lists, on any device, selects `c`. */
  predicate Listed(n: seq<(int, seq<seq<Slice>>)>, shape: seq<nat>, c: Cell) {
    exists k, i :: 0 <= k < |n| && 0 <= i < |n[k].1| && CellIn(n[k].1[i], shape, c)
  }

  /** `distributed_array(a, ...).asnumpy()`: a cell is held exactly when an
      index of the normalised map selects it, and then it reads back as
      `a`; any other cell is the identity in an op mode and uninitialised
      in replica mode. */
  lemma DistributedArrayRoundTrip(data: Cell -> Int64, shape: seq<nat>, indexMap: seq<(int, IdxSpec)>, mode: string,
                                  comms: set<int>, ncclAvailable: bool, conv: Conversion, c: Cell)
    requires DistributedArray(data, shape, indexMap, mode, comms, ncclAvailable, conv).Ok?
    ensures var a := DistributedArray(data, shape, indexMap, mode, comms, ncclAvailable, conv).value;
      Held(a, c) <==> Listed(Normalize(shape, indexMap, conv).value, shape, c)
    ensures var a := DistributedArray(data, shape, indexMap, mode, comms, ncclAvailable, conv).value;
      Held(a, c) ==> Value(a, c) == Some(data(c))
    ensures var a := DistributedArray(data, shape, indexMap, mode, comms, ncclAvailable, conv).value;
      !Held(a, c) ==> Value(a, c) == if a.mode == ReplicaMode then None else Some(ModeOf(a.mode).monoid.unit)
  {
    var a := DistributedArray(data, shape, indexMap, mode, comms, ncclAvailable, conv).value;
    var targets := Flatten(Normalize(shape, indexMap, conv).value);
    DistributedArrayIs(data, shape, indexMap, mode, comms, ncclAvailable, conv);
    ModeTableSound(a.mode);
    Construction.SplitRoundTrip(ModeOf(a.mode), shape, data, targets, c);
    HeldSplit(a, data, targets, c);
    ListedFlatten(Normalize(shape, indexMap, conv).value, shape, c);
  }

  /** An array split over `targets` holds exactly the cells some target
      selects. */
  lemma HeldSplit(a: DistArray, data: Cell -> Int64, targets: seq<(int, seq<Slice>)>, c: Cell)
    requires a.chunks == Construction.Split(ModeOf(a.mode), a.shape, data, targets)
    ensures Held(a, c) <==> Construction.HeldBefore(a.shape, targets, c, |targets|)
  {
    if Held(a, c) {
      var k :| 0 <= k < |a.chunks| && Covers(a.chunks[k], a.shape, c);
      assert CellIn(targets[k].1, a.shape, c);
    }
    if Construction.HeldBefore(a.shape, targets, c, |targets|) {
      var k :| 0 <= k < |targets| && CellIn(targets[k].1, a.shape, c);
      assert Covers(a.chunks[k], a.shape, c);
    }
  }

  /** Flattening keeps exactly the listed indices, so some flattened target
      selects `c` iff some listed index does. */
  lemma ListedFlatten(n: seq<(int, seq<seq<Slice>>)>, shape: seq<nat>, c: Cell)
    ensures Construction.HeldBefore(shape, Flatten(n), c, |Flatten(n)|) <==> Listed(n, shape, c)
  {
    var targets := Flatten(n);
    if Construction.HeldBefore(shape, targets, c, |targets|) {
      var k :| 0 <= k < |targets| && CellIn(targets[k].1, shape, c);
      assert targets[k] in targets;
      var j, i :| 0 <= j < |n| && targets[k].0 == n[j].0 && 0 <= i < |n[j].1| && n[j].1[i] == targets[k].1;
      assert CellIn(n[j].1[i], shape, c);
    }
    if Listed(n, shape, c) {
      var j, i :| 0 <= j < |n| && 0 <= i < |n[j].1| && CellIn(n[j].1[i], shape, c);
      assert n[j].1[i] in n[j].1;
      assert (n[j].0, n[j].1[i]) in targets;
      var k :| 0 <= k < |targets| && targets[k] == (n[j].0, n[j].1[i]);
      assert CellIn(targets[k].1, shape, c);
    }
  }

  // ---------------------------------------------------------------------
  // Mode changes

  /** `to_replica_mode()`. */
  function ToReplicaMode(a: DistArray): (r: DistArray)
    requires ValidArray(a)
    ensures ValidArray(r) && r.mode == ReplicaMode
    ensures r.shape == a.shape && r.devices == a.devices && r.comms == a.comms && SameLayout(a.chunks, r.chunks)
  {
    if a.mode == ReplicaMode then a
    else a.(mode := ReplicaMode, chunks := ModeChange.ReplicaChunks(ModeOf(a.mode), a.shape, a.chunks))
  }

  /** `to_replica_mode()` keeps `asnumpy()` at every held cell. */
  lemma ToReplicaModeKeepsValues(a: DistArray, c: Cell)
    requires ValidArray(a) && Held(a, c)
    ensures Value(ToReplicaMode(a), c) == Value(a, c)
  {
    if a.mode != ReplicaMode {
      var k :| 0 <= k < |a.chunks| && Covers(a.chunks[k], a.shape, c);
      ModeTableSound(a.mode);
      ModeChange.ReplicaChunksKeepValues(ModeOf(a.mode), a.shape, a.chunks, c, k);
    }
  }

  /** `change_mode(mode)`. */
  function ChangeMode(a: DistArray, mode: string): (r: Result<DistArray>)
    requires ValidArray(a)
    ensures r.Err? <==> ParseMode(mode).Err?
    ensures r.Err? ==> r.error == RuntimeError
    ensures r.Ok? ==> ValidArray(r.value) && ModeString(r.value.mode) == mode
    ensures r.Ok? ==> r.value.shape == a.shape && r.value.devices == a.devices && r.value.comms == a.comms
    ensures r.Ok? ==> SameLayout(a.chunks, r.value.chunks)
    ensures ParseMode(mode) == Ok(a.mode) ==> r == Ok(a)
  {
    var name :- ParseMode(mode);
    if name == a.mode then Ok(a)
    else if ModeOf(name).Op? then
      Ok(a.(mode := name, chunks := ModeChange.OpModeChunks(ModeOf(a.mode), ModeOf(name).monoid, a.shape, a.chunks)))
    else
      Ok(a.(mode := name, chunks := ModeChange.ReplicaChunks(ModeOf(a.mode), a.shape, a.chunks)))
  }

  /** `change_mode('replica')` is `to_replica_mode()`. */
  lemma ChangeModeToReplica(a: DistArray)
    requires ValidArray(a)
    ensures ChangeMode(a, "replica") == Ok(ToReplicaMode(a))
  {
    ParseModeString(ReplicaMode);
  }

  /** `change_mode` keeps `asnumpy()` at every held cell, between any two
      modes. */
  lemma ChangeModeKeepsValues(a: DistArray, mode: string, c: Cell)
    requires ValidArray(a) && ChangeMode(a, mode).Ok? && Held(a, c)
    ensures Value(ChangeMode(a, mode).value, c) == Value(a, c)
  {
    var name := ParseMode(mode).value;
    var k :| 0 <= k < |a.chunks| && Covers(a.chunks[k], a.shape, c);
    ModeTableSound(a.mode);
    ModeTableSound(name);
    if name != a.mode {
      var to := ModeOf(name);
      if to.Op? {
        ModeChange.OpModeChunksKeepValues(ModeOf(a.mode), to.monoid, to.idempotent, a.shape, a.chunks, c, k);
      } else {
        ModeChange.ReplicaChunksKeepValues(ModeOf(a.mode), a.shape, a.chunks, c, k);
      }
    }
  }

  // ---------------------------------------------------------------------
  // reshard

  /** The chunk indices of a normalised map are valid. */
  lemma TargetsValid(shape: seq<nat>, indexMap: seq<(int, IdxSpec)>, conv: Conversion)
    requires Normalize(shape, indexMap, conv).Ok?
    ensures Resharding.ValidTargets(Flatten(Normalize(shape, indexMap, conv).value), shape)
  {
    var targets := Flatten(Normalize(shape, indexMap, conv).value);
    FlattenValid(shape, indexMap, conv);
    forall k | 0 <= k < |targets|
      ensures ValidIndex(targets[k].1, shape)
    {
      assert targets[k] in targets;
    }
  }

  /** `cupy.empty(dst_shape)` or `cupy.full(dst_shape, ...)` raises
      ValueError: `_shape_after_indexing` gave a negative extent. */
  predicate AllocFails(shape: seq<nat>, idx: seq<Slice>) {
    && ShapeAfterIndexing(shape, idx).Ok?
    && exists d :: 0 <= d < |ShapeAfterIndexing(shape, idx).value| && ShapeAfterIndexing(shape, idx).value[d] < 0
  }

  /** Some new chunk cannot be allocated. */
  predicate SomeAllocFails(shape: seq<nat>, targets: seq<(int, seq<Slice>)>) {
    exists k :: 0 <= k < |targets| && AllocFails(shape, targets[k].1)
  }

  /** An index that selects something on every axis has a positive extent
      on every axis, so its chunk can be allocated. */
  lemma NonemptyAllocates(shape: seq<nat>, idx: seq<Slice>)
    requires ValidIndex(idx, shape) && NonemptyIndex(idx, shape)
    ensures !AllocFails(shape, idx)
  {
    ConvertedShape(shape, idx);
  }

  /** `reshard(index_map)`, with the index map converted as `conv` says.
      `junk(k)` is what `cupy.empty` leaves in the `k`-th new replica-mode
      chunk. */
  function ReshardArray(a: DistArray, indexMap: seq<(int, IdxSpec)>, conv: Conversion, junk: nat -> Cell -> Int64): (r: Result<DistArray>)
    requires ValidArray(a)
    ensures (exists k :: 0 <= k < |indexMap| && indexMap[k].0 !in a.comms) ==> r == Err(RuntimeError)
    ensures (forall k :: 0 <= k < |indexMap| ==> indexMap[k].0 in a.comms) ==>
      && (r.Err? <==> Normalize(a.shape, indexMap, conv).Err? ||
                      SomeAllocFails(a.shape, Flatten(Normalize(a.shape, indexMap, conv).value)))
      && (Normalize(a.shape, indexMap, conv).Err? ==> r == Err(Normalize(a.shape, indexMap, conv).error))
      && (r.Err? && Normalize(a.shape, indexMap, conv).Ok? ==> r.error == ValueError)
    ensures r.Ok? ==> ValidArray(r.value) && r.value.shape == a.shape && r.value.mode == a.mode && r.value.comms == a.comms
    ensures r.Ok? ==> r.value.devices == Keys(indexMap)
    ensures r.Ok? ==> forall k :: 0 <= k < |r.value.chunks| ==>
      (r.value.chunks[k].device, r.value.chunks[k].index) in Flatten(Normalize(a.shape, indexMap, conv).value)
  {
    if exists k :: 0 <= k < |indexMap| && indexMap[k].0 !in a.comms then Err(RuntimeError)
    else
      var n :- Normalize(a.shape, indexMap, conv);
      var targets := Flatten(n);
      if SomeAllocFails(a.shape, targets) then Err(ValueError)
      else
      TargetsValid(a.shape, indexMap, conv);
      var cs := Resharding.Reshard(ModeOf(a.mode), a.shape, a.chunks, targets, junk);
      assert forall k :: 0 <= k < |cs| ==> (cs[k].device, cs[k].index) == targets[k];
      Ok(a.(devices := Keys(indexMap), chunks := cs))
  }

  /** The chunks `reshard` builds, on the normalised map's targets. */
  lemma ReshardArrayIs(a: DistArray, indexMap: seq<(int, IdxSpec)>, conv: Conversion, junk: nat -> Cell -> Int64)
    requires ValidArray(a) && ReshardArray(a, indexMap, conv, junk).Ok?
    ensures Resharding.ValidTargets(Flatten(Normalize(a.shape, indexMap, conv).value), a.shape)
    ensures ReshardArray(a, indexMap, conv, junk).value.chunks ==
      Resharding.Reshard(ModeOf(a.mode), a.shape, a.chunks, Flatten(Normalize(a.shape, indexMap, conv).value), junk)
  {
    TargetsValid(a.shape, indexMap, conv);
  }

  /** `reshard` keeps `asnumpy()` at every cell a new chunk holds: in an op
      mode always, in replica mode where an old chunk held it too. */
  lemma ReshardArrayKeepsValues(a: DistArray, indexMap: seq<(int, IdxSpec)>, conv: Conversion, junk: nat -> Cell -> Int64, c: Cell)
    requires ValidArray(a) && ReshardArray(a, indexMap, conv, junk).Ok?
    requires Held(ReshardArray(a, indexMap, conv, junk).value, c)
    requires a.mode == ReplicaMode ==> Held(a, c)
    ensures Value(ReshardArray(a, indexMap, conv, junk).value, c) == Value(a, c)
  {
    var r := ReshardArray(a, indexMap, conv, junk).value;
    var targets := Flatten(Normalize(a.shape, indexMap, conv).value);
    TargetsValid(a.shape, indexMap, conv);
    assert r.chunks == Resharding.Reshard(ModeOf(a.mode), a.shape, a.chunks, targets, junk);
    var h :| 0 <= h < |r.chunks| && Covers(r.chunks[h], r.shape, c);
    ModeTableSound(a.mode);
    Resharding.ReshardKeepsValues(ModeOf(a.mode), a.shape, a.chunks, targets, junk, c, h);
  }

  /** Under the intended conversion every new chunk can be allocated, so
      `reshard` fails only for a missing communicator or a bad index. */
  lemma ReshardIntendedAllocates(a: DistArray, indexMap: seq<(int, IdxSpec)>, junk: nat -> Cell -> Int64)
    requires ValidArray(a)
    requires forall k :: 0 <= k < |indexMap| ==> indexMap[k].0 in a.comms
    ensures ReshardArray(a, indexMap, Intended, junk).Err? <==> Normalize(a.shape, indexMap, Intended).Err?
  {
    if Normalize(a.shape, indexMap, Intended).Ok? {
      var targets := Flatten(Normalize(a.shape, indexMap, Intended).value);
      FlattenValid(a.shape, indexMap, Intended);
      forall k | 0 <= k < |targets|
        ensures !AllocFails(a.shape, targets[k].1)
      {
        assert targets[k] in targets;
        NonemptyAllocates(a.shape, targets[k].1);
      }
    }
  }

  /** The as-written conversion of `{0: -1}` on a vector of length 4 is
      the one chunk `slice(-1, 0)`, which cannot be allocated. */
  lemma NegativeIntegerMapUnallocatable()
    ensures Normalize([4], [(0, One(SingleIdx(IntItem(-1))))], AsWritten).Ok?
    ensures SomeAllocFails([4], Flatten(Normalize([4], [(0, One(SingleIdx(IntItem(-1))))], AsWritten).value))
    ensures Normalize([4], [(0, One(SingleIdx(IntItem(-1))))], Intended).Ok?
  {
    var m := [(0, One(SingleIdx(IntItem(-1))))];
    var sh: seq<nat> := [4];
    NegativeIntegerSelectsNothing();
    var x := Slice(Some(-1), Some(0), None);
    assert ConvertChunk(AsWritten, sh, SingleIdx(IntItem(-1))) == Ok([x]);
    assert Converter(sh, AsWritten)(SingleIdx(IntItem(-1))) == Ok([x]);
    var idxs := [SingleIdx(IntItem(-1))];
    assert idxs[0] == SingleIdx(IntItem(-1));
    var ca := ConvertAll(idxs, Converter(sh, AsWritten));
    assert ca.Ok? && |ca.value| == 1 && ca.value[0] == [x];
    assert [x] in multiset(ca.value);
    assert ConvertAll([SingleIdx(IntItem(-1))], Converter(sh, Intended)).Ok?;
    var n := Normalize(sh, m, AsWritten).value;
    assert multiset(n[0].1) == multiset(ca.value);
    assert [x] in multiset(n[0].1);
    assert (0, [x]) in Flatten(n);
    var k :| 0 <= k < |Flatten(n)| && Flatten(n)[k] == (0, [x]);
    assert ShapeAfterIndexing(sh, [x]).value[0] == -3;
    assert AllocFails(sh, Flatten(n)[k].1);
  }

  /** Finding: `reshard({0: -1})` on a vector of length 4 converts `-1` to
      `slice(-1, 0)`, whose extent `_shape_after_indexing` computes as -3,
      and `cupy.empty((-3,))` raises ValueError; the intended conversion
      gives the chunk `slice(3, 4)`. */
  lemma ReshardNegativeIntegerCounterexample(a: DistArray, junk: nat -> Cell -> Int64)
    requires ValidArray(a) && a.shape == [4] && 0 in a.comms
    ensures ReshardArray(a, [(0, One(SingleIdx(IntItem(-1))))], AsWritten, junk) == Err(ValueError)
    ensures ReshardArray(a, [(0, One(SingleIdx(IntItem(-1))))], Intended, junk).Ok?
  {
    hide ReshardArray, Normalize, Flatten;
    var m := [(0, One(SingleIdx(IntItem(-1))))];
    assert forall k :: 0 <= k < |m| ==> m[k].0 in a.comms;
    NegativeIntegerMapUnallocatable();
    ReshardIntendedAllocates(a, [(0, One(SingleIdx(IntItem(-1))))], junk);
  }
}
