/** The host-side checks around kernels on distributed arrays: the argument
    checks of `_execute_kernel`, `_count_chunks_on_devices`, and how
    `__cupy_override_reduction_kernel__` prepares the chunks a reduction
    runs on. The kernels themselves are not modelled. */
module Kernels {
  import opened Wrappers
  import opened Slices
  import opened IndexAlgebra
  import opened Modes
  import opened Chunks
  import opened Consistency
  import opened Materialize
  import opened DistArrays
  import ModeChange
  import CellReduce

  /** The position of a positional argument or the name of a keyword one. */
  datatype ArgKey = Pos(i: nat) | Kw(name: string)

  /** A kernel argument: a distributed array, a plain `cupy.ndarray`, an
      array of another library (a numpy array, say), or a Python scalar,
      which has no `shape`. */
  datatype Arg = Dist(a: DistArray) | Plain(shape: seq<nat>) | Foreign(shape: seq<nat>) | Scalar

  function ShapeOf(x: Arg): seq<nat>
    requires !x.Scalar?
  {
    match x
    case Dist(a) => a.shape
    case Plain(shape) => shape
    case Foreign(shape) => shape
  }

  /** `index_map[d]`: the indices of the chunks on device `d`, in order. */
  function OnDevice(cs: seq<Chunk<Int64>>, d: int): (r: seq<seq<Slice>>)
    ensures |r| <= |cs|
  {
    if |cs| == 0 then []
    else (if cs[0].device == d then [cs[0].index] else []) + OnDevice(cs[1..], d)
  }

  /** Chunk lists with the same devices and indices list the same indices
      on every device. */
  lemma {:induction false} OnDeviceLayout(a: seq<Chunk<Int64>>, b: seq<Chunk<Int64>>, d: int)
    requires SameLayout(a, b)
    ensures OnDevice(a, d) == OnDevice(b, d)
    decreases |a|
  {
    if |a| > 0 {
      OnDeviceLayout(a[1..], b[1..], d);
    }
  }

  /** `a.index_map == b.index_map`: the same keys, and the same list of
      indices under each. */
  predicate SameIndexMap(a: DistArray, b: DistArray) {
    (forall d :: d in a.devices ==> d in b.devices) && (forall d :: d in b.devices ==> d in a.devices)
    && forall d :: d in a.devices ==> OnDevice(a.chunks, d) == OnDevice(b.chunks, d)
  }

  lemma ToReplicaModeIndexMap(a: DistArray)
    requires ValidArray(a)
    ensures SameIndexMap(ToReplicaMode(a), a)
  {
    forall d {
      OnDeviceLayout(ToReplicaMode(a).chunks, a.chunks, d);
    }
  }

  // ---------------------------------------------------------------------
  // _count_chunks_on_devices

  function CountOf(a: DistArray, d: int): nat {
    |OnDevice(a.chunks, d)|
  }

  /** The inner loop over one array's devices. */
  function CountDevices(devs: seq<int>, a: DistArray, counts: map<int, nat>): (r: Result<map<int, nat>>)
    ensures r.Ok? <==> forall i :: 0 <= i < |devs| && devs[i] in counts ==> counts[devs[i]] == CountOf(a, devs[i])
    ensures r.Err? ==> r.error == RuntimeError
    ensures r.Ok? ==> forall d :: d in r.value <==> d in counts || d in devs
    ensures r.Ok? ==> forall d :: d in counts ==> r.value[d] == counts[d]
    ensures r.Ok? ==> forall d :: d in devs ==> r.value[d] == CountOf(a, d)
    decreases |devs|
  {
    if |devs| == 0 then Ok(counts)
    else
      var d := devs[0];
      var counts' := if d in counts then counts else counts[d := CountOf(a, d)];
      if counts'[d] != CountOf(a, d) then Err(RuntimeError)
      else
        var r := CountDevices(devs[1..], a, counts');
        assert forall i :: 1 <= i < |devs| ==> devs[i] == devs[1..][i - 1];
        assert forall e :: e in devs <==> e == d || e in devs[1..];
        r
  }

  /** Every array's count on a device agrees with the others' and with the
      counts gathered so far. */
  predicate Agree(arrays: seq<DistArray>, counts: map<int, nat>) {
    && (forall k, d :: 0 <= k < |arrays| && d in arrays[k].devices && d in counts ==> counts[d] == CountOf(arrays[k], d))
    && (forall k1, k2, d :: 0 <= k1 < |arrays| && 0 <= k2 < |arrays| && d in arrays[k1].devices && d in arrays[k2].devices ==>
          CountOf(arrays[k1], d) == CountOf(arrays[k2], d))
  }

  /** Agreement survives the first array's devices joining the counts. */
  lemma AgreeStep(arrays: seq<DistArray>, counts: map<int, nat>, counts': map<int, nat>)
    requires |arrays| > 0 && CountDevices(arrays[0].devices, arrays[0], counts) == Ok(counts')
    ensures Agree(arrays, counts) ==> Agree(arrays[1..], counts')
  {
    hide CountDevices;
    if Agree(arrays, counts) {
      forall k, d | 0 <= k < |arrays[1..]| && d in arrays[1..][k].devices && d in counts'
        ensures counts'[d] == CountOf(arrays[1..][k], d)
      {
        assert arrays[1..][k] == arrays[k + 1];
      }
      forall k1, k2, d | 0 <= k1 < |arrays[1..]| && 0 <= k2 < |arrays[1..]| && d in arrays[1..][k1].devices && d in arrays[1..][k2].devices
        ensures CountOf(arrays[1..][k1], d) == CountOf(arrays[1..][k2], d)
      {
        assert arrays[1..][k1] == arrays[k1 + 1] && arrays[1..][k2] == arrays[k2 + 1];
      }
    }
  }

  /** The outer loop over the arrays. */
  function CountArrays(arrays: seq<DistArray>, counts: map<int, nat>): (r: Result<map<int, nat>>)
    ensures Agree(arrays, counts) ==> r.Ok?
    ensures r.Err? ==> r.error == RuntimeError
    ensures r.Ok? ==> forall d :: d in counts ==> d in r.value && r.value[d] == counts[d]
    ensures r.Ok? ==> forall k, d :: 0 <= k < |arrays| && d in arrays[k].devices ==> d in r.value && r.value[d] == CountOf(arrays[k], d)
    decreases |arrays|
  {
    if |arrays| == 0 then Ok(counts)
    else
      var a := arrays[0];
      var step := CountDevices(a.devices, a, counts);
      if step.Err? then
        CountDevicesFails(arrays, counts);
        Err(step.error)
      else
        var r := CountArrays(arrays[1..], step.value);
        CountArraysStep(arrays, counts, step.value, r);
        r
  }

  /** A failing first array means the counts did not agree. */
  lemma CountDevicesFails(arrays: seq<DistArray>, counts: map<int, nat>)
    requires |arrays| > 0 && CountDevices(arrays[0].devices, arrays[0], counts).Err?
    ensures !Agree(arrays, counts)
  {
    var devs := arrays[0].devices;
    var i :| 0 <= i < |devs| && devs[i] in counts && counts[devs[i]] != CountOf(arrays[0], devs[i]);
  }

  /** One step of the outer loop: the first array's counts, then the rest. */
  lemma CountArraysStep(arrays: seq<DistArray>, counts: map<int, nat>, counts': map<int, nat>, r: Result<map<int, nat>>)
    requires |arrays| > 0 && CountDevices(arrays[0].devices, arrays[0], counts) == Ok(counts')
    requires Agree(arrays[1..], counts') ==> r.Ok?
    requires r.Ok? ==> forall d :: d in counts' ==> d in r.value && r.value[d] == counts'[d]
    requires r.Ok? ==> forall k, d :: 0 <= k < |arrays[1..]| && d in arrays[1..][k].devices ==> d in r.value && r.value[d] == CountOf(arrays[1..][k], d)
    ensures Agree(arrays, counts) ==> r.Ok?
    ensures r.Ok? ==> forall d :: d in counts ==> d in r.value && r.value[d] == counts[d]
    ensures r.Ok? ==> forall k, d :: 0 <= k < |arrays| && d in arrays[k].devices ==> d in r.value && r.value[d] == CountOf(arrays[k], d)
  {
    AgreeStep(arrays, counts, counts');
    assert forall k :: 1 <= k < |arrays| ==> arrays[k] == arrays[1..][k - 1];
  }

  /** `_count_chunks_on_devices(dist_args)`: RuntimeError when two arrays
      have different numbers of chunks on a device. */
  function CountChunksOnDevices(arrays: seq<DistArray>): (r: Result<map<int, nat>>)
    ensures r.Err? ==> r.error == RuntimeError
    ensures r.Ok? ==> forall k, d :: 0 <= k < |arrays| && d in arrays[k].devices ==> d in r.value && r.value[d] == CountOf(arrays[k], d)
    ensures r.Ok? ==> forall d :: d in r.value ==> exists k :: 0 <= k < |arrays| && d in arrays[k].devices
  {
    CountArraysKeys(arrays, map[]);
    CountArrays(arrays, map[])
  }

  /** The counts gathered are those given and those of the arrays' devices. */
  lemma {:induction false} CountArraysKeys(arrays: seq<DistArray>, counts: map<int, nat>)
    ensures CountArrays(arrays, counts).Ok? ==>
      forall d :: d in CountArrays(arrays, counts).value ==> d in counts || exists k :: 0 <= k < |arrays| && d in arrays[k].devices
    decreases |arrays|
  {
    if |arrays| > 0 {
      var step := CountDevices(arrays[0].devices, arrays[0], counts);
      if step.Ok? {
        CountArraysKeys(arrays[1..], step.value);
        assert forall k :: 1 <= k < |arrays| ==> arrays[k] == arrays[1..][k - 1];
        forall d | CountArrays(arrays, counts).Ok? && d in CountArrays(arrays, counts).value && d !in counts
          ensures exists k :: 0 <= k < |arrays| && d in arrays[k].devices
        {
          if d in step.value && d !in arrays[0].devices {
            assert false;
          }
          if d !in step.value {
            var k :| 0 <= k < |arrays[1..]| && d in arrays[1..][k].devices;
            assert d in arrays[k + 1].devices;
          }
        }
      }
    }
  }

  /** Arrays sharing one index map never make the count fail. */
  lemma CountSameIndexMap(self: DistArray, arrays: seq<DistArray>)
    requires forall k :: 0 <= k < |arrays| ==> SameIndexMap(arrays[k], self)
    ensures CountChunksOnDevices(arrays).Ok?
  {
    assert Agree(arrays, map[]);
  }

  // ---------------------------------------------------------------------
  // _execute_kernel

  /** The distributed operands, with their keys, and the keys of the plain
      arrays. */
  datatype Collected = Collected(dists: seq<(ArgKey, DistArray)>, plains: seq<ArgKey>)

  predicate AnyDist(items: seq<(ArgKey, Arg)>) {
    exists k :: 0 <= k < |items| && items[k].1.Dist?
  }

  predicate AnyPlain(items: seq<(ArgKey, Arg)>) {
    exists k :: 0 <= k < |items| && items[k].1.Plain?
  }

  predicate AnyScalar(items: seq<(ArgKey, Arg)>) {
    exists k :: 0 <= k < |items| && items[k].1.Scalar?
  }

  /** The distributed arguments in order, with their keys; converted to
      replica mode when `replica` holds. */
  function DistsOf(items: seq<(ArgKey, Arg)>, replica: bool): (r: seq<(ArgKey, DistArray)>)
    requires replica ==> ValidArgs(items)
    ensures |r| > 0 <==> AnyDist(items)
    decreases |items|
  {
    if |items| == 0 then []
    else
      var rest := DistsOf(items[1..], replica);
      assert forall k :: 1 <= k < |items| ==> items[k] == items[1..][k - 1];
      assert AnyDist(items[1..]) ==> AnyDist(items);
      match items[0].1
      case Dist(a) => [(items[0].0, if replica then ToReplicaMode(a) else a)] + rest
      case _ => rest
  }

  /** The keys of the plain `cupy.ndarray` arguments, in order. */
  function PlainKeys(items: seq<(ArgKey, Arg)>): (r: seq<ArgKey>)
    ensures |r| > 0 <==> AnyPlain(items)
    ensures forall k :: 0 <= k < |items| && items[k].1.Plain? ==> items[k].0 in r
    decreases |items|
  {
    if |items| == 0 then []
    else
      var rest := PlainKeys(items[1..]);
      assert forall k :: 1 <= k < |items| ==> items[k] == items[1..][k - 1];
      assert AnyPlain(items[1..]) ==> AnyPlain(items);
      if items[0].1.Plain? then [items[0].0] + rest else rest
  }

  /** What the positional loop accepts: an argument with the array's shape
      and, when it is distributed, the array's index map. */
  predicate Fits(self: DistArray, x: Arg) {
    !x.Scalar? && ShapeOf(x) == self.shape && (x.Dist? ==> SameIndexMap(x.a, self))
  }

  /** What the positional loop raises for an argument it refuses: reading
      `shape` off a scalar raises AttributeError, a mismatch RuntimeError. */
  function Misfit(self: DistArray, x: Arg): Error {
    if x.Scalar? then AttributeError else RuntimeError
  }

  /** Every argument passes the positional loop. */
  predicate Matching(self: DistArray, items: seq<(ArgKey, Arg)>) {
    forall k :: 0 <= k < |items| ==> Fits(self, items[k].1)
  }

  /** What the keyword loop as written accepts: only a distributed argument
      that fits, since it reads `arg.index_map` before asking what `arg` is. */
  predicate FitsAsKwarg(self: DistArray, x: Arg) {
    x.Dist? && Fits(self, x)
  }

  /** What the keyword loop as written raises for an argument it refuses, in
      the order it reads `shape` and then `index_map`. */
  function KwMisfit(self: DistArray, x: Arg): Error {
    if x.Scalar? then AttributeError
    else if ShapeOf(x) != self.shape then RuntimeError
    else if !x.Dist? then AttributeError
    else RuntimeError
  }

  predicate KwargsFitAsWritten(self: DistArray, items: seq<(ArgKey, Arg)>) {
    forall k :: 0 <= k < |items| ==> FitsAsKwarg(self, items[k].1)
  }

  /** A loop over `items` that stops at the first argument `accept` refuses
      raised `e`, the error `raise` gives for that argument. */
  ghost predicate RaisedAt(self: DistArray, items: seq<(ArgKey, Arg)>, accept: (DistArray, Arg) -> bool,
                           raise: (DistArray, Arg) -> Error, e: Error) {
    exists k :: 0 <= k < |items| && (forall j :: 0 <= j < k ==> accept(self, items[j].1))
      && !accept(self, items[k].1) && e == raise(self, items[k].1)
  }

  lemma RaisedAtHead(self: DistArray, items: seq<(ArgKey, Arg)>, accept: (DistArray, Arg) -> bool, raise: (DistArray, Arg) -> Error)
    requires |items| > 0 && !accept(self, items[0].1)
    ensures RaisedAt(self, items, accept, raise, raise(self, items[0].1))
  {
    assert !accept(self, items[0].1);
  }

  lemma RaisedAtShift(self: DistArray, items: seq<(ArgKey, Arg)>, accept: (DistArray, Arg) -> bool,
                      raise: (DistArray, Arg) -> Error, e: Error)
    requires |items| > 0 && accept(self, items[0].1) && RaisedAt(self, items[1..], accept, raise, e)
    ensures RaisedAt(self, items, accept, raise, e)
  {
    var k :| 0 <= k < |items[1..]| && (forall j :: 0 <= j < k ==> accept(self, items[1..][j].1))
      && !accept(self, items[1..][k].1) && e == raise(self, items[1..][k].1);
    forall j | 0 <= j < k + 1
      ensures accept(self, items[j].1)
    {
      if j > 0 {
        assert items[j] == items[1..][j - 1];
      }
    }
    assert items[k + 1] == items[1..][k];
  }

  predicate ValidArgs(items: seq<(ArgKey, Arg)>) {
    forall k :: 0 <= k < |items| ==> items[k].1.Dist? ==> ValidArray(items[k].1.a)
  }

  /** What one accepted positional argument adds: a distributed array in
      replica mode, or the key of a plain array; any other array is passed
      over. */
  function Take(x: (ArgKey, Arg), rest: Collected): Collected
    requires x.1.Dist? ==> ValidArray(x.1.a)
  {
    match x.1
    case Dist(a) => rest.(dists := [(x.0, ToReplicaMode(a))] + rest.dists)
    case Plain(_) => rest.(plains := [x.0] + rest.plains)
    case _ => rest
  }

  /** One step of the positional loop over an argument it accepts. */
  lemma CollectArgsStep(self: DistArray, items: seq<(ArgKey, Arg)>, rest: Collected)
    requires ValidArgs(items) && |items| > 0 && Fits(self, items[0].1)
    requires rest == Collected(DistsOf(items[1..], true), PlainKeys(items[1..]))
    requires forall j :: 0 <= j < |rest.dists| ==> rest.dists[j].1.mode == ReplicaMode && SameIndexMap(rest.dists[j].1, self)
    ensures Take(items[0], rest) == Collected(DistsOf(items, true), PlainKeys(items))
    ensures forall j :: 0 <= j < |Take(items[0], rest).dists| ==>
      Take(items[0], rest).dists[j].1.mode == ReplicaMode && SameIndexMap(Take(items[0], rest).dists[j].1, self)
  {
    if items[0].1.Dist? {
      ToReplicaModeIndexMap(items[0].1.a);
    }
  }

  /** The loop over the positional arguments: a scalar raises AttributeError
      at `arg.shape`, a wrong shape or index map raises RuntimeError,
      distributed arguments are converted to replica mode, plain arrays are
      set aside and arrays of other libraries are passed over. */
  function CollectArgs(self: DistArray, items: seq<(ArgKey, Arg)>): (r: Result<Collected>)
    requires ValidArgs(items)
    ensures r.Ok? <==> Matching(self, items)
    ensures r.Err? ==> RaisedAt(self, items, Fits, Misfit, r.error)
    ensures r.Err? && r.error != RuntimeError ==> r.error == AttributeError && AnyScalar(items)
    ensures r.Ok? ==> r.value == Collected(DistsOf(items, true), PlainKeys(items))
    ensures r.Ok? ==> forall j :: 0 <= j < |r.value.dists| ==>
      r.value.dists[j].1.mode == ReplicaMode && SameIndexMap(r.value.dists[j].1, self)
    ensures r.Ok? ==> forall k :: 0 <= k < |items| && items[k].1.Plain? ==> items[k].0 in r.value.plains
    ensures r.Ok? && (forall k :: 0 <= k < |items| ==> items[k].1.Dist?) ==> r.value.plains == []
    decreases |items|
  {
    if |items| == 0 then Ok(Collected([], []))
    else
      var x := items[0].1;
      assert forall k :: 1 <= k < |items| ==> items[k] == items[1..][k - 1];
      if x.Scalar? || ShapeOf(x) != self.shape || (x.Dist? && !SameIndexMap(x.a, self)) then
        RaisedAtHead(self, items, Fits, Misfit);
        if x.Scalar? then Err(AttributeError) else Err(RuntimeError)
      else
        match CollectArgs(self, items[1..])
        case Err(e) =>
          RaisedAtShift(self, items, Fits, Misfit, e);
          Err(e)
        case Ok(rest) =>
          CollectArgsStep(self, items, rest);
          Ok(Take(items[0], rest))
  }

  /** The loop over the keyword arguments as written: `arg.index_map` is read
      before asking whether `arg` is distributed, so anything else with the
      right shape raises AttributeError, and distributed ones keep their
      mode. */
  function CollectKwargsAsWritten(self: DistArray, items: seq<(ArgKey, Arg)>): (r: Result<Collected>)
    ensures r.Ok? <==> Matching(self, items) && forall k :: 0 <= k < |items| ==> items[k].1.Dist?
    ensures r.Ok? <==> KwargsFitAsWritten(self, items)
    ensures r.Err? ==> RaisedAt(self, items, FitsAsKwarg, KwMisfit, r.error)
    ensures r.Ok? ==> r.value == Collected(DistsOf(items, false), [])
    ensures r.Ok? ==> r.value.plains == [] && |r.value.dists| == |items|
    ensures r.Ok? ==> forall k :: 0 <= k < |items| ==> r.value.dists[k] == (items[k].0, items[k].1.a)
    ensures r.Ok? ==> forall j :: 0 <= j < |r.value.dists| ==> SameIndexMap(r.value.dists[j].1, self)
    decreases |items|
  {
    if |items| == 0 then Ok(Collected([], []))
    else
      var (key, x) := items[0];
      assert forall k :: 1 <= k < |items| ==> items[k] == items[1..][k - 1];
      if x.Scalar? || ShapeOf(x) != self.shape || !x.Dist? || !SameIndexMap(x.a, self) then
        RaisedAtHead(self, items, FitsAsKwarg, KwMisfit);
        if x.Scalar? then Err(AttributeError)
        else if ShapeOf(x) != self.shape then Err(RuntimeError)
        else if !x.Dist? then Err(AttributeError)
        else Err(RuntimeError)
      else
        match CollectKwargsAsWritten(self, items[1..])
        case Err(e) =>
          RaisedAtShift(self, items, FitsAsKwarg, KwMisfit, e);
          Err(e)
        case Ok(rest) =>
          CollectKwargsStep(self, items, rest);
          Ok(rest.(dists := [(key, x.a)] + rest.dists))
  }

  /** One step of the keyword loop as written over an argument it accepts. */
  lemma CollectKwargsStep(self: DistArray, items: seq<(ArgKey, Arg)>, rest: Collected)
    requires |items| > 0 && KwargsFitAsWritten(self, items)
    requires rest == Collected(DistsOf(items[1..], false), [])
    requires |rest.dists| == |items| - 1
    requires forall k :: 0 <= k < |items| - 1 ==> rest.dists[k] == (items[1..][k].0, items[1..][k].1.a)
    requires forall j :: 0 <= j < |rest.dists| ==> SameIndexMap(rest.dists[j].1, self)
    ensures var r := rest.(dists := [(items[0].0, items[0].1.a)] + rest.dists);
      && r == Collected(DistsOf(items, false), [])
      && |r.dists| == |items|
      && (forall k :: 0 <= k < |items| ==> r.dists[k] == (items[k].0, items[k].1.a))
      && (forall j :: 0 <= j < |r.dists| ==> SameIndexMap(r.dists[j].1, self))
  {
    var r := rest.(dists := [(items[0].0, items[0].1.a)] + rest.dists);
    forall k | 0 <= k < |items|
      ensures r.dists[k] == (items[k].0, items[k].1.a)
    {
      if k > 0 {
        assert r.dists[k] == rest.dists[k - 1];
        assert items[k] == items[1..][k - 1];
      }
    }
  }

  function Operands(ds: seq<(ArgKey, DistArray)>): (r: seq<DistArray>)
    ensures |r| == |ds| && forall j :: 0 <= j < |ds| ==> r[j] == ds[j].1
  {
    seq(|ds|, j requires 0 <= j < |ds| => ds[j].1)
  }

  /** Some array holds a chunk on one of its devices. */
  predicate HoldsChunks(arrays: seq<DistArray>) {
    exists k, d :: 0 <= k < |arrays| && d in arrays[k].devices && CountOf(arrays[k], d) > 0
  }

  /** Some device has a chunk exactly when some array holds one. */
  lemma CountsHoldChunks(arrays: seq<DistArray>, counts: map<int, nat>)
    requires CountChunksOnDevices(arrays) == Ok(counts)
    ensures (exists d :: d in counts && counts[d] > 0) <==> HoldsChunks(arrays)
  {
    if d :| d in counts && counts[d] > 0 {
      var k :| 0 <= k < |arrays| && d in arrays[k].devices;
      assert CountOf(arrays[k], d) > 0;
    }
    if HoldsChunks(arrays) {
      var k, d :| 0 <= k < |arrays| && d in arrays[k].devices && CountOf(arrays[k], d) > 0;
      assert d in counts && counts[d] > 0;
    }
  }

  /** The rest of the checks: `_count_chunks_on_devices`, then
      `_prepare_args`, which runs once per chunk and rejects plain arrays,
      so a plain array is refused exactly when some device has a chunk. */
  function FinishArgs(p: Collected): (r: Result<seq<(ArgKey, DistArray)>>)
    ensures r.Err? ==> r.error == RuntimeError
    ensures r.Ok? ==> r.value == p.dists
    ensures r.Err? <==> CountChunksOnDevices(Operands(p.dists)).Err? || (|p.plains| > 0 && HoldsChunks(Operands(p.dists)))
    ensures p.plains == [] && CountChunksOnDevices(Operands(p.dists)).Ok? ==> r.Ok?
  {
    var arrays := Operands(p.dists);
    var counts :- CountChunksOnDevices(arrays);
    CountsHoldChunks(arrays, counts);
    if |p.plains| > 0 && exists d :: d in counts && counts[d] > 0 then Err(RuntimeError) else Ok(p.dists)
  }

  /** The array holds a chunk on some device, so the chunk loop of
      `_execute_kernel` runs at least once. */
  predicate HoldsAChunk(self: DistArray) {
    exists d :: d in self.devices && CountOf(self, d) > 0
  }

  /** Operands sharing the array's index map count without failing, and
      hold a chunk exactly when there is one and the array holds one. */
  lemma SharedHoldsChunks(self: DistArray, ds: seq<(ArgKey, DistArray)>)
    requires forall j :: 0 <= j < |ds| ==> SameIndexMap(ds[j].1, self)
    ensures CountChunksOnDevices(Operands(ds)).Ok?
    ensures HoldsChunks(Operands(ds)) <==> |ds| > 0 && HoldsAChunk(self)
  {
    var arrays := Operands(ds);
    CountSameIndexMap(self, arrays);
    if HoldsChunks(arrays) {
      var k, d :| 0 <= k < |arrays| && d in arrays[k].devices && CountOf(arrays[k], d) > 0;
      assert d in self.devices && CountOf(self, d) > 0;
    }
    if |ds| > 0 && HoldsAChunk(self) {
      var d :| d in self.devices && CountOf(self, d) > 0;
      assert d in arrays[0].devices && CountOf(arrays[0], d) > 0;
    }
  }

  /** The checks after the two loops, for operands sharing the array's
      index map: the count succeeds, and a plain array is refused exactly
      when there is an operand and the array holds a chunk. */
  lemma FinishShared(self: DistArray, p: Collected, q: Collected)
    requires forall j :: 0 <= j < |p.dists| ==> SameIndexMap(p.dists[j].1, self)
    requires forall j :: 0 <= j < |q.dists| ==> SameIndexMap(q.dists[j].1, self)
    ensures var r := FinishArgs(Collected(p.dists + q.dists, p.plains + q.plains));
      && (r.Ok? <==> !((|p.plains| > 0 || |q.plains| > 0) && (|p.dists| > 0 || |q.dists| > 0) && HoldsAChunk(self)))
      && (r.Ok? ==> r.value == p.dists + q.dists)
      && (r.Err? ==> r.error == RuntimeError)
  {
    var ds := p.dists + q.dists;
    forall j | 0 <= j < |ds|
      ensures SameIndexMap(ds[j].1, self)
    {
      if j >= |p.dists| {
        assert ds[j] == q.dists[j - |p.dists|];
      }
    }
    SharedHoldsChunks(self, ds);
  }

  /** The argument checks of `_execute_kernel(kernel, args, kwargs)` as
      written, and the distributed operands it runs the kernel on: the
      positional ones in replica mode, then the keyword ones as given. */
  function ExecuteKernelArgsAsWritten(self: DistArray, args: seq<(ArgKey, Arg)>, kwargs: seq<(ArgKey, Arg)>): (r: Result<seq<(ArgKey, DistArray)>>)
    requires ValidArgs(args)
    ensures r.Ok? <==> (Matching(self, args) && KwargsFitAsWritten(self, kwargs)
      && !(AnyPlain(args) && (AnyDist(args) || AnyDist(kwargs)) && HoldsAChunk(self)))
    ensures r.Ok? ==> r.value == DistsOf(args, true) + DistsOf(kwargs, false)
    ensures r.Ok? ==> Matching(self, args) && Matching(self, kwargs)
    ensures r.Err? ==>
      if !Matching(self, args) then RaisedAt(self, args, Fits, Misfit, r.error)
      else if !KwargsFitAsWritten(self, kwargs) then RaisedAt(self, kwargs, FitsAsKwarg, KwMisfit, r.error)
      else r.error == RuntimeError
  {
    var p :- CollectArgs(self, args);
    var k :- CollectKwargsAsWritten(self, kwargs);
    FinishShared(self, p, k);
    FinishArgs(Collected(p.dists + k.dists, p.plains + k.plains))
  }

  /** A plain keyword argument raises AttributeError instead of the
      RuntimeError a plain positional argument gets, and a keyword operand
      in an op mode reaches the kernel without being converted to replica
      mode. */
  lemma KwargsAsWrittenCounterexample(self: DistArray)
    requires ValidArray(self) && self.mode == SumMode
    ensures ExecuteKernelArgsAsWritten(self, [], [(Kw("x"), Plain(self.shape))]) == Err(AttributeError)
    ensures ExecuteKernelArgsAsWritten(self, [], [(Kw("x"), Dist(self))]) == Ok([(Kw("x"), self)])
  {
    var items := [(Kw("x"), Dist(self))];
    assert Matching(self, items);
    var k := CollectKwargsAsWritten(self, items).value;
    assert k.dists == [(Kw("x"), self)] && k.plains == [];
    assert CollectArgs(self, []) == Ok(Collected([], []));
    var p := Collected([] + k.dists, [] + k.plains);
    assert p == Collected([(Kw("x"), self)], []);
    assert Operands(p.dists) == [self];
    CountSameIndexMap(self, [self]);
    assert FinishArgs(p) == Ok([(Kw("x"), self)]);
  }

  /** The argument checks with keyword arguments treated as positional ones
      are: both loops raise at their first refused argument, every operand
      reaches the kernel in replica mode, and a plain array is refused
      whenever a chunk loop runs. */
  function ExecuteKernelArgs(self: DistArray, args: seq<(ArgKey, Arg)>, kwargs: seq<(ArgKey, Arg)>): (r: Result<seq<(ArgKey, DistArray)>>)
    requires ValidArgs(args) && ValidArgs(kwargs)
    ensures r.Ok? <==> (Matching(self, args) && Matching(self, kwargs)
      && !((AnyPlain(args) || AnyPlain(kwargs)) && (AnyDist(args) || AnyDist(kwargs)) && HoldsAChunk(self)))
    ensures r.Ok? ==> r.value == DistsOf(args, true) + DistsOf(kwargs, true)
    ensures r.Ok? ==> forall j :: 0 <= j < |r.value| ==> r.value[j].1.mode == ReplicaMode && SameIndexMap(r.value[j].1, self)
    ensures r.Err? ==>
      if !Matching(self, args) then RaisedAt(self, args, Fits, Misfit, r.error)
      else if !Matching(self, kwargs) then RaisedAt(self, kwargs, Fits, Misfit, r.error)
      else r.error == RuntimeError
    ensures r.Err? && r.error != RuntimeError ==> r.error == AttributeError && (AnyScalar(args) || AnyScalar(kwargs))
  {
    var p :- CollectArgs(self, args);
    var k :- CollectArgs(self, kwargs);
    FinishShared(self, p, k);
    ReplicaOperands(self, p.dists, k.dists);
    FinishArgs(Collected(p.dists + k.dists, p.plains + k.plains))
  }

  /** Two lists of operands in replica mode with the array's index map make
      one. */
  lemma ReplicaOperands(self: DistArray, a: seq<(ArgKey, DistArray)>, b: seq<(ArgKey, DistArray)>)
    requires forall j :: 0 <= j < |a| ==> a[j].1.mode == ReplicaMode && SameIndexMap(a[j].1, self)
    requires forall j :: 0 <= j < |b| ==> b[j].1.mode == ReplicaMode && SameIndexMap(b[j].1, self)
    ensures forall j :: 0 <= j < |a + b| ==> (a + b)[j].1.mode == ReplicaMode && SameIndexMap((a + b)[j].1, self)
  {
    forall j | 0 <= j < |a + b|
      ensures (a + b)[j].1.mode == ReplicaMode && SameIndexMap((a + b)[j].1, self)
    {
      if j >= |a| {
        assert (a + b)[j] == b[j - |a|];
      }
    }
  }

  /** Matching distributed arguments and no plain ones are always accepted. */
  lemma ExecuteKernelArgsAccepts(self: DistArray, args: seq<(ArgKey, Arg)>, kwargs: seq<(ArgKey, Arg)>)
    requires ValidArgs(args) && ValidArgs(kwargs) && Matching(self, args) && Matching(self, kwargs)
    requires forall k :: 0 <= k < |args| ==> args[k].1.Dist?
    requires forall k :: 0 <= k < |kwargs| ==> kwargs[k].1.Dist?
    ensures ExecuteKernelArgs(self, args, kwargs).Ok?
  {
    var p := CollectArgs(self, args).value;
    var k := CollectArgs(self, kwargs).value;
    var ds := p.dists + k.dists;
    CountSameIndexMap(self, Operands(ds));
  }
}
