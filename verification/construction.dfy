/** The chunk loop of `distributed_array`: every target `(device, index)`,
    in order, gets a chunk holding the array's values on its index. Under a
    non-idempotent operator the array's region is then overwritten with the
    identity, so a later chunk overlapping it receives the identity instead
    and no value is counted twice. */
module Construction {
  import opened Wrappers
  import opened Slices
  import opened IndexAlgebra
  import opened Modes
  import opened Chunks
  import opened Consistency
  import opened Materialize
  import CellReduce
  import ModeChange

  /** `array[idx] = mode_obj.identity_of(dtype)` when the mode asks for it:
      only a non-idempotent op mode does. */
  function Reset<V>(mode: Mode<V>, shape: seq<nat>, data: Cell -> V, idx: seq<Slice>): (r: Cell -> V)
    ensures forall c :: r(c) == if mode.Op? && !mode.idempotent && CellIn(idx, shape, c) then mode.monoid.unit else data(c)
  {
    if mode.Op? && !mode.idempotent then Fill(data, idx, shape, mode.monoid.unit) else data
  }

  /** The array as the loop finds it when it reaches target `k`. */
  function Before<V>(mode: Mode<V>, shape: seq<nat>, data: Cell -> V, targets: seq<(int, seq<Slice>)>, k: nat): (r: Cell -> V)
    requires k <= |targets|
    decreases k
  {
    if k == 0 then data else Reset(mode, shape, Before(mode, shape, data, targets, k - 1), targets[k - 1].1)
  }

  /** Some target before position `k` holds cell `c`. */
  predicate HeldBefore(shape: seq<nat>, targets: seq<(int, seq<Slice>)>, c: Cell, k: int) {
    exists j :: 0 <= j < k && j < |targets| && CellIn(targets[j].1, shape, c)
  }

  /** What the loop has left at cell `c` by target `k`: the identity once an
      earlier target held `c` under a non-idempotent operator, the original
      value otherwise. */
  lemma {:induction false} BeforeValue<V>(mode: Mode<V>, shape: seq<nat>, data: Cell -> V, targets: seq<(int, seq<Slice>)>, k: nat, c: Cell)
    requires k <= |targets|
    ensures Before(mode, shape, data, targets, k)(c) ==
      if mode.Op? && !mode.idempotent && HeldBefore(shape, targets, c, k) then mode.monoid.unit else data(c)
    decreases k
  {
    if k > 0 {
      BeforeValue(mode, shape, data, targets, k - 1, c);
      assert HeldBefore(shape, targets, c, k) <==>
        HeldBefore(shape, targets, c, k - 1) || CellIn(targets[k - 1].1, shape, c);
    }
  }

  /** `chunks_map` as `distributed_array` builds it, flattened in target
      order: chunk `k` snapshots the array as the loop finds it. */
  function Split<V>(mode: Mode<V>, shape: seq<nat>, data: Cell -> V, targets: seq<(int, seq<Slice>)>): (r: seq<Chunk<V>>)
    ensures |r| == |targets|
    ensures forall k :: 0 <= k < |r| ==> r[k].device == targets[k].0 && r[k].index == targets[k].1 && r[k].updates == []
  {
    seq(|targets|, k requires 0 <= k < |targets| => Chunk(targets[k].0, targets[k].1, Before(mode, shape, data, targets, k), []))
  }

  /** Chunk `k` of the split at a cell it holds: the array's value, unless
      a non-idempotent operator already handed that cell to an earlier
      chunk. */
  lemma SplitData<V>(mode: Mode<V>, shape: seq<nat>, data: Cell -> V, targets: seq<(int, seq<Slice>)>, k: nat, c: Cell)
    requires k < |targets|
    ensures Settled(Split(mode, shape, data, targets)[k], mode, shape, c) ==
      if mode.Op? && !mode.idempotent && HeldBefore(shape, targets, c, k) then mode.monoid.unit else data(c)
  {
    BeforeValue(mode, shape, data, targets, k, c);
  }

  /** `distributed_array(a, index_map, mode).asnumpy()` gives back `a` at
      every cell some chunk holds; elsewhere an op mode gives the identity
      and replica mode leaves the cell uninitialised. */
  lemma SplitRoundTrip<V(!new)>(mode: Mode<V>, shape: seq<nat>, data: Cell -> V, targets: seq<(int, seq<Slice>)>, c: Cell)
    requires Sound(mode)
    ensures HeldBefore(shape, targets, c, |targets|) ==> Asnumpy(mode, shape, Split(mode, shape, data, targets), c) == Some(data(c))
    ensures !HeldBefore(shape, targets, c, |targets|) ==>
      Asnumpy(mode, shape, Split(mode, shape, data, targets), c) == if mode.Op? then Some(mode.monoid.unit) else None
  {
    hide Split, Settled;
    var cs := Split(mode, shape, data, targets);
    var cov := Holders(cs, shape, c);
    assert forall k :: 0 <= k < |cs| ==> (cov[k] <==> CellIn(targets[k].1, shape, c));
    if mode.Replica? {
      if HeldBefore(shape, targets, c, |targets|) {
        var h :| 0 <= h < |targets| && CellIn(targets[h].1, shape, c);
        ModeChange.LastHolderExists(cov, h);
        var l :| h <= l < |cov| && CellReduce.IsLast(cov, l);
        SplitData(mode, shape, data, targets, l, c);
      }
    } else {
      hide Asnumpy;
      var m := mode.monoid;
      var col := Column(cs, mode, shape, c);
      assert Asnumpy(mode, shape, cs, c) == Some(CellReduce.Total(m, cov, col));
      if !HeldBefore(shape, targets, c, |targets|) {
        if |cs| > 0 {
          CellReduce.PrefixOneHolder(m, cov, col, 0, |cs|);
        }
      } else if mode.idempotent {
        forall j | 0 <= j < |cs| && cov[j]
          ensures col[j] == data(c)
        {
          SplitData(mode, shape, data, targets, j, c);
        }
        CellReduce.PrefixAllEqual(m, cov, col, data(c), |cs|);
      } else {
        var f := FirstHolder(shape, targets, c);
        forall j | 0 <= j < |cs| && j != f && cov[j]
          ensures col[j] == m.unit
        {
          SplitData(mode, shape, data, targets, j, c);
        }
        SplitData(mode, shape, data, targets, f, c);
        CellReduce.PrefixOneHolder(m, cov, col, f, |cs|);
      }
    }
  }

  /** The first target holding a cell some target holds. */
  function FirstHolder(shape: seq<nat>, targets: seq<(int, seq<Slice>)>, c: Cell): (f: nat)
    requires HeldBefore(shape, targets, c, |targets|)
    ensures f < |targets| && CellIn(targets[f].1, shape, c) && !HeldBefore(shape, targets, c, f)
    decreases |targets|
  {
    if CellIn(targets[0].1, shape, c) then 0
    else
      assert HeldBefore(shape, targets[1..], c, |targets| - 1) by {
        var j :| 0 <= j < |targets| && CellIn(targets[j].1, shape, c);
        assert targets[1..][j - 1] == targets[j];
      }
      var f := FirstHolder(shape, targets[1..], c);
      assert forall j :: 0 < j <= f + 1 ==> targets[j] == targets[1..][j - 1];
      f + 1
  }
}
