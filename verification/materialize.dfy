/** `asnumpy()`: gathering the chunks of a distributed array into one array.
    Every chunk's queue is drained first; then an op-mode array starts from
    the identity and folds every chunk in with the operator, while a
    replica-mode array starts uninitialised and every chunk overwrites its
    region. */
module Materialize {
  import opened Wrappers
  import opened IndexAlgebra
  import opened Modes
  import opened Chunks
  import opened Consistency
  import CellReduce

  /** The value at `c` once the first `n` chunks are painted. `None` is
      memory `numpy.empty` left uninitialised. */
  function Paint<V>(mode: Mode<V>, shape: seq<nat>, cs: seq<Chunk<V>>, c: Cell, n: nat): (r: Option<V>)
    requires n <= |cs|
    ensures mode.Op? ==> r.Some?
    decreases n
  {
    if n == 0 then
      (if mode.Op? then Some(mode.monoid.unit) else None)
    else
      var prev := Paint(mode, shape, cs, c, n - 1);
      if !Covers(cs[n - 1], shape, c) then prev
      else if mode.Op? then Some(mode.monoid.combine(prev.value, Settled(cs[n - 1], mode, shape, c)))
      else Some(Settled(cs[n - 1], Replica, shape, c))
  }

  /** `asnumpy()[c]`. In an op mode it is the op-mode value of the cell;
      in replica mode it is what the last chunk holding the cell settles to,
      and uninitialised when no chunk holds it. */
  function Asnumpy<V(!new)>(mode: Mode<V>, shape: seq<nat>, cs: seq<Chunk<V>>, c: Cell): (r: Option<V>)
    ensures Sound(mode) && mode.Op? ==> r == Some(OpValue(cs, mode.monoid, mode.idempotent, shape, c))
    ensures mode.Replica? ==> (r.Some? <==> exists k :: 0 <= k < |cs| && Covers(cs[k], shape, c))
    ensures mode.Replica? ==> forall k :: CellReduce.IsLast(Holders(cs, shape, c), k) ==>
      r == Some(Settled(cs[k], Replica, shape, c))
  {
    var r := Paint(mode, shape, cs, c, |cs|);
    if mode.Op? then
      assert Sound(mode) ==> r == Some(OpValue(cs, mode.monoid, mode.idempotent, shape, c)) by {
        if Sound(mode) {
          PaintOp(mode.monoid, mode.idempotent, shape, cs, c, |cs|);
        }
      }
      r
    else
      PaintReplica(shape, cs, c, |cs|);
      r
  }

  lemma {:induction false} PaintOp<V(!new)>(m: Monoid<V>, idem: bool, shape: seq<nat>, cs: seq<Chunk<V>>, c: Cell, n: nat)
    requires Lawful(m) && n <= |cs|
    ensures Paint(Op(m, idem), shape, cs, c, n)
      == Some(CellReduce.Prefix(m, Holders(cs, shape, c), Column(cs, Op(m, idem), shape, c), n))
    decreases n
  {
    if n > 0 {
      PaintOp(m, idem, shape, cs, c, n - 1);
      var p := CellReduce.Prefix(m, Holders(cs, shape, c), Column(cs, Op(m, idem), shape, c), n - 1);
      assert m.combine(p, m.unit) == m.combine(m.unit, p);
    }
  }

  lemma {:induction false} PaintReplica<V>(shape: seq<nat>, cs: seq<Chunk<V>>, c: Cell, n: nat)
    requires n <= |cs|
    ensures Paint(Replica, shape, cs, c, n).Some? <==> exists k :: 0 <= k < n && Covers(cs[k], shape, c)
    ensures forall k :: 0 <= k < n && Covers(cs[k], shape, c) && (forall j :: k < j < n ==> !Covers(cs[j], shape, c)) ==>
      Paint(Replica, shape, cs, c, n) == Some(Settled(cs[k], Replica, shape, c))
    decreases n
  {
    if n > 0 {
      PaintReplica(shape, cs, c, n - 1);
    }
  }
}
