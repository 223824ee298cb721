/** Chunks of a distributed array and their pending partial updates.

    A chunk's buffer is modelled as a function from global cell coordinates
    to values, meaningful on the cells its index selects; the mapping between
    global cells and positions inside the buffer is the one
    `IndexAlgebra.IndexForSubindex` establishes. A queued update carries the
    region it covers (an intersection of chunk indices) and the values it
    brings. */
module Chunks {
  import opened Wrappers
  import opened Slices
  import opened IndexAlgebra
  import opened Modes

  /** `_PartialUpdate`: the values a transfer brings and the region they land on. */
  datatype Update<!V> = Update(index: seq<Slice>, payload: Cell -> V)

  /** `_Chunk`: the device holding it, its index in the whole array, its
      buffer and its FIFO of pending updates. */
  datatype Chunk<!V> = Chunk(device: int, index: seq<Slice>, data: Cell -> V, updates: seq<Update<V>>)

  predicate Covers<V>(ch: Chunk<V>, shape: seq<nat>, c: Cell) {
    CellIn(ch.index, shape, c)
  }

  /** Some chunk of `cs` from position `j` on holds cell `c`. */
  predicate HeldFrom<V>(cs: seq<Chunk<V>>, shape: seq<nat>, c: Cell, j: int) {
    exists k :: j <= k < |cs| && 0 <= k && Covers(cs[k], shape, c)
  }

  /** Every chunk and every queued update of `cs` has a valid index. */
  predicate ValidChunks<V>(cs: seq<Chunk<V>>, shape: seq<nat>) {
    forall k :: 0 <= k < |cs| ==> ValidIndex(cs[k].index, shape)
  }

  /** Two chunk lists with the same chunks in the same places. */
  predicate SameLayout<V>(a: seq<Chunk<V>>, b: seq<Chunk<V>>) {
    |a| == |b| && forall k :: 0 <= k < |a| ==> a[k].index == b[k].index && a[k].device == b[k].device
  }

  /** The value at `c` after writing one update over `prev`: overwrite in
      replica mode, combine with the mode's operator (old value first) in an
      op mode. */
  function ApplyOne<V>(prev: V, u: Update<V>, mode: Mode<V>, shape: seq<nat>, c: Cell): V {
    if CellIn(u.index, shape, c) then
      (if mode.Replica? then u.payload(c) else mode.monoid.combine(prev, u.payload(c)))
    else prev
  }

  /** The value at `c` after applying `us` in queue order to `data`. */
  function Drain<V>(data: Cell -> V, us: seq<Update<V>>, mode: Mode<V>, shape: seq<nat>, c: Cell): V
    decreases |us|
  {
    if |us| == 0 then data(c)
    else ApplyOne(Drain(data, us[..|us| - 1], mode, shape, c), us[|us| - 1], mode, shape, c)
  }

  /** The value a chunk holds at `c` once its queue is drained. */
  function Settled<V>(ch: Chunk<V>, mode: Mode<V>, shape: seq<nat>, c: Cell): V {
    Drain(ch.data, ch.updates, mode, shape, c)
  }

  /** A chunk settles to `v` at cell `c` in replica mode, and so does every
      pending update reaching `c`. */
  ghost predicate Agrees<V>(ch: Chunk<V>, shape: seq<nat>, c: Cell, v: V) {
    && Settled(ch, Replica, shape, c) == v
    && forall i :: 0 <= i < |ch.updates| && CellIn(ch.updates[i].index, shape, c) ==> ch.updates[i].payload(c) == v
  }

  /** Reference meaning of a replica-mode queue: the payload of the last
      update that covers `c`, if any. */
  function LastWrite<V>(us: seq<Update<V>>, shape: seq<nat>, c: Cell): (r: Option<V>)
    ensures r.Some? <==> exists k :: 0 <= k < |us| && CellIn(us[k].index, shape, c)
    decreases |us|
  {
    if |us| == 0 then None
    else if CellIn(us[|us| - 1].index, shape, c) then Some(us[|us| - 1].payload(c))
    else
      var r := LastWrite(us[..|us| - 1], shape, c);
      assert forall k :: 0 <= k < |us| - 1 ==> us[..|us| - 1][k] == us[k];
      r
  }

  /** Reference meaning of an op-mode queue: the reduction, from the
      identity, of the payloads of the updates that cover `c`. */
  function Contributions<V>(us: seq<Update<V>>, m: Monoid<V>, shape: seq<nat>, c: Cell): V
    decreases |us|
  {
    if |us| == 0 then m.unit
    else
      var rest := Contributions(us[..|us| - 1], m, shape, c);
      if CellIn(us[|us| - 1].index, shape, c) then m.combine(rest, us[|us| - 1].payload(c)) else rest
  }

  lemma {:induction false} DrainReplica<V>(data: Cell -> V, us: seq<Update<V>>, shape: seq<nat>, c: Cell)
    ensures Drain(data, us, Replica, shape, c) == (match LastWrite(us, shape, c) case Some(v) => v case None => data(c))
    decreases |us|
  {
    if |us| > 0 {
      DrainReplica(data, us[..|us| - 1], shape, c);
    }
  }

  lemma {:induction false} DrainOp<V(!new)>(data: Cell -> V, us: seq<Update<V>>, m: Monoid<V>, idempotent: bool, shape: seq<nat>, c: Cell)
    requires Lawful(m)
    ensures Drain(data, us, Op(m, idempotent), shape, c) == m.combine(data(c), Contributions(us, m, shape, c))
    decreases |us|
  {
    if |us| == 0 {
      assert m.combine(data(c), m.unit) == m.combine(m.unit, data(c));
    } else {
      DrainOp(data, us[..|us| - 1], m, idempotent, shape, c);
    }
  }

  /** `_apply_updates(chunk, mode)`: drains the queue into the buffer. In
      replica mode the last covering update wins; in an op mode the buffer
      value is combined with every covering payload. */
  function ApplyUpdates<V(!new)>(ch: Chunk<V>, mode: Mode<V>, shape: seq<nat>): (r: Chunk<V>)
    ensures r.updates == [] && r.index == ch.index && r.device == ch.device
    ensures mode.Replica? ==> forall c ::
      r.data(c) == (match LastWrite(ch.updates, shape, c) case Some(v) => v case None => ch.data(c))
    ensures Sound(mode) && mode.Op? ==> forall c ::
      r.data(c) == mode.monoid.combine(ch.data(c), Contributions(ch.updates, mode.monoid, shape, c))
  {
    var r := ch.(data := c => Drain(ch.data, ch.updates, mode, shape, c), updates := []);
    if mode.Replica? then
      assert forall c :: r.data(c) == (match LastWrite(ch.updates, shape, c) case Some(v) => v case None => ch.data(c)) by {
        forall c
          ensures r.data(c) == (match LastWrite(ch.updates, shape, c) case Some(v) => v case None => ch.data(c))
        {
          DrainReplica(ch.data, ch.updates, shape, c);
        }
      }
      r
    else
      assert Sound(mode) ==> forall c :: r.data(c) == mode.monoid.combine(ch.data(c), Contributions(ch.updates, mode.monoid, shape, c)) by {
        if Sound(mode) {
          forall c
            ensures r.data(c) == mode.monoid.combine(ch.data(c), Contributions(ch.updates, mode.monoid, shape, c))
          {
            DrainOp(ch.data, ch.updates, mode.monoid, mode.idempotent, shape, c);
          }
        }
      }
      r
  }

  /** Applying the queue does not change what a chunk settles to. */
  lemma ApplyUpdatesSettled<V(!new)>(ch: Chunk<V>, mode: Mode<V>, shape: seq<nat>, c: Cell)
    ensures Settled(ApplyUpdates(ch, mode, shape), mode, shape, c) == Settled(ch, mode, shape, c)
  {
  }

  /** `buffer[region] = value` on the cells of `region`. */
  function Fill<V>(data: Cell -> V, region: seq<Slice>, shape: seq<nat>, value: V): Cell -> V {
    c => if CellIn(region, shape, c) then value else data(c)
  }

  /** `_apply_and_update_chunks(op_mode, shape, src, dst)`: queue src's values
      on the intersection as an update of dst and, for a non-idempotent
      operator, reset src to the identity there. Disjoint chunks are left
      alone. */
  function ApplyAndUpdate<V>(m: Monoid<V>, idempotent: bool, shape: seq<nat>, src: Chunk<V>, dst: Chunk<V>): (r: (Chunk<V>, Chunk<V>))
    requires ValidIndex(src.index, shape) && ValidIndex(dst.index, shape)
    ensures r.0.index == src.index && r.0.device == src.device && r.0.updates == src.updates
    ensures r.1.index == dst.index && r.1.device == dst.device
    ensures forall c :: r.0.data(c) == (if !idempotent && Covers(src, shape, c) && Covers(dst, shape, c) then m.unit else src.data(c))
    ensures forall c ::
      (Settled(r.1, Op(m, idempotent), shape, c) ==
         if Covers(src, shape, c) && Covers(dst, shape, c)
         then m.combine(Settled(dst, Op(m, idempotent), shape, c), src.data(c))
         else Settled(dst, Op(m, idempotent), shape, c))
  {
    match IndexIntersection(src.index, dst.index, shape)
    case None => (src, dst)
    case Some(inter) =>
      var dst' := dst.(updates := dst.updates + [Update(inter, src.data)]);
      assert dst'.updates[..|dst'.updates| - 1] == dst.updates;
      var src' := if idempotent then src else src.(data := Fill(src.data, inter, shape, m.unit));
      (src', dst')
  }

  /** The op-mode value of a chunk at `c`: what it settles to where it
      holds `c`, the identity elsewhere. */
  function Contribution<V>(ch: Chunk<V>, m: Monoid<V>, idempotent: bool, shape: seq<nat>, c: Cell): V {
    if Covers(ch, shape, c) then Settled(ch, Op(m, idempotent), shape, c) else m.unit
  }

  /** Moving data from src to dst never changes the reduction of the two
      contributions, so no cell is counted twice or lost. A non-idempotent
      operator needs src's reset; an idempotent one tolerates the double. */
  lemma ApplyAndUpdateConserves<V(!new)>(m: Monoid<V>, idempotent: bool, shape: seq<nat>, src: Chunk<V>, dst: Chunk<V>, c: Cell)
    requires Sound(Op(m, idempotent))
    requires ValidIndex(src.index, shape) && ValidIndex(dst.index, shape)
    requires src.updates == []
    ensures
      var (s, d) := ApplyAndUpdate(m, idempotent, shape, src, dst);
      m.combine(Contribution(s, m, idempotent, shape, c), Contribution(d, m, idempotent, shape, c))
        == m.combine(Contribution(src, m, idempotent, shape, c), Contribution(dst, m, idempotent, shape, c))
  {
    var (s, d) := ApplyAndUpdate(m, idempotent, shape, src, dst);
    if Covers(src, shape, c) && Covers(dst, shape, c) {
      var x, y := src.data(c), Settled(dst, Op(m, idempotent), shape, c);
      assert Settled(src, Op(m, idempotent), shape, c) == x;
      assert Settled(s, Op(m, idempotent), shape, c) == s.data(c);
      if idempotent {
        assert m.combine(x, m.combine(y, x)) == m.combine(x, y) by {
          calc {
            m.combine(x, m.combine(y, x));
            m.combine(x, m.combine(x, y));
            m.combine(m.combine(x, x), y);
          }
        }
      } else {
        assert m.combine(m.unit, m.combine(y, x)) == m.combine(x, y);
      }
    }
  }

  /** Without the reset, which is what `_apply_and_update_chunks` does for an
      idempotent operator, src's value is counted twice: the two
      contributions reduce to what they reduced to before, combined with
      src's value once more. */
  lemma ResetNeeded<V(!new)>(m: Monoid<V>, shape: seq<nat>, src: Chunk<V>, dst: Chunk<V>, c: Cell)
    requires Lawful(m)
    requires ValidIndex(src.index, shape) && ValidIndex(dst.index, shape)
    requires src.updates == [] && Covers(src, shape, c) && Covers(dst, shape, c)
    ensures
      var (s, d) := ApplyAndUpdate(m, true, shape, src, dst);
      m.combine(Contribution(s, m, true, shape, c), Contribution(d, m, true, shape, c))
        == m.combine(m.combine(Contribution(src, m, true, shape, c), Contribution(dst, m, true, shape, c)), src.data(c))
  {
    var (s, d) := ApplyAndUpdate(m, true, shape, src, dst);
    var x, y := src.data(c), Settled(dst, Op(m, true), shape, c);
    assert Contribution(s, m, true, shape, c) == x;
    assert Contribution(d, m, true, shape, c) == m.combine(y, x);
    assert m.combine(x, m.combine(y, x)) == m.combine(m.combine(x, y), x);
  }

  /** With `sum`, skipping the reset changes the total whenever src holds a
      nonzero value at the cell: `SumMode` is not idempotent, and needs it. */
  lemma ResetNeededSum(shape: seq<nat>, src: Chunk<Int64>, dst: Chunk<Int64>, c: Cell)
    requires ValidIndex(src.index, shape) && ValidIndex(dst.index, shape)
    requires src.updates == [] && Covers(src, shape, c) && Covers(dst, shape, c) && src.data(c) != 0
    ensures
      var (s, d) := ApplyAndUpdate(SumMonoid, true, shape, src, dst);
      Add64(Contribution(s, SumMonoid, true, shape, c), Contribution(d, SumMonoid, true, shape, c))
        != Add64(Contribution(src, SumMonoid, true, shape, c), Contribution(dst, SumMonoid, true, shape, c))
  {
    SumLawful();
    ResetNeeded(SumMonoid, shape, src, dst, c);
    var t := Add64(Contribution(src, SumMonoid, true, shape, c), Contribution(dst, SumMonoid, true, shape, c));
    AddNonzeroMoves(t, src.data(c));
  }

  /** `_copy_on_intersection(shape, src, dst)`: queue src's values on the
      intersection as a replica-mode update of dst. */
  function CopyOnIntersection<V>(shape: seq<nat>, src: Chunk<V>, dst: Chunk<V>): (d: Chunk<V>)
    requires ValidIndex(src.index, shape) && ValidIndex(dst.index, shape)
    ensures d.index == dst.index && d.device == dst.device
    ensures forall c ::
      (Settled(d, Replica, shape, c) ==
         if Covers(src, shape, c) && Covers(dst, shape, c) then src.data(c) else Settled(dst, Replica, shape, c))
  {
    match IndexIntersection(src.index, dst.index, shape)
    case None => dst
    case Some(inter) =>
      var d := dst.(updates := dst.updates + [Update(inter, src.data)]);
      assert d.updates[..|d.updates| - 1] == dst.updates;
      d
  }

  /** `_set_identity_on_intersection(shape, identity, a, b_idx)`. */
  function SetIdentityOnIntersection<V>(shape: seq<nat>, identity: V, a: Chunk<V>, b: seq<Slice>): (r: Chunk<V>)
    requires ValidIndex(a.index, shape) && ValidIndex(b, shape)
    ensures r.index == a.index && r.device == a.device && r.updates == a.updates
    ensures forall c :: r.data(c) == (if Covers(a, shape, c) && CellIn(b, shape, c) then identity else a.data(c))
  {
    match IndexIntersection(a.index, b, shape)
    case None => a
    case Some(inter) => a.(data := Fill(a.data, inter, shape, identity))
  }

  /** The buffer after writing `value` into the region of every update of `us`. */
  function FillAll<V>(data: Cell -> V, us: seq<Update<V>>, shape: seq<nat>, value: V): Cell -> V
    decreases |us|
  {
    if |us| == 0 then data
    else Fill(FillAll(data, us[..|us| - 1], shape, value), us[|us| - 1].index, shape, value)
  }

  lemma {:induction false} FillAllCovered<V>(data: Cell -> V, us: seq<Update<V>>, shape: seq<nat>, value: V, c: Cell)
    ensures FillAll(data, us, shape, value)(c) == (if LastWrite(us, shape, c).Some? then value else data(c))
    decreases |us|
  {
    if |us| > 0 {
      FillAllCovered(data, us[..|us| - 1], shape, value, c);
    }
  }

  /** `_set_identity_on_ignored_entries(identity, chunk)`: every cell some
      pending update will overwrite gets the identity; the queue stays. */
  function SetIdentityOnIgnoredEntries<V>(identity: V, ch: Chunk<V>, shape: seq<nat>): (r: Chunk<V>)
    ensures r.index == ch.index && r.device == ch.device && r.updates == ch.updates
    ensures forall c :: r.data(c) == (if LastWrite(ch.updates, shape, c).Some? then identity else ch.data(c))
  {
    var r := ch.(data := FillAll(ch.data, ch.updates, shape, identity));
    assert forall c :: r.data(c) == (if LastWrite(ch.updates, shape, c).Some? then identity else ch.data(c)) by {
      forall c
        ensures r.data(c) == (if LastWrite(ch.updates, shape, c).Some? then identity else ch.data(c))
      {
        FillAllCovered(ch.data, ch.updates, shape, identity, c);
      }
    }
    r
  }
}
