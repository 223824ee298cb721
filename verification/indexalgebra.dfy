/** Host-side index algebra of the distributed array: intersection of strided
    slices, re-indexing a sub-region relative to a chunk, the per-axis
    intersection of chunk indices, and the extent of an indexed region. */
module IndexAlgebra {
  import opened Wrappers
  import opened Slices
  import opened NumTheory
  import opened PyInt

  predicate PositiveStep(s: Slice) {
    s.step.None? || s.step.value > 0
  }

  /** Membership in an optional range; None is the empty intersection. */
  predicate InOpt(i: int, r: Option<Range>) {
    r.Some? && InRange(i, r.value)
  }

  function Min(a: int, b: int): int {
    if a <= b then a else b
  }

  function Max(a: int, b: int): int {
    if a >= b then a else b
  }

  // ---------------------------------------------------------------------
  // Facts about the candidate start of an intersection

  /** A position in both ranges makes the two starts congruent modulo the gcd
      of the steps. */
  lemma CommonImpliesCongruent(ra: Range, rb: Range, i: int)
    requires ra.step > 0 && rb.step > 0
    ensures InRange(i, ra) && InRange(i, rb) ==> (rb.start - ra.start) % ExtGcd(ra.step, rb.step).0 == 0
  {
    if InRange(i, ra) && InRange(i, rb) {
      var g := ExtGcd(ra.step, rb.step).0;
      DividesTransitive(g, ra.step, i - ra.start);
      DividesTransitive(g, rb.step, i - rb.start);
      DivisibleDiff(g, i - ra.start, i - rb.start);
      assert (i - ra.start) - (i - rb.start) == rb.start - ra.start;
    }
  }

  lemma DividesTransitive(g: int, p: int, n: int)
    requires g > 0 && p > 0 && p % g == 0 && n % p == 0
    ensures n % g == 0
  {
    var k := n / p;
    assert n == p * k;
    DividesLinear(g, p, 0, k, 0);
  }

  /** When the starts are incongruent modulo the gcd, the ranges share nothing. */
  lemma NoCommonWhenIncongruent(ra: Range, rb: Range)
    requires ra.step > 0 && rb.step > 0
    requires (rb.start - ra.start) % ExtGcd(ra.step, rb.step).0 != 0
    ensures forall i :: !(InRange(i, ra) && InRange(i, rb))
  {
    forall i
      ensures !(InRange(i, ra) && InRange(i, rb))
    {
      CommonImpliesCongruent(ra, rb, i);
    }
  }

  /** Chinese remaindering: with `c0` in `ra`'s progression and congruent to
      `rb.start` modulo `rb.step`, the positions congruent to both starts are
      exactly those congruent to `c0` modulo the lcm. */
  lemma CongruentToBoth(ra: Range, rb: Range, c0: int, i: int)
    requires ra.step > 0 && rb.step > 0
    requires (c0 - ra.start) % ra.step == 0 && (c0 - rb.start) % rb.step == 0
    ensures ((i - ra.start) % ra.step == 0 && (i - rb.start) % rb.step == 0)
        <==> (i - c0) % Lcm(ra.step, rb.step) == 0
  {
    var l := Lcm(ra.step, rb.step);
    if (i - ra.start) % ra.step == 0 && (i - rb.start) % rb.step == 0 {
      DivisibleDiff(ra.step, i - ra.start, c0 - ra.start);
      DivisibleDiff(rb.step, i - rb.start, c0 - rb.start);
      LcmDividesCommonMultiples(ra.step, rb.step, i - c0);
    }
    if (i - c0) % l == 0 {
      DividesTransitive(ra.step, l, i - c0);
      DividesTransitive(rb.step, l, i - c0);
      DividesLinear(ra.step, i - c0, c0 - ra.start, 1, 1);
      DividesLinear(rb.step, i - c0, c0 - rb.start, 1, 1);
    }
  }

  /** `i` lies in the progression through `c` with period `m`. */
  predicate Congruent(i: int, c: int, m: int)
    requires m > 0
  {
    (i - c) % m == 0
  }

  /** The start `_slice_intersection` settles on: from `c0`, if it lies before
      `sb`, advance by whole multiples of `l` to the first position `>= sb`. */
  function RaiseStart(c0: int, sb: int, l: int): (s: int)
    requires l > 0
    ensures s >= sb && s >= c0 && Congruent(s, c0, l)
    ensures forall i :: i >= sb && i >= c0 && Congruent(i, c0, l) ==> i >= s
  {
    if c0 < sb then
      var q := (sb - c0 - 1) / l;
      RaiseStartFacts(c0, sb, l, q);
      c0 + (q + 1) * l
    else
      assert Congruent(c0, c0, l);
      c0
  }

  lemma RaiseStartFacts(c0: int, sb: int, l: int, q: int)
    requires l > 0 && c0 < sb && q == (sb - c0 - 1) / l
    ensures c0 + (q + 1) * l >= sb && q + 1 >= 0
    ensures Congruent(c0 + (q + 1) * l, c0, l)
    ensures forall i :: i >= sb && Congruent(i, c0, l) ==> i >= c0 + (q + 1) * l
  {
    var s := c0 + (q + 1) * l;
    assert q * l <= sb - c0 - 1 < q * l + l;
    assert 0 <= q;
    assert s - c0 == l * (q + 1);
    MulMod(l, q + 1);
    forall i | i >= sb && Congruent(i, c0, l)
      ensures i >= s
    {
      var k := (i - c0) / l;
      assert i - c0 == l * k;
      MulSign(l, k - q);
      assert l * k - l * q == l * (k - q);
    }
  }

  /** Every position congruent to `c0` modulo `l` that is `>= sa` is `>= c0`,
      when `c0` lies within `l` of `sa`. */
  lemma AlignedAboveStart(c0: int, sa: int, l: int, i: int)
    requires l > 0 && sa <= c0 < sa + l
    requires i >= sa && Congruent(i, c0, l)
    ensures i >= c0
  {
    var k := (i - c0) / l;
    assert i - c0 == l * k;
    MulSign(l, k);
  }

  // ---------------------------------------------------------------------
  // _slice_intersection

  /** With `c0` aligned to both progressions and `cStart` the first aligned
      position at or above both starts, the common positions of `ra` and `rb`
      are the progression from `cStart` with the lcm as period, cut at the
      smaller stop. */
  lemma CommonPositions(ra: Range, rb: Range, c0: int, cStart: int, cStop: int)
    requires ra.step > 0 && rb.step > 0
    requires Congruent(c0, ra.start, ra.step) && Congruent(c0, rb.start, rb.step)
    requires ra.start <= c0 < ra.start + Lcm(ra.step, rb.step)
    requires cStart >= rb.start && cStart >= c0 && Congruent(cStart, c0, Lcm(ra.step, rb.step))
    requires forall j :: j >= rb.start && j >= c0 && Congruent(j, c0, Lcm(ra.step, rb.step)) ==> j >= cStart
    requires cStop == Min(ra.stop, rb.stop)
    ensures forall i ::
      (InRange(i, ra) && InRange(i, rb)) <==> (cStart <= i < cStop && Congruent(i, cStart, Lcm(ra.step, rb.step)))
  {
    forall i
      ensures (InRange(i, ra) && InRange(i, rb)) <==> (cStart <= i < cStop && Congruent(i, cStart, Lcm(ra.step, rb.step)))
    {
      CommonPosition(ra, rb, c0, cStart, cStop, i);
    }
  }

  lemma CommonPosition(ra: Range, rb: Range, c0: int, cStart: int, cStop: int, i: int)
    requires ra.step > 0 && rb.step > 0
    requires Congruent(c0, ra.start, ra.step) && Congruent(c0, rb.start, rb.step)
    requires ra.start <= c0 < ra.start + Lcm(ra.step, rb.step)
    requires cStart >= rb.start && cStart >= c0 && Congruent(cStart, c0, Lcm(ra.step, rb.step))
    requires forall j :: j >= rb.start && j >= c0 && Congruent(j, c0, Lcm(ra.step, rb.step)) ==> j >= cStart
    requires cStop == Min(ra.stop, rb.stop)
    ensures (InRange(i, ra) && InRange(i, rb)) <==> (cStart <= i < cStop && Congruent(i, cStart, Lcm(ra.step, rb.step)))
  {
    var l := Lcm(ra.step, rb.step);
    CongruentToBoth(ra, rb, c0, i);
    if InRange(i, ra) && InRange(i, rb) {
      assert Congruent(i, c0, l);
      AlignedAboveStart(c0, ra.start, l, i);
      DivisibleDiff(l, i - c0, cStart - c0);
    }
    if cStart <= i < cStop && Congruent(i, cStart, l) {
      DividesLinear(l, i - cStart, cStart - c0, 1, 1);
      assert (i - cStart) * 1 + (cStart - c0) * 1 == i - c0;
    }
  }

  /** The intersection of two positive-step ranges, computed as
      `_slice_intersection` does (divisors are positive, so Python's floor
      division and modulo coincide with Dafny's). */
  function RangeIntersection(ra: Range, rb: Range): (r: Option<Range>)
    requires ra.step > 0 && rb.step > 0
    ensures forall i :: InOpt(i, r) <==> InRange(i, ra) && InRange(i, rb)
    ensures r.Some? ==>
      && r.value.step == Lcm(ra.step, rb.step)
      && r.value.start < r.value.stop
      && r.value.start >= Max(ra.start, rb.start)
      && r.value.stop == Min(ra.stop, rb.stop)
  {
    var (g, x) := ExtGcd(ra.step, rb.step);
    if (rb.start - ra.start) % g != 0 then
      NoCommonWhenIncongruent(ra, rb);
      None
    else
      var cStep := ra.step / g * rb.step;
      assert cStep == Lcm(ra.step, rb.step);
      var skip := AlignSkip(ra.step, rb.step, ra.start, rb.start);
      var c0 := ra.start + ra.step * skip;
      MulMod(ra.step, skip);
      var cStart := RaiseStart(c0, rb.start, cStep);
      var cStop := Min(ra.stop, rb.stop);
      CommonPositions(ra, rb, c0, cStart, cStop);
      if cStart < cStop then Some(Range(cStart, cStop, cStep)) else None
  }

  /** `_slice_intersection(a, b, length)` for positive-step slices. */
  function SliceIntersection(a: Slice, b: Slice, length: nat): (r: Option<Slice>)
    requires PositiveStep(a) && PositiveStep(b)
    ensures r.Some? ==> Indices(r.value, length).Ok?
    ensures r.Some? ==> Normalized(Indices(r.value, length).value, length)
    ensures r.Some? ==> AlignedSubrange(Indices(r.value, length).value, Indices(a, length).value)
    ensures r.Some? ==> AlignedSubrange(Indices(r.value, length).value, Indices(b, length).value)
    ensures forall i :: (r.Some? && Selects(r.value, length, i)) <==> Selects(a, length, i) && Selects(b, length, i)
  {
    var ra := Indices(a, length).value;
    var rb := Indices(b, length).value;
    match RangeIntersection(ra, rb)
    case None => None
    case Some(c) =>
      IndicesOfNormalized(c, length);
      IntersectionIsAligned(ra, rb);
      Some(SliceOf(c))
  }

  /** `_slice_intersection` does not depend on the order of its arguments. */
  lemma RangeIntersectionSymmetric(ra: Range, rb: Range)
    requires ra.step > 0 && rb.step > 0
    ensures RangeIntersection(ra, rb) == RangeIntersection(rb, ra)
  {
    var r1 := RangeIntersection(ra, rb);
    var r2 := RangeIntersection(rb, ra);
    if r1.Some? {
      assert InOpt(r1.value.start, r1);
    }
    if r2.Some? {
      assert InOpt(r2.value.start, r2);
    }
    if r1.Some? && r2.Some? {
      LcmSymmetric(ra.step, rb.step);
    }
  }

  lemma LcmSymmetric(a: int, b: int)
    requires a > 0 && b > 0
    ensures Lcm(a, b) == Lcm(b, a)
  {
    var g, h := ExtGcd(a, b).0, ExtGcd(b, a).0;
    ExtGcdIsGreatest(a, b, h);
    ExtGcdIsGreatest(b, a, g);
    MutualDivisors(g, h);
  }

  // ---------------------------------------------------------------------
  // _index_for_subslice

  /** `sub` is a sub-progression of `a` of the shape intersections have: it
      starts on a member of `a`, its step is a multiple of `a`'s step, it is
      nonempty, and it stops no later than `a`. */
  predicate AlignedSubrange(sub: Range, a: Range) {
    a.step > 0 && sub.step > 0 && InRange(sub.start, a) && sub.step % a.step == 0
    && sub.start < sub.stop && sub.stop <= a.stop
  }

  /** The range of local positions of `a`'s chunk that hold `sub`, computed
      as `_index_for_subslice` does. Member `k` of the result, read through
      `a`, is member `k` of `sub`, and both have the same length. */
  function SubrangeIndex(a: Range, sub: Range): (c: Range)
    requires a.step > 0
    ensures AlignedSubrange(sub, a) ==>
      && Normalized(c, Count(a)) && c.start < c.stop
      && Count(c) == Count(sub)
      && forall k :: 0 <= k < Count(c) ==> Element(a, Element(c, k)) == Element(sub, k)
  {
    var c := Range((sub.start - a.start) / a.step, (sub.stop - a.start - 1) / a.step + 1, sub.step / a.step);
    if AlignedSubrange(sub, a) then
      SubrangeFacts(a, sub, c);
      c
    else
      c
  }

  lemma FloorLe(x: int, y: int, d: int)
    requires d > 0
    ensures x <= y / d <==> d * x <= y
  {
    var q := y / d;
    assert d * q <= y < d * q + d;
    if x <= q {
      MulMonotone(x, q, d);
    } else {
      MulMonotone(q + 1, x, d);
    }
  }

  lemma SameCount(r1: Range, r2: Range)
    requires r1.step > 0 && r2.step > 0
    requires forall k :: 0 <= k ==> (Element(r1, k) < r1.stop <==> Element(r2, k) < r2.stop)
    ensures Count(r1) == Count(r2)
  {
    var k := Min(Count(r1), Count(r2));
    assert Element(r1, k) < r1.stop <==> Element(r2, k) < r2.stop;
  }

  lemma SubrangeFacts(a: Range, sub: Range, c: Range)
    requires AlignedSubrange(sub, a)
    requires c == Range((sub.start - a.start) / a.step, (sub.stop - a.start - 1) / a.step + 1, sub.step / a.step)
    ensures Normalized(c, Count(a)) && c.start < c.stop
    ensures Count(c) == Count(sub)
    ensures forall k :: 0 <= k < Count(c) ==> Element(a, Element(c, k)) == Element(sub, k)
  {
    var m, s := c.start, c.step;
    assert sub.start - a.start == a.step * m && sub.step == a.step * s;
    assert 0 <= m && 0 < s by {
      MulSign(a.step, s);
      if m < 0 {
        MulSign(a.step, m);
      }
    }
    assert m < c.stop by {
      FloorLe(m, sub.stop - a.start - 1, a.step);
    }
    assert c.stop <= Count(a) by {
      DivMonotone(sub.stop - a.start - 1, a.stop - a.start - 1, a.step);
    }
    forall k | 0 <= k
      ensures Element(a, Element(c, k)) == Element(sub, k)
    {
      SubrangeElement(a.start, a.step, m, s, k);
    }
    assert Count(c) == Count(sub) by {
      forall k | 0 <= k
        ensures Element(c, k) < c.stop <==> Element(sub, k) < sub.stop
      {
        FloorLe(Element(c, k), sub.stop - a.start - 1, a.step);
      }
      SameCount(c, sub);
    }
  }

  lemma SubrangeElement(start: int, step: int, m: int, s: int, k: int)
    ensures start + (m + k * s) * step == (start + step * m) + k * (step * s)
  {
    assert (m + k * s) * step == m * step + k * (s * step);
  }

  lemma DivMonotone(x: int, y: int, d: int)
    requires x <= y && d > 0
    ensures x / d <= y / d
  {
    FloorLe(x / d, y, d);
    assert d * (x / d) <= x;
  }

  /** `_index_for_subslice(a, sub, length)`. */
  function IndexForSubslice(a: Slice, sub: Slice, length: nat): (c: Slice)
    requires PositiveStep(a) && PositiveStep(sub)
    ensures
      var ra := Indices(a, length).value;
      var rs := Indices(sub, length).value;
      AlignedSubrange(rs, ra) ==>
        && Indices(c, Count(ra)).Ok?
        && Indices(c, Count(ra)).value.step > 0
        && Count(Indices(c, Count(ra)).value) == Count(rs)
        && forall k :: 0 <= k < Count(rs) ==>
             Element(ra, Element(Indices(c, Count(ra)).value, k)) == Element(rs, k)
  {
    var ra := Indices(a, length).value;
    var rs := Indices(sub, length).value;
    var rc := SubrangeIndex(ra, rs);
    if AlignedSubrange(rs, ra) then
      IndicesOfNormalized(rc, Count(ra));
      SliceOf(rc)
    else
      SliceOf(rc)
  }

  /** Intersections are aligned sub-ranges of both operands, which is how
      `_index_for_subslice` is always called. */
  lemma IntersectionIsAligned(ra: Range, rb: Range)
    requires ra.step > 0 && rb.step > 0
    requires RangeIntersection(ra, rb).Some?
    ensures AlignedSubrange(RangeIntersection(ra, rb).value, ra)
    ensures AlignedSubrange(RangeIntersection(ra, rb).value, rb)
  {
    var c := RangeIntersection(ra, rb).value;
    assert InOpt(c.start, Some(c));
  }

  // ---------------------------------------------------------------------
  // Multi-dimensional indices

  /** A chunk index: one positive-step slice per axis. */
  predicate ValidIndex(idx: seq<Slice>, shape: seq<nat>) {
    |idx| == |shape| && forall d :: 0 <= d < |idx| ==> PositiveStep(idx[d])
  }

  type Cell = seq<int>

  /** The cells an index selects from an array of the given shape. */
  predicate CellIn(idx: seq<Slice>, shape: seq<nat>, c: Cell) {
    |c| == |shape| == |idx| && forall d :: 0 <= d < |c| ==> Selects(idx[d], shape[d], c[d])
  }

  /** `_index_intersection(a_idx, b_idx, shape)`: the per-axis intersections,
      or None as soon as one of them is. */
  function IndexIntersection(a: seq<Slice>, b: seq<Slice>, shape: seq<nat>): (r: Option<seq<Slice>>)
    requires ValidIndex(a, shape) && ValidIndex(b, shape)
    ensures r.Some? ==> ValidIndex(r.value, shape)
    ensures r.None? <==> exists d :: 0 <= d < |shape| && SliceIntersection(a[d], b[d], shape[d]).None?
    ensures r.Some? ==> forall d :: 0 <= d < |shape| ==> r.value[d] == SliceIntersection(a[d], b[d], shape[d]).value
    ensures forall c :: (r.Some? && CellIn(r.value, shape, c)) <==> CellIn(a, shape, c) && CellIn(b, shape, c)
  {
    var axes := seq(|shape|, d requires 0 <= d < |shape| => SliceIntersection(a[d], b[d], shape[d]));
    if forall d :: 0 <= d < |shape| ==> axes[d].Some? then
      var r := seq(|shape|, d requires 0 <= d < |shape| => axes[d].value);
      assert forall d :: 0 <= d < |shape| ==> r[d] == SliceOf(Indices(r[d], shape[d]).value);
      Some(r)
    else
      var d :| 0 <= d < |shape| && axes[d].None?;
      assert forall c :: !(CellIn(a, shape, c) && CellIn(b, shape, c)) by {
        forall c
          ensures !(CellIn(a, shape, c) && CellIn(b, shape, c))
        {
          if |c| == |shape| {
            assert !(Selects(a[d], shape[d], c[d]) && Selects(b[d], shape[d], c[d]));
          }
        }
      }
      None
  }

  /** `_index_for_subindex(a_idx, sub_idx, shape)`: `_index_for_subslice` on
      every axis. */
  function IndexForSubindex(a: seq<Slice>, sub: seq<Slice>, shape: seq<nat>): (c: seq<Slice>)
    requires ValidIndex(a, shape) && ValidIndex(sub, shape)
    ensures |c| == |shape|
    ensures forall d :: 0 <= d < |shape| ==> c[d] == IndexForSubslice(a[d], sub[d], shape[d])
  {
    seq(|shape|, d requires 0 <= d < |shape| => IndexForSubslice(a[d], sub[d], shape[d]))
  }

  lemma SliceIntersectionSymmetric(a: Slice, b: Slice, length: nat)
    requires PositiveStep(a) && PositiveStep(b)
    ensures SliceIntersection(a, b, length) == SliceIntersection(b, a, length)
  {
    RangeIntersectionSymmetric(Indices(a, length).value, Indices(b, length).value);
  }

  /** The intersection of two chunk indices does not depend on their order. */
  lemma IndexIntersectionSymmetric(a: seq<Slice>, b: seq<Slice>, shape: seq<nat>)
    requires ValidIndex(a, shape) && ValidIndex(b, shape)
    ensures IndexIntersection(a, b, shape) == IndexIntersection(b, a, shape)
  {
    forall d | 0 <= d < |shape|
      ensures SliceIntersection(a[d], b[d], shape[d]) == SliceIntersection(b[d], a[d], shape[d])
    {
      SliceIntersectionSymmetric(a[d], b[d], shape[d]);
    }
    var r1, r2 := IndexIntersection(a, b, shape), IndexIntersection(b, a, shape);
    if r1.Some? && r2.Some? {
      assert r1.value == r2.value;
    }
  }

  /** Re-indexing a chunk by its intersection with another one: along every
      axis, member `k` of the chunk-local slice, read through the chunk's own
      index, is member `k` of the intersection, so `chunk[local] == array[inter]`. */
  lemma SubindexOfIntersection(a: seq<Slice>, b: seq<Slice>, shape: seq<nat>)
    requires ValidIndex(a, shape) && ValidIndex(b, shape)
    requires IndexIntersection(a, b, shape).Some?
    ensures forall d :: 0 <= d < |shape| ==>
      AlignedSubrange(Indices(IndexIntersection(a, b, shape).value[d], shape[d]).value, Indices(a[d], shape[d]).value)
  {
  }

  // ---------------------------------------------------------------------
  // _shape_after_indexing

  /** The extent `(stop - start - 1) // step + 1` computed for one axis. For a
      positive step it is the length of the range whenever `start <= stop`. */
  function AxisExtent(r: Range): (e: int)
    requires r.step != 0
    ensures r.step > 0 && r.start <= r.stop ==> e == Count(r)
    ensures r.step > 0 && r.start > r.stop ==> e <= 0
  {
    var e := FloorDiv(r.stop - r.start - 1, r.step) + 1;
    if r.step > 0 && r.start < r.stop then
      CountBound(r.stop - r.start, r.step, e);
      assert Element(r, e - 1) < r.stop <= Element(r, e);
      e
    else
      e
  }

  /** `_shape_after_indexing(outer_shape, idx)`: the axes `idx` covers get
      their extent, the others keep their length. The first failing axis
      decides the error: a zero step raises ValueError, an index with more
      entries than the shape has axes raises IndexError. */
  function ShapeAfterIndexing(outer: seq<nat>, idx: seq<Slice>): (r: Result<seq<int>>)
    ensures r.Ok? <==> |idx| <= |outer| && forall d :: 0 <= d < |idx| ==> idx[d].step != Some(0)
    ensures r.Err? && (exists d :: 0 <= d < |idx| && d < |outer| && idx[d].step == Some(0)) ==> r.error == ValueError
    ensures r.Err? && (forall d :: 0 <= d < |idx| && d < |outer| ==> idx[d].step != Some(0)) ==> r.error == IndexError
    ensures r.Ok? ==> |r.value| == |outer|
    ensures r.Ok? ==> forall d :: |idx| <= d < |outer| ==> r.value[d] == outer[d]
    ensures r.Ok? ==> forall d :: 0 <= d < |idx| ==>
      r.value[d] == AxisExtent(Indices(idx[d], outer[d]).value)
  {
    ShapeFrom(outer, idx, 0)
  }

  function ShapeFrom(outer: seq<nat>, idx: seq<Slice>, i: nat): (r: Result<seq<int>>)
    requires i <= |idx|
    ensures r.Ok? <==> |idx| <= |outer| && forall d :: i <= d < |idx| ==> idx[d].step != Some(0)
    ensures r.Err? && (exists d :: i <= d < |idx| && d < |outer| && idx[d].step == Some(0)) ==> r.error == ValueError
    ensures r.Err? && (forall d :: i <= d < |idx| && d < |outer| ==> idx[d].step != Some(0)) ==> r.error == IndexError
    ensures r.Ok? ==> |r.value| == |outer|
    ensures r.Ok? ==> forall d :: 0 <= d < i || |idx| <= d < |outer| ==> r.value[d] == outer[d]
    ensures r.Ok? ==> forall d :: i <= d < |idx| ==> r.value[d] == AxisExtent(Indices(idx[d], outer[d]).value)
    decreases |idx| - i
  {
    if i == |idx| then
      if |idx| <= |outer| then Ok(outer) else Err(IndexError)
    else if i >= |outer| then Err(IndexError)
    else match Indices(idx[i], outer[i])
      case Err(e) => Err(e)
      case Ok(range) =>
        match ShapeFrom(outer, idx, i + 1)
        case Err(e) => Err(e)
        case Ok(rest) => Ok(rest[i := AxisExtent(range)])
  }

  // ---------------------------------------------------------------------
  // _convert_chunk_idx_to_slices

  /** One entry of a user-supplied chunk index. */
  datatype IndexItem = IntItem(n: int) | SliceItem(s: Slice) | OtherItem

  /** A chunk index as the user passes it: a tuple, or a single entry that is
      wrapped into a one-element tuple. */
  datatype ChunkIdx = TupleIdx(items: seq<IndexItem>) | SingleIdx(item: IndexItem)

  function Items(idx: ChunkIdx): seq<IndexItem> {
    match idx
    case TupleIdx(items) => items
    case SingleIdx(item) => [item]
  }

  /** Missing trailing axes are filled with `slice(None)`. */
  function Padded(items: seq<IndexItem>, ndim: nat): (p: seq<IndexItem>)
    requires |items| <= ndim
    ensures |p| == ndim && p[..|items|] == items
    ensures forall d :: |items| <= d < ndim ==> p[d] == SliceItem(FullSlice)
  {
    items + seq(ndim - |items|, _ => SliceItem(FullSlice))
  }

  /** Axis `d` is the first whose conversion fails, and it fails with `e`. */
  predicate FirstFailure(items: seq<IndexItem>, shape: seq<nat>, convert: (IndexItem, nat) -> Result<Slice>, d: int, e: Error)
    requires |items| == |shape|
  {
    && 0 <= d < |items|
    && convert(items[d], shape[d]) == Err(e)
    && forall k :: 0 <= k < d ==> convert(items[k], shape[k]).Ok?
  }

  /** Converts every axis with `convert`; the first axis that fails decides
      the error, as the loop over the axes does. */
  function ConvertAxes(items: seq<IndexItem>, shape: seq<nat>, convert: (IndexItem, nat) -> Result<Slice>): (r: Result<seq<Slice>>)
    requires |items| == |shape|
    ensures r.Ok? <==> forall d :: 0 <= d < |items| ==> convert(items[d], shape[d]).Ok?
    ensures r.Ok? ==> |r.value| == |items| && forall d :: 0 <= d < |items| ==> r.value[d] == convert(items[d], shape[d]).value
    ensures r.Err? ==> exists d :: FirstFailure(items, shape, convert, d, r.error)
  {
    if |items| == 0 then Ok([])
    else match convert(items[0], shape[0])
      case Err(e) =>
        assert FirstFailure(items, shape, convert, 0, e);
        Err(e)
      case Ok(first) =>
        match ConvertAxes(items[1..], shape[1..], convert)
        case Err(e) =>
          var d :| FirstFailure(items[1..], shape[1..], convert, d, e);
          assert FirstFailure(items, shape, convert, d + 1, e);
          Err(e)
        case Ok(rest) =>
          assert forall d :: 1 <= d < |items| ==> convert(items[d], shape[d]) == convert(items[1..][d - 1], shape[1..][d - 1]);
          Ok([first] + rest)
  }

  /** One axis of `_convert_chunk_idx_to_slices` as written: an integer is
      only checked against the upper bound and kept as `slice(n, n + 1)`, and
      a slice is rejected as empty only when `start == stop`. */
  function ConvertItemAsWritten(item: IndexItem, length: nat): (r: Result<Slice>)
    ensures r.Ok? ==> PositiveStep(r.value)
    ensures item.IntItem? ==> (r.Ok? <==> item.n < length) && (r.Err? ==> r.error == IndexError)
    ensures item.SliceItem? ==>
      var range := Indices(item.s, length);
      (r.Err? <==> range.Err? || range.value.step < 0 || range.value.start == range.value.stop)
    ensures item.SliceItem? ==> (r.Ok? ==> Indices(r.value, length) == Indices(item.s, length)) && (r.Err? ==> r.error == ValueError)
    ensures item.OtherItem? ==> r == Err(ValueError)
  {
    match item
    case IntItem(n) =>
      if n >= length then Err(IndexError) else Ok(Slice(Some(n), Some(n + 1), None))
    case SliceItem(s) =>
      (match Indices(s, length)
       case Err(e) => Err(e)
       case Ok(range) =>
         if range.step < 0 then Err(ValueError)
         else if range.start == range.stop then Err(ValueError)
         else
           IndicesOfNormalized(range, length);
           Ok(SliceOf(range)))
    case OtherItem => Err(ValueError)
  }

  /** What the as-written conversion of an integer entry selects: numpy's
      position for every accepted integer except `-1`, which selects
      nothing (and so do integers below `-length`, which numpy rejects). */
  lemma ConvertItemAsWrittenInt(n: int, length: nat)
    requires n < length
    ensures forall i :: Selects(ConvertItemAsWritten(IntItem(n), length).value, length, i) <==>
      ItemSelects(IntItem(n), length, i) && n != -1
  {
  }

  /** `_convert_chunk_idx_to_slices(shape, idx)` as written: the entries,
      padded with full slices up to the number of axes, converted axis by
      axis; the first axis that fails raises. */
  function ConvertChunkIdxAsWritten(shape: seq<nat>, idx: ChunkIdx): (r: Result<seq<Slice>>)
    ensures |Items(idx)| > |shape| ==> r == Err(IndexError)
    ensures |Items(idx)| <= |shape| ==> var p := Padded(Items(idx), |shape|);
      && (r.Ok? <==> forall d :: 0 <= d < |shape| ==> ConvertItemAsWritten(p[d], shape[d]).Ok?)
      && (r.Ok? ==> |r.value| == |shape| && forall d :: 0 <= d < |shape| ==> r.value[d] == ConvertItemAsWritten(p[d], shape[d]).value)
      && (r.Err? ==> exists d :: FirstFailure(p, shape, ConvertItemAsWritten, d, r.error))
    ensures r.Ok? ==> ValidIndex(r.value, shape)
  {
    var items := Items(idx);
    if |items| > |shape| then Err(IndexError)
    else ConvertAxes(Padded(items, |shape|), shape, ConvertItemAsWritten)
  }

  /** The positions a user index entry denotes on an axis, with numpy's
      meaning: a negative integer counts from the end. */
  predicate ItemSelects(item: IndexItem, length: nat, i: int) {
    match item
    case IntItem(n) => -(length as int) <= n < length && i == (if n < 0 then n + length else n)
    case SliceItem(s) => Selects(s, length, i)
    case OtherItem => false
  }

  /** The entries a chunk index may hold: an integer inside the axis, or a
      slice with a positive step that selects at least one position. */
  ghost predicate ItemAccepted(item: IndexItem, length: nat) {
    match item
    case IntItem(n) => -(length as int) <= n < length
    case SliceItem(s) => PositiveStep(s) && exists i :: Selects(s, length, i)
    case OtherItem => false
  }

  /** One axis of `_convert_chunk_idx_to_slices` as evidently intended:
      negative integers count from the end, and every empty slice is
      rejected. */
  function ConvertItem(item: IndexItem, length: nat): (r: Result<Slice>)
    ensures r.Ok? <==> ItemAccepted(item, length)
    ensures r.Ok? ==> PositiveStep(r.value) && Indices(r.value, length).Ok?
    ensures r.Ok? ==> Normalized(Indices(r.value, length).value, length)
    ensures r.Ok? ==> Indices(r.value, length).value.start < Indices(r.value, length).value.stop
    ensures r.Ok? ==> forall i :: Selects(r.value, length, i) <==> ItemSelects(item, length, i)
    ensures r.Err? ==> r.error == (if item.IntItem? then IndexError else ValueError)
  {
    match item
    case IntItem(n) =>
      if n < -(length as int) || n >= length then Err(IndexError)
      else
        var m := if n < 0 then n + length else n;
        Ok(Slice(Some(m), Some(m + 1), None))
    case SliceItem(s) =>
      (match Indices(s, length)
       case Err(e) => Err(e)
       case Ok(range) =>
         if range.step < 0 then Err(ValueError)
         else if range.start >= range.stop then
           assert forall i :: !Selects(s, length, i);
           Err(ValueError)
         else
           IndicesOfNormalized(range, length);
           assert Selects(s, length, range.start);
           Ok(SliceOf(range)))
    case OtherItem => Err(ValueError)
  }

  /** Every axis of the index selects at least one position. */
  predicate NonemptyIndex(idx: seq<Slice>, shape: seq<nat>)
    requires ValidIndex(idx, shape)
  {
    forall d :: 0 <= d < |idx| ==> Indices(idx[d], shape[d]).value.start < Indices(idx[d], shape[d]).value.stop
  }

  /** `_convert_chunk_idx_to_slices(shape, idx)` as evidently intended. */
  function ConvertChunkIdx(shape: seq<nat>, idx: ChunkIdx): (r: Result<seq<Slice>>)
    ensures |Items(idx)| > |shape| ==> r == Err(IndexError)
    ensures r.Ok? ==> ValidIndex(r.value, shape) && NonemptyIndex(r.value, shape)
  {
    var items := Items(idx);
    if |items| > |shape| then Err(IndexError)
    else ConvertAxes(Padded(items, |shape|), shape, ConvertItem)
  }

  /** An index converts exactly when every entry is accepted, and the
      converted index selects the cells the entries denote. */
  lemma ConvertChunkIdxMeaning(shape: seq<nat>, idx: ChunkIdx)
    ensures |Items(idx)| <= |shape| ==>
      (ConvertChunkIdx(shape, idx).Ok? <==> forall d :: 0 <= d < |shape| ==> ItemAccepted(Padded(Items(idx), |shape|)[d], shape[d]))
    ensures ConvertChunkIdx(shape, idx).Ok? ==> forall c :: CellIn(ConvertChunkIdx(shape, idx).value, shape, c) <==>
      |c| == |shape| && forall d :: 0 <= d < |shape| ==> ItemSelects(Padded(Items(idx), |shape|)[d], shape[d], c[d])
  {
  }

  /** Every accepted index selects at least one position on every axis, and
      `_shape_after_indexing` then gives the length of each axis. */
  lemma ConvertedShape(shape: seq<nat>, idx: seq<Slice>)
    requires ValidIndex(idx, shape) && NonemptyIndex(idx, shape)
    ensures ShapeAfterIndexing(shape, idx).Ok?
    ensures forall d :: 0 <= d < |shape| ==>
      ShapeAfterIndexing(shape, idx).value[d] == Count(Indices(idx[d], shape[d]).value) > 0
  {
    forall d | 0 <= d < |shape|
      ensures Count(Indices(idx[d], shape[d]).value) > 0
    {
      var r := Indices(idx[d], shape[d]).value;
      assert Element(r, 0) < r.stop;
    }
  }

  /** The two conversions agree on every index without a negative integer
      and without a slice whose start lies beyond its stop. */
  lemma ConvertAgreesAwayFromFindings(shape: seq<nat>, idx: ChunkIdx)
    requires forall d :: 0 <= d < |Items(idx)| ==> !(Items(idx)[d].IntItem? && Items(idx)[d].n < 0)
    requires forall d :: 0 <= d < |Items(idx)| && d < |shape| && Items(idx)[d].SliceItem? ==>
      var r := Indices(Items(idx)[d].s, shape[d]);
      !(r.Ok? && r.value.step > 0 && r.value.start > r.value.stop)
    ensures ConvertChunkIdxAsWritten(shape, idx) == ConvertChunkIdx(shape, idx)
  {
    var items := Items(idx);
    if |items| <= |shape| {
      var p := Padded(items, |shape|);
      forall d | 0 <= d < |shape|
        ensures ConvertItemAsWritten(p[d], shape[d]) == ConvertItem(p[d], shape[d])
      {
        if d < |items| {
          assert p[d] == items[d];
        }
      }
      ConvertAxesAgree(p, shape, ConvertItemAsWritten, ConvertItem);
    }
  }

  lemma {:induction false} ConvertAxesAgree(items: seq<IndexItem>, shape: seq<nat>,
                                            f: (IndexItem, nat) -> Result<Slice>, g: (IndexItem, nat) -> Result<Slice>)
    requires |items| == |shape|
    requires forall d :: 0 <= d < |items| ==> f(items[d], shape[d]) == g(items[d], shape[d])
    ensures ConvertAxes(items, shape, f) == ConvertAxes(items, shape, g)
  {
    if |items| > 0 {
      assert forall d :: 0 <= d < |items| - 1 ==> items[1..][d] == items[d + 1] && shape[1..][d] == shape[d + 1];
      ConvertAxesAgree(items[1..], shape[1..], f, g);
    }
  }

  /** Finding: an integer entry `-1` on an axis of length 4 becomes
      `slice(-1, 0)`, which selects nothing, where numpy's `x[-1]` selects
      position 3. */
  lemma NegativeIntegerSelectsNothing()
    ensures ConvertChunkIdxAsWritten([4], SingleIdx(IntItem(-1))) == Ok([Slice(Some(-1), Some(0), None)])
    ensures forall i :: !Selects(Slice(Some(-1), Some(0), None), 4, i)
    ensures ShapeAfterIndexing([4], [Slice(Some(-1), Some(0), None)]) == Ok([-3])
    ensures ConvertChunkIdx([4], SingleIdx(IntItem(-1))) == Ok([Slice(Some(3), Some(4), None)])
    ensures forall i :: Selects(Slice(Some(3), Some(4), None), 4, i) <==> i == 3
  {
    var p := Padded([IntItem(-1)], 1);
    var sh: seq<nat> := [4];
    assert p == [IntItem(-1)];
    var x, y := Slice(Some(-1), Some(0), None), Slice(Some(3), Some(4), None);
    assert Indices(x, 4) == Ok(Range(3, 0, 1));
    assert ConvertItemAsWritten(p[0], sh[0]) == Ok(x);
    assert ConvertAxes(p[1..], sh[1..], ConvertItemAsWritten) == Ok([]);
    assert [x] + [] == [x];
    assert ConvertItem(p[0], sh[0]) == Ok(y);
    assert ConvertAxes(p[1..], sh[1..], ConvertItem) == Ok([]);
    assert [y] + [] == [y];
    assert AxisExtent(Range(3, 0, 1)) == -3;
    var extents: seq<int> := sh;
    assert ShapeFrom(sh, [x], 1) == Ok(extents);
    assert extents[0 := -3] == [-3];
  }

  /** Finding: `slice(3, 1)` on an axis of length 5 passes the `start == stop`
      emptiness check, so an empty chunk is accepted; its extent comes out
      as -2. The intended check rejects it. */
  lemma ReversedSliceAccepted()
    ensures ConvertChunkIdxAsWritten([5], SingleIdx(SliceItem(Slice(Some(3), Some(1), None))))
      == Ok([Slice(Some(3), Some(1), Some(1))])
    ensures forall i :: !Selects(Slice(Some(3), Some(1), Some(1)), 5, i)
    ensures ShapeAfterIndexing([5], [Slice(Some(3), Some(1), Some(1))]) == Ok([-2])
    ensures ConvertChunkIdx([5], SingleIdx(SliceItem(Slice(Some(3), Some(1), None)))) == Err(ValueError)
  {
    var s, x := Slice(Some(3), Some(1), None), Slice(Some(3), Some(1), Some(1));
    var p := Padded([SliceItem(s)], 1);
    var sh: seq<nat> := [5];
    assert p == [SliceItem(s)];
    assert Indices(s, 5) == Ok(Range(3, 1, 1));
    assert ConvertItemAsWritten(p[0], sh[0]) == Ok(x);
    assert ConvertAxes(p[1..], sh[1..], ConvertItemAsWritten) == Ok([]);
    assert [x] + [] == [x];
    assert ConvertItem(p[0], sh[0]) == Err(ValueError);
    assert Indices(x, 5) == Ok(Range(3, 1, 1));
    assert AxisExtent(Range(3, 1, 1)) == -2;
    var extents: seq<int> := sh;
    assert ShapeFrom(sh, [x], 1) == Ok(extents);
    assert extents[0 := -2] == [-2];
  }
}
