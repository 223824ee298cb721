/** Python slice objects and `slice.indices(length)`, which every index
    computation of the distributed array goes through. */
module Slices {
  import opened Wrappers

  /** A Python `slice(start, stop, step)`; None stands for an omitted bound. */
  datatype Slice = Slice(start: Option<int>, stop: Option<int>, step: Option<int>)

  /** The triple `(start, stop, step)` that `slice.indices(length)` returns; it
      denotes the members of `range(start, stop, step)`. */
  datatype Range = Range(start: int, stop: int, step: int)

  /** `slice(None)`: the whole axis. */
  const FullSlice := Slice(None, None, None)

  function SliceOf(r: Range): Slice {
    Slice(Some(r.start), Some(r.stop), Some(r.step))
  }

  /** How `slice.indices` adjusts one bound: a missing bound becomes `absent`,
      a negative one counts from the end, and the result is clamped to
      `[lower, upper]`. */
  function AdjustBound(v: Option<int>, absent: int, length: nat, lower: int, upper: int): (b: int)
    requires lower <= 0 && length - 1 <= upper && lower <= upper
    ensures v.Some? ==> lower <= b <= upper
    ensures v.None? ==> b == absent
  {
    match v
    case None => absent
    case Some(x) =>
      if x < 0 then (if x + length < lower then lower else x + length)
      else if x > upper then upper else x
  }

  /** Python `slice.indices(length)`. A zero step raises ValueError. */
  function Indices(s: Slice, length: nat): (r: Result<Range>)
    ensures r.Err? <==> s.step == Some(0)
    ensures r.Ok? ==> r.value.step == (if s.step.None? then 1 else s.step.value)
    ensures r.Ok? && r.value.step > 0 ==>
      0 <= r.value.start <= length && 0 <= r.value.stop <= length
    ensures r.Ok? && r.value.step < 0 ==>
      -1 <= r.value.start <= length - 1 && -1 <= r.value.stop <= length - 1
  {
    var step := if s.step.None? then 1 else s.step.value;
    if step == 0 then Err(ValueError)
    else
      var lower := if step < 0 then -1 else 0;
      var upper := if step < 0 then length - 1 else length;
      var start := AdjustBound(s.start, if step < 0 then upper else lower, length, lower, upper);
      var stop := AdjustBound(s.stop, if step < 0 then lower else upper, length, lower, upper);
      Ok(Range(start, stop, step))
  }

  /** Membership in `range(r.start, r.stop, r.step)`. */
  predicate InRange(i: int, r: Range) {
    if r.step > 0 then r.start <= i < r.stop && (i - r.start) % r.step == 0
    else if r.step < 0 then r.stop < i <= r.start && (r.start - i) % (-r.step) == 0
    else false
  }

  /** The axis positions a slice selects on an axis of the given length. */
  predicate Selects(s: Slice, length: nat, i: int) {
    var r := Indices(s, length);
    r.Ok? && InRange(i, r.value)
  }

  /** A slice only ever selects positions inside the axis. */
  lemma SelectsWithinAxis(s: Slice, length: nat, i: int)
    requires Selects(s, length, i)
    ensures 0 <= i < length
  {
  }

  /** A range that `slice.indices` leaves as it is: positive step, both bounds
      inside `[0, length]`. Chunk indices are kept in this form. */
  predicate Normalized(r: Range, length: nat) {
    r.step > 0 && 0 <= r.start <= length && 0 <= r.stop <= length
  }

  /** For positive steps `slice.indices` is idempotent; so a chunk index stored
      as `slice(start, stop, step)` is re-read unchanged. */
  lemma IndicesOfNormalized(r: Range, length: nat)
    requires Normalized(r, length)
    ensures Indices(SliceOf(r), length) == Ok(r)
  {
  }

  lemma IndicesIdempotent(s: Slice, length: nat)
    requires Indices(s, length).Ok? && Indices(s, length).value.step > 0
    ensures Indices(SliceOf(Indices(s, length).value), length) == Indices(s, length)
  {
    IndicesOfNormalized(Indices(s, length).value, length);
  }

  /** The `k`-th member of `range(r.start, r.stop, r.step)`. */
  function Element(r: Range, k: int): int {
    r.start + k * r.step
  }

  /** `len(range(r.start, r.stop, r.step))` for a positive step. */
  function Count(r: Range): (n: nat)
    requires r.step > 0
    ensures forall k :: 0 <= k ==> (k < n <==> Element(r, k) < r.stop)
  {
    if r.start >= r.stop then 0
    else
      var n := (r.stop - r.start - 1) / r.step + 1;
      CountBound(r.stop - r.start, r.step, n);
      n
  }

  /** For `d > 0`, `n = (d - 1) / step + 1` is the number of `k >= 0` with `k * step < d`. */
  lemma CountBound(d: int, step: int, n: int)
    requires d > 0 && step > 0 && n == (d - 1) / step + 1
    ensures forall k :: 0 <= k ==> (k < n <==> k * step < d)
  {
    var q := (d - 1) / step;
    assert q * step <= d - 1 < q * step + step;
    forall k | 0 <= k
      ensures k < n <==> k * step < d
    {
      if k < n {
        assert k <= q;
        MulMonotone(k, q, step);
      } else {
        assert k >= q + 1;
        MulMonotone(q + 1, k, step);
      }
    }
  }

  lemma MulMonotone(a: int, b: int, c: int)
    requires a <= b && c >= 0
    ensures a * c <= b * c
  {
    assert b * c - a * c == (b - a) * c;
  }
}
