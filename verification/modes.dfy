/** The consistency modes of a distributed array (`_MODES`): replica mode, in
    which every chunk holding a cell holds its value, and the op modes, in
    which the value of a cell is the reduction of every chunk holding it. */
module Modes {
  import opened Wrappers
  import opened NumTheory

  /** A reduction operator with its identity, as an `_OpMode` pairs a ufunc
      with `identity_of`. */
  datatype Monoid<!V> = Monoid(combine: (V, V) -> V, unit: V)

  /** The algebra the consistency rules rely on: an associative, commutative
      operator with a two-sided identity. */
  ghost predicate Lawful<V(!new)>(m: Monoid<V>) {
    && (forall x, y, z {:trigger m.combine(m.combine(x, y), z), m.combine(x, m.combine(y, z))} ::
          m.combine(m.combine(x, y), z) == m.combine(x, m.combine(y, z)))
    && (forall x, y {:trigger m.combine(x, y), m.combine(y, x)} :: m.combine(x, y) == m.combine(y, x))
    && (forall x :: m.combine(m.unit, x) == x)
  }

  ghost predicate Idempotent<V(!new)>(m: Monoid<V>) {
    forall x :: m.combine(x, x) == x
  }

  /** `_Mode`: replica mode, or an operator with its `idempotent` flag. */
  datatype Mode<!V> = Replica | Op(monoid: Monoid<V>, idempotent: bool)

  /** What the engine needs of an op mode: a lawful operator that really is
      idempotent whenever the flag says so. */
  ghost predicate Sound<V(!new)>(mode: Mode<V>) {
    mode.Op? ==> Lawful(mode.monoid) && (mode.idempotent ==> Idempotent(mode.monoid))
  }

  // ---------------------------------------------------------------------
  // The five modes over int64

  const Two63: int := 0x8000_0000_0000_0000
  const Two64: int := 0x1_0000_0000_0000_0000

  type Int64 = x: int | -0x8000_0000_0000_0000 <= x < 0x8000_0000_0000_0000

  /** Two's-complement wrap-around of an int64 result. */
  function Wrap(x: int): (w: Int64)
    ensures (w - x) % Two64 == 0
    ensures -Two63 <= x < Two63 ==> w == x
  {
    var w := (x + Two63) % Two64 - Two63;
    assert x + Two63 == Two64 * ((x + Two63) / Two64) + (x + Two63) % Two64;
    MulMod(Two64, -((x + Two63) / Two64));
    w
  }

  lemma WrapCongruent(x: int, y: int)
    requires (x - y) % Two64 == 0
    ensures Wrap(x) == Wrap(y)
  {
    var k := (x - y) / Two64;
    assert x - y == Two64 * k;
    var qx, qy := (x + Two63) / Two64, (y + Two63) / Two64;
    var rx, ry := (x + Two63) % Two64, (y + Two63) % Two64;
    assert x + Two63 == Two64 * qx + rx;
    assert y + Two63 == Two64 * qy + ry;
    assert rx - ry == Two64 * (k - qx + qy);
    if k - qx + qy != 0 {
      MulSign(Two64, k - qx + qy);
    }
  }

  /** `cupy.add` on int64. */
  function Add64(x: Int64, y: Int64): Int64 {
    Wrap(x + y)
  }

  /** Adding a nonzero int64 never leaves an int64 where it was, even with
      wrap-around. */
  lemma AddNonzeroMoves(t: Int64, y: Int64)
    requires y != 0
    ensures Add64(t, y) != t
  {
  }

  /** `cupy.multiply` on int64. */
  function Mul64(x: Int64, y: Int64): Int64 {
    Wrap(x * y)
  }

  /** `cupy.minimum`. */
  function Min64(x: Int64, y: Int64): Int64 {
    if x <= y then x else y
  }

  /** `cupy.maximum`. */
  function Max64(x: Int64, y: Int64): Int64 {
    if x >= y then x else y
  }

  /** The operators with the identities `identity_of` gives them: 0, 1,
      `iinfo(int64).max` for `min` and `iinfo(int64).min` for `max`. */
  const SumMonoid: Monoid<Int64> := Monoid(Add64, 0)
  const ProdMonoid: Monoid<Int64> := Monoid(Mul64, 1)
  const MinMonoid: Monoid<Int64> := Monoid(Min64, 0x7fff_ffff_ffff_ffff)
  const MaxMonoid: Monoid<Int64> := Monoid(Max64, -0x8000_0000_0000_0000)

  datatype ModeName = ReplicaMode | MinMode | MaxMode | SumMode | ProdMode

  /** The keys of `_MODES`. */
  function ModeString(name: ModeName): string {
    match name
    case ReplicaMode => "replica"
    case MinMode => "min"
    case MaxMode => "max"
    case SumMode => "sum"
    case ProdMode => "prod"
  }

  /** The lookup `_MODES[mode]` guarded by `mode not in _MODES`, which raises
      RuntimeError. */
  function ParseMode(s: string): (r: Result<ModeName>)
    ensures r.Ok? ==> ModeString(r.value) == s
    ensures r.Err? ==> r.error == RuntimeError && forall name :: ModeString(name) != s
  {
    if s == "replica" then Ok(ReplicaMode)
    else if s == "min" then Ok(MinMode)
    else if s == "max" then Ok(MaxMode)
    else if s == "sum" then Ok(SumMode)
    else if s == "prod" then Ok(ProdMode)
    else Err(RuntimeError)
  }

  /** The `mode` property finds every mode's key again, so its
      "Unrecognized mode" error cannot be raised. */
  lemma ParseModeString(name: ModeName)
    ensures ParseMode(ModeString(name)) == Ok(name)
  {
  }

  /** The table `_MODES` over int64. */
  function ModeOf(name: ModeName): Mode<Int64> {
    match name
    case ReplicaMode => Replica
    case MinMode => Op(MinMonoid, true)
    case MaxMode => Op(MaxMonoid, true)
    case SumMode => Op(SumMonoid, false)
    case ProdMode => Op(ProdMonoid, false)
  }

  lemma SumLawful()
    ensures Lawful(SumMonoid)
  {
    forall x: Int64, y: Int64, z: Int64
      ensures Add64(Add64(x, y), z) == Add64(x, Add64(y, z))
    {
      AddAssociative(x, y, z);
    }
  }

  lemma AddAssociative(x: Int64, y: Int64, z: Int64)
    ensures Add64(Add64(x, y), z) == Add64(x, Add64(y, z))
  {
    var a, b := Wrap(x + y), Wrap(y + z);
    assert (a + z - (x + y + z)) % Two64 == 0;
    assert (x + b - (x + y + z)) % Two64 == 0;
    WrapCongruent(a + z, x + y + z);
    WrapCongruent(x + b, x + y + z);
  }

  lemma ProdLawful()
    ensures Lawful(ProdMonoid)
  {
    forall x: Int64, y: Int64, z: Int64
      ensures Mul64(Mul64(x, y), z) == Mul64(x, Mul64(y, z))
    {
      MulAssociative(x, y, z);
    }
    forall x: Int64, y: Int64
      ensures Mul64(x, y) == Mul64(y, x)
    {
      assert x * y == y * x;
    }
  }

  lemma MulAssociative(x: Int64, y: Int64, z: Int64)
    ensures Mul64(Mul64(x, y), z) == Mul64(x, Mul64(y, z))
  {
    var a, b := Wrap(x * y), Wrap(y * z);
    var ka, kb := (a - x * y) / Two64, (b - y * z) / Two64;
    assert a == x * y + Two64 * ka;
    assert b == y * z + Two64 * kb;
    WrappedProducts(x, y, z, a, b, ka, kb);
    MulMod(Two64, ka * z - x * kb);
    WrapCongruent(a * z, x * b);
  }

  lemma WrappedProducts(x: int, y: int, z: int, a: int, b: int, ka: int, kb: int)
    requires a == x * y + Two64 * ka && b == y * z + Two64 * kb
    ensures a * z - x * b == Two64 * (ka * z - x * kb)
  {
    assert a * z == x * y * z + Two64 * ka * z;
    assert x * b == x * y * z + x * Two64 * kb;
  }

  /** The `idempotent` flag of every entry of `_MODES` is exactly whether its
      operator is idempotent, and every operator is lawful. */
  lemma ModeTableSound(name: ModeName)
    ensures Sound(ModeOf(name))
    ensures ModeOf(name).Op? ==> (ModeOf(name).idempotent <==> Idempotent(ModeOf(name).monoid))
  {
    match name
    case ReplicaMode =>
    case MinMode =>
    case MaxMode =>
    case SumMode =>
      SumLawful();
      assert Add64(1, 1) == 2;
    case ProdMode =>
      ProdLawful();
      assert Mul64(2, 2) == 4;
  }
}
