/** The extended Euclidean algorithm of `_extgcd` and the divisibility facts
    the slice intersection rests on. */
module NumTheory {

  /** `(b * k) % b == 0` for every integer k. */
  lemma MulMod(b: int, k: int)
    requires b > 0
    ensures (b * k) % b == 0
    ensures (b * k) / b == k
  {
    var q := (b * k) / b;
    var r := (b * k) % b;
    assert b * k == b * q + r && 0 <= r < b;
    assert b * (k - q) == r;
    MulSign(b, k - q);
  }

  lemma MulSign(b: int, m: int)
    requires b > 0
    ensures m >= 1 ==> b * m >= b
    ensures m <= -1 ==> b * m <= -b
  {
    assert b * m - b == b * (m - 1);
    assert b * m + b == b * (m + 1);
  }

  /** A divisor of p and q divides every integer combination of them. */
  lemma DividesLinear(d: int, p: int, q: int, m: int, n: int)
    requires d > 0 && p % d == 0 && q % d == 0
    ensures (p * m + q * n) % d == 0
  {
    var p' := p / d;
    var q' := q / d;
    assert p == d * p' && q == d * q';
    assert p * m + q * n == d * (p' * m + q' * n);
    MulMod(d, p' * m + q' * n);
  }

  /** The state `_extgcd` returns; `y` is the coefficient the source keeps only
      in a comment (`ax + by = g`). */
  datatype Bezout = Bezout(g: int, x: int, y: int)

  /** The loop of `_extgcd`, one iteration per call: the pair `(c, d)` follows
      Euclid's algorithm while `c == a*x + b*y` and `d == a*u + b*v` hold. */
  function ExtGcdLoop(a: int, b: int, c: int, d: int, x: int, y: int, u: int, v: int): (r: Bezout)
    requires c >= 0 && d >= 0 && c + d > 0
    requires c == a * x + b * y && d == a * u + b * v
    ensures r.g > 0 && c % r.g == 0 && d % r.g == 0
    ensures a * r.x + b * r.y == r.g
    decreases d
  {
    if d == 0 then Bezout(c, x, y)
    else
      var q := c / d;
      assert 0 <= c - d * q < d by {
        assert c - d * q == c % d;
      }
      BezoutStep(a, b, x, y, u, v, q);
      var r := ExtGcdLoop(a, b, d, c - d * q, u, v, x - u * q, y - v * q);
      DividesLinear(r.g, d, c - d * q, q, 1);
      r
  }

  /** One Euclid step keeps the remainder an integer combination of a and b. */
  lemma BezoutStep(a: int, b: int, x: int, y: int, u: int, v: int, q: int)
    ensures (a * x + b * y) - (a * u + b * v) * q == a * (x - u * q) + b * (y - v * q)
  {
    calc {
      (a * x + b * y) - (a * u + b * v) * q;
      a * x + b * y - (a * u) * q - (b * v) * q;
      { assert (a * u) * q == a * (u * q); assert (b * v) * q == b * (v * q); }
      a * x - a * (u * q) + b * y - b * (v * q);
      a * (x - u * q) + b * (y - v * q);
    }
  }

  /** `_extgcd(a, b)` for `a, b > 0`: `(g, x)` with `g` a common divisor of `a`
      and `b` and `a*x == g (mod b)`. */
  function ExtGcd(a: int, b: int): (r: (int, int))
    requires a > 0 && b > 0
    ensures r.0 > 0 && a % r.0 == 0 && b % r.0 == 0
    ensures (a * r.1 - r.0) % b == 0
  {
    var bz := ExtGcdLoop(a, b, a, b, 1, 0, 0, 1);
    assert a * bz.x - bz.g == b * (-bz.y);
    MulMod(b, -bz.y);
    (bz.g, bz.x)
  }

  /** The `g` of `_extgcd` is the greatest common divisor: every common divisor
      of `a` and `b` divides it. */
  lemma ExtGcdIsGreatest(a: int, b: int, k: int)
    requires a > 0 && b > 0 && k > 0 && a % k == 0 && b % k == 0
    ensures ExtGcd(a, b).0 % k == 0
  {
    var (g, x) := ExtGcd(a, b);
    var t := (a * x - g) / b;
    assert a * x - g == b * t;
    DividesLinear(k, a, b, x, -t);
    assert a * x + b * (-t) == g;
  }

  /** Divisibility is closed under subtraction. */
  lemma DivisibleDiff(p: int, u: int, v: int)
    requires p > 0 && u % p == 0 && v % p == 0
    ensures (u - v) % p == 0
  {
    DividesLinear(p, u, v, 1, -1);
  }

  /** Two positive numbers that divide each other are equal. */
  lemma MutualDivisors(g: int, h: int)
    requires g > 0 && h > 0 && g % h == 0 && h % g == 0
    ensures g == h
  {
    var s := g / h;
    var t := h / g;
    assert g == h * s && h == g * t;
    MulSign(h, s);
    MulSign(g, t);
    assert s >= 1 && t >= 1;
    MulSign(h, s - 1);
    MulSign(g, t - 1);
    assert g == h + h * (s - 1) && h == g + g * (t - 1);
  }

  /** `a // g * b`, the step `_slice_intersection` computes: the least common
      multiple of `a` and `b`. */
  function Lcm(a: int, b: int): (l: int)
    requires a > 0 && b > 0
    ensures l > 0 && l % a == 0 && l % b == 0
    ensures l / a == b / ExtGcd(a, b).0
    ensures l == a * (b / ExtGcd(a, b).0)
    ensures l == b * (a / ExtGcd(a, b).0)
  {
    var g := ExtGcd(a, b).0;
    var a' := a / g;
    var b' := b / g;
    assert a == g * a' && b == g * b';
    assert a' > 0 && b' > 0;
    assert a' * b == a * b' by {
      assert a' * b == a' * (g * b') == (a' * g) * b';
      assert a * b' == (g * a') * b';
    }
    MulMod(a, b');
    MulMod(b, a');
    a' * b
  }

  /** Cancellation of a positive factor. */
  lemma Cancel(g: int, u: int, v: int)
    requires g > 0 && g * u == g * v
    ensures u == v
  {
    assert g * (u - v) == g * u - g * v;
    MulSign(g, u - v);
  }

  /** Dividing Bezout's identity `a*x - g == b*z` by `g`. */
  lemma BezoutReduced(g: int, a': int, b': int, x: int, z: int)
    requires g > 0 && (g * a') * x - g == (g * b') * z
    ensures a' * x - 1 == b' * z
  {
    assert g * (a' * x - 1) == (g * a') * x - g;
    assert g * (b' * z) == (g * b') * z;
    Cancel(g, a' * x - 1, b' * z);
  }

  /** Dividing `a*k1 == b*k2` by the common factor `g`. */
  lemma CommonFactor(g: int, a': int, b': int, k1: int, k2: int)
    requires g > 0 && (g * a') * k1 == (g * b') * k2
    ensures a' * k1 == b' * k2
  {
    assert (g * a') * k1 == g * (a' * k1);
    assert (g * b') * k2 == g * (b' * k2);
    Cancel(g, a' * k1, b' * k2);
  }

  /** Euclid's lemma in the form the lcm argument needs: with `a'*x - b'*z == 1`,
      `a'*k1 == b'*k2` makes `k1` a multiple of `b'`. */
  lemma CoprimeFactor(a': int, b': int, x: int, z: int, k1: int, k2: int)
    requires a' * x - 1 == b' * z && a' * k1 == b' * k2
    ensures k1 == b' * (k2 * x - z * k1)
  {
    calc {
      b' * (k2 * x - z * k1);
      (b' * k2) * x - (b' * z) * k1;
      (a' * k1) * x - (a' * x - 1) * k1;
      (a' * x) * k1 - (a' * x) * k1 + k1;
      k1;
    }
  }

  /** Every common multiple of `a` and `b` is a multiple of `Lcm(a, b)`. */
  lemma LcmDividesCommonMultiples(a: int, b: int, n: int)
    requires a > 0 && b > 0 && n % a == 0 && n % b == 0
    ensures n % Lcm(a, b) == 0
  {
    hide Lcm, ExtGcd;
    var (g, x) := ExtGcd(a, b);
    CommonMultipleCore(a, b, g, x, n);
  }

  /** The arithmetic core of `LcmDividesCommonMultiples`, over plain integers. */
  lemma CommonMultipleCore(a: int, b: int, g: int, x: int, n: int)
    requires a > 0 && b > 0 && g > 0 && a % g == 0 && b % g == 0
    requires (a * x - g) % b == 0 && n % a == 0 && n % b == 0
    ensures n % (a * (b / g)) == 0
  {
    var a' := a / g;
    var b' := b / g;
    ExactQuotient(a, g);
    ExactQuotient(b, g);
    var z := (a * x - g) / b;
    EuclidDivision(a * x - g, b);
    var k1 := n / a;
    var k2 := n / b;
    EuclidDivision(n, a);
    EuclidDivision(n, b);
    var w := k2 * x - z * k1;
    BezoutReduced(g, a', b', x, z);
    CommonFactor(g, a', b', k1, k2);
    CoprimeFactor(a', b', x, z, k1, k2);
    Regroup(a, b', w);
    MulMod(a * b', w);
  }

  /** The ring identity behind the aligned start:
      `a*skip - g*t == b*(z*t - a'*w)` when `skip == x*t - b'*w`,
      `a*x == g + b*z`, `a == g*a'` and `b == g*b'`. */
  lemma AlignedStartIdentity(a: int, b: int, g: int, a': int, b': int,
                             x: int, z: int, t: int, w: int, skip: int)
    requires a == g * a' && b == g * b'
    requires skip == x * t - b' * w
    requires a * x == g + b * z
    ensures a * skip - g * t == b * (z * t - a' * w)
  {
    assert a * (b' * w) == b * (a' * w) by {
      assert a * (b' * w) == (g * a') * (b' * w) == g * (a' * b' * w);
      assert b * (a' * w) == (g * b') * (a' * w) == g * (a' * b' * w);
    }
    calc {
      a * skip - g * t;
      a * (x * t) - a * (b' * w) - g * t;
      (a * x) * t - a * (b' * w) - g * t;
      (g + b * z) * t - a * (b' * w) - g * t;
      b * (z * t) - b * (a' * w);
      b * (z * t - a' * w);
    }
  }

  /** The arithmetic core of the aligned start, over plain integers. */
  lemma AlignedStartFacts(a: int, b: int, g: int, x: int, t: int, skip: int)
    requires a > 0 && b > 0 && g > 0 && a % g == 0 && b % g == 0
    requires (a * x - g) % b == 0
    requires skip == (x * t) % (b / g)
    ensures 0 <= skip && 0 <= a * skip < a * (b / g)
    ensures (a * skip - g * t) % b == 0
  {
    var b' := b / g;
    var a' := a / g;
    ExactQuotient(a, g);
    ExactQuotient(b, g);
    var w := x * t / b';
    EuclidDivision(x * t, b');
    ProductBounds(a, skip, b');
    var z := (a * x - g) / b;
    EuclidDivision(a * x - g, b);
    AlignedStartIdentity(a, b, g, a', b', x, z, t, w, skip);
    MulMod(b, z * t - a' * w);
  }

  lemma Regroup(a: int, b: int, w: int)
    ensures a * (b * w) == (a * b) * w
  {
  }

  lemma ExactQuotient(a: int, g: int)
    requires a > 0 && g > 0 && a % g == 0
    ensures a == g * (a / g) && a / g > 0
  {
    MulSign(g, a / g);
  }

  lemma EuclidDivision(n: int, d: int)
    requires d > 0
    ensures n == d * (n / d) + n % d && 0 <= n % d < d
  {
  }

  lemma ProductBounds(a: int, s: int, bound: int)
    requires a > 0 && 0 <= s < bound
    ensures 0 <= a * s < a * bound
  {
    MulSign(a, bound - s);
    assert a * bound - a * s == a * (bound - s);
    MulSign(a, s);
    assert a * s == 0 || s >= 1;
  }

  /** `a_skip` of `_slice_intersection`: the number of `a`-steps from `sa` to the
      first position congruent to `sb` modulo `b`. It lies in `[0, Lcm/a)`. */
  function AlignSkip(a: int, b: int, sa: int, sb: int): (skip: int)
    requires a > 0 && b > 0
    requires (sb - sa) % ExtGcd(a, b).0 == 0
    ensures 0 <= skip && 0 <= a * skip < Lcm(a, b)
    ensures (sa + a * skip - sb) % b == 0
  {
    var (g, x) := ExtGcd(a, b);
    var t := (sb - sa) / g;
    var skip := x * t % (Lcm(a, b) / a);
    AlignedStartFacts(a, b, g, x, t, skip);
    assert sb - sa == g * t;
    skip
  }
}
