/** `_all_reduce_intersections` seen from one cell.

    Fix a cell of the array. Chunk `k` either holds it (`cov[k]`) or not, and
    what it holds there is one value `s[k]`. The forward and backward passes
    of the all-reduce only ever move values between chunks that both hold the
    cell, so at that cell they are the sequence algorithms below. The chunk
    level (module Consistency) shows that it projects onto them. */
module CellReduce {
  import opened Modes

  /** What chunk `k` contributes to the cell's op-mode value: its value if it
      holds the cell, the identity otherwise. */
  function Contrib<V>(m: Monoid<V>, cov: seq<bool>, s: seq<V>, k: nat): V
    requires |cov| == |s| && k < |s|
  {
    if cov[k] then s[k] else m.unit
  }

  /** The reduction, from the identity and in chunk order, of the first `i`
      contributions: how `asnumpy` builds an op-mode result. */
  function Prefix<V>(m: Monoid<V>, cov: seq<bool>, s: seq<V>, i: nat): V
    requires |cov| == |s| && i <= |s|
  {
    if i == 0 then m.unit else m.combine(Prefix(m, cov, s, i - 1), Contrib(m, cov, s, i - 1))
  }

  /** The op-mode value of the cell. */
  function Total<V>(m: Monoid<V>, cov: seq<bool>, s: seq<V>): V
    requires |cov| == |s|
  {
    Prefix(m, cov, s, |s|)
  }

  /** Some chunk with position in `[lo, hi)` holds the cell. */
  predicate CoverIn(cov: seq<bool>, lo: int, hi: int)
    requires hi <= |cov|
  {
    exists k :: lo <= k < hi && 0 <= k && cov[k]
  }

  /** Chunk `k` is the last one holding the cell. */
  predicate IsLast(cov: seq<bool>, k: int) {
    0 <= k < |cov| && cov[k] && forall j :: k < j < |cov| ==> !cov[j]
  }

  /** `_apply_and_update_chunks` from chunk `i` to chunk `j` at the cell:
      if both hold it, `j` will combine `i`'s value into its own and a
      non-idempotent `i` is reset to the identity. */
  function Transfer<V>(m: Monoid<V>, idem: bool, cov: seq<bool>, s: seq<V>, i: nat, j: nat): (r: seq<V>)
    requires |cov| == |s| && i < j < |s|
    ensures |r| == |s|
  {
    if cov[i] && cov[j] then s[j := m.combine(s[j], s[i])][i := if idem then s[i] else m.unit] else s
  }

  /** The inner loop of the forward pass: chunk `i` onto every chunk from `j` on. */
  function Spread<V>(m: Monoid<V>, idem: bool, cov: seq<bool>, s: seq<V>, i: nat, j: nat): (r: seq<V>)
    requires |cov| == |s| && i < j <= |s|
    ensures |r| == |s|
    ensures forall k :: 0 <= k < i ==> r[k] == s[k]
    decreases |s| - j
  {
    if j == |s| then s else Spread(m, idem, cov, Transfer(m, idem, cov, s, i, j), i, j + 1)
  }

  /** The forward pass from chunk `i` on. */
  function Forward<V>(m: Monoid<V>, idem: bool, cov: seq<bool>, s: seq<V>, i: nat): (r: seq<V>)
    requires |cov| == |s| && i <= |s|
    ensures |r| == |s|
    decreases |s| - i
  {
    if i == |s| then s else Forward(m, idem, cov, Spread(m, idem, cov, s, i, i + 1), i + 1)
  }

  /** `_copy_on_intersection` from chunk `j` onto every earlier chunk. */
  function CopyDown<V>(cov: seq<bool>, s: seq<V>, j: nat): (r: seq<V>)
    requires |cov| == |s| && j < |s|
    ensures |r| == |s|
  {
    seq(|s|, k requires 0 <= k < |s| => if k < j && cov[k] && cov[j] then s[j] else s[k])
  }

  /** The backward pass over the chunks before `j`, last first. */
  function Backward<V>(cov: seq<bool>, s: seq<V>, j: nat): (r: seq<V>)
    requires |cov| == |s| && j <= |s|
    ensures |r| == |s|
    decreases j
  {
    if j == 0 then s else Backward(cov, CopyDown(cov, s, j - 1), j - 1)
  }

  /** Both passes. For a lawful operator whose idempotent flag is honest,
      every chunk holding the cell ends up with the cell's op-mode value. */
  function AllReduce<V(!new)>(m: Monoid<V>, idem: bool, cov: seq<bool>, s: seq<V>): (r: seq<V>)
    requires |cov| == |s|
    ensures |r| == |s|
    ensures Sound(Op(m, idem)) ==> forall k :: 0 <= k < |r| && cov[k] ==> r[k] == Total(m, cov, s)
  {
    var r := Backward(cov, Forward(m, idem, cov, s, 0), |s|);
    assert Sound(Op(m, idem)) ==> forall k :: 0 <= k < |r| && cov[k] ==> r[k] == Total(m, cov, s) by {
      if Sound(Op(m, idem)) {
        AllReduceReachesTotal(m, idem, cov, s);
      }
    }
    r
  }

  // ---------------------------------------------------------------------
  // Proof

  /** Past the last holder, the prefix reductions stay put. */
  lemma {:induction false} LastPrefix<V(!new)>(m: Monoid<V>, cov: seq<bool>, s: seq<V>, k: nat, i: nat)
    requires Lawful(m) && |cov| == |s| && IsLast(cov, k) && k < i <= |s|
    ensures Prefix(m, cov, s, i) == Prefix(m, cov, s, k + 1)
    decreases i
  {
    if i > k + 1 {
      LastPrefix(m, cov, s, k, i - 1);
      var p := Prefix(m, cov, s, i - 1);
      assert m.combine(p, m.unit) == m.combine(m.unit, p);
    }
  }

  /** What a holder `k` holds once the forward pass has handled the chunks
      before `i`: its own value plus, if it is the first holder from `i` on
      or the operator is idempotent, everything before `i`. */
  function Expected<V>(m: Monoid<V>, idem: bool, cov: seq<bool>, s0: seq<V>, i: nat, k: nat): V
    requires |cov| == |s0| && i <= k < |s0|
  {
    m.combine(s0[k], if idem || !CoverIn(cov, i, k) then Prefix(m, cov, s0, i) else m.unit)
  }

  /** What chunk `i` holds once spread onto the chunks before `j`: the
      reduction up to and including `i`, unless a non-idempotent transfer
      has already handed it on. */
  function Kept<V>(m: Monoid<V>, idem: bool, cov: seq<bool>, s0: seq<V>, i: nat, j: nat): V
    requires |cov| == |s0| && i < j <= |s0|
  {
    if !idem && CoverIn(cov, i + 1, j) then m.unit else Prefix(m, cov, s0, i + 1)
  }

  ghost predicate SpreadInv<V>(m: Monoid<V>, idem: bool, cov: seq<bool>, s0: seq<V>, s: seq<V>, i: nat, j: nat)
    requires |cov| == |s0| == |s| && i < j <= |s|
  {
    && (cov[i] ==> s[i] == Kept(m, idem, cov, s0, i, j))
    && (forall k :: i < k < j && cov[k] ==> s[k] == Expected(m, idem, cov, s0, i + 1, k))
    && (forall k :: j <= k < |s| && cov[k] ==> s[k] == Expected(m, idem, cov, s0, i, k))
  }

  lemma CoverInExtend(cov: seq<bool>, lo: int, hi: int)
    requires lo <= hi < |cov| && 0 <= hi
    ensures CoverIn(cov, lo, hi + 1) <==> CoverIn(cov, lo, hi) || cov[hi]
  {
    if CoverIn(cov, lo, hi + 1) && !cov[hi] {
      var w :| lo <= w < hi + 1 && 0 <= w && cov[w];
      assert w != hi;
    }
  }

  lemma CoverInShrink(cov: seq<bool>, lo: int, hi: int)
    requires 0 <= lo < hi <= |cov|
    ensures CoverIn(cov, lo, hi) <==> cov[lo] || CoverIn(cov, lo + 1, hi)
  {
    if CoverIn(cov, lo, hi) && !cov[lo] {
      var w :| lo <= w < hi && 0 <= w && cov[w];
      assert w != lo;
    }
  }

  /** The algebra of one transfer onto a holder `j`. */
  lemma TransferAlgebra<V(!new)>(m: Monoid<V>, idem: bool, pre: V, x: V, e: V, covI: bool, before: bool)
    requires Sound(Op(m, idem))
    ensures
      var pre1 := m.combine(pre, if covI then x else m.unit);
      var held := m.combine(e, if idem || !(covI || before) then pre else m.unit);
      var target := m.combine(e, if idem || !before then pre1 else m.unit);
      && (covI ==> m.combine(held, if !idem && before then m.unit else pre1) == target)
      && (!covI ==> held == target)
  {
    var pre1 := m.combine(pre, if covI then x else m.unit);
    assert m.combine(e, m.unit) == m.combine(m.unit, e);
    if covI && idem {
      calc {
        m.combine(m.combine(e, pre), pre1);
        m.combine(e, m.combine(pre, m.combine(pre, x)));
        { assert m.combine(m.combine(pre, pre), x) == m.combine(pre, m.combine(pre, x)); }
        m.combine(e, m.combine(m.combine(pre, pre), x));
      }
    } else if covI {
      assert m.combine(m.combine(e, m.unit), m.unit) == m.combine(e, m.unit);
    }
    if !covI {
      assert pre1 == m.combine(m.unit, pre);
    }
  }

  lemma SpreadStep<V(!new)>(m: Monoid<V>, idem: bool, cov: seq<bool>, s0: seq<V>, s: seq<V>, i: nat, j: nat)
    requires Sound(Op(m, idem))
    requires |cov| == |s0| == |s| && i < j < |s|
    requires SpreadInv(m, idem, cov, s0, s, i, j)
    ensures SpreadInv(m, idem, cov, s0, Transfer(m, idem, cov, s, i, j), i, j + 1)
  {
    CoverInExtend(cov, i + 1, j);
    if cov[j] {
      CoverInShrink(cov, i, j);
      TransferAlgebra(m, idem, Prefix(m, cov, s0, i), s0[i], s0[j], cov[i], CoverIn(cov, i + 1, j));
    }
  }

  lemma {:induction false} SpreadLoop<V(!new)>(m: Monoid<V>, idem: bool, cov: seq<bool>, s0: seq<V>, s: seq<V>, i: nat, j: nat)
    requires Sound(Op(m, idem))
    requires |cov| == |s0| == |s| && i < j <= |s|
    requires SpreadInv(m, idem, cov, s0, s, i, j)
    ensures SpreadInv(m, idem, cov, s0, Spread(m, idem, cov, s, i, j), i, |s|)
    decreases |s| - j
  {
    if j < |s| {
      hide Spread, SpreadInv, Transfer;
      SpreadStep(m, idem, cov, s0, s, i, j);
      SpreadUnfold(m, idem, cov, s, i, j);
      SpreadLoop(m, idem, cov, s0, Transfer(m, idem, cov, s, i, j), i, j + 1);
    }
  }

  lemma SpreadUnfold<V>(m: Monoid<V>, idem: bool, cov: seq<bool>, s: seq<V>, i: nat, j: nat)
    requires |cov| == |s| && i < j < |s|
    ensures Spread(m, idem, cov, s, i, j) == Spread(m, idem, cov, Transfer(m, idem, cov, s, i, j), i, j + 1)
  {
  }

  ghost predicate ForwardInv<V>(m: Monoid<V>, idem: bool, cov: seq<bool>, s0: seq<V>, s: seq<V>, i: nat)
    requires |cov| == |s0| == |s| && i <= |s|
  {
    && (forall k :: 0 <= k < i && IsLast(cov, k) ==> s[k] == Total(m, cov, s0))
    && (forall k :: i <= k < |s| && cov[k] ==> s[k] == Expected(m, idem, cov, s0, i, k))
  }

  lemma ForwardStep<V(!new)>(m: Monoid<V>, idem: bool, cov: seq<bool>, s0: seq<V>, s: seq<V>, i: nat)
    requires Sound(Op(m, idem))
    requires |cov| == |s0| == |s| && i < |s|
    requires ForwardInv(m, idem, cov, s0, s, i)
    ensures ForwardInv(m, idem, cov, s0, Spread(m, idem, cov, s, i, i + 1), i + 1)
  {
    assert !CoverIn(cov, i + 1, i + 1);
    if cov[i] {
      assert !CoverIn(cov, i, i);
      assert m.combine(s0[i], Prefix(m, cov, s0, i)) == m.combine(Prefix(m, cov, s0, i), s0[i]);
    }
    assert SpreadInv(m, idem, cov, s0, s, i, i + 1);
    SpreadLoop(m, idem, cov, s0, s, i, i + 1);
    if IsLast(cov, i) {
      assert !CoverIn(cov, i + 1, |s|);
      LastPrefix(m, cov, s0, i, |s|);
    }
  }

  /** After the forward pass the last holder holds the op-mode value. */
  lemma {:induction false} ForwardLoop<V(!new)>(m: Monoid<V>, idem: bool, cov: seq<bool>, s0: seq<V>, s: seq<V>, i: nat)
    requires Sound(Op(m, idem))
    requires |cov| == |s0| == |s| && i <= |s|
    requires ForwardInv(m, idem, cov, s0, s, i)
    ensures forall k :: IsLast(cov, k) ==> Forward(m, idem, cov, s, i)[k] == Total(m, cov, s0)
    decreases |s| - i
  {
    if i < |s| {
      ForwardStep(m, idem, cov, s0, s, i);
      ForwardLoop(m, idem, cov, s0, Spread(m, idem, cov, s, i, i + 1), i + 1);
    }
  }

  ghost predicate BackInv<V>(cov: seq<bool>, s: seq<V>, j: nat, t: V)
    requires |cov| == |s| && j <= |s|
  {
    && (forall k :: j <= k < |s| && cov[k] ==> s[k] == t)
    && (forall k :: 0 <= k < j && cov[k] && (CoverIn(cov, j, |s|) || IsLast(cov, k)) ==> s[k] == t)
  }

  lemma BackStep<V>(cov: seq<bool>, s: seq<V>, j: nat, t: V)
    requires |cov| == |s| && 0 < j <= |s|
    requires BackInv(cov, s, j, t)
    ensures BackInv(cov, CopyDown(cov, s, j - 1), j - 1, t)
  {
    var p := j - 1;
    CoverInShrink(cov, p, |s|);
    if cov[p] && !CoverIn(cov, j, |s|) {
      assert IsLast(cov, p);
    }
  }

  /** After the backward pass every holder holds what the last one did. */
  lemma {:induction false} BackLoop<V>(cov: seq<bool>, s: seq<V>, j: nat, t: V)
    requires |cov| == |s| && j <= |s|
    requires BackInv(cov, s, j, t)
    ensures forall k :: 0 <= k < |s| && cov[k] ==> Backward(cov, s, j)[k] == t
    decreases j
  {
    if j > 0 {
      BackStep(cov, s, j, t);
      BackLoop(cov, CopyDown(cov, s, j - 1), j - 1, t);
    }
  }

  lemma AllReduceReachesTotal<V(!new)>(m: Monoid<V>, idem: bool, cov: seq<bool>, s: seq<V>)
    requires Sound(Op(m, idem)) && |cov| == |s|
    ensures forall k :: 0 <= k < |s| && cov[k] ==> Backward(cov, Forward(m, idem, cov, s, 0), |s|)[k] == Total(m, cov, s)
  {
    forall k | 0 <= k < |s| && cov[k]
      ensures s[k] == Expected(m, idem, cov, s, 0, k)
    {
      assert m.combine(s[k], m.unit) == m.combine(m.unit, s[k]);
    }
    ForwardLoop(m, idem, cov, s, s, 0);
    var f := Forward(m, idem, cov, s, 0);
    assert !CoverIn(cov, |s|, |s|);
    BackLoop(cov, f, |s|, Total(m, cov, s));
  }

  // ---------------------------------------------------------------------
  // Folds over the holders

  /** When every holder but `k` holds the identity, the fold is `k`'s value. */
  lemma {:induction false} PrefixOneHolder<V(!new)>(m: Monoid<V>, cov: seq<bool>, s: seq<V>, k: nat, i: nat)
    requires Lawful(m) && |cov| == |s| && k < |s| && i <= |s|
    requires forall j :: 0 <= j < |s| && j != k && cov[j] ==> s[j] == m.unit
    ensures Prefix(m, cov, s, i) == if k < i && cov[k] then s[k] else m.unit
    decreases i
  {
    if i > 0 {
      PrefixOneHolder(m, cov, s, k, i - 1);
      var p := Prefix(m, cov, s, i - 1);
      assert m.combine(p, m.unit) == m.combine(m.unit, p);
    }
  }

  /** For an idempotent operator, holders that all hold `x` fold to `x`. */
  lemma {:induction false} PrefixAllEqual<V(!new)>(m: Monoid<V>, cov: seq<bool>, s: seq<V>, x: V, i: nat)
    requires Lawful(m) && Idempotent(m) && |cov| == |s| && i <= |s|
    requires forall j :: 0 <= j < |s| && cov[j] ==> s[j] == x
    ensures Prefix(m, cov, s, i) == if CoverIn(cov, 0, i) then x else m.unit
    decreases i
  {
    if i > 0 {
      PrefixAllEqual(m, cov, s, x, i - 1);
      CoverInExtend(cov, 0, i - 1);
      var p := Prefix(m, cov, s, i - 1);
      assert m.combine(p, m.unit) == m.combine(m.unit, p);
    }
  }

  /** Combining `x` into the value of one holder `k` combines it into the fold. */
  lemma {:induction false} PrefixBumpOne<V(!new)>(m: Monoid<V>, cov: seq<bool>, s: seq<V>, t: seq<V>, k: nat, x: V, i: nat)
    requires Lawful(m) && |cov| == |s| == |t| && k < |s| && cov[k] && i <= |s|
    requires t[k] == m.combine(s[k], x)
    requires forall j :: 0 <= j < |s| && j != k && cov[j] ==> t[j] == s[j]
    ensures Prefix(m, cov, t, i) == if k < i then m.combine(Prefix(m, cov, s, i), x) else Prefix(m, cov, s, i)
    decreases i
  {
    if i > 0 {
      PrefixBumpOne(m, cov, s, t, k, x, i - 1);
      var p, e := Prefix(m, cov, s, i - 1), Contrib(m, cov, s, i - 1);
      if k < i - 1 {
        calc {
          m.combine(m.combine(p, x), e);
          m.combine(p, m.combine(x, e));
          { assert m.combine(x, e) == m.combine(e, x); }
          m.combine(p, m.combine(e, x));
          m.combine(m.combine(p, e), x);
        }
      } else if k == i - 1 {
        assert m.combine(p, m.combine(s[k], x)) == m.combine(m.combine(p, s[k]), x);
      }
    }
  }

  /** For an idempotent operator, combining `x` into every holder combines it
      once into the fold, provided some holder is there to take it. */
  lemma {:induction false} PrefixBumpAll<V(!new)>(m: Monoid<V>, cov: seq<bool>, s: seq<V>, t: seq<V>, x: V, i: nat)
    requires Lawful(m) && Idempotent(m) && |cov| == |s| == |t| && i <= |s|
    requires forall j :: 0 <= j < |s| && cov[j] ==> t[j] == m.combine(s[j], x)
    ensures Prefix(m, cov, t, i) == if CoverIn(cov, 0, i) then m.combine(Prefix(m, cov, s, i), x) else Prefix(m, cov, s, i)
    decreases i
  {
    if i > 0 {
      PrefixBumpAll(m, cov, s, t, x, i - 1);
      CoverInExtend(cov, 0, i - 1);
      var p := Prefix(m, cov, s, i - 1);
      if cov[i - 1] {
        var e := s[i - 1];
        if CoverIn(cov, 0, i - 1) {
          calc {
            m.combine(m.combine(p, x), m.combine(e, x));
            m.combine(p, m.combine(x, m.combine(e, x)));
            { assert m.combine(x, m.combine(e, x)) == m.combine(m.combine(x, e), x);
              assert m.combine(x, e) == m.combine(e, x);
              assert m.combine(m.combine(e, x), x) == m.combine(e, m.combine(x, x)); }
            m.combine(p, m.combine(e, x));
            m.combine(m.combine(p, e), x);
          }
        } else {
          assert m.combine(p, m.combine(e, x)) == m.combine(m.combine(p, e), x);
        }
      } else {
        if CoverIn(cov, 0, i - 1) {
          assert m.combine(m.combine(p, x), m.unit) == m.combine(m.unit, m.combine(p, x));
          assert m.combine(p, m.unit) == m.combine(m.unit, p);
        } else {
          assert m.combine(p, m.unit) == m.combine(m.unit, p);
        }
      }
    }
  }
}
