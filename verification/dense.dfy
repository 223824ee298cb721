/** Converting between dense integer matrices and CSR form with the
    element-wise kernels of `dense2csr` and `csr2dense`. A dense matrix is
    its C-contiguous buffer: element `(row, col)` of an `m x n` matrix is
    at `row * n + col`. */
module DenseCsr {
  import opened Csr

  // ---------------------------------------------------------------------
  // Arithmetic on flat positions

  lemma MulMono(x: int, y: int, n: nat)
    requires x <= y
    ensures x * n <= y * n
  {
    assert y * n - x * n == (y - x) * n;
  }

  /** Position `p` lies in row `r` exactly when `r*n <= p < r*n + n`. */
  lemma DivUnique(p: int, n: nat, r: int)
    requires n > 0 && r * n <= p < r * n + n
    ensures p / n == r && p % n == p - r * n
  {
    var q := p / n;
    assert p == q * n + p % n && 0 <= p % n < n;
    assert (q + 1) * n == q * n + n && (r + 1) * n == r * n + n;
    if q < r {
      MulMono(q + 1, r, n);
    } else if q > r {
      MulMono(r + 1, q, n);
    }
  }

  /** A position of an `m x n` buffer lies in one of its rows. */
  lemma RowBounds(p: int, m: nat, n: nat)
    requires 0 <= p < m * n
    ensures n > 0 && 0 <= p / n < m && (p / n) * n <= p < (p / n) * n + n && p % n == p - (p / n) * n
  {
    var q := p / n;
    assert p == q * n + p % n && 0 <= p % n < n;
    if q >= m {
      MulMono(m, q, n);
    }
  }

  /** The start of row `r` of an `m x n` buffer lies within it. */
  lemma RowStart(r: nat, m: nat, n: nat)
    requires r <= m
    ensures 0 <= r * n <= m * n
    ensures r < m ==> r * n + n <= m * n && (r + 1) * n == r * n + n
  {
    MulMono(r, m, n);
    if r < m {
      MulMono(r + 1, m, n);
    }
  }

  /** The row of position `p` of an `m x n` buffer: `i / N` in the kernels. */
  function RowOfPos(p: nat, m: nat, n: nat): (r: nat)
    requires p < m * n
    ensures n > 0 && r < m && r * n <= p < r * n + n
  {
    RowBounds(p, m, n);
    p / n
  }

  /** The column of position `p`: `i % N` in the kernels. */
  function ColOfPos(p: nat, m: nat, n: nat): (c: nat)
    requires p < m * n
    ensures c < n && c == p - RowOfPos(p, m, n) * n
  {
    RowBounds(p, m, n);
    p % n
  }

  // ---------------------------------------------------------------------
  // Counting the nonzero elements

  /** The number of nonzero elements among the first `k`. */
  function Count(a: seq<int>, k: nat): (r: nat)
    requires k <= |a|
    ensures r <= k
  {
    if k == 0 then 0 else Count(a, k - 1) + (if a[k - 1] != 0 then 1 else 0)
  }

  /** The count never decreases, and passes every nonzero element. */
  lemma {:induction false} CountMono(a: seq<int>, i: nat, j: nat)
    requires i <= j <= |a|
    ensures Count(a, i) <= Count(a, j)
    ensures i < j && a[i] != 0 ==> Count(a, i) < Count(a, j)
    decreases j - i
  {
    if i < j {
      CountMono(a, i, j - 1);
    }
  }

  /** The position of the nonzero element numbered `q`, looking from `p`. */
  function NthFrom(a: seq<int>, q: nat, p: nat): (r: nat)
    requires p < |a| && Count(a, p) <= q < Count(a, |a|)
    ensures p <= r < |a| && a[r] != 0 && Count(a, r) == q
    decreases |a| - p
  {
    if Count(a, p + 1) > q then p
    else
      if p + 1 == |a| then assert false; p
      else NthFrom(a, q, p + 1)
  }

  /** The position of the nonzero element numbered `q` (from zero). */
  function Nth(a: seq<int>, q: nat): (r: nat)
    requires q < Count(a, |a|)
    ensures r < |a| && a[r] != 0 && Count(a, r) == q
  {
    NthFrom(a, q, 0)
  }

  /** A nonzero element is the one numbered by the count before it. */
  lemma NthUnique(a: seq<int>, p: nat, q: nat)
    requires p < |a| && a[p] != 0 && Count(a, p) == q
    ensures q < Count(a, |a|) && Nth(a, q) == p
  {
    CountMono(a, p, |a|);
    var r := Nth(a, q);
    if r < p {
      CountMono(a, r, p);
    } else if p < r {
      CountMono(a, p, r);
    }
  }

  // ---------------------------------------------------------------------
  // cumsum

  /** The sum of the first `k` elements. */
  function Sum(s: seq<int>, k: nat): int
    requires k <= |s|
  {
    if k == 0 then 0 else Sum(s, k - 1) + s[k - 1]
  }

  /** `cupy.cumsum(s)`: element `k` is the sum of the first `k + 1`. */
  function PrefixSums(s: seq<int>): (r: seq<int>)
    ensures |r| == |s| && forall k :: 0 <= k < |s| ==> r[k] == Sum(s, k + 1)
  {
    seq(|s|, k requires 0 <= k < |s| => Sum(s, k + 1))
  }

  /** `cupy.cumsum` as a running total. */
  method CumSum(s: seq<int>) returns (r: seq<int>)
    ensures |r| == |s|
    ensures |s| > 0 ==> r[0] == s[0]
    ensures forall k :: 0 < k < |s| ==> r[k] == r[k - 1] + s[k]
    ensures r == PrefixSums(s)
  {
    r := [];
    var acc := 0;
    var i := 0;
    while i < |s|
      invariant 0 <= i <= |s| && |r| == i && acc == Sum(s, i)
      invariant forall k :: 0 <= k < i ==> r[k] == Sum(s, k + 1)
    {
      acc := acc + s[i];
      r := r + [acc];
      i := i + 1;
    }
  }

  // ---------------------------------------------------------------------
  // dense2csr, step 1

  /** `INFO` after step 1: a 1 after every nonzero element. */
  function Flags(a: seq<int>): (r: seq<int>)
    ensures |r| == |a| + 1 && r[0] == 0
  {
    [0] + seq(|a|, i requires 0 <= i < |a| => if a[i] != 0 then 1 else 0)
  }

  /** After `cumsum`, `INFO[i]` numbers the nonzero element at `i`. */
  lemma {:induction false} FlagSums(a: seq<int>, i: nat)
    requires i <= |a|
    ensures Sum(Flags(a), i + 1) == Count(a, i)
    decreases i
  {
    if i > 0 {
      FlagSums(a, i - 1);
      assert Flags(a)[i] == if a[i - 1] != 0 then 1 else 0;
    }
  }

  /** `INDPTR` once threads `0 .. k-1` of step 1 have run: each nonzero
      element bumps the slot after its row. */
  function Tally(a: seq<int>, m: nat, n: nat, k: nat): (r: seq<int>)
    requires k <= |a| == m * n
    ensures |r| == m + 1
  {
    if k == 0 then seq(m + 1, _ => 0)
    else
      var t := Tally(a, m, n, k - 1);
      RowBounds(k - 1, m, n);
      var row := (k - 1) / n;
      if a[k - 1] != 0 then t[row + 1 := t[row + 1] + 1] else t
  }

  /** `p` clamped into `[lo, hi]`. */
  function Clamp(p: int, lo: int, hi: int): int {
    if p < lo then lo else if p > hi then hi else p
  }

  /** Thread `k - 1` of step 1 bumps the slot after row `r` exactly when
      its element is a nonzero of that row. */
  lemma TallyStep(a: seq<int>, m: nat, n: nat, k: nat, r: nat)
    requires 0 < k <= |a| == m * n && r < m && r * n + n <= |a|
    ensures Tally(a, m, n, k)[r + 1] == Tally(a, m, n, k - 1)[r + 1] + if r * n <= k - 1 < r * n + n && a[k - 1] != 0 then 1 else 0
    ensures Tally(a, m, n, k)[0] == Tally(a, m, n, k - 1)[0]
  {
    RowBounds(k - 1, m, n);
    var q := (k - 1) / n;
    if r * n <= k - 1 < r * n + n {
      DivUnique(k - 1, n, r);
    } else {
      assert q != r;
    }
  }

  /** Counting up to a clamped bound, one element further. */
  lemma ClampStep(a: seq<int>, k: nat, lo: nat, hi: nat)
    requires 0 < k <= |a| && lo <= hi <= |a|
    ensures Count(a, Clamp(k, lo, hi)) == Count(a, Clamp(k - 1, lo, hi)) + if lo <= k - 1 < hi && a[k - 1] != 0 then 1 else 0
  {
  }

  /** Slot `r + 1` has counted the nonzero elements of row `r` that the
      first `k` threads saw; slot 0 stays 0. */
  lemma {:induction false} TallyCounts(a: seq<int>, m: nat, n: nat, k: nat, r: nat)
    requires k <= |a| == m * n && r < m && r * n + n <= |a|
    ensures Tally(a, m, n, k)[0] == 0
    ensures Tally(a, m, n, k)[r + 1] == Count(a, Clamp(k, r * n, r * n + n)) - Count(a, r * n)
    decreases k
  {
    if k > 0 {
      TallyCounts(a, m, n, k - 1, r);
      TallyStep(a, m, n, k, r);
      ClampStep(a, k, r * n, r * n + n);
    }
  }

  /** After `cumsum`, `indptr[r]` is the number of nonzero elements before
      row `r`. */
  lemma {:induction false} IndptrSums(a: seq<int>, m: nat, n: nat, r: nat)
    requires |a| == m * n && r <= m && 0 <= r * n <= |a|
    ensures Sum(Tally(a, m, n, |a|), r + 1) == Count(a, r * n)
    decreases r
  {
    RowStart(r, m, n);
    if r == 0 {
      if m > 0 {
        RowStart(0, m, n);
        TallyCounts(a, m, n, |a|, 0);
      } else {
        assert Tally(a, m, n, |a|)[0] == 0;
      }
    } else {
      RowStart(r - 1, m, n);
      IndptrSums(a, m, n, r - 1);
      TallyCounts(a, m, n, |a|, r - 1);
    }
  }

  // ---------------------------------------------------------------------
  // dense2csr, step 2

  /** `INDICES` and `DATA` once threads `0 .. k-1` of step 2 have run: each
      nonzero element writes its column and value at the slot `INFO`
      numbers it with. */
  function Scatter(a: seq<int>, n: nat, info: seq<int>, indices: seq<int>, data: seq<int>, k: nat): (r: (seq<int>, seq<int>))
    requires k <= |a| && |info| >= |a| && |indices| == |data| && (|a| > 0 ==> n > 0)
    requires forall i :: 0 <= i < |a| && a[i] != 0 ==> 0 <= info[i] < |indices|
    ensures |r.0| == |indices| && |r.1| == |data|
  {
    if k == 0 then (indices, data)
    else
      var (ind, dat) := Scatter(a, n, info, indices, data, k - 1);
      var i := k - 1;
      if a[i] != 0 then (ind[info[i] := i % n], dat[info[i] := a[i]]) else (ind, dat)
  }

  /** A nonzero element is numbered below the number of nonzeros. */
  lemma NumbersInRange(a: seq<int>, info: seq<int>)
    requires |info| >= |a| && forall i :: 0 <= i < |a| ==> info[i] == Count(a, i)
    ensures forall i :: 0 <= i < |a| && a[i] != 0 ==> 0 <= info[i] < Count(a, |a|)
  {
    forall i | 0 <= i < |a| && a[i] != 0
      ensures 0 <= info[i] < Count(a, |a|)
    {
      CountMono(a, i, |a|);
    }
  }

  /** With `INFO` numbering the nonzero elements, the first `k` threads
      fill the slots of the nonzeros they saw with their column and value,
      and leave the other slots as they were. */
  lemma {:induction false} ScatterFills(a: seq<int>, n: nat, info: seq<int>, indices: seq<int>, data: seq<int>, k: nat, q: nat)
    requires k <= |a| && |info| >= |a| && |indices| == |data| == Count(a, |a|) && (|a| > 0 ==> n > 0)
    requires forall i :: 0 <= i < |a| ==> info[i] == Count(a, i)
    requires forall i :: 0 <= i < |a| && a[i] != 0 ==> 0 <= info[i] < |indices|
    requires q < |indices|
    ensures var (ind, dat) := Scatter(a, n, info, indices, data, k);
      if q < Count(a, k) then ind[q] == Nth(a, q) % n && dat[q] == a[Nth(a, q)] else ind[q] == indices[q] && dat[q] == data[q]
    decreases k
  {
    if k > 0 {
      ScatterFills(a, n, info, indices, data, k - 1, q);
      if a[k - 1] != 0 && q == Count(a, k - 1) {
        NthUnique(a, k - 1, q);
      }
    }
  }

  // ---------------------------------------------------------------------
  // dense2csr

  /** Step 2 over every element, into fresh buffers of `nnz` slots (what
      `cupy.empty` holds before the kernel does not matter: every slot is
      written). */
  function Step2(a: seq<int>, n: nat, info: seq<int>): (r: (seq<int>, seq<int>))
    requires |info| >= |a| && (|a| > 0 ==> n > 0)
    requires forall i :: 0 <= i < |a| ==> info[i] == Count(a, i)
    ensures |r.0| == |r.1| == Count(a, |a|)
  {
    var zeros := seq(Count(a, |a|), _ => 0);
    NumbersInRange(a, info);
    Scatter(a, n, info, zeros, zeros, |a|)
  }

  /** `INFO` after `cumsum` numbers every element by the nonzeros before it. */
  lemma InfoNumbers(a: seq<int>)
    ensures forall i :: 0 <= i < |a| ==> PrefixSums(Flags(a))[i] == Count(a, i)
  {
    forall i | 0 <= i < |a|
      ensures PrefixSums(Flags(a))[i] == Count(a, i)
    {
      FlagSums(a, i);
    }
  }

  /** `indptr[-1]` after `cumsum` is the number of nonzero elements. */
  lemma NnzIs(a: seq<int>, m: nat, n: nat)
    requires |a| == m * n
    ensures PrefixSums(Tally(a, m, n, |a|))[m] == Count(a, |a|)
  {
    RowStart(m, m, n);
    IndptrSums(a, m, n, m);
  }

  /** `dense2csr(a)` for an `m x n` integer matrix. */
  function Dense2Csr(a: seq<int>, m: nat, n: nat): (r: CsrMatrix)
    requires |a| == m * n
    ensures r.rows == m && r.cols == n && |r.indptr| == m + 1 && |r.indices| == |r.data| == Count(a, |a|)
  {
    var indptr := PrefixSums(Tally(a, m, n, |a|));
    var info := PrefixSums(Flags(a));
    InfoNumbers(a);
    NnzIs(a, m, n);
    var (indices, data) := Step2(a, n, info);
    CsrMatrix(m, n, data, indices, indptr)
  }

  /** The number of nonzero elements before row `r`. */
  function Before(a: seq<int>, m: nat, n: nat, r: nat): (k: nat)
    requires |a| == m * n && r <= m
    ensures k <= |a|
  {
    RowStart(r, m, n);
    Count(a, r * n)
  }

  /** The row pointers: row `r` starts after the nonzeros before it. */
  lemma Dense2CsrIndptr(a: seq<int>, m: nat, n: nat, r: nat)
    requires |a| == m * n && r <= m
    ensures Dense2Csr(a, m, n).indptr[r] == Before(a, m, n, r)
  {
    RowStart(r, m, n);
    IndptrSums(a, m, n, r);
  }

  /** Entry `j` of the result is the nonzero element numbered `j`: its
      column and its value. */
  lemma Dense2CsrEntry(a: seq<int>, m: nat, n: nat, j: nat)
    requires |a| == m * n && j < |Dense2Csr(a, m, n).data|
    ensures j < Count(a, |a|) && n > 0
    ensures Dense2Csr(a, m, n).indices[j] == Nth(a, j) % n && Dense2Csr(a, m, n).data[j] == a[Nth(a, j)]
  {
    var info := PrefixSums(Flags(a));
    InfoNumbers(a);
    NumbersInRange(a, info);
    var zeros := seq(Count(a, |a|), _ => 0);
    ScatterFills(a, n, info, zeros, zeros, |a|, j);
    RowBounds(Nth(a, j), m, n);
  }

  /** Entry `j` lies in the row of the element it came from. */
  lemma Dense2CsrEntryRow(a: seq<int>, m: nat, n: nat, j: nat)
    requires |a| == m * n && j < Count(a, |a|)
    ensures InRow(Dense2Csr(a, m, n).indptr, RowOfPos(Nth(a, j), m, n), j)
  {
    var p := Nth(a, j);
    var r := RowOfPos(p, m, n);
    Dense2CsrIndptr(a, m, n, r);
    Dense2CsrIndptr(a, m, n, r + 1);
    RowStart(r, m, n);
    CountMono(a, r * n, p);
    CountMono(a, p, r * n + n);
  }

  /** Later entries come from later elements. */
  lemma NthMono(a: seq<int>, j1: nat, j2: nat)
    requires j1 < j2 < Count(a, |a|)
    ensures Nth(a, j1) < Nth(a, j2)
  {
    if Nth(a, j2) <= Nth(a, j1) {
      CountMono(a, Nth(a, j2), Nth(a, j1));
    }
  }

  /** `dense2csr` gives a matrix in canonical form whose row `r` holds
      exactly the nonzero elements of row `r`, and stores no zero. */
  lemma Dense2CsrCanonical(a: seq<int>, m: nat, n: nat)
    requires |a| == m * n
    ensures Canonical(Dense2Csr(a, m, n))
    ensures forall r :: 0 <= r < m ==>
      Dense2Csr(a, m, n).indptr[r + 1] - Dense2Csr(a, m, n).indptr[r] == Before(a, m, n, r + 1) - Before(a, m, n, r)
    ensures forall j :: 0 <= j < |Dense2Csr(a, m, n).data| ==> Dense2Csr(a, m, n).data[j] != 0
  {
    var c := Dense2Csr(a, m, n);
    hide Dense2Csr;
    forall r | 0 <= r <= m
      ensures c.indptr[r] == Before(a, m, n, r)
    {
      Dense2CsrIndptr(a, m, n, r);
    }
    Dense2CsrCanonicalRows(a, m, n);
    forall j | 0 <= j < |c.data|
      ensures 0 <= c.indices[j] < n && c.data[j] != 0
    {
      Dense2CsrEntry(a, m, n, j);
    }
    assert c.indptr[m] == |c.data| by {
      RowStart(m, m, n);
    }
    forall r, p, q | 0 <= r < m && c.indptr[r] <= p < q < c.indptr[r + 1]
      ensures c.indices[p] < c.indices[q]
    {
      SortedInRow(a, m, n, r, p, q);
    }
  }

  lemma SortedInRow(a: seq<int>, m: nat, n: nat, r: nat, j1: nat, j2: nat)
    requires |a| == m * n && r < m
    requires Dense2Csr(a, m, n).indptr[r] <= j1 < j2 < Dense2Csr(a, m, n).indptr[r + 1]
    ensures j2 < |Dense2Csr(a, m, n).indices|
    ensures Dense2Csr(a, m, n).indices[j1] < Dense2Csr(a, m, n).indices[j2]
  {
    Dense2CsrCanonicalRows(a, m, n);
    Dense2CsrIndptr(a, m, n, m);
    RowStart(m, m, n);
    EntryColumn(a, m, n, r, j1);
    EntryColumn(a, m, n, r, j2);
    NthMono(a, j1, j2);
  }

  /** An entry of row `r` holds the column of its element within row `r`. */
  lemma EntryColumn(a: seq<int>, m: nat, n: nat, r: nat, j: nat)
    requires |a| == m * n && r < m && j < Count(a, |a|)
    requires InRow(Dense2Csr(a, m, n).indptr, r, j)
    ensures Dense2Csr(a, m, n).indices[j] == Nth(a, j) - r * n
  {
    var c := Dense2Csr(a, m, n);
    Dense2CsrEntry(a, m, n, j);
    Dense2CsrEntryRow(a, m, n, j);
    Dense2CsrCanonicalRows(a, m, n);
    hide Dense2Csr;
    RowUnique(c.indptr, j, r, RowOfPos(Nth(a, j), m, n));
    assert Nth(a, j) % n == ColOfPos(Nth(a, j), m, n);
  }

  /** The row pointers never decrease. */
  lemma Dense2CsrCanonicalRows(a: seq<int>, m: nat, n: nat)
    requires |a| == m * n
    ensures NonDecreasing(Dense2Csr(a, m, n).indptr)
  {
    var c := Dense2Csr(a, m, n);
    hide Dense2Csr;
    forall r1, r2 | 0 <= r1 <= r2 <= m
      ensures c.indptr[r1] <= c.indptr[r2]
    {
      Dense2CsrIndptr(a, m, n, r1);
      Dense2CsrIndptr(a, m, n, r2);
      RowStart(r1, m, n);
      RowStart(r2, m, n);
      MulMono(r1, r2, n);
      CountMono(a, r1 * n, r2 * n);
    }
  }

  // ---------------------------------------------------------------------
  // csr2dense

  /** The row holding position `i`, looking from row `r`. */
  function RowFrom(indptr: seq<int>, i: int, r: nat): (row: nat)
    requires r + 1 < |indptr| && NonDecreasing(indptr) && indptr[r] <= i < indptr[|indptr| - 1]
    ensures r <= row && row + 1 < |indptr| && InRow(indptr, row, i)
    decreases |indptr| - r
  {
    if i < indptr[r + 1] then r
    else if r + 2 == |indptr| then assert false; r
    else RowFrom(indptr, i, r + 1)
  }

  /** `get_row_id(i, 0, M - 1, indptr)` for entry `j`: the one row holding
      it, which is what the binary search `GetRowId` returns. */
  function RowOf(a: CsrMatrix, j: nat): (row: nat)
    requires WellFormed(a) && j < |a.data|
    ensures row < a.rows && InRow(a.indptr, row, j)
  {
    RowFrom(a.indptr, j, 0)
  }

  /** Where `csr2dense` stores element `(row, col)`: `col + N*row` in C
      order, `row + M*col` in Fortran order. */
  function Offset(cOrder: bool, m: nat, n: nat, row: nat, col: nat): (q: nat)
    requires row < m && col < n
    ensures q < m * n
  {
    if cOrder then
      MulMono(row, m - 1, n);
      assert (m - 1) * n == m * n - n;
      col + n * row
    else
      MulMono(col, n - 1, m);
      assert (n - 1) * m == m * n - m;
      row + m * col
  }

  /** `OUT` once threads `0 .. k-1` of `_cupy_csr2dense` have added their
      entry: `atomicAdd`, so duplicates are summed. */
  function Accumulate(a: CsrMatrix, cOrder: bool, k: nat): (out: seq<int>)
    requires WellFormed(a) && k <= |a.data|
    ensures |out| == a.rows * a.cols
  {
    if k == 0 then seq(a.rows * a.cols, _ => 0)
    else
      var out := Accumulate(a, cOrder, k - 1);
      var t := Offset(cOrder, a.rows, a.cols, RowOf(a, k - 1), a.indices[k - 1]);
      out[t := out[t] + a.data[k - 1]]
  }

  /** The sum of the first `k` entries stored at offset `q`. */
  ghost function EntrySum(a: CsrMatrix, cOrder: bool, q: nat, k: nat): int
    requires WellFormed(a) && k <= |a.data|
  {
    if k == 0 then 0
    else
      var added := if Offset(cOrder, a.rows, a.cols, RowOf(a, k - 1), a.indices[k - 1]) == q then a.data[k - 1] else 0;
      EntrySum(a, cOrder, q, k - 1) + added
  }

  lemma {:induction false} AccumulateSums(a: CsrMatrix, cOrder: bool, k: nat, q: nat)
    requires WellFormed(a) && k <= |a.data| && q < a.rows * a.cols
    ensures Accumulate(a, cOrder, k)[q] == EntrySum(a, cOrder, q, k)
    decreases k
  {
    if k > 0 {
      AccumulateSums(a, cOrder, k - 1, q);
    }
  }

  /** `csr2dense(a, order)` for an integer matrix: every element of the
      buffer is the sum of the entries stored at it. */
  function Csr2Dense(a: CsrMatrix, cOrder: bool): (out: seq<int>)
    requires WellFormed(a)
    ensures |out| == a.rows * a.cols
    ensures forall q :: 0 <= q < |out| ==> out[q] == EntrySum(a, cOrder, q, |a.data|)
  {
    var out := Accumulate(a, cOrder, |a.data|);
    assert forall q :: 0 <= q < |out| ==> out[q] == EntrySum(a, cOrder, q, |a.data|) by {
      forall q | 0 <= q < |out|
        ensures out[q] == EntrySum(a, cOrder, q, |a.data|)
      {
        AccumulateSums(a, cOrder, |a.data|, q);
      }
    }
    out
  }

  // ---------------------------------------------------------------------
  // The round trip

  /** Where element `p` of the C-contiguous input lands in the output. */
  function Layout(cOrder: bool, m: nat, n: nat, p: nat): (q: nat)
    requires p < m * n
    ensures q < m * n
  {
    Offset(cOrder, m, n, RowOfPos(p, m, n), ColOfPos(p, m, n))
  }

  /** C order puts every element back where it was; Fortran order puts
      distinct elements at distinct places. */
  lemma LayoutInjective(cOrder: bool, m: nat, n: nat, p1: nat, p2: nat)
    requires p1 < m * n && p2 < m * n
    ensures cOrder ==> Layout(cOrder, m, n, p1) == p1
    ensures Layout(cOrder, m, n, p1) == Layout(cOrder, m, n, p2) ==> p1 == p2
  {
    var r1, c1 := RowOfPos(p1, m, n), ColOfPos(p1, m, n);
    var r2, c2 := RowOfPos(p2, m, n), ColOfPos(p2, m, n);
    if !cOrder && Layout(cOrder, m, n, p1) == Layout(cOrder, m, n, p2) {
      var q := r1 + m * c1;
      DivUnique(q, m, c1);
      DivUnique(q, m, c2);
    }
  }

  /** `dense2csr` gives a well-formed matrix. */
  lemma Dense2CsrWellFormed(a: seq<int>, m: nat, n: nat)
    requires |a| == m * n
    ensures WellFormed(Dense2Csr(a, m, n))
  {
    Dense2CsrCanonical(a, m, n);
  }

  /** Entry `j` of `dense2csr(a)` lands where its element belongs. */
  lemma EntryLands(a: seq<int>, m: nat, n: nat, cOrder: bool, j: nat)
    requires |a| == m * n && j < Count(a, |a|) && WellFormed(Dense2Csr(a, m, n))
    ensures Offset(cOrder, m, n, RowOf(Dense2Csr(a, m, n), j), Dense2Csr(a, m, n).indices[j]) == Layout(cOrder, m, n, Nth(a, j))
    ensures Dense2Csr(a, m, n).data[j] == a[Nth(a, j)]
  {
    var c := Dense2Csr(a, m, n);
    Dense2CsrEntry(a, m, n, j);
    Dense2CsrEntryRow(a, m, n, j);
    hide Dense2Csr;
    RowUnique(c.indptr, j, RowOf(c, j), RowOfPos(Nth(a, j), m, n));
    assert Nth(a, j) % n == ColOfPos(Nth(a, j), m, n);
  }

  /** Of the first `k` entries, only the one numbering element `p` lands
      where `p` belongs. */
  lemma {:induction false} LandedSum(a: seq<int>, m: nat, n: nat, cOrder: bool, p: nat, k: nat)
    requires |a| == m * n && p < m * n && WellFormed(Dense2Csr(a, m, n)) && k <= |Dense2Csr(a, m, n).data|
    ensures EntrySum(Dense2Csr(a, m, n), cOrder, Layout(cOrder, m, n, p), k) == if a[p] != 0 && Count(a, p) < k then a[p] else 0
    decreases k
  {
    if k > 0 {
      LandedSum(a, m, n, cOrder, p, k - 1);
      var j := k - 1;
      EntryLands(a, m, n, cOrder, j);
      LayoutInjective(cOrder, m, n, Nth(a, j), p);
      if a[p] != 0 && Count(a, p) == j {
        NthUnique(a, p, j);
      }
    }
  }

  /** `csr2dense(dense2csr(a), order)` puts every element of `a` where the
      order says; in C order it gives back `a` itself. */
  lemma Csr2DenseRoundTrip(a: seq<int>, m: nat, n: nat, cOrder: bool)
    requires |a| == m * n
    ensures WellFormed(Dense2Csr(a, m, n))
    ensures |Csr2Dense(Dense2Csr(a, m, n), cOrder)| == |a|
    ensures forall p :: 0 <= p < |a| ==> Csr2Dense(Dense2Csr(a, m, n), cOrder)[Layout(cOrder, m, n, p)] == a[p]
    ensures cOrder ==> Csr2Dense(Dense2Csr(a, m, n), cOrder) == a
  {
    Dense2CsrWellFormed(a, m, n);
    var c := Dense2Csr(a, m, n);
    forall p | 0 <= p < |a|
      ensures Csr2Dense(c, cOrder)[Layout(cOrder, m, n, p)] == a[p]
    {
      LandedSum(a, m, n, cOrder, p, |c.data|);
      if a[p] != 0 {
        CountMono(a, p, |a|);
      }
    }
    if cOrder {
      forall p | 0 <= p < |a|
        ensures Layout(cOrder, m, n, p) == p
      {
        LayoutInjective(cOrder, m, n, p, p);
      }
    }
  }
}
