/** Host-side helpers of `csr_matrix` and the device helpers they embed,
    read as sequential code: the shape check of pointwise operations, the
    two binary searches compiled into kernels, `diagonal`, the index arrays
    `setdiag` builds, and the row pointers of `multiply_by_dense`. */
module Csr {
  import opened Wrappers

  // ---------------------------------------------------------------------
  // check_shape_for_pointwise_op

  /** Two extents broadcast against each other. */
  predicate Broadcastable(x: nat, y: nat) {
    x == y || x == 1 || y == 1
  }

  /** `check_shape_for_pointwise_op(a_shape, b_shape, allow_broadcasting)`.
      Unpacking a shape that is not two-dimensional raises ValueError too. */
  function CheckShapeForPointwiseOp(a: seq<nat>, b: seq<nat>, allowBroadcasting: bool): (r: Result<()>)
    ensures r.Err? ==> r.error == ValueError
    ensures allowBroadcasting ==>
      (r.Ok? <==> |a| == 2 && |b| == 2 && Broadcastable(a[0], b[0]) && Broadcastable(a[1], b[1]))
    ensures !allowBroadcasting ==> (r.Ok? <==> a == b)
  {
    if allowBroadcasting then
      if |a| != 2 || |b| != 2 then Err(ValueError)
      else if !Broadcastable(a[0], b[0]) then Err(ValueError)
      else if !Broadcastable(a[1], b[1]) then Err(ValueError)
      else Ok(())
    else if a != b then Err(ValueError)
    else Ok(())
  }

  /** The check is symmetric, and a pair of matrix shapes accepted without
      broadcasting is accepted with it. */
  lemma CheckShapeProperties(a: seq<nat>, b: seq<nat>)
    ensures CheckShapeForPointwiseOp(a, b, true) == CheckShapeForPointwiseOp(b, a, true)
    ensures CheckShapeForPointwiseOp(a, b, false).Ok? && |a| == 2 ==> CheckShapeForPointwiseOp(a, b, true).Ok?
  {
  }

  // ---------------------------------------------------------------------
  // The compressed format

  predicate NonDecreasing(s: seq<int>) {
    forall p, q :: 0 <= p <= q < |s| ==> s[p] <= s[q]
  }

  /** The entries of row `row` are stored at positions `[indptr[row], indptr[row+1])`. */
  predicate InRow(indptr: seq<int>, row: int, j: int)
    requires 0 <= row && row + 1 < |indptr|
  {
    indptr[row] <= j < indptr[row + 1]
  }

  /** A matrix in canonical CSR form: row pointers from 0 to the number of
      entries, column indices strictly increasing within every row. */
  datatype CsrMatrix = CsrMatrix(rows: nat, cols: nat, data: seq<int>, indices: seq<int>, indptr: seq<int>)

  /** A well-formed matrix: row pointers from 0 to the number of entries,
      column indices in range. Duplicates and unsorted rows are allowed. */
  predicate WellFormed(a: CsrMatrix) {
    && |a.indptr| == a.rows + 1
    && a.indptr[0] == 0
    && NonDecreasing(a.indptr)
    && a.indptr[a.rows] == |a.indices| == |a.data|
    && forall j :: 0 <= j < |a.indices| ==> 0 <= a.indices[j] < a.cols
  }

  /** Canonical form on top: column indices strictly increase within a row. */
  predicate Canonical(a: CsrMatrix) {
    && WellFormed(a)
    && forall row, p, q :: 0 <= row < a.rows && a.indptr[row] <= p < q < a.indptr[row + 1] ==> a.indices[p] < a.indices[q]
  }

  /** The value the matrix holds at `(row, col)`: the stored one, or zero. */
  ghost predicate HoldsAt(a: CsrMatrix, row: nat, col: int, v: int)
    requires Canonical(a) && row < a.rows
  {
    if exists j :: InRow(a.indptr, row, j) && a.indices[j] == col
    then exists j :: InRow(a.indptr, row, j) && a.indices[j] == col && a.data[j] == v
    else v == 0
  }

  // ---------------------------------------------------------------------
  // _GET_ROW_ID_

  /** `get_row_id(i, min, max, indptr)`: the row among `[min, max]` whose
      entries include position `i`. */
  method GetRowId(i: int, lo: int, hi: int, indptr: seq<int>) returns (row: int)
    requires 0 <= lo <= hi && hi + 1 < |indptr| && NonDecreasing(indptr)
    requires indptr[lo] <= i < indptr[hi + 1]
    ensures lo <= row <= hi && indptr[row] <= i < indptr[row + 1]
  {
    var min, max := lo, hi;
    row := (min + max) / 2;
    while min < max
      invariant lo <= min <= max <= hi
      invariant indptr[min] <= i < indptr[max + 1]
      invariant row == (min + max) / 2
      decreases max - min
    {
      if i < indptr[row] {
        max := row - 1;
      } else if i >= indptr[row + 1] {
        min := row + 1;
      } else {
        break;
      }
      row := (min + max) / 2;
    }
  }

  /** With non-decreasing row pointers only one row holds a position, so
      the search finds the row, skipping empty ones. */
  lemma RowUnique(indptr: seq<int>, i: int, r1: int, r2: int)
    requires NonDecreasing(indptr) && 0 <= r1 && r1 + 1 < |indptr| && 0 <= r2 && r2 + 1 < |indptr|
    requires indptr[r1] <= i < indptr[r1 + 1] && indptr[r2] <= i < indptr[r2 + 1]
    ensures r1 == r2
  {
  }

  // ---------------------------------------------------------------------
  // _FIND_INDEX_HOLDING_COL_IN_ROW_

  /** `find_index_holding_col_in_row(row, col, indptr, indices)`: a position
      of row `row` holding column `col`, or -1 when there is none. */
  method FindIndexHoldingColInRow(row: int, col: int, indptr: seq<int>, indices: seq<int>) returns (j: int)
    requires 0 <= row && row + 1 < |indptr| && 0 <= indptr[row] <= indptr[row + 1] <= |indices|
    requires forall p, q :: indptr[row] <= p < q < indptr[row + 1] ==> indices[p] <= indices[q]
    ensures j == -1 <==> forall k :: InRow(indptr, row, k) ==> indices[k] != col
    ensures j != -1 ==> InRow(indptr, row, j) && indices[j] == col
  {
    var jMin, jMax := indptr[row], indptr[row + 1] - 1;
    while jMin <= jMax
      invariant indptr[row] <= jMin <= jMax + 1 <= indptr[row + 1]
      invariant forall k :: indptr[row] <= k < jMin ==> indices[k] < col
      invariant forall k :: jMax < k < indptr[row + 1] ==> indices[k] > col
      decreases jMax - jMin
    {
      var mid := (jMin + jMax) / 2;
      var jCol := indices[mid];
      if jCol == col {
        return mid;
      } else if jCol < col {
        jMin := mid + 1;
      } else {
        jMax := mid - 1;
      }
    }
    return -1;
  }

  // ---------------------------------------------------------------------
  // diagonal

  /** `ylen` in `diagonal(k)`. */
  function DiagonalLength(rows: nat, cols: nat, k: int): int {
    var a := rows + (if k < 0 then k else 0);
    var b := cols - (if k > 0 then k else 0);
    if a < b then a else b
  }

  /** Element `i` of `diagonal(k)` is `v`. */
  ghost predicate OnDiagonal(a: CsrMatrix, k: int, i: int, v: int)
    requires Canonical(a)
  {
    var row, col := i + (if k < 0 then -k else 0), i + (if k > 0 then k else 0);
    0 <= i && row < a.rows && col < a.cols && HoldsAt(a, row, col, v)
  }

  /** `diagonal(k)` on a matrix in canonical form (`sum_duplicates` is what
      makes it so): one kernel thread per element of the result. */
  method Diagonal(a: CsrMatrix, k: int) returns (y: seq<int>)
    requires Canonical(a)
    ensures |y| == if DiagonalLength(a.rows, a.cols, k) <= 0 then 0 else DiagonalLength(a.rows, a.cols, k)
    ensures forall i :: 0 <= i < |y| ==> OnDiagonal(a, k, i, y[i])
  {
    hide Canonical, HoldsAt;
    var ylen := DiagonalLength(a.rows, a.cols, k);
    if ylen <= 0 {
      return [];
    }
    y := [];
    var i := 0;
    while i < ylen
      invariant 0 <= i <= ylen && |y| == i
      invariant forall t :: 0 <= t < i ==> OnDiagonal(a, k, t, y[t])
    {
      var row, col := i, i;
      if k < 0 {
        row := row - k;
      }
      if k > 0 {
        col := col + k;
      }
      var v := ValueAt(a, row, col);
      y := y + [v];
      i := i + 1;
    }
  }

  /** The body of a `_cupy_csr_diagonal` thread once it has its row and
      column: the stored value found by the search, or zero. */
  method ValueAt(a: CsrMatrix, row: nat, col: nat) returns (v: int)
    requires Canonical(a) && row < a.rows
    ensures HoldsAt(a, row, col, v)
  {
    assert 0 <= a.indptr[row] <= a.indptr[row + 1] <= |a.indices| by {
      assert a.indptr[0] <= a.indptr[row] <= a.indptr[row + 1] <= a.indptr[a.rows];
    }
    var j := FindIndexHoldingColInRow(row, col, a.indptr, a.indices);
    v := if j >= 0 then a.data[j] else 0;
  }

  // ---------------------------------------------------------------------
  // setdiag

  /** The new entries `setdiag(values, k)` adds: their count, column
      indices and row pointers. `values` is a scalar (`None`) or an array
      of the given size; ValueError when the diagonal lies outside the
      matrix. */
  function SetdiagEntries(rows: nat, cols: nat, k: int, valuesSize: Option<nat>): (r: Result<(nat, seq<int>, seq<int>)>)
    ensures r.Err? <==> DiagonalLength(rows, cols, k) <= 0
    ensures r.Err? ==> r.error == ValueError
    ensures r.Ok? ==> var (xLen, xIndices, xIndptr) := r.value;
      && xLen <= DiagonalLength(rows, cols, k)
      && (valuesSize.None? ==> xLen == DiagonalLength(rows, cols, k))
      && (valuesSize.Some? ==> xLen == if valuesSize.value < DiagonalLength(rows, cols, k) then valuesSize.value else DiagonalLength(rows, cols, k))
      && |xIndices| == xLen && |xIndptr| == rows + 1
  {
    var rowSt, colSt := if k < 0 then -k else 0, if k > 0 then k else 0;
    var xLen := if rows - rowSt < cols - colSt then rows - rowSt else cols - colSt;
    if xLen <= 0 then Err(ValueError)
    else
      var xLen: nat := match valuesSize case None => xLen case Some(size) => if size < xLen then size else xLen;
      var xIndices := seq(xLen, t => colSt + t);
      var xIndptr := seq(rows + 1, r => if r < rowSt then 0 else if r <= rowSt + xLen then r - rowSt else xLen);
      Ok((xLen, xIndices, xIndptr))
  }

  /** The new entries form a canonical matrix with exactly one entry in each
      of rows `row_st .. row_st+x_len-1`, lying on diagonal `k`. */
  lemma SetdiagEntriesOnDiagonal(rows: nat, cols: nat, k: int, valuesSize: Option<nat>, xData: seq<int>)
    requires SetdiagEntries(rows, cols, k, valuesSize).Ok?
    requires |xData| == SetdiagEntries(rows, cols, k, valuesSize).value.0
    ensures var (xLen, xIndices, xIndptr) := SetdiagEntries(rows, cols, k, valuesSize).value;
      var rowSt := if k < 0 then -k else 0;
      && Canonical(CsrMatrix(rows, cols, xData, xIndices, xIndptr))
      && (forall r :: 0 <= r < rows ==> xIndptr[r + 1] - xIndptr[r] == if rowSt <= r < rowSt + xLen then 1 else 0)
      && (forall r :: rowSt <= r < rowSt + xLen ==> xIndptr[r] == r - rowSt && xIndices[r - rowSt] - r == k)
  {
    SetdiagEntriesValue(rows, cols, k, valuesSize);
    hide SetdiagEntries;
    var (xLen, xIndices, xIndptr) := SetdiagEntries(rows, cols, k, valuesSize).value;
    var rowSt, colSt := if k < 0 then -k else 0, if k > 0 then k else 0;
    SetdiagIndptr(rows, rowSt, xLen, xIndptr);
    SetdiagCanonical(CsrMatrix(rows, cols, xData, xIndices, xIndptr), colSt);
  }

  /** The entries `SetdiagEntries` computes, written out: `x_len` columns
      from `col_st` on, and the row pointers of rows `row_st ..`. */
  lemma SetdiagEntriesValue(rows: nat, cols: nat, k: int, valuesSize: Option<nat>)
    requires SetdiagEntries(rows, cols, k, valuesSize).Ok?
    ensures var (xLen, xIndices, xIndptr) := SetdiagEntries(rows, cols, k, valuesSize).value;
      var rowSt, colSt := if k < 0 then -k else 0, if k > 0 then k else 0;
      && rowSt + xLen <= rows && colSt + xLen <= cols
      && |xIndices| == xLen && (forall t :: 0 <= t < xLen ==> xIndices[t] == colSt + t)
      && |xIndptr| == rows + 1
      && forall r :: 0 <= r <= rows ==> xIndptr[r] == if r < rowSt then 0 else if r <= rowSt + xLen then r - rowSt else xLen
  {
  }

  /** Column indices increasing through the whole entry list make a
      well-formed matrix canonical. */
  lemma SetdiagCanonical(a: CsrMatrix, colSt: nat)
    requires |a.indptr| == a.rows + 1 && a.indptr[0] == 0 && NonDecreasing(a.indptr)
    requires a.indptr[a.rows] == |a.indices| == |a.data| && colSt + |a.indices| <= a.cols
    requires forall t :: 0 <= t < |a.indices| ==> a.indices[t] == colSt + t
    ensures Canonical(a)
  {
  }

  /** The row pointers `setdiag` writes: zeros, then `arange(x_len+1)` from
      row `row_st`, then `x_len`. */
  lemma SetdiagIndptr(rows: nat, rowSt: nat, xLen: nat, xIndptr: seq<int>)
    requires rowSt + xLen <= rows && |xIndptr| == rows + 1
    requires forall r :: 0 <= r <= rows ==> xIndptr[r] == if r < rowSt then 0 else if r <= rowSt + xLen then r - rowSt else xLen
    ensures xIndptr[0] == 0 && xIndptr[rows] == xLen && NonDecreasing(xIndptr)
    ensures forall r :: 0 <= r < rows ==> xIndptr[r + 1] - xIndptr[r] == if rowSt <= r < rowSt + xLen then 1 else 0
  {
  }

  // ---------------------------------------------------------------------
  // multiply_by_dense

  /** `cupy.arange(start, stop, step)` for a non-negative step: the points
      `start, start + step, ...` below `stop`; step 0 divides by zero. */
  function Arange(start: int, stop: int, step: nat): (r: Result<seq<int>>)
    ensures r.Err? <==> step == 0
    ensures r.Ok? ==> Progression(r.value, start, step) && forall t :: 0 <= t < |r.value| ==> r.value[t] < stop
    ensures r.Ok? && start < stop ==> |r.value| > 0 && r.value[|r.value| - 1] + step >= stop
    ensures r.Ok? && stop <= start ==> r.value == []
    decreases stop - start
  {
    if step == 0 then Err(ZeroDivisionError)
    else if stop <= start then Ok([])
    else
      var rest := Arange(start + step, stop, step).value;
      Ok([start] + rest)
  }

  /** `s` counts from `start` in steps of `step`. */
  ghost predicate Progression(s: seq<int>, start: int, step: int) {
    (|s| > 0 ==> s[0] == start) && forall t, u :: 0 <= t < u < |s| && u == t + 1 ==> s[u] == s[t] + step
  }

  /** The `count` points `start, start + step, ...`. */
  function Steps(start: int, count: nat, step: int): (r: seq<int>)
    ensures |r| == count && Progression(r, start, step)
    decreases count
  {
    if count == 0 then [] else [start] + Steps(start + step, count - 1, step)
  }

  /** The last of the points is `start + (count-1)*step`. */
  lemma {:induction false} StepsLast(start: int, count: nat, step: int)
    requires count > 0
    ensures Steps(start, count, step)[count - 1] == start + (count - 1) * step
    decreases count
  {
    if count > 1 {
      StepsLast(start + step, count - 1, step);
      assert (count - 1) * step == (count - 2) * step + step;
    }
  }

  /** `arange(start, stop, s)` gives the `count` points from `start` when
      the last of them is the last one below `stop`. */
  lemma {:induction false} ArangeCount(start: int, stop: int, s: nat, count: nat)
    requires s > 0 && count > 0
    requires Steps(start, count, s)[count - 1] < stop <= Steps(start, count, s)[count - 1] + s
    ensures Arange(start, stop, s) == Ok(Steps(start, count, s))
    decreases count
  {
    StepsUnfold(start, count, s);
    if count == 1 {
      ArangeEmpty(start + s, stop, s);
      ArangeUnfold(start, stop, s);
      StepsUnfold(start + s, 0, s);
    } else {
      assert Steps(start, count, s)[count - 1] == Steps(start + s, count - 1, s)[count - 2];
      ArangeCount(start + s, stop, s, count - 1);
      ArangeUnfold(start, stop, s);
    }
  }

  /** `arange(start, start + q*s + 1, s)` has exactly `q + 1` points. */
  lemma ArangeExact(start: int, q: nat, s: nat)
    requires s > 0
    ensures Arange(start, start + q * s + 1, s) == Ok(Steps(start, q + 1, s))
  {
    StepsLast(start, q + 1, s);
    ArangeCount(start, start + q * s + 1, s, q + 1);
  }

  lemma ArangeUnfold(start: int, stop: int, step: nat)
    requires step > 0 && start < stop
    ensures Arange(start, stop, step) == Ok([start] + Arange(start + step, stop, step).value)
  {
  }

  lemma ArangeEmpty(start: int, stop: int, step: nat)
    requires step > 0 && stop <= start
    ensures Arange(start, stop, step) == Ok([])
  {
  }

  lemma StepsUnfold(start: int, count: nat, step: int)
    ensures Steps(start, count, step) == if count == 0 then [] else [start] + Steps(start + step, count - 1, step)
  {
  }

  /** The larger of two extents: the broadcast extent. */
  function Max(x: nat, y: nat): nat {
    if x < y then y else x
  }

  /** A matrix's row pointers: from 0 to its `nnz`, never decreasing. */
  predicate ValidIndptr(indptr: seq<int>, rows: nat, nnz: nat) {
    |indptr| == rows + 1 && indptr[0] == 0 && indptr[rows] == nnz && NonDecreasing(indptr)
  }

  /** Row `i` of the product holds the entries of sparse row `si`, each
      repeated `n / sp_n` times: `sp_n` is 1 when the row is broadcast
      across the columns. */
  predicate ProductRows(indptr: seq<int>, spShape: seq<nat>, spIndptr: seq<int>, m: nat, n: nat)
    requires |spShape| == 2 && spShape[1] > 0 && |spIndptr| == spShape[0] + 1 && (spShape[0] == m || spShape[0] == 1)
  {
    && |indptr| == m + 1 && indptr[0] == 0
    && forall i :: 0 <= i < m ==>
      var si := if spShape[0] == m then i else 0;
      indptr[i + 1] - indptr[i] == (spIndptr[si + 1] - spIndptr[si]) * (n / spShape[1])
  }

  /** The row pointers `multiply_by_dense(sp, dn)` builds, as written: when
      the sparse operand's one row is broadcast down, `arange` steps by `n`
      or by `sp.nnz`. */
  function MultiplyByDenseIndptrAsWritten(spShape: seq<nat>, spNnz: nat, spIndptr: seq<int>, dnShape: seq<nat>): (r: Result<seq<int>>)
    requires |spShape| == 2 ==> |spIndptr| == spShape[0] + 1
    ensures CheckShapeForPointwiseOp(spShape, dnShape, true).Err? ==> r == Err(ValueError)
    ensures (CheckShapeForPointwiseOp(spShape, dnShape, true).Ok? && spShape[0] > 0 && spShape[1] > 0
      && spShape[0] == Max(spShape[0], dnShape[0])) ==> r.Ok?
  {
    var _ :- CheckShapeForPointwiseOp(spShape, dnShape, true);
    var m, n := Max(spShape[0], dnShape[0]), Max(spShape[1], dnShape[1]);
    if spShape[0] == 0 || spShape[1] == 0 then Err(ZeroDivisionError)
    else
      var nnz := spNnz * (m / spShape[0]) * (n / spShape[1]);
      if m > spShape[0] then
        if n > spShape[1] then Arange(0, nnz + 1, n) else Arange(0, nnz + 1, spNnz)
      else if n > spShape[1] then Ok(Scaled(spIndptr, n))
      else Ok(spIndptr)
  }

  /** The row pointers of the product: row `i` starts after the entries of
      the rows before it, whether or not the sparse operand stores any. */
  function MultiplyByDenseIndptr(spShape: seq<nat>, spNnz: nat, spIndptr: seq<int>, dnShape: seq<nat>): (r: Result<seq<int>>)
    requires |spShape| == 2 ==> ValidIndptr(spIndptr, spShape[0], spNnz)
    ensures r.Ok? <==> CheckShapeForPointwiseOp(spShape, dnShape, true).Ok? && spShape[0] > 0 && spShape[1] > 0
    ensures r.Err? ==> r.error == ValueError || r.error == ZeroDivisionError
    ensures r.Ok? ==> ProductRows(r.value, spShape, spIndptr, Max(spShape[0], dnShape[0]), Max(spShape[1], dnShape[1]))
  {
    var _ :- CheckShapeForPointwiseOp(spShape, dnShape, true);
    var m, n := Max(spShape[0], dnShape[0]), Max(spShape[1], dnShape[1]);
    if spShape[0] == 0 || spShape[1] == 0 then Err(ZeroDivisionError)
    else
      var k := n / spShape[1];
      if m > spShape[0] then Ok(Steps(0, m + 1, spNnz * k))
      else Ok(Scaled(spIndptr, k))
  }

  /** `indptr * k`: every row's entry count scaled by `k`. */
  function Scaled(indptr: seq<int>, k: int): (r: seq<int>)
    ensures |r| == |indptr|
    ensures |r| > 0 ==> r[0] == indptr[0] * k
    ensures forall i :: 0 <= i < |r| - 1 ==> r[i + 1] - r[i] == (indptr[i + 1] - indptr[i]) * k
  {
    var r := seq(|indptr|, i requires 0 <= i < |indptr| => indptr[i] * k);
    assert forall i :: 0 <= i < |r| - 1 ==> r[i + 1] - r[i] == (indptr[i + 1] - indptr[i]) * k by {
      forall i | 0 <= i < |r| - 1
        ensures r[i + 1] - r[i] == (indptr[i + 1] - indptr[i]) * k
      {
        MulSub(indptr[i + 1], indptr[i], k);
      }
    }
    r
  }

  lemma DivSelf(n: nat)
    requires n > 0
    ensures n / n == 1
  {
  }

  lemma MulSub(a: int, b: int, c: int)
    ensures a * c - b * c == (a - b) * c
  {
  }

  /** Whenever the sparse operand stores an entry, or is not broadcast down
      the rows, the code as written builds the product's row pointers. */
  lemma MultiplyByDenseIndptrAgrees(spShape: seq<nat>, spNnz: nat, spIndptr: seq<int>, dnShape: seq<nat>)
    requires |spShape| == 2 ==> ValidIndptr(spIndptr, spShape[0], spNnz)
    requires |spShape| == 2 && |dnShape| == 2 ==> spNnz > 0 || spShape[0] >= dnShape[0]
    requires |spShape| == 2 && spShape[1] == 1 ==> spNnz <= spShape[0]
    ensures MultiplyByDenseIndptrAsWritten(spShape, spNnz, spIndptr, dnShape) == MultiplyByDenseIndptr(spShape, spNnz, spIndptr, dnShape)
  {
    if CheckShapeForPointwiseOp(spShape, dnShape, true).Ok? && spShape[0] > 0 && spShape[1] > 0 {
      var m, n := Max(spShape[0], dnShape[0]), Max(spShape[1], dnShape[1]);
      if m > spShape[0] {
        if n > spShape[1] {
          assert spShape == [1, 1] && dnShape[0] > 1 && dnShape[1] > 1;
          BroadcastBoth(spShape, spNnz, spIndptr, dnShape);
        } else {
          BroadcastRows(spShape, spNnz, spIndptr, dnShape);
        }
      } else if n <= spShape[1] {
        assert n / spShape[1] == 1;
        assert Scaled(spIndptr, 1) == spIndptr;
      } else {
        assert spShape[1] == 1 && n / spShape[1] == n;
      }
    }
  }

  /** A 1x1 operand broadcast both ways. */
  lemma BroadcastBoth(spShape: seq<nat>, spNnz: nat, spIndptr: seq<int>, dnShape: seq<nat>)
    requires |spShape| == 2 && |dnShape| == 2 && spShape == [1, 1] && spNnz == 1 && dnShape[0] > 1 && dnShape[1] > 1
    requires ValidIndptr(spIndptr, 1, 1)
    ensures MultiplyByDenseIndptrAsWritten(spShape, spNnz, spIndptr, dnShape) == MultiplyByDenseIndptr(spShape, spNnz, spIndptr, dnShape)
  {
    var m, n := dnShape[0], dnShape[1];
    assert Max(1, m) == m && Max(1, n) == n;
    assert m / 1 == m && n / 1 == n;
    assert 1 * m * n == m * n;
    ArangeExact(0, m, n);
    assert MultiplyByDenseIndptrAsWritten(spShape, spNnz, spIndptr, dnShape) == Arange(0, m * n + 1, n);
    assert MultiplyByDenseIndptr(spShape, spNnz, spIndptr, dnShape) == Ok(Steps(0, m + 1, 1 * n));
  }

  /** A one-row operand storing entries, broadcast down the rows only. */
  lemma BroadcastRows(spShape: seq<nat>, spNnz: nat, spIndptr: seq<int>, dnShape: seq<nat>)
    requires |spShape| == 2 && |dnShape| == 2 && spShape[0] == 1 && spNnz > 0 && dnShape[0] > 1 && 0 < spShape[1] && dnShape[1] <= spShape[1]
    requires CheckShapeForPointwiseOp(spShape, dnShape, true).Ok?
    requires ValidIndptr(spIndptr, 1, spNnz)
    ensures MultiplyByDenseIndptrAsWritten(spShape, spNnz, spIndptr, dnShape) == MultiplyByDenseIndptr(spShape, spNnz, spIndptr, dnShape)
  {
    var m, n := dnShape[0], spShape[1];
    assert Max(1, m) == m && Max(spShape[1], dnShape[1]) == n;
    assert m / 1 == m;
    DivSelf(n);
    assert spNnz * m * 1 == m * spNnz;
    ArangeExact(0, m, spNnz);
    assert MultiplyByDenseIndptrAsWritten(spShape, spNnz, spIndptr, dnShape) == Arange(0, m * spNnz + 1, spNnz);
    assert MultiplyByDenseIndptr(spShape, spNnz, spIndptr, dnShape) == Ok(Steps(0, m + 1, spNnz * 1));
  }

  /** A 1x1 operand storing nothing, times a 2x2 array: the row pointers as
      written have one element instead of three. */
  lemma MultiplyByDenseEmptyCounterexample()
    ensures MultiplyByDenseIndptrAsWritten([1, 1], 0, [0, 0], [2, 2]) == Ok([0])
    ensures MultiplyByDenseIndptr([1, 1], 0, [0, 0], [2, 2]) == Ok([0, 0, 0])
  {
    assert CheckShapeForPointwiseOp([1, 1], [2, 2], true) == Ok(());
    assert 0 * (2 / 1) * (2 / 1) == 0;
    assert Arange(2, 1, 2) == Ok([]);
    assert Arange(0, 1, 2) == Ok([0] + Arange(2, 1, 2).value);
    assert [0] + [] == [0];
    assert Steps(0, 3, 0) == [0, 0, 0];
  }

  /** A 1x2 operand storing nothing, times a 2x2 array: `arange` as written
      steps by zero. */
  lemma MultiplyByDenseZeroStepCounterexample()
    ensures MultiplyByDenseIndptrAsWritten([1, 2], 0, [0, 0], [2, 2]) == Err(ZeroDivisionError)
    ensures MultiplyByDenseIndptr([1, 2], 0, [0, 0], [2, 2]) == Ok([0, 0, 0])
  {
    assert CheckShapeForPointwiseOp([1, 2], [2, 2], true) == Ok(());
    assert 2 / 2 == 1;
    assert Steps(0, 3, 0) == [0, 0, 0];
  }
}
