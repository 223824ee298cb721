/** The `index_map` argument of `distributed_array` and `reshard`: for every
    device, one chunk index or a list of them. Every index is converted with
    `_convert_chunk_idx_to_slices`, and each device's list is sorted by the
    `slice.indices` triples of its axes. */
module IndexMaps {
  import opened Wrappers
  import opened Slices
  import opened IndexAlgebra

  /** What the user gives for one device: a bare index, or a list. */
  datatype IdxSpec = One(idx: ChunkIdx) | Many(idxs: seq<ChunkIdx>)

  /** `if not isinstance(idxs, list): idxs = [idxs]`. */
  function Listed(spec: IdxSpec): seq<ChunkIdx> {
    match spec
    case One(idx) => [idx]
    case Many(idxs) => idxs
  }

  /** Index `i` is the first that fails to convert, and it fails with `e`. */
  predicate FirstBadIndex(idxs: seq<ChunkIdx>, convert: ChunkIdx -> Result<seq<Slice>>, i: int, e: Error) {
    && 0 <= i < |idxs|
    && convert(idxs[i]) == Err(e)
    && forall k :: 0 <= k < i ==> convert(idxs[k]).Ok?
  }

  /** The loop `idxs[i] = convert(idxs[i])`: the first failing index raises. */
  function ConvertAll(idxs: seq<ChunkIdx>, convert: ChunkIdx -> Result<seq<Slice>>): (r: Result<seq<seq<Slice>>>)
    ensures r.Ok? <==> forall i :: 0 <= i < |idxs| ==> convert(idxs[i]).Ok?
    ensures r.Ok? ==> |r.value| == |idxs| && forall i :: 0 <= i < |idxs| ==> r.value[i] == convert(idxs[i]).value
    ensures r.Err? ==> exists i :: FirstBadIndex(idxs, convert, i, r.error)
  {
    if |idxs| == 0 then Ok([])
    else match convert(idxs[0])
      case Err(e) =>
        assert FirstBadIndex(idxs, convert, 0, e);
        Err(e)
      case Ok(first) =>
        match ConvertAll(idxs[1..], convert)
        case Err(e) =>
          var i :| FirstBadIndex(idxs[1..], convert, i, e);
          assert FirstBadIndex(idxs, convert, i + 1, e);
          Err(e)
        case Ok(rest) =>
          assert forall i :: 1 <= i < |idxs| ==> idxs[i] == idxs[1..][i - 1];
          Ok([first] + rest)
  }

  /** Which `_convert_chunk_idx_to_slices` the map goes through: the one
      the source has, or the one its docstring describes (negative integers
      counted from the end, every empty slice rejected). */
  datatype Conversion = AsWritten | Intended

  /** `_convert_chunk_idx_to_slices(shape, idx)` in the chosen reading. */
  function ConvertChunk(conv: Conversion, shape: seq<nat>, idx: ChunkIdx): (r: Result<seq<Slice>>)
    ensures r.Ok? ==> ValidIndex(r.value, shape)
    ensures conv.Intended? && r.Ok? ==> NonemptyIndex(r.value, shape)
  {
    if conv.AsWritten? then ConvertChunkIdxAsWritten(shape, idx) else ConvertChunkIdx(shape, idx)
  }

  /** `_convert_chunk_idx_to_slices(shape, ·)`. */
  function Converter(shape: seq<nat>, conv: Conversion): ChunkIdx -> Result<seq<Slice>> {
    idx => ConvertChunk(conv, shape, idx)
  }

  /** Every converted index is a valid index of the array, and under the
      intended conversion selects something on every axis. */
  lemma ConvertedValid(shape: seq<nat>, idxs: seq<ChunkIdx>, conv: Conversion)
    requires ConvertAll(idxs, Converter(shape, conv)).Ok?
    ensures AllValid(ConvertAll(idxs, Converter(shape, conv)).value, shape)
    ensures conv.Intended? ==> AllNonempty(ConvertAll(idxs, Converter(shape, conv)).value, shape)
  {
    var r := ConvertAll(idxs, Converter(shape, conv)).value;
    forall i | 0 <= i < |r|
      ensures ValidIndex(r[i], shape) && (conv.Intended? ==> NonemptyIndex(r[i], shape))
    {
      assert r[i] == ConvertChunk(conv, shape, idxs[i]).value;
    }
  }

  // ---------------------------------------------------------------------
  // The sort key

  /** `[s.indices(l) for s, l in zip(slices, shape)]`. Only converted
      indices are ever sorted; on them no axis fails. */
  function Key(idx: seq<Slice>, shape: seq<nat>): (k: seq<Range>)
    ensures |k| == (if |idx| < |shape| then |idx| else |shape|)
    ensures forall d :: 0 <= d < |idx| && d < |shape| && Indices(idx[d], shape[d]).Ok? ==> k[d] == Indices(idx[d], shape[d]).value
  {
    var n := if |idx| < |shape| then |idx| else |shape|;
    seq(n, d requires 0 <= d < n => match Indices(idx[d], shape[d]) case Ok(r) => r case Err(_) => Range(0, 0, 0))
  }

  /** Python's `<` on `(start, stop, step)` tuples. */
  predicate RangeLt(a: Range, b: Range) {
    a.start < b.start || (a.start == b.start && (a.stop < b.stop || (a.stop == b.stop && a.step < b.step)))
  }

  /** Python's `<=` on lists of triples: lexicographic, a proper prefix first. */
  predicate KeyLe(a: seq<Range>, b: seq<Range>) {
    if |a| == 0 then true
    else if |b| == 0 then false
    else RangeLt(a[0], b[0]) || (a[0] == b[0] && KeyLe(a[1..], b[1..]))
  }

  /** Any two keys are comparable. */
  lemma {:induction false} KeyLeTotal(a: seq<Range>, b: seq<Range>)
    ensures KeyLe(a, b) || KeyLe(b, a)
    decreases |a|
  {
    if |a| > 0 && |b| > 0 && a[0] == b[0] {
      KeyLeTotal(a[1..], b[1..]);
    }
  }

  lemma {:induction false} KeyLeTransitive(a: seq<Range>, b: seq<Range>, c: seq<Range>)
    requires KeyLe(a, b) && KeyLe(b, c)
    ensures KeyLe(a, c)
    decreases |a|
  {
    if |a| > 0 && |b| > 0 && |c| > 0 && a[0] == b[0] && b[0] == c[0] {
      KeyLeTransitive(a[1..], b[1..], c[1..]);
    }
  }

  // ---------------------------------------------------------------------
  // idxs.sort(key=...)

  predicate AllValid(idxs: seq<seq<Slice>>, shape: seq<nat>) {
    forall i :: 0 <= i < |idxs| ==> ValidIndex(idxs[i], shape)
  }

  predicate AllNonempty(idxs: seq<seq<Slice>>, shape: seq<nat>) {
    forall i :: 0 <= i < |idxs| ==> ValidIndex(idxs[i], shape) && NonemptyIndex(idxs[i], shape)
  }

  predicate SortedByKey(idxs: seq<seq<Slice>>, shape: seq<nat>) {
    forall i, j :: 0 <= i < j < |idxs| ==> KeyLe(Key(idxs[i], shape), Key(idxs[j], shape))
  }

  /** Inserts `x` after the leading elements whose key is not greater: into
      a sorted list, after every element with an equal key. */
  function Insert(x: seq<Slice>, xs: seq<seq<Slice>>, shape: seq<nat>): (r: seq<seq<Slice>>)
    ensures multiset(r) == multiset(xs) + multiset{x}
    decreases |xs|
  {
    if |xs| == 0 then [x]
    else if KeyLe(Key(xs[0], shape), Key(x, shape)) then
      assert xs == [xs[0]] + xs[1..];
      [xs[0]] + Insert(x, xs[1..], shape)
    else [x] + xs
  }

  lemma InsertUnfold(x: seq<Slice>, xs: seq<seq<Slice>>, shape: seq<nat>)
    requires |xs| > 0
    ensures Insert(x, xs, shape) ==
      if KeyLe(Key(xs[0], shape), Key(x, shape)) then [xs[0]] + Insert(x, xs[1..], shape) else [x] + xs
  {
  }

  /** `b`'s key is not above any key of `xs`. */
  predicate Below(b: seq<Slice>, xs: seq<seq<Slice>>, shape: seq<nat>) {
    forall i :: 0 <= i < |xs| ==> KeyLe(Key(b, shape), Key(xs[i], shape))
  }

  /** A lower bound of both `x` and `xs` bounds the insertion too. */
  lemma BelowInsert(b: seq<Slice>, x: seq<Slice>, xs: seq<seq<Slice>>, shape: seq<nat>)
    requires Below(b, xs, shape) && KeyLe(Key(b, shape), Key(x, shape))
    ensures Below(b, Insert(x, xs, shape), shape)
  {
    var r := Insert(x, xs, shape);
    forall i | 0 <= i < |r|
      ensures KeyLe(Key(b, shape), Key(r[i], shape))
    {
      assert r[i] in multiset(xs) + multiset{x} by {
        assert r[i] in multiset(r);
      }
      if r[i] != x {
        var j :| 0 <= j < |xs| && xs[j] == r[i];
      }
    }
  }

  /** Inserting into a sorted list keeps it sorted. */
  lemma {:induction false} InsertSorted(x: seq<Slice>, xs: seq<seq<Slice>>, shape: seq<nat>)
    requires SortedByKey(xs, shape)
    ensures SortedByKey(Insert(x, xs, shape), shape)
    decreases |xs|
  {
    if |xs| > 0 {
      hide Insert, Key;
      var kx, k0 := Key(x, shape), Key(xs[0], shape);
      InsertUnfold(x, xs, shape);
      if KeyLe(k0, kx) {
        InsertSorted(x, xs[1..], shape);
        assert Below(xs[0], xs[1..], shape);
        BelowInsert(xs[0], x, xs[1..], shape);
      } else {
        KeyLeTotal(k0, kx);
        forall i | 0 < i < |xs|
          ensures KeyLe(kx, Key(xs[i], shape))
        {
          KeyLeTransitive(kx, k0, Key(xs[i], shape));
        }
      }
    }
  }

  /** `idxs.sort(key=lambda slices: [s.indices(l) ...])`: insertion sort,
      which keeps elements with equal keys in their order, as Python's
      stable sort does. */
  function SortIdx(idxs: seq<seq<Slice>>, shape: seq<nat>): (r: seq<seq<Slice>>)
    ensures multiset(r) == multiset(idxs)
  {
    if |idxs| == 0 then []
    else
      var init := idxs[..|idxs| - 1];
      assert idxs == init + [idxs[|idxs| - 1]];
      Insert(idxs[|idxs| - 1], SortIdx(init, shape), shape)
  }

  /** The result of the sort is sorted by key. */
  lemma {:induction false} SortIdxSorted(idxs: seq<seq<Slice>>, shape: seq<nat>)
    ensures SortedByKey(SortIdx(idxs, shape), shape)
    decreases |idxs|
  {
    if |idxs| > 0 {
      var init := idxs[..|idxs| - 1];
      SortIdxSorted(init, shape);
      InsertSorted(idxs[|idxs| - 1], SortIdx(init, shape), shape);
    }
  }

  /** Sorting keeps every element, so a list of valid indices stays valid. */
  lemma SortIdxValid(idxs: seq<seq<Slice>>, shape: seq<nat>)
    requires AllValid(idxs, shape)
    ensures AllValid(SortIdx(idxs, shape), shape)
    ensures AllNonempty(idxs, shape) ==> AllNonempty(SortIdx(idxs, shape), shape)
  {
    var r := SortIdx(idxs, shape);
    forall i | 0 <= i < |r|
      ensures ValidIndex(r[i], shape) && (AllNonempty(idxs, shape) ==> NonemptyIndex(r[i], shape))
    {
      assert r[i] in multiset(idxs) by {
        assert r[i] in multiset(r);
      }
    }
  }

  // ---------------------------------------------------------------------
  // The whole map

  /** Device `k` is the first of `m` whose indices fail to convert, and
      fails with `e`. */
  predicate FailsFirstAt(shape: seq<nat>, m: seq<(int, IdxSpec)>, conv: Conversion, k: int, e: Error) {
    && 0 <= k < |m| && ConvertAll(Listed(m[k].1), Converter(shape, conv)) == Err(e)
    && forall j :: 0 <= j < k ==> ConvertAll(Listed(m[j].1), Converter(shape, conv)).Ok?
  }

  lemma FailsFirstShift(shape: seq<nat>, m: seq<(int, IdxSpec)>, conv: Conversion, e: Error)
    requires |m| > 0 && ConvertAll(Listed(m[0].1), Converter(shape, conv)).Ok?
    requires exists k :: FailsFirstAt(shape, m[1..], conv, k, e)
    ensures exists k :: FailsFirstAt(shape, m, conv, k, e)
  {
    var k :| FailsFirstAt(shape, m[1..], conv, k, e);
    assert forall j :: 1 <= j < |m| ==> m[j] == m[1..][j - 1];
    assert FailsFirstAt(shape, m, conv, k + 1, e);
  }

  /** The first device whose indices fail to convert, with its error. */
  function FirstError(shape: seq<nat>, m: seq<(int, IdxSpec)>, conv: Conversion): (r: Option<Error>)
    ensures r.None? <==> forall k :: 0 <= k < |m| ==> ConvertAll(Listed(m[k].1), Converter(shape, conv)).Ok?
    ensures r.Some? ==> exists k :: FailsFirstAt(shape, m, conv, k, r.value)
  {
    if |m| == 0 then None
    else match ConvertAll(Listed(m[0].1), Converter(shape, conv))
      case Err(e) =>
        assert FailsFirstAt(shape, m, conv, 0, e);
        Some(e)
      case Ok(_) =>
        var r := FirstError(shape, m[1..], conv);
        assert forall k :: 1 <= k < |m| ==> m[k] == m[1..][k - 1];
        if r.Some? then
          FailsFirstShift(shape, m, conv, r.value);
          r
        else r
  }

  /** The normalised `new_index_map`: the same devices in the same order,
      each with its converted list, sorted; or the first error raised. */
  function Normalize(shape: seq<nat>, m: seq<(int, IdxSpec)>, conv: Conversion): (r: Result<seq<(int, seq<seq<Slice>>)>>)
    ensures r.Ok? <==> forall k :: 0 <= k < |m| ==> ConvertAll(Listed(m[k].1), Converter(shape, conv)).Ok?
    ensures r.Err? ==> exists k :: FailsFirstAt(shape, m, conv, k, r.error)
    ensures r.Ok? ==> |r.value| == |m| && forall k :: 0 <= k < |m| ==>
      r.value[k].0 == m[k].0 && multiset(r.value[k].1) == multiset(ConvertAll(Listed(m[k].1), Converter(shape, conv)).value)
  {
    match FirstError(shape, m, conv)
    case Some(e) => Err(e)
    case None =>
      Ok(seq(|m|, k requires 0 <= k < |m| => (m[k].0, SortIdx(ConvertAll(Listed(m[k].1), Converter(shape, conv)).value, shape))))
  }

  /** `{0: 7, 1: slice(2, 2)}` on shape (4,): device 0 fails first, so the
      IndexError of its out-of-range integer is raised, not the ValueError of
      device 1's empty slice. */
  lemma NormalizeFirstError(conv: Conversion)
    ensures Normalize([4], [(0, One(SingleIdx(IntItem(7)))), (1, One(SingleIdx(SliceItem(Slice(Some(2), Some(2), None)))))], conv)
      == Err(IndexError)
  {
    var m := [(0, One(SingleIdx(IntItem(7)))), (1, One(SingleIdx(SliceItem(Slice(Some(2), Some(2), None)))))];
    var e := Normalize([4], m, conv).error;
    var k :| FailsFirstAt([4], m, conv, k, e);
    assert ConvertAll(Listed(m[0].1), Converter([4], conv)) == Err(IndexError);
  }

  /** Every list of the normalised map holds valid indices sorted by key. */
  lemma NormalizeSorted(shape: seq<nat>, m: seq<(int, IdxSpec)>, conv: Conversion, k: nat)
    requires Normalize(shape, m, conv).Ok? && k < |m|
    ensures SortedByKey(Normalize(shape, m, conv).value[k].1, shape)
    ensures AllValid(Normalize(shape, m, conv).value[k].1, shape)
    ensures conv.Intended? ==> AllNonempty(Normalize(shape, m, conv).value[k].1, shape)
  {
    var idxs := ConvertAll(Listed(m[k].1), Converter(shape, conv)).value;
    assert Normalize(shape, m, conv).value[k].1 == SortIdx(idxs, shape);
    SortIdxSorted(idxs, shape);
    ConvertedValid(shape, Listed(m[k].1), conv);
    SortIdxValid(idxs, shape);
  }

  /** The chunks a normalised map describes, device by device in the map's
      order: the order in which the chunks are created. */
  function Flatten(m: seq<(int, seq<seq<Slice>>)>): (r: seq<(int, seq<Slice>)>)
    ensures forall t :: t in r <==> exists k :: 0 <= k < |m| && t.0 == m[k].0 && t.1 in m[k].1
  {
    if |m| == 0 then []
    else
      var rest := Flatten(m[1..]);
      var here := seq(|m[0].1|, i requires 0 <= i < |m[0].1| => (m[0].0, m[0].1[i]));
      assert forall t :: t in here <==> t.0 == m[0].0 && t.1 in m[0].1 by {
        forall t: (int, seq<Slice>) | t.0 == m[0].0 && t.1 in m[0].1
          ensures t in here
        {
          var i :| 0 <= i < |m[0].1| && m[0].1[i] == t.1;
          assert here[i] == t;
        }
      }
      assert forall k :: 1 <= k < |m| ==> m[k] == m[1..][k - 1];
      here + rest
  }

  /** Every chunk index a normalised map lists is a valid index of the array. */
  lemma FlattenValid(shape: seq<nat>, m: seq<(int, IdxSpec)>, conv: Conversion)
    requires Normalize(shape, m, conv).Ok?
    ensures forall t :: t in Flatten(Normalize(shape, m, conv).value) ==>
      ValidIndex(t.1, shape) && (conv.Intended? ==> NonemptyIndex(t.1, shape))
  {
    var n := Normalize(shape, m, conv).value;
    forall t | t in Flatten(n)
      ensures ValidIndex(t.1, shape) && (conv.Intended? ==> NonemptyIndex(t.1, shape))
    {
      var k :| 0 <= k < |n| && t.0 == n[k].0 && t.1 in n[k].1;
      NormalizeSorted(shape, m, conv, k);
      var i :| 0 <= i < |n[k].1| && n[k].1[i] == t.1;
    }
  }
}
