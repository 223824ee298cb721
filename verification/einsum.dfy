/** The host-side helpers of the cuTensorNet einsum backend: splitting the
    arguments of `einsum` in either of its two forms, the cuQuantum version
    test, and the normalisation of the `optimize` option into the contraction
    path handed to cuTensorNet. */
module Einsum {
  import opened Wrappers
  import opened PyInt

  // ---------------------------------------------------------------------
  // _get_einsum_operands

  /** One positional argument of `einsum`: a Python `str`, or anything else
      (an operand, or a list of subscript labels). */
  datatype Arg<T> = Str(s: string) | Value(v: T)

  /** What `_get_einsum_operands` returns: `(expr, operands)` for the
      subscript form, `(inputs, operands, output)` for the interleaved form. */
  datatype Parsed<T> =
    | Subscript(expr: string, operands: seq<Arg<T>>)
    | Interleaved(inputs: seq<Arg<T>>, operands: seq<Arg<T>>, output: Option<Arg<T>>)

  /** `[i for pair in zip(operands, inputs) for i in pair]`. */
  function Interleave<T>(operands: seq<Arg<T>>, inputs: seq<Arg<T>>): (r: seq<Arg<T>>)
    requires |operands| == |inputs|
    ensures |r| == 2 * |operands|
    ensures forall i :: 0 <= i < |operands| ==> r[2 * i] == operands[i] && r[2 * i + 1] == inputs[i]
  {
    if |operands| == 0 then []
    else
      var rest := Interleave(operands[1..], inputs[1..]);
      assert forall i :: 1 <= i < |operands| ==> operands[1..][i - 1] == operands[i] && inputs[1..][i - 1] == inputs[i];
      [operands[0], inputs[0]] + rest
  }

  /** The positional arguments `_try_use_cutensornet` hands to
      `tensornet.contract` for a parsed argument list: the expression and
      the operands, or the pairs interleaved again with the output (when
      there is one) at the end. */
  function ContractArguments<T>(p: Parsed<T>): (r: seq<Arg<T>>)
    requires p.Interleaved? ==> |p.operands| == |p.inputs|
  {
    match p
    case Subscript(expr, operands) => [Str(expr)] + operands
    case Interleaved(inputs, operands, output) =>
      Interleave(operands, inputs) + (if output.Some? then [output.value] else [])
  }

  /** `_get_einsum_operands(args)`: a ValueError for no arguments; a leading
      string is the subscript expression and the rest are operands;
      otherwise the arguments alternate operand, subscript list, and an odd
      last argument is the output subscripts. */
  method GetEinsumOperands<T>(args: seq<Arg<T>>) returns (r: Result<Parsed<T>>)
    ensures r.Err? <==> |args| == 0
    ensures r.Err? ==> r.error == ValueError
    ensures |args| > 0 && args[0].Str? ==> r == Ok(Subscript(args[0].s, args[1..]))
    ensures |args| > 0 && !args[0].Str? ==> (
      && r.Ok? && r.value.Interleaved?
      && |r.value.operands| == |r.value.inputs| == |args| / 2
      && (forall i :: 0 <= i < |args| / 2 ==> r.value.operands[i] == args[2 * i] && r.value.inputs[i] == args[2 * i + 1])
      && (r.value.output.Some? <==> |args| % 2 == 1)
      && (r.value.output.Some? ==> r.value.output.value == args[|args| - 1]))
    ensures r.Ok? ==> (r.value.Interleaved? ==> |r.value.operands| == |r.value.inputs|) && ContractArguments(r.value) == args
  {
    if |args| == 0 {
      return Err(ValueError);
    }
    if args[0].Str? {
      assert [args[0]] + args[1..] == args;
      return Ok(Subscript(args[0].s, args[1..]));
    }
    var rest := args;
    var operands: seq<Arg<T>> := [];
    var inputs: seq<Arg<T>> := [];
    while |rest| >= 2
      invariant |operands| == |inputs| && 2 * |operands| <= |args|
      invariant rest == args[2 * |operands|..]
      invariant Interleave(operands, inputs) == args[..2 * |operands|]
      decreases |rest|
    {
      InterleaveSnoc(operands, inputs, rest[0], rest[1]);
      assert args[..2 * |operands| + 2] == args[..2 * |operands|] + [rest[0], rest[1]];
      operands := operands + [rest[0]];
      inputs := inputs + [rest[1]];
      rest := rest[2..];
    }
    var output := if |rest| == 1 then Some(rest[0]) else None;
    assert args == args[..2 * |operands|] + rest;
    r := Ok(Interleaved(inputs, operands, output));
  }

  /** Appending one pair to both lists appends it to the interleaving. */
  lemma {:induction false} InterleaveSnoc<T>(operands: seq<Arg<T>>, inputs: seq<Arg<T>>, x: Arg<T>, y: Arg<T>)
    requires |operands| == |inputs|
    ensures Interleave(operands + [x], inputs + [y]) == Interleave(operands, inputs) + [x, y]
    decreases |operands|
  {
    if |operands| > 0 {
      assert (operands + [x])[1..] == operands[1..] + [x] && (inputs + [y])[1..] == inputs[1..] + [y];
      InterleaveSnoc(operands[1..], inputs[1..], x, y);
      InterleaveUnfold(operands + [x], inputs + [y]);
      InterleaveUnfold(operands, inputs);
    }
  }

  lemma InterleaveUnfold<T>(operands: seq<Arg<T>>, inputs: seq<Arg<T>>)
    requires |operands| == |inputs| > 0
    ensures Interleave(operands, inputs) == [operands[0], inputs[0]] + Interleave(operands[1..], inputs[1..])
  {
  }

  // ---------------------------------------------------------------------
  // _is_cuqnt_22_11_or_higher

  /** `int(i)` for every piece, or None when one of them is not an integer
      (the comprehension then raises ValueError). */
  function ParseAll(pieces: seq<string>): (r: Option<seq<int>>)
    ensures r.Some? ==> |r.value| == |pieces|
  {
    if |pieces| == 0 then Some([])
    else
      var head, tail := ParseInt(pieces[0]), ParseAll(pieces[1..]);
      if head.Some? && tail.Some? then Some([head.value] + tail.value)
      else None
  }

  /** The comprehension succeeds exactly when every piece is an integer,
      and then holds their values in order. */
  lemma {:induction false} ParseAllValues(pieces: seq<string>)
    ensures ParseAll(pieces).Some? <==> forall i :: 0 <= i < |pieces| ==> ParseInt(pieces[i]).Some?
    ensures ParseAll(pieces).Some? ==> forall i :: 0 <= i < |pieces| ==> ParseInt(pieces[i]) == Some(ParseAll(pieces).value[i])
    decreases |pieces|
  {
    hide ParseInt;
    if |pieces| > 0 {
      ParseAllValues(pieces[1..]);
      assert forall i :: 1 <= i < |pieces| ==> pieces[1..][i - 1] == pieces[i];
    }
  }

  /** `_is_cuqnt_22_11_or_higher()` for the installed `__version__` text.
      The comparison reads the minor number only when the major is 22, so
      a one-component version other than 22 gives an answer and `"22"`
      alone an IndexError. */
  function IsCuqnt2211OrHigher(version: string): (r: Result<bool>)
    ensures var ver := ParseAll(Split(version, '.'));
      && (r == Err(ValueError) <==> ver.None?)
      && (ver.Some? ==> |ver.value| >= 1)
      && (r == Err(IndexError) <==> ver.Some? && ver.value[0] == 22 && |ver.value| < 2)
      && (r.Ok? ==> ver.Some? && (r.value <==> ver.value[0] > 22 || (ver.value[0] == 22 && ver.value[1] >= 11)))
  {
    match ParseAll(Split(version, '.'))
    case None => Err(ValueError)
    case Some(ver) =>
      if ver[0] > 22 then Ok(true)
      else if ver[0] == 22 then
        if |ver| < 2 then Err(IndexError) else Ok(ver[1] >= 11)
      else Ok(false)
  }

  /** The version text of release `major.minor.patch...`. */
  function VersionText(components: seq<nat>): (s: string)
    requires |components| >= 1
  {
    Join(seq(|components|, i requires 0 <= i < |components| => ShowNat(components[i])), '.')
  }

  /** For a release version, `_is_cuqnt_22_11_or_higher` is the
      lexicographic comparison `(major, minor) >= (22, 11)`. */
  lemma IsCuqnt2211OrHigherRelease(components: seq<nat>)
    requires |components| >= 2
    ensures IsCuqnt2211OrHigher(VersionText(components)) ==
      Ok(components[0] > 22 || (components[0] == 22 && components[1] >= 11))
  {
    var pieces := seq(|components|, i requires 0 <= i < |components| => ShowNat(components[i]));
    SplitJoin(pieces, '.');
    forall i | 0 <= i < |pieces|
      ensures ParseInt(pieces[i]) == Some(components[i] as int)
    {
      ParseShowInt(components[i]);
    }
    ParseAllValues(pieces);
    var ver := ParseAll(pieces);
    assert ver.Some? && ver.value[0] == components[0] && ver.value[1] == components[1];
  }

  /** A major version alone is read without the minor unless it is 22. */
  lemma IsCuqnt2211OrHigherMajorOnly(major: nat)
    ensures IsCuqnt2211OrHigher(VersionText([major])).Err? <==> major == 22
    ensures major != 22 ==> IsCuqnt2211OrHigher(VersionText([major])) == Ok(major > 22)
  {
    var pieces := [ShowNat(major)];
    assert VersionText([major]) == ShowNat(major) by {
      assert seq(1, i requires 0 <= i < 1 => ShowNat([major][i])) == pieces;
    }
    hide ShowNat;
    SplitJoin(pieces, '.');
    ParseShowInt(major);
    ParseAllValues(pieces);
  }

  // ---------------------------------------------------------------------
  // The optimize option of _try_use_cutensornet

  /** An entry of a path list: a string, a number (the memory limit of
      `('greedy', 1e9)`), or an index pair. */
  datatype PathEntry = Label(s: string) | Number | Pair(i: int, j: int)

  /** The `optimize` keyword: `True`/`False`, a string, or a tuple/list. */
  datatype Optimize = Flag(b: bool) | Name(s: string) | Entries(e: seq<PathEntry>)

  /** `[(i-1, i-2) for i in range(n, 1, -1)]`: contract the two rightmost
      operands, repeatedly. */
  function DefaultPath(n: nat): (p: seq<(int, int)>)
    ensures |p| == if n >= 2 then n - 1 else 0
  {
    var count := if n >= 2 then n - 1 else 0;
    seq(count, k requires 0 <= k < count => (n - k - 1, n - k - 2))
  }

  /** A path in einsum's pairwise format for `n` operands: step `k` sees
      `n - k` operands, names two distinct ones among them, and replaces
      them with their contraction, so `n - 1` steps leave one tensor. */
  predicate ValidPath(p: seq<(int, int)>, n: nat) {
    && |p| == n - 1
    && forall k :: 0 <= k < |p| ==> 0 <= p[k].0 < n - k && 0 <= p[k].1 < n - k && p[k].0 != p[k].1
  }

  /** Contracting from the right, step by step: the last two operands, then
      the last two of what is left. */
  function RightToLeft(n: nat): (p: seq<(int, int)>)
    decreases n
  {
    if n < 2 then [] else [(n - 1, n - 2)] + RightToLeft(n - 1)
  }

  /** The default path is the right-to-left contraction order, and it is a
      valid path for every (non-empty) operand list. */
  lemma {:induction false} DefaultPathRightToLeft(n: nat)
    ensures DefaultPath(n) == RightToLeft(n)
    ensures n >= 1 ==> ValidPath(DefaultPath(n), n)
    decreases n
  {
    if n >= 2 {
      DefaultPathRightToLeft(n - 1);
      var p, q := DefaultPath(n), DefaultPath(n - 1);
      assert p == [(n - 1, n - 2)] + q by {
        assert forall k :: 1 <= k < |p| ==> p[k] == q[k - 1];
      }
    }
  }

  /** The pairs as path entries. */
  function Pairs(p: seq<(int, int)>): (r: seq<PathEntry>)
    ensures |r| == |p| && forall k :: 0 <= k < |p| ==> r[k] == Pair(p[k].0, p[k].1)
  {
    seq(|p|, k requires 0 <= k < |p| => Pair(p[k].0, p[k].1))
  }

  /** The path branch of `_try_use_cutensornet` for `n` operands: the path
      kept (None when it is discarded) and whether the "ignores the optimize
      option" warning is raised. `True` reads as `'greedy'`. */
  function NormalizePath(optimize: Optimize, n: nat): (r: (Option<seq<PathEntry>>, bool))
    ensures optimize == Flag(false) ==> r == (Some(Pairs(DefaultPath(n))), false)
    ensures optimize.Entries? && |optimize.e| > 0 && optimize.e[0] == Label("einsum_path") ==>
      r == (Some(optimize.e[1..]), false)
    ensures r.0.Some? <==> optimize == Flag(false) || (optimize.Entries? && |optimize.e| > 0 && optimize.e[0] == Label("einsum_path"))
    ensures !r.1 <==>
      || optimize == Flag(false)
      || optimize == Name("cutensornet")
      || (optimize.Entries? && |optimize.e| > 0 && optimize.e[0] == Label("einsum_path"))
      || (optimize.Entries? && |optimize.e| == 2 && optimize.e[0] == Label("cutensornet") && !optimize.e[1].Number?)
  {
    var path := if optimize == Flag(true) then Name("greedy") else optimize;
    match path
    case Flag(_) => (Some(Pairs(DefaultPath(n))), false)
    case Name(s) =>
      // `path[0] == 'einsum_path'` compares one character with a longer
      // string; a two-character name takes the tuple branch and warns.
      if |s| == 2 then (None, true)
      else (None, s != "cutensornet")
    case Entries(e) =>
      if |e| > 0 && e[0] == Label("einsum_path") then (Some(e[1..]), false)
      else if |e| == 2 then (None, e[1].Number? || e[0] != Label("cutensornet"))
      else (None, true)
  }

  /** `cutn_optimizer`: `{'path': path}` for a non-empty path, else None. */
  function Optimizer(optimize: Optimize, n: nat): (r: Option<seq<PathEntry>>)
    ensures r.Some? ==> |r.value| > 0 && Some(r.value) == NormalizePath(optimize, n).0
    ensures r.None? ==> NormalizePath(optimize, n).0 in {None, Some([])}
  {
    var path := NormalizePath(optimize, n).0;
    if path.Some? && |path.value| > 0 then path else None
  }

  /** `optimize=True` is `'greedy'`: the path is dropped with a warning.
      With the default `False` and the two or more operands the backend
      accepts, cuTensorNet gets the right-to-left path. */
  lemma OptimizerDefaults(n: nat)
    ensures NormalizePath(Flag(true), n) == NormalizePath(Name("greedy"), n) == (None, true)
    ensures n >= 2 ==> Optimizer(Flag(false), n) == Some(Pairs(RightToLeft(n)))
  {
    DefaultPathRightToLeft(n);
  }
}
