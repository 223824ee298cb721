/** The pure helpers of the kernel compiler driver: the boolean environment
    switch, relocatable-device-code flags, the compute-capability table and
    architecture options, the option list `_compile_with_cache_cuda` builds,
    the framing of cache files, and kernel-name validation. */
module Compiler {
  import opened Wrappers
  import opened PyInt

  // ---------------------------------------------------------------------
  // _get_bool_env_variable

  /** `_get_bool_env_variable(name, default)` given the variable's value
      (`None` when unset): the default for an unset or empty variable, else
      whether the text parses as the integer 1. */
  function GetBoolEnvVariable(value: Option<string>, default: bool): (r: bool)
    ensures value.None? || value == Some("") ==> r == default
    ensures value.Some? && value.value != "" ==> (r <==> ParseInt(value.value) == Some(1))
  {
    match value
    case None => default
    case Some(text) =>
      if |text| == 0 then default
      else match ParseInt(text)
        case Some(n) => n == 1
        case None => false
  }

  /** A set variable reads as true exactly when it holds `str(1)` or any
      other rendering `int()` reads as 1; `str(n)` of any other integer
      reads as false. */
  lemma GetBoolEnvVariableShown(n: int, default: bool)
    ensures GetBoolEnvVariable(Some(ShowInt(n)), default) == (n == 1)
  {
    ParseShowInt(n);
  }

  // ---------------------------------------------------------------------
  // Relocatable device code

  /** `_rdc_flags`. */
  const RdcFlags: seq<string> := ["--device-c", "-dc", "-rdc=true", "--relocatable-device-code=true"]

  predicate IsRdcFlag(o: string) {
    o in RdcFlags
  }

  /** `_is_cudadevrt_needed(options)`: some (non-empty) option is an RDC flag. */
  function IsCudadevrtNeeded(options: seq<string>): (r: bool)
    ensures r <==> exists i :: 0 <= i < |options| && IsRdcFlag(options[i])
  {
    if |options| == 0 then false
    else (|options[0]| > 0 && IsRdcFlag(options[0])) || IsCudadevrtNeeded(options[1..])
  }

  /** An option list needs cudadevrt when either part of it does. */
  lemma IsCudadevrtNeededConcat(a: seq<string>, b: seq<string>)
    ensures IsCudadevrtNeeded(a + b) <==> IsCudadevrtNeeded(a) || IsCudadevrtNeeded(b)
  {
    if IsCudadevrtNeeded(a + b) {
      var i :| 0 <= i < |a + b| && IsRdcFlag((a + b)[i]);
      if i >= |a| {
        assert IsRdcFlag(b[i - |a|]);
      }
    }
    if IsCudadevrtNeeded(b) {
      var i :| 0 <= i < |b| && IsRdcFlag(b[i]);
      assert (a + b)[|a| + i] == b[i];
    }
    if IsCudadevrtNeeded(a) {
      var i :| 0 <= i < |a| && IsRdcFlag(a[i]);
      assert (a + b)[i] == a[i];
    }
  }

  /** `_remove_rdc_option(options)`: the options that are not RDC flags. */
  function RemoveRdcOption(options: seq<string>): (r: seq<string>)
    ensures |r| <= |options|
    ensures forall i :: 0 <= i < |r| ==> !IsRdcFlag(r[i])
    ensures !IsCudadevrtNeeded(options) ==> r == options
  {
    if |options| == 0 then []
    else if IsRdcFlag(options[0]) then RemoveRdcOption(options[1..])
    else [options[0]] + RemoveRdcOption(options[1..])
  }

  /** What is left needs no cudadevrt, and a single option is kept exactly
      when it is not an RDC flag. */
  lemma RemoveRdcOptionSingle(o: string)
    ensures !IsCudadevrtNeeded(RemoveRdcOption([o]))
    ensures RemoveRdcOption([o]) == if IsRdcFlag(o) then [] else [o]
  {
    assert [o][1..] == [];
  }

  /** The filter keeps the other options in their order: it distributes over
      concatenation (with `RemoveRdcOptionSingle` this determines it). */
  lemma {:induction false} RemoveRdcOptionConcat(a: seq<string>, b: seq<string>)
    ensures RemoveRdcOption(a + b) == RemoveRdcOption(a) + RemoveRdcOption(b)
    decreases |a|
  {
    if |a| > 0 {
      RemoveRdcOptionUnfold(a + b);
      RemoveRdcOptionUnfold(a);
      assert (a + b)[0] == a[0] && (a + b)[1..] == a[1..] + b;
      hide RemoveRdcOption, IsRdcFlag;
      RemoveRdcOptionConcat(a[1..], b);
    } else {
      assert a + b == b;
    }
  }

  lemma RemoveRdcOptionUnfold(options: seq<string>)
    requires |options| > 0
    ensures RemoveRdcOption(options) ==
      if IsRdcFlag(options[0]) then RemoveRdcOption(options[1..]) else [options[0]] + RemoveRdcOption(options[1..])
  {
  }

  // ---------------------------------------------------------------------
  // Compute capabilities

  /** `_get_max_compute_capability()` for NVRTC version `(major, minor)`. */
  function MaxComputeCapability(major: nat, minor: nat): (r: nat)
    ensures r in {75, 80, 86, 90, 120}
  {
    if major < 11 then 75
    else if major == 11 && minor == 0 then 80
    else if major == 11 && minor < 8 then 86
    else if (major == 11 && minor == 8) || (major == 12 && minor < 8) then 90
    else 120
  }

  /** Released NVRTC versions: no 11.x after 11.8. */
  predicate Released(major: nat, minor: nat) {
    major == 11 ==> minor <= 8
  }

  /** A later NVRTC never supports fewer architectures. */
  lemma MaxComputeCapabilityMonotone(major1: nat, minor1: nat, major2: nat, minor2: nat)
    requires Released(major1, minor1) && Released(major2, minor2)
    requires major1 < major2 || (major1 == major2 && minor1 <= minor2)
    ensures MaxComputeCapability(major1, minor1) <= MaxComputeCapability(major2, minor2)
  {
  }

  /** The table read for a version between 11.8 and 12.0: 11.9 gets 120,
      above what 12.0 gets. */
  lemma MaxComputeCapabilityGap()
    ensures MaxComputeCapability(11, 9) == 120 && MaxComputeCapability(12, 0) == 90
  {
  }

  /** `_tegra_archs`. */
  const TegraArchs: seq<nat> := [32, 53, 62, 72, 87]

  /** `_get_arch()` for a device of compute capability `arch`: a Tegra arch
      as it is, anything else clamped to what NVRTC supports (`min(...,
      key=int)` keeps the device's arch on a tie). */
  function GetArch(arch: nat, maxCapability: nat): (r: nat)
    ensures arch in TegraArchs ==> r == arch
    ensures arch !in TegraArchs ==> r <= arch && r <= maxCapability && (r == arch || r == maxCapability)
  {
    if arch in TegraArchs then arch
    else if arch <= maxCapability then arch
    else maxCapability
  }

  /** `_get_arch_for_options_for_nvrtc(arch)`: `-arch=sm_X` and cubin when
      PTX is not forced and NVRTC supports the arch, otherwise
      `-arch=compute_X` and PTX. */
  function ArchOptionsForNvrtc(arch: nat, usePtx: bool, maxCapability: nat): (r: (string, string))
    ensures r.1 == "cubin" || r.1 == "ptx"
    ensures r.1 == "cubin" <==> !usePtx && arch <= maxCapability
    ensures r.0 == (if r.1 == "cubin" then "-arch=sm_" else "-arch=compute_") + ShowNat(arch)
  {
    if !usePtx && arch <= maxCapability then ("-arch=sm_" + ShowNat(arch), "cubin")
    else ("-arch=compute_" + ShowNat(arch), "ptx")
  }

  /** The option names the arch it was built from: `int()` of its tail
      gives the arch back. */
  lemma ArchOptionNamesArch(arch: nat, usePtx: bool, maxCapability: nat)
    ensures var (option, _) := ArchOptionsForNvrtc(arch, usePtx, maxCapability);
      var prefix := if !usePtx && arch <= maxCapability then |"-arch=sm_"| else |"-arch=compute_"|;
      |option| > prefix && ParseInt(option[prefix..]) == Some(arch)
  {
    ParseShowInt(arch);
    var (option, kind) := ArchOptionsForNvrtc(arch, usePtx, maxCapability);
    if kind == "cubin" {
      assert option[|"-arch=sm_"|..] == ShowNat(arch);
    } else {
      assert option[|"-arch=compute_"|..] == ShowNat(arch);
    }
  }

  /** Without forced PTX, the arch `_get_arch` picks for a non-Tegra device
      always compiles straight to cubin. */
  lemma ClampedArchGivesCubin(device: nat, maxCapability: nat)
    requires device !in TegraArchs
    ensures ArchOptionsForNvrtc(GetArch(device, maxCapability), false, maxCapability).1 == "cubin"
  {
  }

  // ---------------------------------------------------------------------
  // The options of _compile_with_cache_cuda

  const JitifyFlag := "-DCUPY_USE_JITIFY"

  /** An include-directory option, as `_get_extra_include_dir_opts` makes. */
  predicate IncludeOption(o: string) {
    |o| >= 2 && o[..2] == "-I"
  }

  /** The options `_compile_with_cache_cuda` appends itself before the
      jitify flag: `-ftz=true`, `--device-c` for cooperative groups, and the
      debug flags. */
  function AddedOptions(cooperativeGroups: bool, debug: bool): (added: seq<string>)
    ensures |added| > 0 && added[0] == "-ftz=true"
  {
    ["-ftz=true"] + (if cooperativeGroups then ["--device-c"] else [])
      + (if debug then ["--device-debug", "--generate-line-info"] else [])
  }

  /** The added options are never the jitify flag, and they hold an RDC flag
      exactly when cooperative groups asked for `--device-c`. */
  lemma AddedOptionsFlags(cooperativeGroups: bool, debug: bool)
    ensures JitifyFlag !in AddedOptions(cooperativeGroups, debug)
    ensures IsCudadevrtNeeded(AddedOptions(cooperativeGroups, debug)) <==> cooperativeGroups
  {
    var added := AddedOptions(cooperativeGroups, debug);
    assert |JitifyFlag| == 17;
    assert IsRdcFlag("--device-c");
    assert !IsRdcFlag("-ftz=true") by {
      assert "-ftz=true"[1] != "-rdc=true"[1];
    }
    assert !IsRdcFlag("--device-debug") && !IsRdcFlag("--generate-line-info");
    if cooperativeGroups {
      assert added[1] == "--device-c";
    }
  }

  /** The option list `_compile_with_cache_cuda` compiles with, and whether
      jitify is on: the added options, the jitify flag both ways, then the
      include options. Jitify with a backend other than NVRTC is a
      ValueError. */
  function CompileOptions(options: seq<string>, cooperativeGroups: bool, debug: bool, jitify: bool,
                          backend: string, includes: seq<string>): (r: Result<(seq<string>, bool)>)
    requires forall i :: 0 <= i < |includes| ==> IncludeOption(includes[i])
    ensures r.Err? <==> (jitify || JitifyFlag in options) && backend != "nvrtc"
    ensures r.Err? ==> r.error == ValueError
    ensures r.Ok? ==> var (opts, jit) := r.value;
      && |opts| >= |options| && opts[..|options|] == options
      && "-ftz=true" in opts
      && (jit <==> jitify || JitifyFlag in options)
      && (jit <==> JitifyFlag in opts)
      && (IsCudadevrtNeeded(opts) <==> cooperativeGroups || IsCudadevrtNeeded(options))
  {
    var added := AddedOptions(cooperativeGroups, debug);
    var base := options + added;
    assert (JitifyFlag in base <==> JitifyFlag in options) && (IsCudadevrtNeeded(base) <==> cooperativeGroups || IsCudadevrtNeeded(options)) by {
      AddedOptionsFlags(cooperativeGroups, debug);
      IsCudadevrtNeededConcat(options, added);
    }
    var requested := JitifyFlag in base;
    var (opts, jit) :=
      if jitify && !requested then (base + [JitifyFlag], true)
      else if requested && !jitify then (base, true)
      else (base, jitify);
    if jit && backend != "nvrtc" then Err(ValueError)
    else
      CompileOptionsTail(options, base, opts, includes, jit);
      Ok((opts + includes, jit))
  }

  /** The facts `CompileOptions` needs about its final list. */
  lemma CompileOptionsTail(options: seq<string>, base: seq<string>, opts: seq<string>, includes: seq<string>, jit: bool)
    requires forall i :: 0 <= i < |includes| ==> IncludeOption(includes[i])
    requires |base| > |options| && base[..|options|] == options && base[|options|] == "-ftz=true"
    requires opts == base || opts == base + [JitifyFlag]
    requires jit <==> JitifyFlag in opts
    ensures var all := opts + includes;
      && |all| >= |options| && all[..|options|] == options
      && "-ftz=true" in all
      && (jit <==> JitifyFlag in all)
      && (IsCudadevrtNeeded(all) <==> IsCudadevrtNeeded(base))
  {
    hide IsCudadevrtNeeded, IsRdcFlag, IncludeOption;
    var all := opts + includes;
    assert all[|options|] == "-ftz=true";
    assert all[..|options|] == options;
    IncludesDiffer(includes);
    assert JitifyFlag in all <==> JitifyFlag in opts by {
      if JitifyFlag in all {
        var i :| 0 <= i < |all| && all[i] == JitifyFlag;
        assert i < |opts|;
      }
    }
    CompileOptionsRdc(base, opts, includes);
  }

  lemma CompileOptionsRdc(base: seq<string>, opts: seq<string>, includes: seq<string>)
    requires forall i :: 0 <= i < |includes| ==> !IsRdcFlag(includes[i])
    requires opts == base || opts == base + [JitifyFlag]
    ensures IsCudadevrtNeeded(opts + includes) <==> IsCudadevrtNeeded(base)
  {
    assert !IsRdcFlag(JitifyFlag) by {
      assert |JitifyFlag| == 17;
    }
    IsCudadevrtNeededConcat(opts, includes);
    IsCudadevrtNeededConcat(base, [JitifyFlag]);
    hide IsRdcFlag;
    assert !IsCudadevrtNeeded(includes);
  }

  /** Include options are neither the jitify flag nor RDC flags. */
  lemma IncludesDiffer(includes: seq<string>)
    requires forall i :: 0 <= i < |includes| ==> IncludeOption(includes[i])
    ensures JitifyFlag !in includes && forall i :: 0 <= i < |includes| ==> !IsRdcFlag(includes[i])
  {
    assert JitifyFlag[..2] == "-D";
    forall i | 0 <= i < |includes|
      ensures !IsRdcFlag(includes[i])
    {
      assert includes[i][1] == 'I';
      assert RdcFlags[0][1] != 'I' && RdcFlags[1][1] != 'I' && RdcFlags[2][1] != 'I' && RdcFlags[3][1] != 'I';
    }
  }

  // ---------------------------------------------------------------------
  // Cache files

  newtype byte = x: int | 0 <= x < 256

  /** `_hash_length`: a SHA-1 hex digest has 40 characters. */
  const HashLength := 40

  /** What `_compile_with_cache_cuda` writes to a cache file: the ASCII hex
      digest of the binary, then the binary. The digest function is a
      parameter. */
  function CacheFile(digest: seq<byte> -> seq<byte>, cubin: seq<byte>): seq<byte> {
    digest(cubin) + cubin
  }

  /** What it accepts when reading one: at least a digest's worth of bytes,
      whose head is the digest of the rest; anything else is ignored and
      recompiled (`None`). */
  function ReadCacheFile(digest: seq<byte> -> seq<byte>, data: seq<byte>): (r: Option<seq<byte>>)
    ensures r.Some? ==> data == CacheFile(digest, r.value) && |digest(r.value)| == HashLength
  {
    if |data| >= HashLength && data[..HashLength] == digest(data[HashLength..]) then Some(data[HashLength..])
    else None
  }

  /** A cache file read back gives the binary written. */
  lemma CacheFileRoundTrip(digest: seq<byte> -> seq<byte>, cubin: seq<byte>)
    requires |digest(cubin)| == HashLength
    ensures ReadCacheFile(digest, CacheFile(digest, cubin)) == Some(cubin)
  {
    var data := CacheFile(digest, cubin);
    assert data[..HashLength] == digest(cubin) && data[HashLength..] == cubin;
  }

  /** A file cut short inside its digest is never accepted. */
  lemma TruncatedCacheFileRejected(digest: seq<byte> -> seq<byte>, data: seq<byte>)
    requires |data| < HashLength
    ensures ReadCacheFile(digest, data) == None
  {
  }

  // ---------------------------------------------------------------------
  // is_valid_kernel_name

  predicate IdentifierStart(c: char) {
    'a' <= c <= 'z' || 'A' <= c <= 'Z' || c == '_'
  }

  predicate IdentifierChar(c: char) {
    IdentifierStart(c) || '0' <= c <= '9'
  }

  /** A C identifier: a letter or underscore, then letters, digits and underscores. */
  predicate Identifier(name: string) {
    |name| > 0 && IdentifierStart(name[0]) && forall i :: 1 <= i < |name| ==> IdentifierChar(name[i])
  }

  /** The end of the run of identifier characters from position `i`: how
      far `[a-zA-Z_0-9]*` reaches. */
  function RunEnd(name: string, i: nat): (k: nat)
    requires i <= |name|
    ensures i <= k <= |name| && (k < |name| ==> !IdentifierChar(name[k]))
    ensures forall j :: i <= j < k ==> IdentifierChar(name[j])
    decreases |name| - i
  {
    if i < |name| && IdentifierChar(name[i]) then RunEnd(name, i + 1) else i
  }

  /** `is_valid_kernel_name(name)` as written: `re.match` with the pattern
      `^[a-zA-Z_][a-zA-Z_0-9]*$`. The greedy star takes the whole run, and
      Python's `$` also matches just before a final newline. */
  function IsValidKernelNameAsWritten(name: string): (r: bool)
    ensures r <==> Identifier(name) || (|name| >= 2 && name[|name| - 1] == '\n' && Identifier(name[..|name| - 1]))
  {
    if |name| == 0 || !IdentifierStart(name[0]) then false
    else
      var k := RunEnd(name, 1);
      assert Identifier(name[..k]) by {
        assert forall j :: 1 <= j < k ==> name[..k][j] == name[j];
      }
      assert |name| >= 2 && name[|name| - 1] == '\n' && Identifier(name[..|name| - 1]) ==> k == |name| - 1 by {
        if |name| >= 2 && name[|name| - 1] == '\n' && Identifier(name[..|name| - 1]) {
          assert forall j :: 1 <= j < |name| - 1 ==> name[..|name| - 1][j] == name[j];
        }
      }
      name[k..] == "" || name[k..] == "\n"
  }

  /** A kernel name with a trailing newline passes the check as written. */
  lemma KernelNameNewlineCounterexample()
    ensures IsValidKernelNameAsWritten("k\n")
    ensures !IsValidKernelName("k\n")
  {
    assert ("k\n")[..1] == "k";
  }

  /** `is_valid_kernel_name(name)` as intended: the whole name is a C identifier. */
  function IsValidKernelName(name: string): (r: bool)
    ensures r <==> Identifier(name)
  {
    |name| > 0 && IdentifierStart(name[0]) && RunEnd(name, 1) == |name|
  }
}
