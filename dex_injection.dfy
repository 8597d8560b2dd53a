/**
 * `injectInstructionAndWriteToFile`: hands each dex config, with the pool carried
 * over from the previous one, to the instruction injector, writes the pools it
 * returns as classes.dex, classes2.dex, ... in order, and carries the last one on.
 */
module DexInjection {
  import opened Wrappers
  import opened Failures
  import opened Paths
  import opened DexNaming

  /** One entry of the conversion stage's GlobalDexConfig. */
  datatype DexConfig = DexConfig(shellDexFile: Path, registerNativesMethodName: string, registerNativesClassName: string)

  /** A pool written by `dexWriteToFile`: the file and the pool it holds. */
  datatype WrittenDex<P> = WrittenDex(file: Path, pool: P)

  /**
   * The rule for the `retPools` of one config (at least one pool): more than one
   * pool writes all but the last and carries the last, writing it too when this
   * is the final config; a single pool is written and a fresh pool is carried.
   */
  function Flush<P>(retPools: seq<P>, isFinal: bool, freshPool: P): (r: (seq<P>, P))
    requires |retPools| >= 1
    ensures isFinal ==> r.0 == retPools
    ensures !isFinal && |retPools| > 1 ==> r.0 + [r.1] == retPools
    ensures |retPools| == 1 ==> r == (retPools, freshPool)
  {
    if |retPools| > 1 then
      (retPools[..|retPools| - 1] + (if isFinal then [retPools[|retPools| - 1]] else []), retPools[|retPools| - 1])
    else (retPools, freshPool)
  }

  function PrependPools<P>(prefix: seq<P>, r: Result<seq<P>, Failure>): Result<seq<P>, Failure> {
    match r
    case Ok(rest) => Ok(prefix + rest)
    case Err(e) => Err(e)
  }

  lemma PrependPoolsTwice<P>(a: seq<P>, b: seq<P>, r: Result<seq<P>, Failure>)
    ensures PrependPools(a, PrependPools(b, r)) == PrependPools(a + b, r)
    ensures PrependPools([], r) == r
  {
    if r.Ok? {
      assert a + (b + r.value) == (a + b) + r.value;
      assert [] + r.value == r.value;
    }
  }

  /**
   * The pools written from config `i` on, when `last` is the pool carried into it:
   * at least one per config. An empty `retPools` is the only failure: without a
   * logger the injector's error is thrown; with one it is logged and
   * `retPools.get(0)` then fails.
   */
  function InjectFrom<P>(configs: seq<DexConfig>, i: nat, last: P, freshPool: P,
                         inject: (DexConfig, P) -> seq<P>, hasLogger: bool): (r: Result<seq<P>, Failure>)
    requires i <= |configs|
    ensures r.Ok? ==> |r.value| >= |configs| - i
    ensures r.Err? ==> r.error == if hasLogger then IndexOutOfBounds(0, 0) else DexInjectError
    decreases |configs| - i
  {
    if i == |configs| then Ok([])
    else
      var retPools := inject(configs[i], last);
      if |retPools| == 0 then Err(if hasLogger then IndexOutOfBounds(0, 0) else DexInjectError)
      else
        var (written, carried) := Flush(retPools, i == |configs| - 1, freshPool);
        PrependPools(written, InjectFrom(configs, i + 1, carried, freshPool, inject, hasLogger))
  }

  /** One config's step: its returned pools, flushed, come before what the later configs write. */
  lemma InjectStep<P>(configs: seq<DexConfig>, i: nat, last: P, freshPool: P,
                      inject: (DexConfig, P) -> seq<P>, hasLogger: bool)
    requires i < |configs| && |inject(configs[i], last)| >= 1
    ensures var flushed := Flush(inject(configs[i], last), i == |configs| - 1, freshPool);
      InjectFrom(configs, i, last, freshPool, inject, hasLogger)
      == PrependPools(flushed.0, InjectFrom(configs, i + 1, flushed.1, freshPool, inject, hasLogger))
  {
  }

  /**
   * The pool handed to the call for config `k` when the pass starts at config `i`
   * with `last`: None when an earlier call returned no pool, so call `k` is never made.
   */
  function PoolInto<P>(configs: seq<DexConfig>, i: nat, last: P, freshPool: P,
                       inject: (DexConfig, P) -> seq<P>, k: nat): Option<P>
    requires i <= k <= |configs|
    decreases k - i
  {
    if k == i then Some(last)
    else
      var retPools := inject(configs[i], last);
      if |retPools| == 0 then None
      else PoolInto(configs, i + 1, Flush(retPools, i == |configs| - 1, freshPool).1, freshPool, inject, k)
  }

  /** An empty pool list is never a success: the pass fails at that config. */
  lemma EmptyCallFails<P>(configs: seq<DexConfig>, i: nat, last: P, freshPool: P,
                          inject: (DexConfig, P) -> seq<P>, hasLogger: bool)
    requires i < |configs| && inject(configs[i], last) == []
    ensures InjectFrom(configs, i, last, freshPool, inject, hasLogger)
         == Err(if hasLogger then IndexOutOfBounds(0, 0) else DexInjectError)
  {
  }

  /** The pass fails exactly when some call it makes returns an empty pool list. */
  lemma {:induction false} InjectFailsIff<P>(configs: seq<DexConfig>, i: nat, last: P, freshPool: P,
                                             inject: (DexConfig, P) -> seq<P>, hasLogger: bool)
    requires i <= |configs|
    ensures InjectFrom(configs, i, last, freshPool, inject, hasLogger).Err? <==>
      exists k :: i <= k < |configs| && PoolInto(configs, i, last, freshPool, inject, k).Some?
        && inject(configs[k], PoolInto(configs, i, last, freshPool, inject, k).value) == []
    decreases |configs| - i
  {
    if i < |configs| {
      var retPools := inject(configs[i], last);
      if |retPools| == 0 {
        assert PoolInto(configs, i, last, freshPool, inject, i) == Some(last);
      } else {
        var carried := Flush(retPools, i == |configs| - 1, freshPool).1;
        InjectFailsIff(configs, i + 1, carried, freshPool, inject, hasLogger);
        InjectStep(configs, i, last, freshPool, inject, hasLogger);
        forall k | i < k < |configs|
          ensures PoolInto(configs, i, last, freshPool, inject, k) == PoolInto(configs, i + 1, carried, freshPool, inject, k)
        {
        }
        if InjectFrom(configs, i, last, freshPool, inject, hasLogger).Err? {
          var k :| i + 1 <= k < |configs| && PoolInto(configs, i + 1, carried, freshPool, inject, k).Some?
            && inject(configs[k], PoolInto(configs, i + 1, carried, freshPool, inject, k).value) == [];
          assert PoolInto(configs, i, last, freshPool, inject, k) == PoolInto(configs, i + 1, carried, freshPool, inject, k);
        }
        if exists k :: i <= k < |configs| && PoolInto(configs, i, last, freshPool, inject, k).Some?
            && inject(configs[k], PoolInto(configs, i, last, freshPool, inject, k).value) == [] {
          var k :| i <= k < |configs| && PoolInto(configs, i, last, freshPool, inject, k).Some?
            && inject(configs[k], PoolInto(configs, i, last, freshPool, inject, k).value) == [];
          assert k != i;
          assert PoolInto(configs, i, last, freshPool, inject, k) == PoolInto(configs, i + 1, carried, freshPool, inject, k);
        }
      }
    }
  }

  /** `dexWriteToFile`: the pool written under the name for `index` inside `dexOutDir`. */
  function DexWriteToFile<P>(pool: P, index: nat, dexOutDir: Path): (f: WrittenDex<P>)
    ensures Name(f.file) == DexFileName(index) && Parent(f.file) == dexOutDir && f.pool == pool
  {
    WrittenDex(Child(dexOutDir, DexFileName(index)), pool)
  }

  /** File j holds pool j and is named for index j. */
  ghost predicate NumberedFiles<P>(files: seq<WrittenDex<P>>, pools: seq<P>, dexOutDir: Path) {
    |files| == |pools| && forall j :: 0 <= j < |files| ==> files[j] == DexWriteToFile(pools[j], j, dexOutDir)
  }

  /** The files of the written dex files, in order. */
  function Files<P>(written: seq<WrittenDex<P>>): (files: seq<Path>)
    ensures |files| == |written| && forall j :: 0 <= j < |written| ==> files[j] == written[j].file
  {
    seq(|written|, j requires 0 <= j < |written| => written[j].file)
  }

  /** Numbered files are exactly the `classesN.dex` children of the output directory. */
  lemma NumberedFilesPaths<P>(written: seq<WrittenDex<P>>, pools: seq<P>, dexOutDir: Path)
    requires NumberedFiles(written, pools, dexOutDir)
    ensures forall j :: 0 <= j < |written| ==> Files(written)[j] == Child(dexOutDir, DexFileName(j))
  {
    forall j | 0 <= j < |written| ensures Files(written)[j] == Child(dexOutDir, DexFileName(j)) {
      assert written[j] == DexWriteToFile(pools[j], j, dexOutDir);
    }
  }

  lemma AppendNumbered<P>(files: seq<WrittenDex<P>>, pools: seq<P>, dexOutDir: Path, pool: P)
    requires NumberedFiles(files, pools, dexOutDir)
    ensures NumberedFiles(files + [DexWriteToFile(pool, |files|, dexOutDir)], pools + [pool], dexOutDir)
  {
  }

  /**
   * The loop `for k < retPools.size() - 1`: writes each pool of `toWrite`, in order,
   * under the index equal to the number of files already written, and adds the file.
   */
  method WriteEach<P>(dexFiles: seq<WrittenDex<P>>, ghost pools: seq<P>, toWrite: seq<P>, dexOutDir: Path)
    returns (files: seq<WrittenDex<P>>)
    requires NumberedFiles(dexFiles, pools, dexOutDir)
    ensures NumberedFiles(files, pools + toWrite, dexOutDir)
  {
    files := dexFiles;
    for k := 0 to |toWrite|
      invariant NumberedFiles(files, pools + toWrite[..k], dexOutDir)
    {
      var size := |files|;
      AppendNumbered(files, pools + toWrite[..k], dexOutDir, toWrite[k]);
      files := files + [DexWriteToFile(toWrite[k], size, dexOutDir)];
      assert pools + toWrite[..k + 1] == pools + toWrite[..k] + [toWrite[k]];
    }
    assert toWrite[..|toWrite|] == toWrite;
  }

  /**
   * The `if (retPools.size() > 1) ... else ...` block for one config: writes the
   * pools `Flush` says, each under the next index, and returns the pool carried on.
   */
  method WriteReturnedPools<P>(dexFiles: seq<WrittenDex<P>>, ghost pools: seq<P>, retPools: seq<P>, isFinal: bool,
                               freshPool: P, dexOutDir: Path)
    returns (files: seq<WrittenDex<P>>, lastDexPool: P)
    requires |retPools| >= 1 && NumberedFiles(dexFiles, pools, dexOutDir)
    ensures NumberedFiles(files, pools + Flush(retPools, isFinal, freshPool).0, dexOutDir)
    ensures lastDexPool == Flush(retPools, isFinal, freshPool).1
  {
    if |retPools| > 1 {
      files, lastDexPool := WriteAllButLast(dexFiles, pools, retPools, isFinal, dexOutDir);
    } else {
      var size := |dexFiles|;
      AppendNumbered(dexFiles, pools, dexOutDir, retPools[0]);
      files := dexFiles + [DexWriteToFile(retPools[0], size, dexOutDir)];
      lastDexPool := freshPool;
      assert retPools == [retPools[0]];
    }
  }

  /**
   * The `retPools.size() > 1` branch: every pool but the last is written; the last
   * is written too when the config is the final one, and is carried on either way.
   */
  method WriteAllButLast<P>(dexFiles: seq<WrittenDex<P>>, ghost pools: seq<P>, retPools: seq<P>, isFinal: bool,
                            dexOutDir: Path)
    returns (files: seq<WrittenDex<P>>, lastDexPool: P)
    requires |retPools| > 1 && NumberedFiles(dexFiles, pools, dexOutDir)
    ensures lastDexPool == retPools[|retPools| - 1]
    ensures isFinal ==> NumberedFiles(files, pools + retPools, dexOutDir)
    ensures !isFinal ==> NumberedFiles(files, pools + retPools[..|retPools| - 1], dexOutDir)
  {
    files := WriteEach(dexFiles, pools, retPools[..|retPools| - 1], dexOutDir);
    lastDexPool := retPools[|retPools| - 1];
    if isFinal {
      var size := |files|;
      AppendNumbered(files, pools + retPools[..|retPools| - 1], dexOutDir, lastDexPool);
      files := files + [DexWriteToFile(lastDexPool, size, dexOutDir)];
      assert pools + retPools[..|retPools| - 1] + [lastDexPool] == pools + retPools;
    }
  }

  /**
   * `injectInstructionAndWriteToFile`. The injector `Dex2c.injectCallRegisterNativeInsns`
   * is the parameter `inject` (its main-class set and pool-size ceiling are bound into
   * it); `freshPool` is `new DexPool(...)`. Each file is written under the index equal to
   * the number of files written before it, so file j is always named for index j.
   */
  method InjectInstructionAndWriteToFile<P>(configs: seq<DexConfig>, dexOutDir: Path, freshPool: P,
                                            inject: (DexConfig, P) -> seq<P>, hasLogger: bool)
    returns (r: Result<seq<WrittenDex<P>>, Failure>)
    ensures r.Ok? <==> InjectFrom(configs, 0, freshPool, freshPool, inject, hasLogger).Ok?
    ensures r.Err? ==> r.error == InjectFrom(configs, 0, freshPool, freshPool, inject, hasLogger).error
    ensures r.Ok? ==> NumberedFiles(r.value, InjectFrom(configs, 0, freshPool, freshPool, inject, hasLogger).value, dexOutDir)
  {
    ghost var spec := InjectFrom(configs, 0, freshPool, freshPool, inject, hasLogger);
    var dexFiles: seq<WrittenDex<P>> := [];
    ghost var pools: seq<P> := [];
    var lastDexPool := freshPool;
    PrependPoolsTwice(pools, pools, spec);
    for i := 0 to |configs|
      invariant NumberedFiles(dexFiles, pools, dexOutDir)
      invariant PrependPools(pools, InjectFrom(configs, i, lastDexPool, freshPool, inject, hasLogger)) == spec
    {
      var retPools := inject(configs[i], lastDexPool);
      if |retPools| == 0 {
        if !hasLogger {
          return Err(DexInjectError);
        }
        // logged as "Dex inject instruction error"; the else branch's retPools.get(0) then fails
        return Err(IndexOutOfBounds(0, 0));
      }
      ghost var flushed := Flush(retPools, i == |configs| - 1, freshPool);
      ghost var before := pools;
      InjectStep(configs, i, lastDexPool, freshPool, inject, hasLogger);
      PrependPoolsTwice(before, flushed.0, InjectFrom(configs, i + 1, flushed.1, freshPool, inject, hasLogger));
      dexFiles, lastDexPool := WriteReturnedPools(dexFiles, pools, retPools, i == |configs| - 1, freshPool, dexOutDir);
      pools := pools + flushed.0;
    }
    assert pools + [] == pools;
    return Ok(dexFiles);
  }

  /** Every config's call returns one pool: one file per config, each the pool of a fresh start. */
  lemma {:induction false} OnePoolPerConfig<P>(configs: seq<DexConfig>, i: nat, freshPool: P,
                                               inject: (DexConfig, P) -> seq<P>, hasLogger: bool)
    requires i <= |configs|
    requires forall k :: i <= k < |configs| ==> |inject(configs[k], freshPool)| == 1
    ensures InjectFrom(configs, i, freshPool, freshPool, inject, hasLogger)
         == Ok(seq(|configs| - i, k requires 0 <= k < |configs| - i => inject(configs[i + k], freshPool)[0]))
    decreases |configs| - i
  {
    var all := seq(|configs| - i, k requires 0 <= k < |configs| - i => inject(configs[i + k], freshPool)[0]);
    if i < |configs| {
      OnePoolPerConfig(configs, i + 1, freshPool, inject, hasLogger);
      var later := seq(|configs| - i - 1, k requires 0 <= k < |configs| - i - 1 => inject(configs[i + 1 + k], freshPool)[0]);
      var ret := inject(configs[i], freshPool);
      assert ret == [ret[0]];
      assert all == ret + later;
    } else {
      assert all == [];
    }
  }

  /** The pools the final config's call returns, given the pool carried into config `i`. */
  function FinalReturn<P>(configs: seq<DexConfig>, i: nat, last: P, freshPool: P,
                          inject: (DexConfig, P) -> seq<P>): Option<seq<P>>
    requires i < |configs|
    decreases |configs| - i
  {
    var ret := inject(configs[i], last);
    if i == |configs| - 1 then Some(ret)
    else if |ret| == 0 then None
    else FinalReturn(configs, i + 1, Flush(ret, false, freshPool).1, freshPool, inject)
  }

  /** Nothing is left unwritten at the end: every pool of the final call is written, last, in order. */
  lemma {:induction false} FinalPoolsWritten<P>(configs: seq<DexConfig>, i: nat, last: P, freshPool: P,
                                                inject: (DexConfig, P) -> seq<P>, hasLogger: bool)
    requires i < |configs| && InjectFrom(configs, i, last, freshPool, inject, hasLogger).Ok?
    ensures var pools := InjectFrom(configs, i, last, freshPool, inject, hasLogger).value;
      var ret := FinalReturn(configs, i, last, freshPool, inject);
      ret.Some? && 1 <= |ret.value| <= |pools| && pools[|pools| - |ret.value|..] == ret.value
    decreases |configs| - i
  {
    var ret := inject(configs[i], last);
    var flushed := Flush(ret, i == |configs| - 1, freshPool);
    var pools := InjectFrom(configs, i, last, freshPool, inject, hasLogger).value;
    if i == |configs| - 1 {
      assert pools == flushed.0 + [];
      if |ret| > 1 {
        assert flushed.0 == ret;
      }
    } else {
      FinalPoolsWritten(configs, i + 1, flushed.1, freshPool, inject, hasLogger);
      var rest := InjectFrom(configs, i + 1, flushed.1, freshPool, inject, hasLogger).value;
      assert pools == flushed.0 + rest;
      var n := |FinalReturn(configs, i + 1, flushed.1, freshPool, inject).value|;
      assert pools[|pools| - n..] == rest[|rest| - n..];
    }
  }
}
