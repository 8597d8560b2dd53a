/**
 * `internNativeUtilClassDef` and `run()`: the bridge class added to the main dex,
 * and the order in which the protected APK's entries are written.
 */
module ApkProtect {
  import opened Wrappers
  import opened Failures
  import opened Paths
  import opened Strings
  import opened DexNaming
  import opened AbiSelection
  import opened DexInjection

  const AndroidManifestXml := "AndroidManifest.xml"

  /** The synthesized `RegisterNativesUtilClassDef`: its type, one native method per dex config, the library. */
  datatype RegisterNativesUtil = RegisterNativesUtil(classType: string, nativeMethodNames: seq<string>, libName: string)

  /** The rewritten main dex: every class of `copiedFrom` plus the bridge class, written to `file`. */
  datatype BridgeDex = BridgeDex(file: Path, copiedFrom: Path, bridge: RegisterNativesUtil)

  /**
   * `internNativeUtilClassDef`: collects one native-method name per config, in
   * config order, names the bridge class after the first config's holder class,
   * and writes the result to injectLoadLib/ beside the main dex, under the main
   * dex's own name. `configs.get(0)` fails on an empty config list.
   */
  method InternNativeUtilClassDef(mainDex: Path, configs: seq<DexConfig>, libName: string)
    returns (r: Result<BridgeDex, Failure>)
    ensures r.Err? <==> configs == []
    ensures r.Err? ==> r.error == IndexOutOfBounds(0, 0)
    ensures r.Ok? ==>
      && |r.value.bridge.nativeMethodNames| == |configs|
      && (forall i :: 0 <= i < |configs| ==> r.value.bridge.nativeMethodNames[i] == configs[i].registerNativesMethodName)
      && r.value.bridge.classType == "L" + configs[0].registerNativesClassName + ";"
      && r.value.bridge.libName == libName
      && r.value.copiedFrom == mainDex
      && Name(r.value.file) == Name(mainDex)
      && Parent(r.value.file) == Child(Parent(mainDex), "injectLoadLib")
  {
    var nativeMethodNames: seq<string> := [];
    for i := 0 to |configs|
      invariant |nativeMethodNames| == i
      invariant forall k :: 0 <= k < i ==> nativeMethodNames[k] == configs[k].registerNativesMethodName
    {
      nativeMethodNames := nativeMethodNames + [configs[i].registerNativesMethodName];
    }
    if |configs| == 0 {
      return Err(IndexOutOfBounds(0, 0));
    }
    var bridge := RegisterNativesUtil("L" + configs[0].registerNativesClassName + ";", nativeMethodNames, libName);
    var injectLoadLib := Child(Parent(mainDex), "injectLoadLib");
    var newFile := Child(injectLoadLib, Name(mainDex));
    return Ok(BridgeDex(newFile, mainDex, bridge));
  }

  /**
   * The minimum SDK handed to the class analyzer: 21 unless the manifest gives a
   * non-empty value, which `Integer.parseInt` then reads.
   */
  function MinSdk(minSdkVersion: Option<string>): (r: Result<int, Failure>)
    ensures minSdkVersion == None || minSdkVersion == Some("") ==> r == Ok(21)
    ensures minSdkVersion.Some? && minSdkVersion.value != "" ==>
      r == match ParseInt(minSdkVersion.value) case Some(v) => Ok(v) case None => Err(NumberFormat(minSdkVersion.value))
  {
    if minSdkVersion.Some? && minSdkVersion.value != "" then
      match ParseInt(minSdkVersion.value)
      case Some(v) => Ok(v)
      case None => Err(NumberFormat(minSdkVersion.value))
    else Ok(21)
  }

  /** Where an output entry's bytes come from. */
  datatype EntryData =
    | ManifestBytes          // the input's AndroidManifest.xml, unmodified
    | DexFile(file: Path)    // a written dex file
    | NativeLib(file: Path)  // a built native library
    | Copied(name: string)   // the input entry of that name, copied as it is

  datatype ArchiveEntry = ArchiveEntry(name: string, data: EntryData)

  /** The output stream: the entries written so far, in order. */
  class ZipOutputStream {
    var entries: seq<ArchiveEntry>

    constructor ()
      ensures entries == []
    {
      entries := [];
    }

    /** `putNextEntry`, `write`, `closeEntry` (and `copyZipEntry`): one more entry. */
    method PutEntry(name: string, data: EntryData)
      modifies this
      ensures entries == old(entries) + [ArchiveEntry(name, data)]
    {
      entries := entries + [ArchiveEntry(name, data)];
    }
  }

  /**
   * What the exclusion pattern `classes(\d)*\.dex|AndroidManifest\.xml` matches in
   * full: the manifest, or "classes", any run of ASCII digits, and ".dex".
   */
  ghost predicate MatchesExclusionPattern(name: string) {
    name == AndroidManifestXml || exists d :: AllDigits(d) && name == "classes" + d + ".dex"
  }

  /** The exclusion test `regex.matcher(entryName).matches()`. */
  predicate IsReplaced(name: string) {
    IsDexEntryName(name) || name == AndroidManifestXml
  }

  /** The exclusion test accepts exactly the names the pattern matches in full. */
  lemma ExclusionPatternExactly(name: string)
    ensures IsReplaced(name) <==> MatchesExclusionPattern(name)
  {
    DexEntryNameShape(name);
  }

  function DexEntries(dexFiles: seq<Path>): (r: seq<ArchiveEntry>)
    ensures |r| == |dexFiles|
    ensures forall j :: 0 <= j < |dexFiles| ==> r[j] == ArchiveEntry(Name(dexFiles[j]), DexFile(dexFiles[j]))
  {
    seq(|dexFiles|, j requires 0 <= j < |dexFiles| => ArchiveEntry(Name(dexFiles[j]), DexFile(dexFiles[j])))
  }

  function AbiEntries(abi: string, files: seq<Path>): (r: seq<ArchiveEntry>)
    ensures |r| == |files|
    ensures forall k :: 0 <= k < |files| ==> r[k] == ArchiveEntry("lib/" + abi + "/" + Name(files[k]), NativeLib(files[k]))
  {
    seq(|files|, k requires 0 <= k < |files| => ArchiveEntry("lib/" + abi + "/" + Name(files[k]), NativeLib(files[k])))
  }

  lemma AbiEntriesUnderLib(abi: string, files: seq<Path>)
    ensures forall e :: e in AbiEntries(abi, files) ==> |e.name| >= 4 && e.name[..4] == "lib/" && e.data.NativeLib?
  {
    forall e | e in AbiEntries(abi, files)
      ensures |e.name| >= 4 && e.name[..4] == "lib/" && e.data.NativeLib?
    {
      var k :| 0 <= k < |files| && AbiEntries(abi, files)[k] == e;
      assert e.name == "lib/" + (abi + "/" + Name(files[k]));
    }
  }

  /**
   * `lib/<abi>/<file name>` for every built library, ABI by ABI in the map's order;
   * every such entry is named under "lib/" and holds a built library.
   */
  function LibEntries(nativeLibs: seq<(string, seq<Path>)>): (r: seq<ArchiveEntry>)
    ensures forall i :: 0 <= i < |r| ==> |r[i].name| >= 4 && r[i].name[..4] == "lib/" && r[i].data.NativeLib?
  {
    if nativeLibs == [] then []
    else
      var last := nativeLibs[|nativeLibs| - 1];
      AbiEntriesUnderLib(last.0, last.1);
      LibEntries(nativeLibs[..|nativeLibs| - 1]) + AbiEntries(last.0, last.1)
  }

  /**
   * The input entries the exclusion pattern lets through, in input order: each
   * is an input entry the pattern does not match, copied under its own name.
   */
  function KeptEntries(entryNames: seq<string>): (r: seq<ArchiveEntry>)
    ensures |r| <= |entryNames|
    ensures forall i :: 0 <= i < |r| ==> r[i].data == Copied(r[i].name) && !IsReplaced(r[i].name) && r[i].name in entryNames
  {
    if entryNames == [] then []
    else
      var init, last := entryNames[..|entryNames| - 1], entryNames[|entryNames| - 1];
      assert entryNames == init + [last];
      KeptEntries(init) + (if IsReplaced(last) then [] else [ArchiveEntry(last, Copied(last))])
  }

  /** Every input entry the exclusion pattern does not match is copied. */
  lemma {:induction false} KeptEntriesComplete(entryNames: seq<string>)
    ensures forall n :: n in entryNames && !IsReplaced(n) ==> ArchiveEntry(n, Copied(n)) in KeptEntries(entryNames)
  {
    if entryNames != [] {
      var init := entryNames[..|entryNames| - 1];
      KeptEntriesComplete(init);
      assert entryNames == init + [entryNames[|entryNames| - 1]];
    }
  }

  /** Copying keeps the input order: the entries of a longer archive follow those of its prefix. */
  lemma {:induction false} KeptEntriesAppend(a: seq<string>, b: seq<string>)
    ensures KeptEntries(a + b) == KeptEntries(a) + KeptEntries(b)
  {
    if b == [] {
      assert a + b == a;
    } else {
      var init := b[..|b| - 1];
      KeptEntriesAppend(a, init);
      assert (a + b)[..|a + b| - 1] == a + init;
    }
  }

  /** Libraries are written ABI by ABI in the map's order: a longer map's entries follow its prefix's. */
  lemma {:induction false} LibEntriesAppend(a: seq<(string, seq<Path>)>, b: seq<(string, seq<Path>)>)
    ensures LibEntries(a + b) == LibEntries(a) + LibEntries(b)
  {
    if b == [] {
      assert a + b == a;
    } else {
      var init, last := b[..|b| - 1], b[|b| - 1];
      LibEntriesAppend(a, init);
      var la, li, ab := LibEntries(a), LibEntries(init), AbiEntries(last.0, last.1);
      assert (a + b)[..|a + b| - 1] == a + init;
      assert (a + b)[|a + b| - 1] == last;
      assert LibEntries(a + b) == LibEntries(a + init) + ab;
      assert LibEntries(b) == li + ab;
      assert la + li + ab == la + (li + ab);
    }
  }

  /** Every library built for every ABI gets its `lib/<abi>/<name>` entry. */
  lemma {:induction false} LibEntriesComplete(nativeLibs: seq<(string, seq<Path>)>)
    ensures forall i, k :: 0 <= i < |nativeLibs| && 0 <= k < |nativeLibs[i].1| ==>
      ArchiveEntry("lib/" + nativeLibs[i].0 + "/" + Name(nativeLibs[i].1[k]), NativeLib(nativeLibs[i].1[k]))
        in LibEntries(nativeLibs)
  {
    if nativeLibs != [] {
      var init, last := nativeLibs[..|nativeLibs| - 1], nativeLibs[|nativeLibs| - 1];
      LibEntriesComplete(init);
      forall i, k | 0 <= i < |nativeLibs| && 0 <= k < |nativeLibs[i].1|
        ensures ArchiveEntry("lib/" + nativeLibs[i].0 + "/" + Name(nativeLibs[i].1[k]), NativeLib(nativeLibs[i].1[k]))
          in LibEntries(nativeLibs)
      {
        if i == |nativeLibs| - 1 {
          assert AbiEntries(last.0, last.1)[k] == ArchiveEntry("lib/" + last.0 + "/" + Name(last.1[k]), NativeLib(last.1[k]));
        } else {
          assert nativeLibs[i] == init[i];
        }
      }
    }
  }

  /**
   * The order `run()` writes the output APK in: the manifest first, then each dex
   * file, in output order, under its own name, then the native libraries and the
   * copied input entries, one archive entry for each.
   */
  function ArchivePlan(dexFiles: seq<Path>, nativeLibs: seq<(string, seq<Path>)>, entryNames: seq<string>): (r: seq<ArchiveEntry>)
    ensures |r| == 1 + |dexFiles| + |LibEntries(nativeLibs)| + |KeptEntries(entryNames)|
    ensures r[0] == ArchiveEntry(AndroidManifestXml, ManifestBytes)
  {
    [ArchiveEntry(AndroidManifestXml, ManifestBytes)] + DexEntries(dexFiles) + LibEntries(nativeLibs) + KeptEntries(entryNames)
  }

  /** Nothing written after the dex files matches the exclusion pattern. */
  lemma TailNotReplaced(nativeLibs: seq<(string, seq<Path>)>, entryNames: seq<string>)
    ensures forall i :: 0 <= i < |LibEntries(nativeLibs) + KeptEntries(entryNames)| ==>
      !IsReplaced((LibEntries(nativeLibs) + KeptEntries(entryNames))[i].name)
  {
    var libs := LibEntries(nativeLibs);
    var tail := libs + KeptEntries(entryNames);
    forall i | 0 <= i < |tail| ensures !IsReplaced(tail[i].name) {
      if i < |libs| {
        assert tail[i] == libs[i];
        assert libs[i].name[0] == 'l';
      } else {
        assert tail[i] == KeptEntries(entryNames)[i - |libs|];
      }
    }
  }

  /** The plan's segments in order: the dex files, then the libraries, then the kept entries. */
  lemma ArchivePlanLayout(dexFiles: seq<Path>, nativeLibs: seq<(string, seq<Path>)>, entryNames: seq<string>)
    ensures var plan := ArchivePlan(dexFiles, nativeLibs, entryNames);
      var libsEnd := 1 + |dexFiles| + |LibEntries(nativeLibs)|;
      plan[1..1 + |dexFiles|] == DexEntries(dexFiles) && plan[1 + |dexFiles|..libsEnd] == LibEntries(nativeLibs)
      && plan[libsEnd..] == KeptEntries(entryNames)
  {
    var dex, libs, kept := DexEntries(dexFiles), LibEntries(nativeLibs), KeptEntries(entryNames);
    var plan := [ArchiveEntry(AndroidManifestXml, ManifestBytes)] + dex + libs + kept;
    assert plan == [ArchiveEntry(AndroidManifestXml, ManifestBytes)] + (dex + (libs + kept));
  }

  /** Every built library reaches the output, after the dex files and before the kept entries. */
  lemma LibEntryInPlan(dexFiles: seq<Path>, nativeLibs: seq<(string, seq<Path>)>, entryNames: seq<string>, i: nat, k: nat)
    requires i < |nativeLibs| && k < |nativeLibs[i].1|
    ensures exists m :: (1 + |dexFiles| <= m < 1 + |dexFiles| + |LibEntries(nativeLibs)|
      && ArchivePlan(dexFiles, nativeLibs, entryNames)[m]
         == ArchiveEntry("lib/" + nativeLibs[i].0 + "/" + Name(nativeLibs[i].1[k]), NativeLib(nativeLibs[i].1[k])))
  {
    var libs := LibEntries(nativeLibs);
    var e := ArchiveEntry("lib/" + nativeLibs[i].0 + "/" + Name(nativeLibs[i].1[k]), NativeLib(nativeLibs[i].1[k]));
    LibEntriesComplete(nativeLibs);
    ArchivePlanLayout(dexFiles, nativeLibs, entryNames);
    var j :| 0 <= j < |libs| && libs[j] == e;
    var plan := ArchivePlan(dexFiles, nativeLibs, entryNames);
    assert plan[1 + |dexFiles| + j] == plan[1 + |dexFiles|..1 + |dexFiles| + |libs|][j];
  }

  /** Every input entry the pattern does not match reaches the output, after every library entry. */
  lemma KeptEntryInPlan(dexFiles: seq<Path>, nativeLibs: seq<(string, seq<Path>)>, entryNames: seq<string>, x: string)
    requires x in entryNames && !IsReplaced(x)
    ensures exists m :: (1 + |dexFiles| + |LibEntries(nativeLibs)| <= m < |ArchivePlan(dexFiles, nativeLibs, entryNames)|
      && ArchivePlan(dexFiles, nativeLibs, entryNames)[m] == ArchiveEntry(x, Copied(x)))
  {
    var kept := KeptEntries(entryNames);
    KeptEntriesComplete(entryNames);
    ArchivePlanLayout(dexFiles, nativeLibs, entryNames);
    var j :| 0 <= j < |kept| && kept[j] == ArchiveEntry(x, Copied(x));
    var plan := ArchivePlan(dexFiles, nativeLibs, entryNames);
    var libsEnd := 1 + |dexFiles| + |LibEntries(nativeLibs)|;
    assert plan[libsEnd + j] == plan[libsEnd..][j];
  }

  /**
   * The exclusion pattern keeps the output free of duplicates of what `run()`
   * writes itself: the manifest is entry 0 and nowhere else, and each dex file
   * (named `classesN.dex`, all names distinct) appears once, at 1 + its index.
   */
  lemma ReplacedNamesWrittenOnce(dexFiles: seq<Path>, nativeLibs: seq<(string, seq<Path>)>, entryNames: seq<string>)
    requires forall j :: 0 <= j < |dexFiles| ==> IsDexEntryName(Name(dexFiles[j]))
    requires forall j, k :: 0 <= j < k < |dexFiles| ==> Name(dexFiles[j]) != Name(dexFiles[k])
    ensures forall k :: 0 <= k < |ArchivePlan(dexFiles, nativeLibs, entryNames)| ==>
      (ArchivePlan(dexFiles, nativeLibs, entryNames)[k].name == AndroidManifestXml <==> k == 0)
    ensures forall j, k :: 0 <= j < |dexFiles| && 0 <= k < |ArchivePlan(dexFiles, nativeLibs, entryNames)| ==>
      (ArchivePlan(dexFiles, nativeLibs, entryNames)[k].name == Name(dexFiles[j]) <==> k == 1 + j)
  {
    var tail := LibEntries(nativeLibs) + KeptEntries(entryNames);
    assert ArchivePlan(dexFiles, nativeLibs, entryNames)
        == [ArchiveEntry(AndroidManifestXml, ManifestBytes)] + DexEntries(dexFiles) + tail;
    TailNotReplaced(nativeLibs, entryNames);
    PlanNamesOnce(dexFiles, tail);
  }

  /**
   * The manifest, then the dex files under distinct dex entry names, then entries
   * the exclusion pattern does not match: the manifest's name and each dex file's
   * name occur exactly once.
   */
  lemma PlanNamesOnce(dexFiles: seq<Path>, tail: seq<ArchiveEntry>)
    requires forall j :: 0 <= j < |dexFiles| ==> IsDexEntryName(Name(dexFiles[j]))
    requires forall j, k :: 0 <= j < k < |dexFiles| ==> Name(dexFiles[j]) != Name(dexFiles[k])
    requires forall i :: 0 <= i < |tail| ==> !IsReplaced(tail[i].name)
    ensures var plan := [ArchiveEntry(AndroidManifestXml, ManifestBytes)] + DexEntries(dexFiles) + tail;
      forall k :: 0 <= k < |plan| ==> (plan[k].name == AndroidManifestXml <==> k == 0)
    ensures var plan := [ArchiveEntry(AndroidManifestXml, ManifestBytes)] + DexEntries(dexFiles) + tail;
      forall j, k :: 0 <= j < |dexFiles| && 0 <= k < |plan| ==> (plan[k].name == Name(dexFiles[j]) <==> k == 1 + j)
  {
    forall k | 0 <= k < 1 + |dexFiles| + |tail|
      ensures ([ArchiveEntry(AndroidManifestXml, ManifestBytes)] + DexEntries(dexFiles) + tail)[k].name == AndroidManifestXml <==> k == 0
    {
      ManifestAtZeroOnly(dexFiles, tail, k);
    }
    forall j, k | 0 <= j < |dexFiles| && 0 <= k < 1 + |dexFiles| + |tail|
      ensures ([ArchiveEntry(AndroidManifestXml, ManifestBytes)] + DexEntries(dexFiles) + tail)[k].name == Name(dexFiles[j]) <==> k == 1 + j
    {
      DexNameAtItsSlotOnly(dexFiles, tail, j, k);
    }
  }

  /** Entry `k` of the manifest, the dex entries and then `tail`. */
  lemma LayoutNameAt(dexFiles: seq<Path>, tail: seq<ArchiveEntry>, k: nat)
    requires k < 1 + |dexFiles| + |tail|
    ensures ([ArchiveEntry(AndroidManifestXml, ManifestBytes)] + DexEntries(dexFiles) + tail)[k].name
      == if k == 0 then AndroidManifestXml else if k <= |dexFiles| then Name(dexFiles[k - 1]) else tail[k - 1 - |dexFiles|].name
  {
    var head := [ArchiveEntry(AndroidManifestXml, ManifestBytes)] + DexEntries(dexFiles);
    if k < |head| {
      assert (head + tail)[k] == head[k];
    } else {
      assert (head + tail)[k] == tail[k - |head|];
    }
  }

  lemma ManifestAtZeroOnly(dexFiles: seq<Path>, tail: seq<ArchiveEntry>, k: nat)
    requires forall j :: 0 <= j < |dexFiles| ==> IsDexEntryName(Name(dexFiles[j]))
    requires forall i :: 0 <= i < |tail| ==> !IsReplaced(tail[i].name)
    requires k < 1 + |dexFiles| + |tail|
    ensures ([ArchiveEntry(AndroidManifestXml, ManifestBytes)] + DexEntries(dexFiles) + tail)[k].name == AndroidManifestXml <==> k == 0
  {
    LayoutNameAt(dexFiles, tail, k);
    if 1 <= k <= |dexFiles| {
      assert Name(dexFiles[k - 1])[0] == 'c';
    } else if k > |dexFiles| {
      assert !IsReplaced(tail[k - 1 - |dexFiles|].name);
    }
  }

  lemma DexNameAtItsSlotOnly(dexFiles: seq<Path>, tail: seq<ArchiveEntry>, j: nat, k: nat)
    requires forall j :: 0 <= j < |dexFiles| ==> IsDexEntryName(Name(dexFiles[j]))
    requires forall j, k :: 0 <= j < k < |dexFiles| ==> Name(dexFiles[j]) != Name(dexFiles[k])
    requires forall i :: 0 <= i < |tail| ==> !IsReplaced(tail[i].name)
    requires j < |dexFiles| && k < 1 + |dexFiles| + |tail|
    ensures ([ArchiveEntry(AndroidManifestXml, ManifestBytes)] + DexEntries(dexFiles) + tail)[k].name == Name(dexFiles[j]) <==> k == 1 + j
  {
    LayoutNameAt(dexFiles, tail, k);
    var n := Name(dexFiles[j]);
    assert IsDexEntryName(n);
    if k == 0 {
      assert n[0] == 'c';
    } else if k > |dexFiles| {
      assert !IsReplaced(tail[k - 1 - |dexFiles|].name);
    }
  }

  /** The body of the `try (ZipOutputStream zos ...)` block in `run()`. */
  method WriteOutputApk(zos: ZipOutputStream, dexFiles: seq<Path>, nativeLibs: seq<(string, seq<Path>)>,
                        entryNames: seq<string>)
    modifies zos
    ensures zos.entries == old(zos.entries) + ArchivePlan(dexFiles, nativeLibs, entryNames)
  {
    zos.PutEntry(AndroidManifestXml, ManifestBytes);
    WriteDexFiles(zos, dexFiles);
    WriteNativeLibs(zos, nativeLibs);
    CopyKeptEntries(zos, entryNames);
  }

  /** "add classesX.dex": each output dex under its own file name. */
  method WriteDexFiles(zos: ZipOutputStream, dexFiles: seq<Path>)
    modifies zos
    ensures zos.entries == old(zos.entries) + DexEntries(dexFiles)
  {
    for j := 0 to |dexFiles|
      invariant zos.entries == old(zos.entries) + DexEntries(dexFiles[..j])
    {
      assert DexEntries(dexFiles[..j + 1]) == DexEntries(dexFiles[..j]) + [ArchiveEntry(Name(dexFiles[j]), DexFile(dexFiles[j]))];
      zos.PutEntry(Name(dexFiles[j]), DexFile(dexFiles[j]));
    }
    assert dexFiles[..|dexFiles|] == dexFiles;
  }

  /** "add native libs": `lib/<abi>/<name>` for each built library. */
  method WriteNativeLibs(zos: ZipOutputStream, nativeLibs: seq<(string, seq<Path>)>)
    modifies zos
    ensures zos.entries == old(zos.entries) + LibEntries(nativeLibs)
  {
    for a := 0 to |nativeLibs|
      invariant zos.entries == old(zos.entries) + LibEntries(nativeLibs[..a])
    {
      var (abi, files) := nativeLibs[a];
      WriteAbiLibs(zos, abi, files);
      assert nativeLibs[..a + 1][..a] == nativeLibs[..a];
    }
    assert nativeLibs[..|nativeLibs|] == nativeLibs;
  }

  /** The inner loop: the libraries built for one ABI. */
  method WriteAbiLibs(zos: ZipOutputStream, abi: string, files: seq<Path>)
    modifies zos
    ensures zos.entries == old(zos.entries) + AbiEntries(abi, files)
  {
    for k := 0 to |files|
      invariant zos.entries == old(zos.entries) + AbiEntries(abi, files[..k])
    {
      assert AbiEntries(abi, files[..k + 1]) == AbiEntries(abi, files[..k]) + [ArchiveEntry("lib/" + abi + "/" + Name(files[k]), NativeLib(files[k]))];
      zos.PutEntry("lib/" + abi + "/" + Name(files[k]), NativeLib(files[k]));
    }
    assert files[..|files|] == files;
  }

  /** The copy loop: every input entry the exclusion pattern does not match, in input order. */
  method CopyKeptEntries(zos: ZipOutputStream, entryNames: seq<string>)
    modifies zos
    ensures zos.entries == old(zos.entries) + KeptEntries(entryNames)
  {
    for e := 0 to |entryNames|
      invariant zos.entries == old(zos.entries) + KeptEntries(entryNames[..e])
    {
      var entryName := entryNames[e];
      assert entryNames[..e + 1][..e] == entryNames[..e];
      if IsReplaced(entryName) {
        continue;
      }
      zos.PutEntry(entryName, Copied(entryName));
    }
    assert entryNames[..|entryNames|] == entryNames;
  }

  /** What a completed `run()` produced. */
  datatype RunOutput = RunOutput(minSdk: int, configs: seq<DexConfig>, abis: seq<string>,
                                 dexFiles: seq<Path>, bridge: BridgeDex, entries: seq<ArchiveEntry>)

  /**
   * The output dex files after the bridge replaced the main dex: the main dex's
   * copy under "injectLoadLib" first, then the written `classesN.dex` files.
   */
  ghost predicate BridgedDexFiles(dexFiles: seq<Path>, bridge: BridgeDex, configs: seq<DexConfig>, libName: string,
                                  tempDexDir: Path)
  {
    && |dexFiles| >= 1 && |configs| >= 1
    && (forall j :: 1 <= j < |dexFiles| ==> dexFiles[j] == Child(tempDexDir, DexFileName(j)))
    && dexFiles[0] == bridge.file
    && bridge.copiedFrom == Child(tempDexDir, DexFileName(0))
    && Name(bridge.file) == DexFileName(0)
    && Parent(bridge.file) == Child(tempDexDir, "injectLoadLib")
    && |bridge.bridge.nativeMethodNames| == |configs|
    && (forall i :: 0 <= i < |configs| ==> bridge.bridge.nativeMethodNames[i] == configs[i].registerNativesMethodName)
    && bridge.bridge.classType == "L" + configs[0].registerNativesClassName + ";"
    && bridge.bridge.libName == libName
  }

  /**
   * The main dex (`outDexFiles.get(0)`) replaced by its bridged copy; fails like
   * `get(0)` when no dex file was written or no config exists.
   */
  method BridgeMainDex<P>(outDexFiles: seq<WrittenDex<P>>, ghost pools: seq<P>, configs: seq<DexConfig>,
                          libName: string, tempDexDir: Path)
    returns (r: Result<(seq<Path>, BridgeDex), Failure>)
    requires NumberedFiles(outDexFiles, pools, tempDexDir)
    ensures r.Err? <==> |outDexFiles| == 0 || configs == []
    ensures r.Err? ==> r.error == IndexOutOfBounds(0, 0)
    ensures r.Ok? ==> |r.value.0| == |outDexFiles| && BridgedDexFiles(r.value.0, r.value.1, configs, libName, tempDexDir)
  {
    if |outDexFiles| == 0 {
      return Err(IndexOutOfBounds(0, 0));
    }
    NumberedFilesPaths(outDexFiles, pools, tempDexDir);
    var files := Files(outDexFiles);
    var bridged := InternNativeUtilClassDef(files[0], configs, libName);
    if bridged.Err? {
      return Err(bridged.error);
    }
    var newMainDex := bridged.value;
    var dexFiles := files[0 := newMainDex.file];
    return Ok((dexFiles, newMainDex));
  }

  /** After the bridge, dex file j is still named for index j. */
  lemma BridgedNames(dexFiles: seq<Path>, bridge: BridgeDex, configs: seq<DexConfig>, libName: string, tempDexDir: Path)
    requires BridgedDexFiles(dexFiles, bridge, configs, libName, tempDexDir)
    ensures forall j :: 0 <= j < |dexFiles| ==> Name(dexFiles[j]) == DexFileName(j) && IsDexEntryName(Name(dexFiles[j]))
  {
    forall j | 0 <= j < |dexFiles|
      ensures Name(dexFiles[j]) == DexFileName(j) && IsDexEntryName(Name(dexFiles[j]))
    {
      if j > 0 {
        assert dexFiles[j] == Child(tempDexDir, DexFileName(j));
      }
    }
  }

  /** The facts a completed `run()` guarantees about what it wrote. */
  ghost predicate RunResult<P>(o: RunOutput, entryNames: seq<string>, minSdkVersion: Option<string>, prefs: Prefs,
                               libName: string, tempDexDir: Path, freshPool: P,
                               handleAllDex: (seq<string>, int) -> seq<DexConfig>,
                               inject: (DexConfig, P) -> seq<P>,
                               generateNativeLibs: seq<string> -> seq<(string, seq<Path>)>, hasLogger: bool)
  {
    var injected := InjectFrom(o.configs, 0, freshPool, freshPool, inject, hasLogger);
    && MinSdk(minSdkVersion) == Ok(o.minSdk)
    && o.configs == handleAllDex(GetClassesFiles(entryNames), o.minSdk)
    && injected.Ok? && |injected.value| == |o.dexFiles|
    && BridgedDexFiles(o.dexFiles, o.bridge, o.configs, libName, tempDexDir)
    && NoDuplicates(o.abis) && (forall a :: a in o.abis ==> a !in Unsupported)
    && (SupportedFound(entryNames) != {} ==> forall a :: a in o.abis <==> a in SupportedFound(entryNames))
    && (SupportedFound(entryNames) == {} ==> o.abis == DefaultAbis(prefs))
    && o.entries == ArchivePlan(o.dexFiles, generateNativeLibs(o.abis), entryNames)
  }

  /** The dex files `run()` has written before assembling: the configs and the injected pools' files. */
  datatype DexStage<P> = DexStage(minSdk: int, configs: seq<DexConfig>, outDexFiles: seq<WrittenDex<P>>)

  /**
   * What the first half of `run()` comes to: the error of the first step that fails
   * (the manifest check, the classes.dex check, the minimum SDK, the injection), or
   * the minimum SDK and the configs the conversion made. The manifest's bytes are
   * null exactly when the archive has no `AndroidManifest.xml` entry.
   */
  function DexStageOutcome<P>(entryNames: seq<string>, minSdkVersion: Option<string>, hasLogger: bool,
                              freshPool: P, handleAllDex: (seq<string>, int) -> seq<DexConfig>,
                              inject: (DexConfig, P) -> seq<P>): Result<(int, seq<DexConfig>), Failure>
  {
    if AndroidManifestXml !in entryNames && !hasLogger then Err(NotAnApk)
    else if GetClassesFiles(entryNames) == [] && !hasLogger then Err(NoClassesDex)
    else
      match MinSdk(minSdkVersion)
      case Err(e) => Err(e)
      case Ok(minSdk) =>
        var configs := handleAllDex(GetClassesFiles(entryNames), minSdk);
        match InjectFrom(configs, 0, freshPool, freshPool, inject, hasLogger)
        case Err(e) => Err(e)
        case Ok(_) => Ok((minSdk, configs))
  }

  /**
   * The steps in order: no manifest and no logger is NotAnApk; then no classes.dex
   * and no logger is NoClassesDex; then an unparsable minSdkVersion is its
   * NumberFormatException; then an empty pool list fails as the injection does.
   * With a logger, the two checks only log and the run goes on.
   */
  lemma DexStageSteps<P>(entryNames: seq<string>, minSdkVersion: Option<string>, hasLogger: bool,
                         freshPool: P, handleAllDex: (seq<string>, int) -> seq<DexConfig>,
                         inject: (DexConfig, P) -> seq<P>)
    ensures var outcome := DexStageOutcome(entryNames, minSdkVersion, hasLogger, freshPool, handleAllDex, inject);
      var files := GetClassesFiles(entryNames);
      var hasManifest := AndroidManifestXml in entryNames;
      var checked := (hasManifest || hasLogger) && (files != [] || hasLogger);
      && (!hasManifest && !hasLogger ==> outcome == Err(NotAnApk))
      && (hasManifest && files == [] && !hasLogger ==> outcome == Err(NoClassesDex))
      && (checked && MinSdk(minSdkVersion).Err? ==> outcome == Err(MinSdk(minSdkVersion).error))
      && (checked && MinSdk(minSdkVersion).Ok?
          && InjectFrom(handleAllDex(files, MinSdk(minSdkVersion).value), 0, freshPool, freshPool, inject, hasLogger).Err?
          ==> outcome == Err(if hasLogger then IndexOutOfBounds(0, 0) else DexInjectError))
      && (outcome.Ok? <==>
            (checked && MinSdk(minSdkVersion).Ok?
             && InjectFrom(handleAllDex(files, MinSdk(minSdkVersion).value), 0, freshPool, freshPool, inject, hasLogger).Ok?))
  {
  }

  /**
   * The first half of `run()`: the manifest and classes.dex checks, the minimum SDK,
   * the conversion, and the injection into written dex files.
   */
  method PrepareDexFiles<P>(entryNames: seq<string>, minSdkVersion: Option<string>, hasLogger: bool,
                            tempDexDir: Path, freshPool: P,
                            handleAllDex: (seq<string>, int) -> seq<DexConfig>,
                            inject: (DexConfig, P) -> seq<P>)
    returns (r: Result<DexStage<P>, Failure>)
    ensures var outcome := DexStageOutcome(entryNames, minSdkVersion, hasLogger, freshPool, handleAllDex, inject);
      && (r.Ok? <==> outcome.Ok?)
      && (r.Err? ==> r.error == outcome.error)
      && (r.Ok? ==> outcome.value == (r.value.minSdk, r.value.configs))
    ensures r.Ok? ==>
      && MinSdk(minSdkVersion) == Ok(r.value.minSdk)
      && r.value.configs == handleAllDex(GetClassesFiles(entryNames), r.value.minSdk)
      && InjectFrom(r.value.configs, 0, freshPool, freshPool, inject, hasLogger).Ok?
      && NumberedFiles(r.value.outDexFiles, InjectFrom(r.value.configs, 0, freshPool, freshPool, inject, hasLogger).value, tempDexDir)
  {
    if AndroidManifestXml !in entryNames {
      if !hasLogger {
        return Err(NotAnApk);
      }
      // logged as "Not is apk"
    }
    var files := GetClassesFiles(entryNames);
    if files == [] {
      if !hasLogger {
        return Err(NoClassesDex);
      }
      // logged as "No classes.dex"
    }
    var minSdk :- MinSdk(minSdkVersion);
    var globalConfig := handleAllDex(files, minSdk);
    var outDexFiles :- InjectInstructionAndWriteToFile(globalConfig, tempDexDir, freshPool, inject, hasLogger);
    return Ok(DexStage(minSdk, globalConfig, outDexFiles));
  }

  /**
   * `run()`, with its collaborators as parameters: `handleAllDex` (the conversion,
   * given the sorted dex files and the minimum SDK), `inject` (the instruction
   * injector), `generateNativeLibs` (the native build, per ABI its library files in
   * the map's order) and `hasLogger` (whether `apkLogger` is set). It succeeds
   * exactly when the first half does and made at least one config; otherwise it
   * fails with the first half's error, or as `get(0)` on the empty config list.
   */
  method Run<P>(entryNames: seq<string>, minSdkVersion: Option<string>, hasLogger: bool,
                prefs: Prefs, libName: string, tempDexDir: Path, freshPool: P,
                handleAllDex: (seq<string>, int) -> seq<DexConfig>,
                inject: (DexConfig, P) -> seq<P>,
                generateNativeLibs: seq<string> -> seq<(string, seq<Path>)>)
    returns (r: Result<RunOutput, Failure>)
    ensures var outcome := DexStageOutcome(entryNames, minSdkVersion, hasLogger, freshPool, handleAllDex, inject);
      && (r.Ok? <==> outcome.Ok? && outcome.value.1 != [])
      && (r.Err? ==> r.error == if outcome.Err? then outcome.error else IndexOutOfBounds(0, 0))
    ensures r.Ok? ==> RunResult(r.value, entryNames, minSdkVersion, prefs, libName, tempDexDir, freshPool,
                                handleAllDex, inject, generateNativeLibs, hasLogger)
  {
    var stage :- PrepareDexFiles(entryNames, minSdkVersion, hasLogger, tempDexDir, freshPool, handleAllDex, inject);
    var abis := GetAbis(entryNames, prefs);
    var nativeLibs := generateNativeLibs(abis);
    var bridged :- BridgeMainDex(stage.outDexFiles, InjectFrom(stage.configs, 0, freshPool, freshPool, inject, hasLogger).value,
                                 stage.configs, libName, tempDexDir);
    var (dexFiles, newMainDex) := bridged;
    var zos := new ZipOutputStream();
    WriteOutputApk(zos, dexFiles, nativeLibs, entryNames);
    r := Ok(RunOutput(stage.minSdk, stage.configs, abis, dexFiles, newMainDex, zos.entries));
  }

  /**
   * A completed run writes its dex files as classes.dex, classes2.dex, ... in order,
   * and the output archive holds the manifest and each of them exactly once.
   */
  lemma RunWritesDexNamesOnce<P>(o: RunOutput, entryNames: seq<string>, minSdkVersion: Option<string>, prefs: Prefs,
                                 libName: string, tempDexDir: Path, freshPool: P,
                                 handleAllDex: (seq<string>, int) -> seq<DexConfig>,
                                 inject: (DexConfig, P) -> seq<P>,
                                 generateNativeLibs: seq<string> -> seq<(string, seq<Path>)>, hasLogger: bool)
    requires RunResult(o, entryNames, minSdkVersion, prefs, libName, tempDexDir, freshPool,
                       handleAllDex, inject, generateNativeLibs, hasLogger)
    ensures forall j :: 0 <= j < |o.dexFiles| ==> Name(o.dexFiles[j]) == DexFileName(j)
    ensures o.entries[0] == ArchiveEntry(AndroidManifestXml, ManifestBytes)
    ensures forall k :: 0 <= k < |o.entries| ==> (o.entries[k].name == AndroidManifestXml <==> k == 0)
    ensures forall j, k :: 0 <= j < |o.dexFiles| && 0 <= k < |o.entries| ==>
      (o.entries[k].name == DexFileName(j) <==> k == 1 + j)
  {
    BridgedNames(o.dexFiles, o.bridge, o.configs, libName, tempDexDir);
    forall j, k | 0 <= j < k < |o.dexFiles|
      ensures Name(o.dexFiles[j]) != Name(o.dexFiles[k])
    {
      DexFileNamesIncreasing(j, k);
    }
    ReplacedNamesWrittenOnce(o.dexFiles, generateNativeLibs(o.abis), entryNames);
  }
}
