# ApkProtect multi-dex pipeline and AabFolders, in Dafny

This project models the core of `ApkProtect`. That core reads an APK's `classesN.dex` files in index order. It runs them through the Dex2c converter. It injects the native-registration calls into dex pools and writes each pool as a numbered dex file. It adds the `RegisterNativesUtil` bridge class to a copy of the main dex. Finally it writes the output APK: the manifest, the dex files, the native libraries, then every other input entry unchanged. The project also models `AabFolders`, the value object that derives the output bundle's name and the working directories from the input bundle and the output root.

Modules, by source file:

- `ApkProtect.java`
  - `DexNaming`: the `classesN.dex` names `dexWriteToFile` uses, the comparator key of `getClassesFiles`, and the stable sort the comparator drives.
  - `AbiSelection`: `getAbis`, with the `lib/(.*)/.*\.so` capture, the removal of unsupported ABIs, and the preference-driven fallback.
  - `MainChain`: `classDotNameToType`, `getClassDefFromType` and the superclass walk of `getApplicationClassesFromMainDex`.
  - `DexInjection`: `injectInstructionAndWriteToFile`, meaning the pool bookkeeping, the flush rule, the file numbering and the error on an empty pool list.
  - `ApkProtect`: `internNativeUtilClassDef`, the minimum-SDK default, and `run()` as two stages (dex preparation, then bridging and archive writing) over a `ZipOutputStream` class whose entry list grows one entry per write.
- `AabFolders.java`
  - `Aab`: the constructor and getters (the datatype and its fields), the fixed working directories, and `getOutputAab`.
- Supporting modules:
  - `Wrappers` holds `Option` and `Result`.
  - `Failures` holds the exceptions the core raises, as values.
  - `Strings` holds the `String`/`Integer` operations the code calls: `replace`, `lastIndexOf`, `parseInt` and the `%d` formatting.
  - `Paths` models `java.io.File` as a list of name components.

Collaborators the model cannot see are parameters:

- the Dex2c injector `inject(config, pool)`, which returns the pools it filled;
- `handleAllDex`, which gives the configs for the sorted dex files;
- `generateNativeLibs`, which gives each ABI's built libraries in the map's order;
- the manifest's `minSdkVersion`;
- the presence of the static `apkLogger`, as `hasLogger`;
- the bridge library name.

Dex pools have an abstract type `P`. A written file is a `WrittenDex(file, pool)`.

## Model

| member | source | states |
|---|---|---|
| `Strings.NatToString` | library/src/main/java/com/nmmedit/apkprotect/ApkProtect.java:133 | `%d` of a non-negative int is a non-empty run of decimal digits. It starts with '0' iff the number is 0. |
| `Strings.ParseNatToString` | library/src/main/java/com/nmmedit/apkprotect/ApkProtect.java:133 | Reading back the decimal text of a number gives the number: the comparator recovers the index a name was written with. |
| `DexNaming.DexFileName` | library/src/main/java/com/nmmedit/apkprotect/ApkProtect.java:130-134 | Index 0 is named `classes.dex`, whose digit suffix is empty, and index i > 0 is named `classes<i+1>.dex`, whose suffix is non-empty and has no leading '0'. Every such name matches the `classes(\d)*\.dex` entry pattern, and its comparator key is 0 for index 0 and i + 1 otherwise. |
| `DexNaming.DexFileNamesIncreasing` | library/src/main/java/com/nmmedit/apkprotect/ApkProtect.java:130-134 | A larger index gives a strictly larger comparator key and a different name. No index is ever named `classes1.dex`. |
| `DexNaming.StrippedDexName` | library/src/main/java/com/nmmedit/apkprotect/ApkProtect.java:108-109 | For a `classesN.dex` name, removing "classes" and then ".dex" leaves exactly the digits between them. |
| `DexNaming.SortKey` | library/src/main/java/com/nmmedit/apkprotect/ApkProtect.java:108-120 | The comparator's number for a name is the decimal value of its digit suffix, and 0 when the suffix is empty. |
| `DexNaming.SortBy` | library/src/main/java/com/nmmedit/apkprotect/ApkProtect.java:107-122 | `List.sort` by a key: the result is ascending by key and is a permutation (same multiset) of the input. |
| `DexNaming.InsertBySorted` | library/src/main/java/com/nmmedit/apkprotect/ApkProtect.java:107-122 | One insertion step keeps a key-sorted list sorted. |
| `DexNaming.InsertKeyFilter` | library/src/main/java/com/nmmedit/apkprotect/ApkProtect.java:107-122 | An inserted element goes ahead of the elements that share its key and after all the others it passes. |
| `DexNaming.SortByStable` | library/src/main/java/com/nmmedit/apkprotect/ApkProtect.java:107-122 | The sort is stable: for every key, the elements with that key keep their input order. |
| `DexNaming.SortBySorted` | library/src/main/java/com/nmmedit/apkprotect/ApkProtect.java:107-122 | Sorting an already sorted list leaves it unchanged. |
| `DexNaming.ExtractedDexNames` | library/src/main/java/com/nmmedit/apkprotect/ApkProtect.java:105 | The extracted files are exactly the archive entries named `classesN.dex`. |
| `DexNaming.DexEntryNameShape` | library/src/main/java/com/nmmedit/apkprotect/ApkProtect.java:105 | A name passes the dex-name test iff it is `classes`, a run of ASCII digits, then `.dex`: what the extraction pattern matches in full. |
| `DexNaming.GetClassesFiles` | library/src/main/java/com/nmmedit/apkprotect/ApkProtect.java:104-124 | The result is sorted by the comparator key, is a permutation of the extracted dex names, and contains a name iff the archive has an entry of that name matching the pattern. |
| `DexNaming.WrittenNamesReadBackInOrder` | library/src/main/java/com/nmmedit/apkprotect/ApkProtect.java:104-134 | Dex files written as indices 0..n-1 are read back by `getClassesFiles` in the same order. The sort therefore restores the write order. |
| `DexNaming.ExtractedAllDex` | library/src/main/java/com/nmmedit/apkprotect/ApkProtect.java:105 | Extraction keeps a list made only of dex names unchanged. |
| `AbiSelection.LibCapture` | library/src/main/java/com/nmmedit/apkprotect/ApkProtect.java:66-74 | A captured group is the text between `lib/` and a '/' after which the name has no other '/', so the greedy group ends at the last '/'. |
| `AbiSelection.LibCaptureSound` | library/src/main/java/com/nmmedit/apkprotect/ApkProtect.java:66-74 | A captured ABI satisfies the pattern: the name is `lib/` + ABI + `/` + a file name ending in `.so`, with no line terminator. |
| `AbiSelection.LibCaptureComplete` | library/src/main/java/com/nmmedit/apkprotect/ApkProtect.java:66-74 | Every name the pattern matches is captured, and the capture is the longest possible group, as the greedy `(.*)` makes it. |
| `AbiSelection.MatchedAbisExactly` | library/src/main/java/com/nmmedit/apkprotect/ApkProtect.java:69-76 | An ABI is collected iff some entry's name captures it. |
| `AbiSelection.DefaultAbisEnabled` | library/src/main/java/com/nmmedit/apkprotect/ApkProtect.java:81-98 | The fallback list has no duplicates and no unsupported ABI. Each of armeabi-v7a, arm64-v8a, x86 and x86_64 is present iff its preference is on. |
| `AbiSelection.GetAbis` | library/src/main/java/com/nmmedit/apkprotect/ApkProtect.java:65-102 | The result has no duplicates and never contains armeabi, mips or mips64. If any supported ABI was found, the result holds exactly the found ABIs. Otherwise it is the preference-driven default list, in that order. |
| `AbiSelection.SetToSequence` | library/src/main/java/com/nmmedit/apkprotect/ApkProtect.java:101 | `new ArrayList<>(abis)`: a duplicate-free list of exactly the set's elements. |
| `AbiSelection.SelectedAbi` | library/src/main/java/com/nmmedit/apkprotect/ApkProtect.java:72-80 | A supported ABI captured from any entry is among the ABIs found. |
| `AbiSelection.NoLibsFallsBack` | library/src/main/java/com/nmmedit/apkprotect/ApkProtect.java:81-98 | An APK without native libraries finds no ABI and falls back to the default list. With only the arm preferences set, that list is `[armeabi-v7a, arm64-v8a]`. |
| `MainChain.ClassDotNameToType` | library/src/main/java/com/nmmedit/apkprotect/ApkProtect.java:297-300 | The descriptor is `L`, then the name with each '.' turned into '/', then `;`. It is two characters longer than the name and contains no '.'. |
| `MainChain.DottedName3` | library/src/main/java/com/nmmedit/apkprotect/ApkProtect.java:297-300 | A three-part dotted name `a.b.c` becomes `La/b/c;`. |
| `MainChain.ApplicationTypeDescriptor` | library/src/main/java/com/nmmedit/apkprotect/ApkProtect.java:42 | `classDotNameToType(ANDROID_APP_APPLICATION)` is `Landroid/app/Application;`. |
| `MainChain.GetClassDefFromType` | library/src/main/java/com/nmmedit/apkprotect/ApkProtect.java:165-172 | A class found belongs to the set and has the requested type. |
| `MainChain.NoDefinitionFound` | library/src/main/java/com/nmmedit/apkprotect/ApkProtect.java:165-172 | The search returns null iff no class in the set has the type. |
| `MainChain.FirstDefinitionFound` | library/src/main/java/com/nmmedit/apkprotect/ApkProtect.java:165-170 | The class returned is the first, in iteration order, that has the type. |
| `MainChain.Walk` | library/src/main/java/com/nmmedit/apkprotect/ApkProtect.java:144-162 | A completed walk appends at most the step bound's number of types, and never Application's descriptor. |
| `MainChain.WalkFound` | library/src/main/java/com/nmmedit/apkprotect/ApkProtect.java:150-160 | Once a class is found for the current type, a superclass equal to Application ends the walk with nothing more added. Any other superclass is appended, and the walk continues from it in the same dex. |
| `MainChain.ApplicationChain` | library/src/main/java/com/nmmedit/apkprotect/ApkProtect.java:140-163 | The chain fails only when the walk runs out of steps. Otherwise it starts with the application class's descriptor and holds at most the bound plus one types. No element after the first is Application's descriptor. |
| `MainChain.GetApplicationClassesFromMainDex` | library/src/main/java/com/nmmedit/apkprotect/ApkProtect.java:140-163 | The loop over the dex tables and the inner `while (true)` return exactly the chain the recursive definition gives. |
| `MainChain.ChainShape` | library/src/main/java/com/nmmedit/apkprotect/ApkProtect.java:140-163 | Each element after the first is the superclass of the class some dex defines for the element before it. |
| `MainChain.WalkLinked` | library/src/main/java/com/nmmedit/apkprotect/ApkProtect.java:148-160 | Consecutive types the walk lists are linked by a class some dex defines. |
| `MainChain.WalkStops` | library/src/main/java/com/nmmedit/apkprotect/ApkProtect.java:148-162 | The walk stops in one of two places: at a type whose class extends Application, or at a type the last dex does not define. |
| `MainChain.WalkNotFound` | library/src/main/java/com/nmmedit/apkprotect/ApkProtect.java:150-153 | A type no remaining dex defines adds nothing. |
| `MainChain.WalkMoreFuel` | library/src/main/java/com/nmmedit/apkprotect/ApkProtect.java:148-160 | Once the walk completes within a step bound, any larger bound gives the same result. |
| `MainChain.BaseAppChain` | library/src/main/java/com/nmmedit/apkprotect/ApkProtect.java:140-163 | Example: `com.app.App` extends `BaseApp`, which extends Application. The result is `[Lcom/app/App;, Lcom/app/BaseApp;]`. |
| `DexInjection.Flush` | library/src/main/java/com/nmmedit/apkprotect/ApkProtect.java:223-243 | For the final config every returned pool is written. For the others, all but the last are written and the last is carried on. A single returned pool is written, and a fresh pool is carried on. |
| `DexInjection.InjectFrom` | library/src/main/java/com/nmmedit/apkprotect/ApkProtect.java:212-244 | A successful pass writes at least one pool per config. A failure carries the injection error without a logger, and `retPools.get(0)`'s IndexOutOfBounds(0, 0) with one. |
| `DexInjection.EmptyCallFails` | library/src/main/java/com/nmmedit/apkprotect/ApkProtect.java:215-222 | An empty pool list is never a success: the pass fails at that config with the injection error, or with IndexOutOfBounds(0, 0) when a logger only logs it. |
| `DexInjection.InjectFailsIff` | library/src/main/java/com/nmmedit/apkprotect/ApkProtect.java:212-244 | The pass fails iff one of the calls it makes, with the pool carried into that config, returns an empty pool list. |
| `DexInjection.InjectStep` | library/src/main/java/com/nmmedit/apkprotect/ApkProtect.java:212-244 | The pools a config's call returns are written, all but the last, or all of them for the final config, before those of later configs. The carried pool is the last returned one, or a fresh pool when only one was returned. |
| `DexInjection.DexWriteToFile` | library/src/main/java/com/nmmedit/apkprotect/ApkProtect.java:126-138 | The pool is written to the file named for its index inside the output directory. |
| `DexInjection.NumberedFilesPaths` | library/src/main/java/com/nmmedit/apkprotect/ApkProtect.java:225-238 | File j of the result is `dexOutDir/<name for index j>`: the numbering follows the list size, with no gaps. |
| `DexInjection.AppendNumbered` | library/src/main/java/com/nmmedit/apkprotect/ApkProtect.java:225-227 | Writing the next pool under index `dexFiles.size()` keeps the files numbered 0, 1, 2, ... |
| `DexInjection.WriteEach` | library/src/main/java/com/nmmedit/apkprotect/ApkProtect.java:224-228 | Writing a batch of pools appends one numbered file per pool, in order. |
| `DexInjection.WriteReturnedPools` | library/src/main/java/com/nmmedit/apkprotect/ApkProtect.java:223-243 | The pools `Flush` selects are written, numbered after the files already written. The pool `Flush` names is carried on. |
| `DexInjection.WriteAllButLast` | library/src/main/java/com/nmmedit/apkprotect/ApkProtect.java:223-235 | With more than one pool returned, all but the last are written, and the last too for the final config. The last pool is carried on. |
| `DexInjection.InjectInstructionAndWriteToFile` | library/src/main/java/com/nmmedit/apkprotect/ApkProtect.java:185-247 | The method fails exactly when the pool definition fails, with the same error. On success, file j holds pool j of that definition and is named for index j. |
| `DexInjection.OnePoolPerConfig` | library/src/main/java/com/nmmedit/apkprotect/ApkProtect.java:236-243 | When every call returns a single pool, config k's pool is written as dex k. |
| `DexInjection.FinalPoolsWritten` | library/src/main/java/com/nmmedit/apkprotect/ApkProtect.java:223-243 | Nothing is left unwritten: the pools the final config's call returns are the last ones written, in order. |
| `ApkProtect.InternNativeUtilClassDef` | library/src/main/java/com/nmmedit/apkprotect/ApkProtect.java:264-295 | The method fails with IndexOutOfBounds(0, 0) iff there are no configs. On success: the native method names are the configs' registration method names, one per config and in order; the class type is `L<first config's class name>;`; the library name is kept; the new file has the main dex's name inside `<main dex's parent>/injectLoadLib`. |
| `Strings.ParseInt` | library/src/main/java/com/nmmedit/apkprotect/ApkProtect.java:333 | `Integer.parseInt`: the text parses iff, after one optional '+' or '-', it is a non-empty run of digits whose signed value lies in the 32-bit range; the result is that signed value. Anything else is a NumberFormatException. |
| `Strings.ParseUnsignedDigits` | library/src/main/java/com/nmmedit/apkprotect/ApkProtect.java:333 | Plain digits read as their value below 2^31, and at or past 2^31 they are a NumberFormatException. |
| `Strings.ParseIntRejects` | library/src/main/java/com/nmmedit/apkprotect/ApkProtect.java:333 | A lone sign, or any non-digit other than a leading sign, is a NumberFormatException. |
| `ApkProtect.MinSdk` | library/src/main/java/com/nmmedit/apkprotect/ApkProtect.java:329-335 | A missing or empty `minSdkVersion` gives 21. Otherwise the value is `Integer.parseInt`'s, and text that is not an int is a NumberFormatException. |
| `ApkProtect.DexEntries` | library/src/main/java/com/nmmedit/apkprotect/ApkProtect.java:400-405 | One entry per output dex file, in order, named by the file's name. |
| `ApkProtect.AbiEntries` | library/src/main/java/com/nmmedit/apkprotect/ApkProtect.java:409-414 | One entry `lib/<abi>/<file name>` per library built for the ABI. |
| `ApkProtect.AbiEntriesUnderLib` | library/src/main/java/com/nmmedit/apkprotect/ApkProtect.java:409-414 | Every entry written for an ABI is named under `lib/` and holds a built library. |
| `ApkProtect.LibEntries` | library/src/main/java/com/nmmedit/apkprotect/ApkProtect.java:407-415 | Every native-library entry is named under `lib/` and holds a built library. |
| `ApkProtect.WriteAbiLibs` | library/src/main/java/com/nmmedit/apkprotect/ApkProtect.java:410-414 | The inner loop appends one `lib/<abi>/<name>` entry per library of the ABI, in order. |
| `ApkProtect.ExclusionPatternExactly` | library/src/main/java/com/nmmedit/apkprotect/ApkProtect.java:417-425 | The exclusion test accepts a name iff `classes(\d)*\.dex|AndroidManifest\.xml` matches it in full: the manifest, or `classes`, ASCII digits and `.dex`. |
| `ApkProtect.KeptEntries` | library/src/main/java/com/nmmedit/apkprotect/ApkProtect.java:417-429 | Every copied entry is an input entry the pattern does not match, copied under its own name. There are no more copies than input entries. |
| `ApkProtect.KeptEntriesComplete` | library/src/main/java/com/nmmedit/apkprotect/ApkProtect.java:421-429 | Every input entry the pattern does not match is copied. |
| `ApkProtect.KeptEntriesAppend` | library/src/main/java/com/nmmedit/apkprotect/ApkProtect.java:421-428 | Copying preserves the input order: the copies of a concatenation are the copies of its parts, concatenated. |
| `ApkProtect.LibEntriesAppend` | library/src/main/java/com/nmmedit/apkprotect/ApkProtect.java:407-415 | Libraries are written ABI by ABI in the map's order: the entries of a longer map are those of its prefix followed by the rest. |
| `ApkProtect.LibEntriesComplete` | library/src/main/java/com/nmmedit/apkprotect/ApkProtect.java:407-415 | Every library built for every ABI gets its `lib/<abi>/<name>` entry. |
| `ApkProtect.ArchivePlan` | library/src/main/java/com/nmmedit/apkprotect/ApkProtect.java:394-429 | The archive holds one entry per manifest, dex file, library and kept input entry, with the manifest first. |
| `ApkProtect.ArchivePlanLayout` | library/src/main/java/com/nmmedit/apkprotect/ApkProtect.java:394-429 | After the manifest come the dex entries, then the library entries, then the kept entries, each as a contiguous segment. |
| `ApkProtect.LibEntryInPlan` | library/src/main/java/com/nmmedit/apkprotect/ApkProtect.java:407-415 | Every built library reaches the output, after the dex files and before any kept entry. |
| `ApkProtect.KeptEntryInPlan` | library/src/main/java/com/nmmedit/apkprotect/ApkProtect.java:417-429 | Every input entry the pattern does not match reaches the output, after every library entry. |
| `ApkProtect.TailNotReplaced` | library/src/main/java/com/nmmedit/apkprotect/ApkProtect.java:407-428 | No library entry and no copied entry has a name the exclusion pattern matches. |
| `ApkProtect.ReplacedNamesWrittenOnce` | library/src/main/java/com/nmmedit/apkprotect/ApkProtect.java:395-428 | The output has the manifest at entry 0 and nowhere else. Each output dex (distinct `classesN.dex` names) appears exactly once, at 1 + its index. |
| `ApkProtect.PlanNamesOnce` | library/src/main/java/com/nmmedit/apkprotect/ApkProtect.java:395-428 | After the manifest and the distinct dex names, entries the pattern does not match cannot repeat either: the manifest is entry 0 only, and dex file j is entry 1 + j only. |
| `ApkProtect.LayoutNameAt` | library/src/main/java/com/nmmedit/apkprotect/ApkProtect.java:395-405 | Entry 0 is the manifest, entry 1 + j is dex file j, and later entries follow in order. |
| `ApkProtect.ManifestAtZeroOnly` | library/src/main/java/com/nmmedit/apkprotect/ApkProtect.java:395-405 | The manifest's name is at entry 0 and at no other entry. |
| `ApkProtect.DexNameAtItsSlotOnly` | library/src/main/java/com/nmmedit/apkprotect/ApkProtect.java:400-405 | Dex file j's name is at entry 1 + j and at no other entry. |
| `ApkProtect.ZipOutputStream.PutEntry` | library/src/main/java/com/nmmedit/apkprotect/ApkProtect.java:396-398 | `putNextEntry`/`write`/`closeEntry` append one entry to the stream. |
| `ApkProtect.WriteOutputApk` | library/src/main/java/com/nmmedit/apkprotect/ApkProtect.java:394-429 | The stream receives the manifest, the dex files, the native libraries and the kept input entries, in that order. |
| `ApkProtect.WriteDexFiles` | library/src/main/java/com/nmmedit/apkprotect/ApkProtect.java:400-405 | The loop appends the dex entries in output order. |
| `ApkProtect.WriteNativeLibs` | library/src/main/java/com/nmmedit/apkprotect/ApkProtect.java:407-415 | The nested loops append the library entries, ABI by ABI. |
| `ApkProtect.CopyKeptEntries` | library/src/main/java/com/nmmedit/apkprotect/ApkProtect.java:417-428 | The enumeration loop appends every entry the exclusion pattern lets through, in input order. |
| `ApkProtect.BridgeMainDex` | library/src/main/java/com/nmmedit/apkprotect/ApkProtect.java:379-386 | The call fails like `outDexFiles.get(0)` (or `getConfigs().get(0)`) iff there is no dex file or no config. Otherwise dex 0 is replaced by its bridged copy under `injectLoadLib` and files 1.. stay `classesN.dex` in the temp dex directory. |
| `ApkProtect.DexStageSteps` | library/src/main/java/com/nmmedit/apkprotect/ApkProtect.java:307-372 | The dex stage's checks run in order. Without a logger, no manifest raises "Not is apk", then no dex raises "No classes.dex". Next a bad `minSdkVersion` raises its parse error, then an empty pool list fails as the injection does. The stage succeeds iff no step fails. |
| `ApkProtect.PrepareDexFiles` | library/src/main/java/com/nmmedit/apkprotect/ApkProtect.java:307-372 | The method succeeds iff the dex stage's steps all pass, and on failure it reports the first failing step's error. On success: minSdk is the parsed or default value; the configs come from the sorted dex files; the written files are numbered as the injection defines them. |
| `ApkProtect.Run` | library/src/main/java/com/nmmedit/apkprotect/ApkProtect.java:302-436 | The run succeeds iff the dex stage succeeds with at least one config. A failed dex stage is reported with its own error. With no config, `outDexFiles.get(0)` fails with IndexOutOfBounds(0, 0). On success, the run's output has five properties. (1) The configs, injection and minSdk are as defined. (2) There is one output dex per written pool, with the bridged main dex first. (3) The bridge names one native method per config. (4) The ABIs are those `getAbis` selects. (5) The archive entries are exactly the plan: manifest, dex files, libraries, kept entries. |
| `ApkProtect.BridgedNames` | library/src/main/java/com/nmmedit/apkprotect/ApkProtect.java:379-386 | After the bridge replaces dex 0, dex file j is still named for index j, a `classesN.dex` name. |
| `ApkProtect.RunWritesDexNamesOnce` | library/src/main/java/com/nmmedit/apkprotect/ApkProtect.java:379-428 | A completed run names its dex files `classes.dex`, `classes2.dex`, ... in order. The output archive holds the manifest and each of them exactly once. |
| `Aab.ZipExtractTempDir` | library/src/main/java/com/nmmedit/apkprotect/aab/AabFolders.java:30-32 | The result is the child `.apk_temp` of the output root. |
| `Aab.Dex2cSrcDir` | library/src/main/java/com/nmmedit/apkprotect/aab/AabFolders.java:36-38 | The result is the child `dex2c` of the output root. |
| `Aab.CodeGeneratedDir` | library/src/main/java/com/nmmedit/apkprotect/aab/AabFolders.java:42-44 | The result is `dex2c/generated`, which lies inside both the C source directory and the output root. |
| `Aab.TempDexDir` | library/src/main/java/com/nmmedit/apkprotect/aab/AabFolders.java:49-51 | The result is the child `dex_output` of the output root. |
| `Aab.WorkingDirsDistinct` | library/src/main/java/com/nmmedit/apkprotect/aab/AabFolders.java:30-62 | The three working directories are pairwise distinct, and none of them is the output bundle. |
| `Aab.Stem` | library/src/main/java/com/nmmedit/apkprotect/aab/AabFolders.java:56-60 | A name without '.' is kept whole. Otherwise the result is the prefix before a '.' that has no '.' after it, which is the last one. |
| `Aab.StemAtLastDot` | library/src/main/java/com/nmmedit/apkprotect/aab/AabFolders.java:57-60 | A '.' followed by no other '.' is where the stem ends. |
| `Aab.OutputAab` | library/src/main/java/com/nmmedit/apkprotect/aab/AabFolders.java:54-62 | The output bundle is `<stem of the input's name>-protect.aab`, directly in the output root. |
| `Aab.StemWithoutDot` | library/src/main/java/com/nmmedit/apkprotect/aab/AabFolders.java:57-61 | Example: `app` gives `app-protect.aab`. |
| `Aab.StemTwoDots` | library/src/main/java/com/nmmedit/apkprotect/aab/AabFolders.java:57-61 | Example: `my.app.aab` gives `my.app-protect.aab`; only the last extension is removed. |
| `Aab.StemOnlyExtension` | library/src/main/java/com/nmmedit/apkprotect/aab/AabFolders.java:57-61 | Example: `.aab` gives `-protect.aab`. |

## Left out

- **File and archive I/O.** Reading the APK, extracting and writing files, `FileHelper.readBytes`, deleting an existing output APK and the cleanup of the extraction directory in `finally` are not modelled. Files are names, and archive entries record where their bytes come from.
- **Collaborators passed as parameters.** dexlib2 (`DexPool`, `DexBackedDexFile`, class interning), `Dex2c.handleAllDex`, `Dex2c.injectCallRegisterNativeInsns` (with its 60000 pool ceiling), `CmakeUtils.generateCSources`, `ClassAnalyzer`, `ManifestParser` and `BuildNativeLib.generateNativeLibs` are parameters or opaque values; their internals are not part of this model.
- **The main-dex pre-pass** at ApkProtect.java:198-210 is not modelled. It injects only for classes in `mainClassSet`, and `run()` passes an empty set (ApkProtect.java:359), so the pre-pass never calls the injector.
- **Outside the core.** `ApkFolders`, the `Builder`, and `copyDex` (a class-by-class copy into a pool) are not part of this model. `run()` takes the temp dex directory as a parameter.
- `DexNaming.SortKey`: does not model `Integer.parseInt` overflow or the int overflow of `n - n2`. Suffixes are read as unbounded naturals, so two names whose suffixes exceed the int range compare by value here, where the source would throw or misorder.
- `ApkProtect.MinSdk`: digits are ASCII only. `Integer.parseInt` also accepts any other Unicode decimal digit ("٢١" reads as 21); the model reads such text as a NumberFormatException.
- `Strings.ParseInt`: the same restriction; only '0'..'9' are digits.
- `DexNaming.DexFileName`: `String.format("%d")` writes the default locale's digits. The model writes ASCII digits, the output under locales whose digits are ASCII.
- `Strings.NatToString`: the same assumption, ASCII digits for `%d`.
- **The static logger.** Only its presence is modelled: with a logger, "Not is apk" and "No classes.dex" are logged and the run goes on. What `ManifestParser` then does with a missing manifest, and the write of null manifest bytes, is outside the model.
- `AbiSelection.GetAbis`: the iteration order of the `HashSet` is unspecified, so the contract states the set of ABIs and the absence of duplicates, not their order.
- `MainChain.GetApplicationClassesFromMainDex`: a `fuel` bound limits how many superclasses the walk may append, and `None` means the bound was reached. The source loops forever on a cyclic superclass chain. A null superclass (`java.lang.Object`) is not modelled; superclasses are plain strings.
- `ApkProtect.WriteNativeLibs`: two libraries that produce the same `lib/<abi>/<name>` entry are both written; whether the ZIP writer then rejects the duplicate is not modelled.
- **Behaviour the model keeps even where it may look unintended:**
  - With a logger, an empty pool list is not skipped: `retPools.get(0)` then fails (ApkProtect.java:215-239).
  - The chain walk reads each config's shell dex file, not only the main dex (ApkProtect.java:144-147).
