/**
 * `AabFolders`: the input bundle, the output root, and the files and working
 * directories derived from them. Both fields are final, so the object is a value.
 */
module Aab {
  import opened Strings
  import opened Paths

  /** `new AabFolders(inAab, outRootDir)`; `getInAab()` and `getOutRootDir()` are the fields. */
  datatype AabFolders = AabFolders(inAab: Path, outRootDir: Path)

  /** `getZipExtractTempDir()`: where the bundle is unpacked. */
  function ZipExtractTempDir(f: AabFolders): (d: Path)
    ensures Parent(d) == f.outRootDir && Name(d) == ".apk_temp"
  {
    Child(f.outRootDir, ".apk_temp")
  }

  /** `getDex2cSrcDir()`: where the generated C sources go. */
  function Dex2cSrcDir(f: AabFolders): (d: Path)
    ensures Parent(d) == f.outRootDir && Name(d) == "dex2c"
  {
    Child(f.outRootDir, "dex2c")
  }

  /** `getCodeGeneratedDir()`: the C files and their dex files, inside the C source directory. */
  function CodeGeneratedDir(f: AabFolders): (d: Path)
    ensures Parent(d) == Dex2cSrcDir(f) && Name(d) == "generated"
    ensures Within(d, Dex2cSrcDir(f)) && Within(d, f.outRootDir)
  {
    var d := Child(Dex2cSrcDir(f), "generated");
    assert d.segments[..|f.outRootDir.segments|] == f.outRootDir.segments;
    d
  }

  /** `getTempDexDir()`: where the injected dex files are written. */
  function TempDexDir(f: AabFolders): (d: Path)
    ensures Parent(d) == f.outRootDir && Name(d) == "dex_output"
  {
    Child(f.outRootDir, "dex_output")
  }

  /**
   * The file name without its last extension: everything before the last '.',
   * or the whole name when it has no '.'.
   */
  function Stem(name: string): (stem: string)
    ensures stem <= name
    ensures '.' !in name ==> stem == name
    ensures '.' in name ==> |stem| < |name| && name[|stem|] == '.' && '.' !in name[|stem| + 1..]
  {
    var i := LastIndexOf(name, '.');
    if i != -1 then name[..i] else name
  }

  /** `getOutputAab()`: `<stem>-protect.aab` in the output root. */
  function OutputAab(f: AabFolders): (out: Path)
    ensures Parent(out) == f.outRootDir
    ensures Name(out) == Stem(Name(f.inAab)) + "-protect.aab"
  {
    Child(f.outRootDir, Stem(Name(f.inAab)) + "-protect.aab")
  }

  /** The three working directories under the output root are pairwise distinct, and none is the output bundle. */
  lemma WorkingDirsDistinct(f: AabFolders)
    ensures ZipExtractTempDir(f) != Dex2cSrcDir(f)
    ensures ZipExtractTempDir(f) != TempDexDir(f)
    ensures Dex2cSrcDir(f) != TempDexDir(f)
    ensures OutputAab(f) != ZipExtractTempDir(f) && OutputAab(f) != Dex2cSrcDir(f) && OutputAab(f) != TempDexDir(f)
  {
    var n := Name(OutputAab(f));
    assert n[|n| - 4..] == ".aab";
    assert ".apk_temp"[5..] == "temp";
    assert "dex2c"[1..] == "ex2c";
    assert "dex_output"[6..] == "tput";
  }

  /** The stem ends at a '.' exactly when no '.' follows it. */
  lemma StemAtLastDot(name: string, i: nat)
    requires i < |name| && name[i] == '.' && '.' !in name[i + 1..]
    ensures Stem(name) == name[..i]
  {
    assert name[i] in name;
    var j := LastIndexOf(name, '.');
    forall k | i < k < |name| ensures name[k] != '.' {
      assert name[k] == name[i + 1..][k - i - 1];
    }
    forall k | j < k < |name| ensures name[k] != '.' {
      assert name[k] == name[j + 1..][k - j - 1];
    }
  }

  /** A name without '.' is kept whole: "app" gives "app-protect.aab". */
  lemma StemWithoutDot()
    ensures Stem("app") == "app"
  {
    assert '.' !in "app";
  }

  /** Only the last extension is removed: "my.app.aab" gives "my.app-protect.aab". */
  lemma StemTwoDots()
    ensures Stem("my.app.aab") == "my.app"
  {
    var name := "my.app.aab";
    assert name[7..] == "aab";
    StemAtLastDot(name, 6);
  }

  /** A name that is only an extension leaves an empty stem: ".aab" gives "-protect.aab". */
  lemma StemOnlyExtension()
    ensures Stem(".aab") == ""
  {
    StemAtLastDot(".aab", 0);
  }
}
