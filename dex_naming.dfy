/**
 * Names of the classesN.dex files: the name `dexWriteToFile` gives output index
 * `index`, the numeric key the `getClassesFiles` comparator reads back from a
 * name, and the order in which extracted dex files are handed on.
 */
module DexNaming {
  import opened Strings

  /**
   * A name matched in full by `classes(\d+)*\.dex` (the extraction pattern) and by
   * `classes(\d)*\.dex` (the exclusion pattern): both accept "classes", any run of
   * ASCII digits, possibly empty, and ".dex".
   */
  predicate IsDexEntryName(name: string) {
    |name| >= 11 && name[..7] == "classes" && name[|name| - 4..] == ".dex"
    && AllDigits(name[7..|name| - 4])
  }

  /** The digits between "classes" and ".dex". */
  function SuffixDigits(name: string): string
    requires IsDexEntryName(name)
  {
    name[7..|name| - 4]
  }

  lemma DexNameParts(d: string)
    requires AllDigits(d)
    ensures IsDexEntryName("classes" + d + ".dex")
    ensures SuffixDigits("classes" + d + ".dex") == d
  {
    var name := "classes" + d + ".dex";
    assert name[..7] == "classes";
    assert name[|name| - 4..] == ".dex";
    assert name[7..|name| - 4] == d;
  }

  /** A dex entry name is "classes", a run of digits and ".dex", and nothing else. */
  lemma DexEntryNameShape(name: string)
    ensures IsDexEntryName(name) <==> exists d :: AllDigits(d) && name == "classes" + d + ".dex"
  {
    if IsDexEntryName(name) {
      assert name == "classes" + SuffixDigits(name) + ".dex";
    }
    if d :| AllDigits(d) && name == "classes" + d + ".dex" {
      DexNameParts(d);
    }
  }

  /** What the comparator keeps of a name: `name.replace("classes", "").replace(".dex", "")`. */
  function StrippedName(name: string): string {
    ReplaceAll(ReplaceAll(name, "classes", ""), ".dex", "")
  }

  /** `replace("classes", "")` removes a leading "classes" when no 'c' follows it. */
  lemma StripClasses(rest: string)
    requires 'c' !in rest
    ensures ReplaceAll("classes" + rest, "classes", "") == rest
  {
    var s := "classes" + rest;
    assert s[..7] == "classes" && s[7..] == rest;
    ReplaceAllAbsent(rest, "classes", "");
  }

  /** `replace(".dex", "")` removes a trailing ".dex" when no '.' comes before it. */
  lemma StripDex(d: string)
    requires '.' !in d
    ensures ReplaceAll(d + ".dex", ".dex", "") == d
  {
    ReplaceAllSkipsPrefix(d, ".dex", ".dex", "");
    assert ReplaceAll(".dex", ".dex", "") == "" + ReplaceAll("", ".dex", "");
  }

  /** A digit run holds no '.', and with ".dex" after it no 'c'. */
  lemma DigitsHaveNoLetters(d: string)
    requires AllDigits(d)
    ensures '.' !in d && 'c' !in d + ".dex"
  {
    var rest := d + ".dex";
    forall i | 0 <= i < |rest| ensures rest[i] != 'c' {
      if i < |d| {
        assert rest[i] == d[i] && IsDigit(d[i]);
      } else {
        assert rest[i] == ".dex"[i - |d|];
      }
    }
    forall i | 0 <= i < |d| ensures d[i] != '.' {
      assert IsDigit(d[i]);
    }
  }

  /** A dex entry name is "classes" followed by its digits and ".dex". */
  lemma DexNameSplit(name: string)
    requires IsDexEntryName(name)
    ensures name == "classes" + (SuffixDigits(name) + ".dex")
  {
    assert name == name[..7] + name[7..|name| - 4] + name[|name| - 4..];
  }

  /** Stripping a dex entry name leaves exactly its digits. */
  lemma StrippedDexName(name: string)
    requires IsDexEntryName(name)
    ensures StrippedName(name) == SuffixDigits(name)
  {
    var d := SuffixDigits(name);
    DexNameSplit(name);
    DigitsHaveNoLetters(d);
    StripClasses(d + ".dex");
    StripDex(d);
  }

  /**
   * The comparator's key: the stripped name read as a number, 0 when nothing is
   * left (the unsuffixed classes.dex). It is the value of the name's digits.
   */
  function SortKey(name: string): (k: nat)
    requires IsDexEntryName(name)
    ensures k == ParseDigits(SuffixDigits(name))
  {
    StrippedDexName(name);
    var numb := StrippedName(name);
    if numb == [] then 0 else ParseDigits(numb)
  }

  /**
   * `dexWriteToFile`'s file name for output index `index`: classes.dex for 0,
   * classes{index+1}.dex otherwise. The comparator reads back 0 for index 0 and
   * index + 1 for every other index, so "classes1.dex" is never produced.
   */
  function DexFileName(index: nat): (name: string)
    ensures IsDexEntryName(name)
    ensures SortKey(name) == if index == 0 then 0 else index + 1
    ensures SuffixDigits(name) == [] <==> index == 0
    ensures SuffixDigits(name) != [] ==> SuffixDigits(name)[0] != '0'
  {
    if index == 0 then
      DexNameParts("");
      assert "classes" + "" + ".dex" == "classes.dex";
      "classes.dex"
    else
      var d := NatToString(index + 1);
      DexNameParts(d);
      ParseNatToString(index + 1);
      "classes" + d + ".dex"
  }

  /** Output names are distinct, grow with the index, and skip classes1.dex. */
  lemma DexFileNamesIncreasing(j: nat, k: nat)
    requires j < k
    ensures SortKey(DexFileName(j)) < SortKey(DexFileName(k))
    ensures DexFileName(j) != DexFileName(k)
    ensures DexFileName(j) != "classes1.dex"
  {
    DexNameParts("1");
    assert ParseDigits("1") == ParseDigits("") * 10 + DigitValue('1');
  }

  /** A name the comparator may be given. */
  type DexName = name: string | IsDexEntryName(name) witness "classes.dex"

  ghost predicate SortedBy<T>(key: T -> nat, s: seq<T>) {
    forall i, j :: 0 <= i < j < |s| ==> key(s[i]) <= key(s[j])
  }

  /** One step of a stable insertion sort: `x` goes before the first element not below it. */
  function InsertBy<T>(key: T -> nat, x: T, s: seq<T>): (r: seq<T>)
    ensures multiset(r) == multiset(s) + multiset{x}
  {
    if s == [] || key(x) <= key(s[0]) then [x] + s
    else
      assert s == [s[0]] + s[1..];
      [s[0]] + InsertBy(key, x, s[1..])
  }

  /** Inserting into a sorted sequence keeps it sorted. */
  lemma {:induction false} InsertBySorted<T>(key: T -> nat, x: T, s: seq<T>)
    requires SortedBy(key, s)
    ensures SortedBy(key, InsertBy(key, x, s))
    decreases |s|
  {
    if s != [] && key(x) > key(s[0]) {
      var t := InsertBy(key, x, s[1..]);
      assert SortedBy(key, s[1..]);
      InsertBySorted(key, x, s[1..]);
      forall j | 0 <= j < |t| ensures key(s[0]) <= key(t[j]) {
        assert t[j] in multiset(s[1..]) + multiset{x};
        if t[j] != x {
          assert t[j] in s[1..];
          var k :| 0 <= k < |s[1..]| && s[1..][k] == t[j];
          assert s[k + 1] == t[j];
        }
      }
    }
  }

  /** A stable sort by `key`: the input reordered, ascending by key. */
  function SortBy<T>(key: T -> nat, s: seq<T>): (r: seq<T>)
    ensures SortedBy(key, r)
    ensures multiset(r) == multiset(s)
  {
    if s == [] then []
    else
      assert s == [s[0]] + s[1..];
      InsertBySorted(key, s[0], SortBy(key, s[1..]));
      InsertBy(key, s[0], SortBy(key, s[1..]))
  }

  /** The elements of `s` whose key is `k`, in their order in `s`. */
  function KeyFilter<T>(key: T -> nat, s: seq<T>, k: nat): seq<T> {
    if s == [] then []
    else (if key(s[0]) == k then [s[0]] else []) + KeyFilter(key, s[1..], k)
  }

  lemma KeyFilterCons<T>(key: T -> nat, y: T, t: seq<T>, k: nat)
    ensures KeyFilter(key, [y] + t, k) == (if key(y) == k then [y] else []) + KeyFilter(key, t, k)
  {
    assert ([y] + t)[0] == y && ([y] + t)[1..] == t;
  }

  /** Inserting `x` adds it to its key's elements, ahead of them: it only passes smaller keys. */
  lemma {:induction false} InsertKeyFilter<T>(key: T -> nat, x: T, s: seq<T>, k: nat)
    ensures KeyFilter(key, InsertBy(key, x, s), k) == (if key(x) == k then [x] else []) + KeyFilter(key, s, k)
    decreases |s|
  {
    if s == [] || key(x) <= key(s[0]) {
      assert InsertBy(key, x, s) == [x] + s;
      KeyFilterCons(key, x, s, k);
    } else {
      var y, rest := s[0], s[1..];
      var t := InsertBy(key, x, rest);
      assert InsertBy(key, x, s) == [y] + t;
      assert s == [y] + rest;
      KeyFilterCons(key, y, t, k);
      KeyFilterCons(key, y, rest, k);
      InsertKeyFilter(key, x, rest, k);
      var passed := KeyFilter(key, rest, k);
      if key(x) == k {
        // `x` passes `y`, whose key is smaller, so `y` is not among the key's elements.
        assert key(y) != k;
        assert KeyFilter(key, [y] + t, k) == KeyFilter(key, t, k) == [x] + passed;
        assert KeyFilter(key, s, k) == passed;
      } else {
        assert KeyFilter(key, t, k) == passed;
      }
    }
  }

  /** Elements with equal keys keep their relative order: the sort is stable. */
  lemma {:induction false} SortByStable<T>(key: T -> nat, s: seq<T>, k: nat)
    ensures KeyFilter(key, SortBy(key, s), k) == KeyFilter(key, s, k)
  {
    if s != [] {
      SortByStable(key, s[1..], k);
      InsertKeyFilter(key, s[0], SortBy(key, s[1..]), k);
    }
  }

  /** Sorting a sequence that is already in key order changes nothing. */
  lemma {:induction false} SortBySorted<T>(key: T -> nat, s: seq<T>)
    requires SortedBy(key, s)
    ensures SortBy(key, s) == s
  {
    if s != [] {
      assert SortedBy(key, s[1..]);
      SortBySorted(key, s[1..]);
      assert s == [s[0]] + s[1..];
    }
  }

  /**
   * The comparator `(file, t1) -> n - n2` orders two names as their keys do, so
   * `files.sort` sorts by this key.
   */
  const DexKey: DexName -> nat := (name: DexName) => SortKey(name)

  /** The dex files `ApkUtils.extractFiles` finds: the entries named classesN.dex, in archive order. */
  function ExtractedDexNames(entries: seq<string>): (names: seq<DexName>)
    ensures forall n :: n in names <==> n in entries && IsDexEntryName(n)
  {
    if entries == [] then []
    else if IsDexEntryName(entries[0]) then
      var name: DexName := entries[0];
      [name] + ExtractedDexNames(entries[1..])
    else ExtractedDexNames(entries[1..])
  }

  /**
   * `getClassesFiles`: the extracted dex names sorted by numeric suffix. They are
   * exactly the archive's dex entries, reordered, in ascending key order.
   */
  function GetClassesFiles(entries: seq<string>): (files: seq<DexName>)
    ensures SortedBy(DexKey, files)
    ensures multiset(files) == multiset(ExtractedDexNames(entries))
    ensures forall n :: n in files <==> n in entries && IsDexEntryName(n)
  {
    var files := SortBy(DexKey, ExtractedDexNames(entries));
    assert forall n :: n in files <==> n in multiset(ExtractedDexNames(entries));
    files
  }

  /** The names written for output indices 0 .. n-1, in index order. */
  function DexFileNames(n: nat): (names: seq<DexName>)
    ensures |names| == n
    ensures forall j :: 0 <= j < n ==> names[j] == DexFileName(j)
  {
    seq(n, j requires 0 <= j => DexFileName(j))
  }

  /**
   * The dex files the core writes for indices 0 .. n-1 come back, when extracted
   * again, in the order they were written.
   */
  lemma WrittenNamesReadBackInOrder(n: nat)
    ensures GetClassesFiles(DexFileNames(n)) == DexFileNames(n)
  {
    var names := DexFileNames(n);
    assert SortedBy(DexKey, names) by {
      forall i, j | 0 <= i < j < n ensures DexKey(names[i]) <= DexKey(names[j]) {
        DexFileNamesIncreasing(i, j);
      }
    }
    ExtractedAllDex(names);
    SortBySorted(DexKey, names);
  }

  lemma {:induction false} ExtractedAllDex(s: seq<DexName>)
    ensures ExtractedDexNames(s) == s
  {
    if s != [] {
      ExtractedAllDex(s[1..]);
      assert s == [s[0]] + s[1..];
    }
  }
}
