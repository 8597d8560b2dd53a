/**
 * `getAbis`: the instruction-set directories of the native libraries already in
 * the input archive, without the unsupported ones, or else the ABIs enabled in
 * the preferences.
 */
module AbiSelection {
  import opened Wrappers
  import opened Strings

  /** The four ABI switches of the preferences. */
  datatype Prefs = Prefs(arm: bool, arm64: bool, x86: bool, x64: bool)

  /** The ABIs the native build does not support; `getAbis` removes them. */
  const Unsupported: set<string> := {"armeabi", "mips", "mips64"}

  /** Characters that a Java regex `.` does not match. */
  predicate IsLineTerminator(c: char) {
    c == '\n' || c == '\r' || c == '\U{0085}' || c == '\U{2028}' || c == '\U{2029}'
  }

  predicate NoLineTerminator(s: string) {
    forall i :: 0 <= i < |s| ==> !IsLineTerminator(s[i])
  }

  /** `lib/(.*)/.*\.so` matches `name` in full, with `a` as a possible group 1. */
  ghost predicate MatchesLibPattern(name: string, a: string) {
    NoLineTerminator(name) && exists rest :: name == "lib/" + a + "/" + rest + ".so"
  }

  /**
   * Group 1 of a full match of `lib/(.*)/.*\.so`, or None when the name does not
   * match: the name starts with "lib/", ends with ".so", has a '/' after "lib/",
   * and group 1 runs from "lib/" to the last '/'.
   */
  function LibCapture(name: string): (r: Option<string>)
    ensures r.Some? ==> 4 + |r.value| < |name| && name[4..4 + |r.value|] == r.value && name[4 + |r.value|] == '/'
                        && '/' !in name[5 + |r.value|..]
  {
    if |name| < 7 || name[..4] != "lib/" || name[|name| - 3..] != ".so" || !NoLineTerminator(name) then None
    else
      var j := LastIndexOf(name, '/');
      if j < 4 then None else Some(name[4..j])
  }

  /** A capture is a group 1 of a real match. */
  lemma LibCaptureSound(name: string)
    requires LibCapture(name).Some?
    ensures MatchesLibPattern(name, LibCapture(name).value)
  {
    var a := LibCapture(name).value;
    var j := 4 + |a|;
    assert name[..4] == "lib/" && name[|name| - 3..] == ".so" && NoLineTerminator(name);
    assert j < |name| - 3 by {
      assert name[|name| - 3] == '.' && name[|name| - 2] == 's' && name[|name| - 1] == 'o';
    }
    var rest := name[j + 1..|name| - 3];
    assert name == name[..4] + name[4..j] + [name[j]] + name[j + 1..|name| - 3] + name[|name| - 3..];
    assert name == "lib/" + a + "/" + rest + ".so";
  }

  /**
   * Every name the pattern matches has a capture, and the capture is the longest
   * possible group 1 (the `.*` in the group is greedy).
   */
  lemma LibCaptureComplete(name: string, a: string)
    requires MatchesLibPattern(name, a)
    ensures LibCapture(name).Some?
    ensures |a| <= |LibCapture(name).value|
  {
    var rest :| name == "lib/" + a + "/" + rest + ".so";
    assert name[..4] == "lib/";
    assert name[|name| - 3..] == ".so";
    var k := 4 + |a|;
    assert name[k] == '/';
  }

  /** The ABIs named by the entries that match the pattern. */
  function MatchedAbis(entries: seq<string>): set<string> {
    if entries == [] then {}
    else
      var prev := MatchedAbis(entries[..|entries| - 1]);
      match LibCapture(entries[|entries| - 1])
      case Some(a) => prev + {a}
      case None => prev
  }

  /** An ABI is found exactly when some entry's capture names it. */
  lemma {:induction false} MatchedAbisExactly(entries: seq<string>, a: string)
    ensures a in MatchedAbis(entries) <==> exists i :: 0 <= i < |entries| && LibCapture(entries[i]) == Some(a)
  {
    if entries != [] {
      var init := entries[..|entries| - 1];
      MatchedAbisExactly(init, a);
      assert forall i :: 0 <= i < |init| ==> init[i] == entries[i];
    }
  }

  /** The fall-back list: the enabled switches, in the order armeabi-v7a, arm64-v8a, x86, x86_64. */
  function DefaultAbis(prefs: Prefs): seq<string> {
    (if prefs.arm then ["armeabi-v7a"] else [])
    + (if prefs.arm64 then ["arm64-v8a"] else [])
    + (if prefs.x86 then ["x86"] else [])
    + (if prefs.x64 then ["x86_64"] else [])
  }

  /** The fall-back list holds each enabled ABI once, only those, and none that is unsupported. */
  lemma DefaultAbisEnabled(prefs: Prefs)
    ensures NoDuplicates(DefaultAbis(prefs))
    ensures forall a :: a in DefaultAbis(prefs) ==> a !in Unsupported
    ensures "armeabi-v7a" in DefaultAbis(prefs) <==> prefs.arm
    ensures "arm64-v8a" in DefaultAbis(prefs) <==> prefs.arm64
    ensures "x86" in DefaultAbis(prefs) <==> prefs.x86
    ensures "x86_64" in DefaultAbis(prefs) <==> prefs.x64
    ensures |DefaultAbis(prefs)| <= 4
  {
  }

  ghost predicate NoDuplicates<T>(s: seq<T>) {
    forall i, j :: 0 <= i < j < |s| ==> s[i] != s[j]
  }

  /** The ABIs found in the archive that the native build supports. */
  function SupportedFound(entries: seq<string>): set<string> {
    MatchedAbis(entries) - Unsupported
  }

  /**
   * `getAbis`: collect the captures into a set, drop armeabi, mips and mips64, and
   * answer with the set's elements (in the set's own order, which the model leaves
   * open) or, when none is left, with the enabled defaults.
   */
  method GetAbis(entries: seq<string>, prefs: Prefs) returns (abis: seq<string>)
    ensures NoDuplicates(abis)
    ensures forall a :: a in abis ==> a !in Unsupported
    ensures SupportedFound(entries) != {} ==> forall a :: a in abis <==> a in SupportedFound(entries)
    ensures SupportedFound(entries) == {} ==> abis == DefaultAbis(prefs)
  {
    var found: set<string> := {};
    var i := 0;
    while i < |entries|
      invariant 0 <= i <= |entries|
      invariant found == MatchedAbis(entries[..i])
    {
      assert entries[..i + 1][..i] == entries[..i];
      match LibCapture(entries[i]) {
        case Some(a) => found := found + {a};
        case None =>
      }
      i := i + 1;
    }
    assert entries[..i] == entries;
    found := found - {"armeabi"};
    found := found - {"mips"};
    found := found - {"mips64"};
    if found == {} {
      DefaultAbisEnabled(prefs);
      return DefaultAbis(prefs);
    }
    // new ArrayList<>(abis): the set's elements in an order the model leaves open
    abis := SetToSequence(found);
  }

  /** `new ArrayList<>(set)`: each element once, in an order the model leaves open. */
  method SetToSequence(s: set<string>) returns (r: seq<string>)
    ensures NoDuplicates(r)
    ensures forall a :: a in r <==> a in s
  {
    r := [];
    var rest := s;
    while rest != {}
      invariant rest <= s
      invariant forall a :: a in r <==> a in s - rest
      invariant NoDuplicates(r)
      decreases rest
    {
      var a :| a in rest;
      r := r + [a];
      rest := rest - {a};
    }
  }

  /** An ABI directory that holds a library and is supported is always selected. */
  lemma SelectedAbi(entries: seq<string>, i: int, a: string)
    requires 0 <= i < |entries| && LibCapture(entries[i]) == Some(a) && a !in Unsupported
    ensures a in SupportedFound(entries)
  {
    MatchedAbisExactly(entries, a);
  }

  /** Archive without native libraries and with ARM and ARM64 enabled: exactly those two. */
  lemma NoLibsFallsBack(entries: seq<string>)
    requires forall i :: 0 <= i < |entries| ==> LibCapture(entries[i]).None?
    ensures SupportedFound(entries) == {}
    ensures DefaultAbis(Prefs(true, true, false, false)) == ["armeabi-v7a", "arm64-v8a"]
  {
    forall a ensures a !in MatchedAbis(entries) {
      MatchedAbisExactly(entries, a);
    }
  }
}
