/**
 * A `java.io.File` as the list of its name components: `new File(parent, name)`
 * appends one component, `getName()` is the last one and `getParent()` the rest.
 */
module Paths {

  datatype Path = Path(segments: seq<string>)

  /** `getName()`: the last component, or the empty name for the empty path. */
  function Name(p: Path): string {
    if p.segments == [] then "" else p.segments[|p.segments| - 1]
  }

  /** `getParentFile()`: every component but the last. */
  function Parent(p: Path): Path {
    if p.segments == [] then p else Path(p.segments[..|p.segments| - 1])
  }

  /** `new File(parent, name)`; `Name` and `Parent` take it apart again. */
  function Child(parent: Path, name: string): (p: Path)
    ensures Name(p) == name && Parent(p) == parent
    ensures |p.segments| == |parent.segments| + 1
  {
    Path(parent.segments + [name])
  }

  /** `p` lies (strictly) inside the directory `dir`. */
  predicate Within(p: Path, dir: Path) {
    |dir.segments| < |p.segments| && p.segments[..|dir.segments|] == dir.segments
  }
}
