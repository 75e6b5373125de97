/** Paths as sequences of components. */
module Paths {
  import opened Strings

  /** A path, one string per component; `[]` is the filesystem root. */
  type Path = seq<string>

  /** The last component of `p`, or the empty string for the root. */
  function FileName(p: Path): string {
    if p == [] then "" else p[|p| - 1]
  }

  /** `q` is `p` itself or one of its ancestors. */
  predicate IsPrefix(q: Path, p: Path) {
    |q| <= |p| && p[..|q|] == q
  }

  /** `Path::join` with a single name, as compared component by component:
      an empty name or `.` adds no component, any other name becomes the last one. */
  function JoinName(p: Path, name: string): (r: Path)
    ensures IsPrefix(p, r) && |r| <= |p| + 1
    ensures |r| == |p| <==> name == "" || name == "."
    ensures |r| == |p| + 1 ==> FileName(r) == name
  {
    if name == "" || name == "." then p else p + [name]
  }

  /** `Path::to_string_lossy` of a relative path: its components joined with `/`. */
  function Display(rel: Path): string {
    Join(rel, "/")
  }
}
