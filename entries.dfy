/** The records a directory listing is made of. */
module Entries {
  import opened Wrappers
  import opened Paths

  /** One entry returned by the operating system's directory read. */
  datatype DirEntry = DirEntry(path: Path)

  /** A produced listing entry: the directory itself (`.`), its parent (`..`),
      a real entry read from disk, or a ghost synthesised from the manifest. */
  datatype File =
    | Current(path: Path)
    | Parent(path: Path)
    | Real(path: Path, name: string)
    | Ghost(path: Path, name: string)

  /** The git-status cache, reduced to the paths whose unstaged status is `Ignored`. */
  datatype GitCache = GitCache(ignored: set<Path>)

  /** The unstaged status of `p` is `Ignored`; an absent cache ignores nothing. */
  predicate IsIgnored(git: Option<GitCache>, p: Path) {
    git.Some? && p in git.value.ignored
  }
}
