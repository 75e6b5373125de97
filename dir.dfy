/** The directory snapshot `Dir`, the listing iterator `Files` and the dot
    filter of src/fs/dir.rs. */
module FsDir {
  import opened Wrappers
  import opened Strings
  import opened Paths
  import opened Entries
  import opened Ghosts

  /** The three dot-filter modes. */
  datatype DotFilter = DotfilesAndDots | Dotfiles | JustFiles

  /** The dot directories still to be listed before the files. */
  datatype DotsNext = Dot | DotDot | Files

  /** `DotFilter::shows_dotfiles`. */
  function ShowsDotfiles(filter: DotFilter): (r: bool)
    ensures r <==> filter != JustFiles
  {
    match filter
    case JustFiles => false
    case Dotfiles => true
    case DotfilesAndDots => true
  }

  /** `DotFilter::dots`: only `DotfilesAndDots` starts with `.`; the others go
      straight to the files. */
  function Dots(filter: DotFilter): (r: DotsNext)
    ensures r == Dot <==> filter == DotfilesAndDots
    ensures r != DotDot
  {
    match filter
    case JustFiles => DotsNext.Files
    case Dotfiles => DotsNext.Files
    case DotfilesAndDots => Dot
  }

  /** `Files::parent`: the path of `..`, the directory's path with one more
      component `..` rather than the directory's parent. */
  function ParentOf(dirPath: Path): (p: Path)
    ensures |p| == |dirPath| + 1 && IsPrefix(dirPath, p) && FileName(p) == ".."
  {
    dirPath + [".."]
  }

  /** The dot entries a given iterator state still has to produce. */
  function DotEntries(dots: DotsNext, dirPath: Path): seq<File> {
    match dots
    case Dot => [Current(dirPath), Parent(ParentOf(dirPath))]
    case DotDot => [Parent(ParentOf(dirPath))]
    case Files => []
  }

  /** A real entry survives the filters: it is not a hidden dotfile, and not
      git-ignored when ignoring is requested. */
  predicate Keep(e: DirEntry, dotfiles: bool, git: Option<GitCache>, gitIgnoring: bool) {
    && (dotfiles || !StartsWith(FileName(e.path), "."))
    && !(gitIgnoring && IsIgnored(git, e.path))
  }

  /** The listing entry built from a real directory entry. */
  function RealFile(e: DirEntry): File {
    Real(e.path, FileName(e.path))
  }

  /** The real entries that survive the filters, in read order. */
  function Visible(entries: seq<DirEntry>, dotfiles: bool, git: Option<GitCache>, gitIgnoring: bool): (r: seq<File>)
    ensures |r| <= |entries|
    ensures forall i :: 0 <= i < |r| ==> r[i].Real?
  {
    if entries == [] then []
    else
      (if Keep(entries[0], dotfiles, git, gitIgnoring) then [RealFile(entries[0])] else [])
      + Visible(entries[1..], dotfiles, git, gitIgnoring)
  }

  /** Everything an iterator made by `Dir::files` produces, in order. */
  function Listing(dirPath: Path, contents: seq<DirEntry>, filter: DotFilter,
                   git: Option<GitCache>, gitIgnoring: bool, ghosts: seq<File>): seq<File> {
    DotEntries(Dots(filter), dirPath) + Visible(contents, ShowsDotfiles(filter), git, gitIgnoring) + ghosts
  }

  /** Whether some entry of `entries` has exactly `path` as its path. */
  function HasPath(entries: seq<DirEntry>, path: Path): (b: bool)
    ensures b <==> exists i :: 0 <= i < |entries| && entries[i].path == path
  {
    if entries == [] then false
    else if entries[0].path == path then true
    else
      var b := HasPath(entries[1..], path);
      assert b ==> exists i :: 0 <= i < |entries| && entries[i].path == path by {
        if b {
          var i :| 0 <= i < |entries[1..]| && entries[1..][i].path == path;
          assert entries[i + 1].path == path;
        }
      }
      assert (exists i :: 0 <= i < |entries| && entries[i].path == path) ==> b by {
        if i :| 0 <= i < |entries| && entries[i].path == path {
          assert entries[1..][i - 1].path == path;
        }
      }
      b
  }

  /** Filtering is local and keeps read order: the visible entries of two runs
      of entries are those of the first followed by those of the second. */
  lemma {:induction false} VisibleConcat(a: seq<DirEntry>, b: seq<DirEntry>, dotfiles: bool,
                                         git: Option<GitCache>, gitIgnoring: bool)
    ensures Visible(a + b, dotfiles, git, gitIgnoring)
         == Visible(a, dotfiles, git, gitIgnoring) + Visible(b, dotfiles, git, gitIgnoring)
  {
    if a == [] {
      assert a + b == b;
    } else {
      var head := if Keep(a[0], dotfiles, git, gitIgnoring) then [RealFile(a[0])] else [];
      assert (a + b)[0] == a[0];
      assert (a + b)[1..] == a[1..] + b;
      VisibleConcat(a[1..], b, dotfiles, git, gitIgnoring);
      AppendAssoc(head, Visible(a[1..], dotfiles, git, gitIgnoring), Visible(b, dotfiles, git, gitIgnoring));
    }
  }

  /** A file is visible exactly when it is built from an entry that passes the filters. */
  lemma {:induction false} VisibleMember(entries: seq<DirEntry>, dotfiles: bool, git: Option<GitCache>,
                                         gitIgnoring: bool, f: File)
    ensures f in Visible(entries, dotfiles, git, gitIgnoring) <==>
      exists i :: 0 <= i < |entries| && Keep(entries[i], dotfiles, git, gitIgnoring) && f == RealFile(entries[i])
  {
    if entries != [] {
      VisibleMember(entries[1..], dotfiles, git, gitIgnoring, f);
      if i :| 1 <= i < |entries| && Keep(entries[i], dotfiles, git, gitIgnoring) && f == RealFile(entries[i]) {
        assert entries[1..][i - 1] == entries[i];
      }
      if i :| 0 <= i < |entries[1..]| && Keep(entries[1..][i], dotfiles, git, gitIgnoring) && f == RealFile(entries[1..][i]) {
        assert entries[1..][i] == entries[i + 1];
      }
    }
  }

  /** Without a git cache, git-ignoring filters nothing out. */
  lemma {:induction false} AbsentCacheIgnoresNothing(entries: seq<DirEntry>, dotfiles: bool)
    ensures Visible(entries, dotfiles, None, true) == Visible(entries, dotfiles, None, false)
  {
    if entries != [] {
      AbsentCacheIgnoresNothing(entries[1..], dotfiles);
    }
  }

  /** Showing dotfiles and not git-ignoring, every entry is listed, in read order. */
  lemma {:induction false} UnfilteredListsEverything(entries: seq<DirEntry>, git: Option<GitCache>)
    ensures |Visible(entries, true, git, false)| == |entries|
    ensures forall i :: 0 <= i < |entries| ==> Visible(entries, true, git, false)[i] == RealFile(entries[i])
  {
    if entries != [] {
      UnfilteredListsEverything(entries[1..], git);
      var v := Visible(entries, true, git, false);
      assert v == [RealFile(entries[0])] + Visible(entries[1..], true, git, false);
      forall i | 1 <= i < |entries|
        ensures v[i] == RealFile(entries[i])
      {
        assert entries[1..][i - 1] == entries[i];
      }
    }
  }

  /** The shape of a listing: `.` then `..` with `DotfilesAndDots`, nothing before
      the real entries otherwise; then the visible real entries; then the ghosts,
      which are exactly the last `|ghosts|` entries. */
  lemma ListingOrder(dirPath: Path, contents: seq<DirEntry>, filter: DotFilter,
                     git: Option<GitCache>, gitIgnoring: bool, ghosts: seq<File>)
    requires forall i :: 0 <= i < |ghosts| ==> ghosts[i].Ghost?
    ensures var l := Listing(dirPath, contents, filter, git, gitIgnoring, ghosts);
      && (filter == DotfilesAndDots ==>
            |l| >= 2 && l[0] == Current(dirPath) && l[1] == Parent(dirPath + [".."]))
      && (filter != DotfilesAndDots ==> forall i :: 0 <= i < |l| ==> l[i].Real? || l[i].Ghost?)
      && (forall i :: 0 <= i < |l| ==> (l[i].Ghost? <==> i >= |l| - |ghosts|))
  {
    var l := Listing(dirPath, contents, filter, git, gitIgnoring, ghosts);
    var d := DotEntries(Dots(filter), dirPath);
    var v := Visible(contents, ShowsDotfiles(filter), git, gitIgnoring);
    assert l == d + v + ghosts;
    forall i | 0 <= i < |l|
      ensures l[i].Ghost? <==> i >= |l| - |ghosts|
      ensures filter != DotfilesAndDots ==> l[i].Real? || l[i].Ghost?
    {
      if i < |d| {
        assert l[i] == d[i];
      } else if i < |d| + |v| {
        assert l[i] == v[i - |d|];
        VisibleMember(contents, ShowsDotfiles(filter), git, gitIgnoring, l[i]);
      } else {
        assert l[i] == ghosts[i - |d| - |v|];
      }
    }
  }

  /** Real entries that are listed pass the filters: no dotfile when dotfiles are
      hidden, and nothing git-ignored when git-ignoring. */
  lemma ListedEntriesPassFilters(dirPath: Path, contents: seq<DirEntry>, filter: DotFilter,
                                 git: Option<GitCache>, gitIgnoring: bool, ghosts: seq<File>, f: File)
    requires forall i :: 0 <= i < |ghosts| ==> ghosts[i].Ghost?
    requires f in Listing(dirPath, contents, filter, git, gitIgnoring, ghosts) && f.Real?
    ensures filter == JustFiles ==> !StartsWith(f.name, ".")
    ensures gitIgnoring ==> !IsIgnored(git, f.path)
    ensures exists i :: 0 <= i < |contents| && f == RealFile(contents[i])
  {
    var d := DotEntries(Dots(filter), dirPath);
    var v := Visible(contents, ShowsDotfiles(filter), git, gitIgnoring);
    assert Listing(dirPath, contents, filter, git, gitIgnoring, ghosts) == d + v + ghosts;
    assert f !in d;
    assert f !in ghosts;
    VisibleMember(contents, ShowsDotfiles(filter), git, gitIgnoring, f);
  }

  /** With ghosts switched off, a listing holds no ghost. */
  lemma NoGhostsListsNoGhosts(dirPath: Path, contents: seq<DirEntry>, filter: DotFilter,
                              git: Option<GitCache>, gitIgnoring: bool)
    ensures forall f :: f in Listing(dirPath, contents, filter, git, gitIgnoring, []) ==> !f.Ghost?
  {
    ListingOrder(dirPath, contents, filter, git, gitIgnoring, []);
  }

  /** A snapshot of a directory: its path and the entries read from it. */
  class Dir {
    var contents: seq<DirEntry>
    const path: Path

    /** `Dir::new`: an empty snapshot; nothing is read. */
    constructor (path: Path)
      ensures this.path == path && contents == []
    {
      this.path := path;
      contents := [];
    }

    /** `Dir::read`, given the result of the operating system's directory read:
        the entries replace `contents`, or the error is returned and `contents`
        is left as it was. */
    method Read(listing: Result<seq<DirEntry>>) returns (r: Result<()>)
      modifies this
      ensures listing.Ok? ==> r == Ok(()) && contents == listing.value
      ensures listing.Err? ==> r == Err(listing.error) && contents == old(contents)
    {
      if listing.Err? {
        return Err(listing.error);
      }
      contents := listing.value;
      r := Ok(());
    }

    /** `Dir::read_dir`: a snapshot filled from the directory read, or its error. */
    static method ReadDir(path: Path, listing: Result<seq<DirEntry>>) returns (r: Result<Dir>)
      ensures listing.Ok? ==> r.Ok? && fresh(r.value) && r.value.path == path && r.value.contents == listing.value
      ensures listing.Err? ==> r == Err(listing.error)
    {
      if listing.Err? {
        return Err(listing.error);
      }
      var d := new Dir(path);
      d.contents := listing.value;
      r := Ok(d);
    }

    /** `Dir::contains`: some entry read from this directory has exactly `p` as its path. */
    function Contains(p: Path): (b: bool)
      reads this
      ensures b <==> exists i :: 0 <= i < |contents| && contents[i].path == p
    {
      HasPath(contents, p)
    }

    /** `Dir::join`: the child's components appended to this directory's path. */
    function Join(child: Path): (p: Path)
      reads this
      ensures IsPrefix(path, p) && p[|path|..] == child
    {
      path + child
    }

    /** `Dir::files`: an iterator over this snapshot; the ghosts are computed
        here, once, unless they are switched off. */
    method Files(filter: DotFilter, git: Option<GitCache>, gitIgnoring: bool, noGhosts: bool, fs: FileSystem)
      returns (it: Files)
      ensures fresh(it) && it.Valid()
      ensures it.Remaining() == Listing(path, contents, filter, git, gitIgnoring, it.ghosts)
      ensures noGhosts ==> it.ghosts == []
      ensures !noGhosts ==> GhostsFor(it.ghosts, path, ExpectedGhostNames(path, contents, fs))
    {
      var ghosts: seq<File>;
      if noGhosts {
        ghosts := [];
      } else {
        ghosts := GetGhosts(path, contents, fs);
      }
      it := new Files(path, contents, filter, git, gitIgnoring, ghosts);
    }
  }

  /** The listing iterator: `.` and `..` if asked for, then the visible real
      entries, then the ghosts. */
  class Files {
    const dirPath: Path
    const contents: seq<DirEntry>
    var index: nat
    const dotfiles: bool
    var dots: DotsNext
    const git: Option<GitCache>
    const gitIgnoring: bool
    const ghosts: seq<File>
    var ghostIndex: nat

    ghost predicate Valid()
      reads this
    {
      index <= |contents| && ghostIndex <= |ghosts|
    }

    /** What the iterator has still to produce. */
    ghost function Remaining(): seq<File>
      reads this
      requires Valid()
    {
      DotEntries(dots, dirPath)
      + Visible(contents[index..], dotfiles, git, gitIgnoring)
      + ghosts[ghostIndex..]
    }

    /** The struct built by `Dir::files`. */
    constructor (dirPath: Path, contents: seq<DirEntry>, filter: DotFilter,
                 git: Option<GitCache>, gitIgnoring: bool, ghosts: seq<File>)
      ensures Valid() && this.dirPath == dirPath && this.contents == contents && this.ghosts == ghosts
      ensures Remaining() == Listing(dirPath, contents, filter, git, gitIgnoring, ghosts)
    {
      this.dirPath := dirPath;
      this.contents := contents;
      index := 0;
      dotfiles := ShowsDotfiles(filter);
      dots := Dots(filter);
      this.git := git;
      this.gitIgnoring := gitIgnoring;
      this.ghosts := ghosts;
      ghostIndex := 0;
      new;
      assert contents[0..] == contents;
    }

    /** `Files::next_visible_file`: skips filtered entries and returns the next
        surviving one, or `None` once the real entries are exhausted. */
    method NextVisibleFile() returns (f: Option<File>)
      requires Valid()
      modifies this`index
      ensures Valid()
      ensures var before := old(Visible(contents[index..], dotfiles, git, gitIgnoring));
        if before == [] then f == None && index == |contents|
        else f == Some(before[0]) && Visible(contents[index..], dotfiles, git, gitIgnoring) == before[1..]
    {
      while index < |contents|
        invariant old(index) <= index <= |contents|
        invariant Visible(contents[index..], dotfiles, git, gitIgnoring)
               == old(Visible(contents[index..], dotfiles, git, gitIgnoring))
        decreases |contents| - index
      {
        var entry := contents[index];
        assert contents[index..][1..] == contents[index + 1..];
        index := index + 1;
        var path := entry.path;
        var filename := FileName(path);
        if !dotfiles && StartsWith(filename, ".") {
          continue;
        }
        if gitIgnoring {
          if IsIgnored(git, path) {
            continue;
          }
        }
        return Some(Real(path, filename));
      }
      return None;
    }

    /** The `DotsNext::Files` arm of `next`: the next visible real entry,
        else the next ghost, else `None`. */
    method NextRealOrGhost() returns (r: Option<File>)
      requires Valid() && dots == DotsNext.Files
      modifies this`index, this`ghostIndex
      ensures Valid()
      ensures old(Remaining()) == [] ==> r == None && Remaining() == []
      ensures old(Remaining()) != [] ==> r == Some(old(Remaining())[0]) && Remaining() == old(Remaining())[1..]
    {
      ghost var vis := Visible(contents[index..], dotfiles, git, gitIgnoring);
      ghost var rest := ghosts[ghostIndex..];
      assert Remaining() == [] + vis + rest;
      EmptyFront(vis, rest);
      var f := NextVisibleFile();
      if f.Some? {
        EmptyFront(vis[1..], rest);
        FirstAndTail(vis, rest);
        return f;
      }
      EmptyFront([], rest);
      if ghostIndex < |ghosts| {
        r := Some(ghosts[ghostIndex]);
        assert rest[1..] == ghosts[ghostIndex + 1..];
        ghostIndex := ghostIndex + 1;
        EmptyFront([], ghosts[ghostIndex..]);
      } else {
        r := None;
      }
    }

    /** `Iterator::next` for `Files`: produces the first remaining entry, or
        `None` for ever once everything has been produced. */
    method Next() returns (r: Option<File>)
      requires Valid()
      modifies this`index, this`dots, this`ghostIndex
      ensures Valid()
      ensures old(Remaining()) == [] ==> r == None && Remaining() == []
      ensures old(Remaining()) != [] ==> r == Some(old(Remaining())[0]) && Remaining() == old(Remaining())[1..]
    {
      match dots
      case Dot =>
        dots := DotDot;
        r := Some(Current(dirPath));
      case DotDot =>
        dots := DotsNext.Files;
        r := Some(Parent(ParentOf(dirPath)));
      case Files =>
        r := NextRealOrGhost();
    }
  }

  /** A front made of no dot entries adds nothing. */
  lemma EmptyFront(a: seq<File>, b: seq<File>)
    ensures [] + a + b == a + b
  {
  }

  /** The first element and the tail of a concatenation whose front is not empty. */
  lemma FirstAndTail(a: seq<File>, b: seq<File>)
    requires a != []
    ensures (a + b)[0] == a[0] && (a + b)[1..] == a[1..] + b
  {
  }

}
