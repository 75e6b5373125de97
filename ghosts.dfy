/** Ghost entries: the children a directory has in the monorepo manifest but
    not on disk (`get_ghosts` of src/fs/dir.rs). */
module Ghosts {
  import opened Wrappers
  import opened Strings
  import opened Paths
  import opened Entries

  /** Where a `src` directory keeps its manifest, relative to itself. */
  const ManifestFile: Path := [".meta", "manifest.json"]

  /** What `get_ghosts` learns from the filesystem. */
  datatype FileSystem = FileSystem(
    /** `Path::canonicalize`: the absolute canonical path, `None` when it fails. */
    canonicalize: Path -> Option<Path>,
    /** The canonical paths for which `Path::exists` holds. */
    existing: set<Path>,
    /** Manifest file path to the key set of the JSON object it holds, for the
        manifests that open and parse; a missing path is an open or parse failure. */
    manifests: map<Path, set<string>>)

  /** `d` is named `src` and has a manifest file. */
  predicate IsSrcRoot(d: Path, existing: set<Path>) {
    FileName(d) == "src" && d + ManifestFile in existing
  }

  /** The ancestor walk: the closest ancestor-or-self of `p` that is a src root. */
  function NearestSrcRoot(p: Path, existing: set<Path>): (r: Option<Path>)
    ensures r.Some? ==> IsPrefix(r.value, p) && IsSrcRoot(r.value, existing)
    decreases |p|
  {
    if IsSrcRoot(p, existing) then Some(p)
    else if p == [] then None
    else NearestSrcRoot(p[..|p| - 1], existing)
  }

  /** The walk stops at the closest src root, and finds none exactly when no
      ancestor-or-self is one. */
  lemma {:induction false} NearestSrcRootIsClosest(p: Path, existing: set<Path>)
    ensures NearestSrcRoot(p, existing).Some? ==>
      forall q :: IsPrefix(q, p) && |q| > |NearestSrcRoot(p, existing).value| ==> !IsSrcRoot(q, existing)
    ensures NearestSrcRoot(p, existing).None? <==> forall q :: IsPrefix(q, p) ==> !IsSrcRoot(q, existing)
    decreases |p|
  {
    if !IsSrcRoot(p, existing) && p != [] {
      var up := p[..|p| - 1];
      NearestSrcRootIsClosest(up, existing);
      forall q | IsPrefix(q, p) && q != p
        ensures IsPrefix(q, up)
      {
        assert up[..|q|] == p[..|q|];
      }
    }
  }

  /** The manifest context of a directory: its canonical path, its src root and
      the manifest's keys. */
  datatype Context = Context(canonical: Path, root: Path, keys: set<string>)

  /** Steps 1 and 2 of `get_ghosts`: canonicalise, find the src root, read its manifest. */
  function ResolveManifest(dirPath: Path, fs: FileSystem): (r: Option<Context>)
    ensures r.Some? ==> IsPrefix(r.value.root, r.value.canonical)
    ensures r.Some? ==> fs.canonicalize(dirPath) == Some(r.value.canonical)
    ensures r.Some? ==> NearestSrcRoot(r.value.canonical, fs.existing) == Some(r.value.root)
    ensures r.Some? ==>
      r.value.root + ManifestFile in fs.manifests && r.value.keys == fs.manifests[r.value.root + ManifestFile]
    ensures r.None? <==>
      || fs.canonicalize(dirPath).None?
      || NearestSrcRoot(fs.canonicalize(dirPath).value, fs.existing).None?
      || NearestSrcRoot(fs.canonicalize(dirPath).value, fs.existing).value + ManifestFile !in fs.manifests
  {
    match fs.canonicalize(dirPath)
    case None => None
    case Some(canonical) =>
      match NearestSrcRoot(canonical, fs.existing)
      case None => None
      case Some(root) =>
        var manifest := root + ManifestFile;
        if manifest in fs.manifests then Some(Context(canonical, root, fs.manifests[manifest]))
        else None
  }

  /** The logical prefix of a directory, given its path relative to the src root. */
  function LogicalPrefix(rel: Path): (r: string)
    ensures StartsWith(r, "//") && r[|r| - 1] == '/'
    ensures r == "//" <==> rel == []
  {
    if rel == [] then "//" else "//" + Display(rel) + "/"
  }

  /** One level deeper, the prefix grows by the directory's name and a `/`. */
  lemma LogicalPrefixExtends(rel: Path, name: string)
    ensures LogicalPrefix(rel + [name]) == LogicalPrefix(rel) + name + "/"
  {
    if rel == [] {
      assert [] + [name] == [name];
      assert Display([name]) == name;
    } else {
      JoinSnoc(rel, "/", name);
      var d := Display(rel);
      AppendAssoc("//", d + "/", name);
      AppendAssoc("//" + d, "/", name);
      assert "//" + (d + "/") == "//" + d + "/";
    }
  }

  /** The ghost name a manifest key contributes under `prefix`, if any: the
      first `/`-separated segment of the non-empty remainder after the prefix. */
  function Segment(key: string, prefix: string): (r: Option<string>)
    ensures r.Some? ==> '/' !in r.value
    ensures r.Some? <==> StartsWith(key, prefix) && |key| > |prefix|
    ensures r.Some? ==> StartsWith(key, prefix + r.value)
  {
    if StartsWith(key, prefix) && |key| > |prefix| then Some(Before(key[|prefix|..], '/'))
    else None
  }

  /** The names of the entries physically present in the directory. */
  function ExistingNames(contents: seq<DirEntry>): set<string> {
    set e | e in contents :: FileName(e.path)
  }

  /** The ghost names that the keys yield under `prefix`. */
  function GhostNames(keys: set<string>, prefix: string, existing: set<string>): set<string> {
    set k | k in keys && Segment(k, prefix).Some? && Segment(k, prefix).value !in existing
      :: Segment(k, prefix).value
  }

  /** The set of ghost names `get_ghosts` produces for a directory. */
  function ExpectedGhostNames(dirPath: Path, contents: seq<DirEntry>, fs: FileSystem): set<string> {
    match ResolveManifest(dirPath, fs)
    case None => {}
    case Some(ctx) =>
      GhostNames(ctx.keys, LogicalPrefix(ctx.canonical[|ctx.root|..]), ExistingNames(contents))
  }

  /** `gs` holds one ghost per name of `names`, each at `dirPath` joined with
      its name. */
  predicate GhostsFor(gs: seq<File>, dirPath: Path, names: set<string>) {
    && (forall i :: 0 <= i < |gs| ==>
          gs[i].Ghost? && gs[i].path == JoinName(dirPath, gs[i].name) && gs[i].name in names)
    && (forall i, j :: 0 <= i < j < |gs| ==> gs[i].name != gs[j].name)
    && (forall n :: n in names ==> exists i :: 0 <= i < |gs| && gs[i].name == n)
  }

  /** Adding one key to the keys already scanned adds at most its own segment. */
  lemma GhostNamesInsert(done: set<string>, key: string, prefix: string, existing: set<string>)
    ensures GhostNames(done + {key}, prefix, existing) ==
      GhostNames(done, prefix, existing) +
      (if Segment(key, prefix).Some? && Segment(key, prefix).value !in existing
       then {Segment(key, prefix).value} else {})
  {
  }

  /** The ancestor walk of `get_ghosts`: from the canonical path up to the
      filesystem root, stopping at the first src root. */
  method FindSrcRoot(canonical: Path, existing: set<Path>) returns (srcRoot: Option<Path>)
    ensures srcRoot == NearestSrcRoot(canonical, existing)
  {
    var current := canonical;
    srcRoot := None;
    while true
      invariant NearestSrcRoot(current, existing) == NearestSrcRoot(canonical, existing)
      decreases |current|
    {
      if FileName(current) == "src" && current + ManifestFile in existing {
        srcRoot := Some(current);
        break;
      }
      if current == [] {
        break;
      }
      current := current[..|current| - 1];
    }
  }

  /** The scan of the manifest keys into the set of ghost names. */
  method CollectGhostNames(keys: set<string>, prefix: string, existing: set<string>)
    returns (ghostNames: set<string>)
    ensures ghostNames == GhostNames(keys, prefix, existing)
  {
    ghostNames := {};
    var todo := keys;
    while todo != {}
      invariant todo <= keys
      invariant ghostNames == GhostNames(keys - todo, prefix, existing)
      decreases |todo|
    {
      var key :| key in todo;
      GhostNamesInsert(keys - todo, key, prefix, existing);
      assert keys - (todo - {key}) == (keys - todo) + {key};
      todo := todo - {key};
      if StartsWith(key, prefix) {
        var suffix := key[|prefix|..];
        if suffix != [] {
          var first := Before(suffix, '/');
          if first !in existing {
            ghostNames := ghostNames + {first};
          }
        }
      }
    }
    assert keys - todo == keys;
  }

  /** One ghost per name, in the set's (unspecified) enumeration order. */
  method MakeGhosts(dirPath: Path, ghostNames: set<string>) returns (ghosts: seq<File>)
    ensures GhostsFor(ghosts, dirPath, ghostNames)
  {
    ghosts := [];
    var names := ghostNames;
    while names != {}
      invariant names <= ghostNames
      invariant GhostsFor(ghosts, dirPath, ghostNames - names)
      decreases |names|
    {
      var name :| name in names;
      var g := Ghost(JoinName(dirPath, name), name);
      forall n | n in ghostNames - (names - {name})
        ensures exists i :: 0 <= i < |ghosts + [g]| && (ghosts + [g])[i].name == n
      {
        if n == name {
          assert (ghosts + [g])[|ghosts|].name == n;
        } else {
          assert n in ghostNames - names;
          var i :| 0 <= i < |ghosts| && ghosts[i].name == n;
          assert (ghosts + [g])[i] == ghosts[i];
        }
      }
      ghosts := ghosts + [g];
      names := names - {name};
    }
    assert ghostNames - names == ghostNames;
  }

  /** `get_ghosts`. */
  method GetGhosts(dirPath: Path, contents: seq<DirEntry>, fs: FileSystem) returns (ghosts: seq<File>)
    ensures GhostsFor(ghosts, dirPath, ExpectedGhostNames(dirPath, contents, fs))
  {
    var canon := fs.canonicalize(dirPath);
    if canon.None? {
      return [];
    }
    var canonical := canon.value;
    var srcRoot := FindSrcRoot(canonical, fs.existing);
    if srcRoot.None? {
      return [];
    }
    var root := srcRoot.value;
    var manifestPath := root + ManifestFile;
    if manifestPath !in fs.manifests {
      return [];
    }
    var keys := fs.manifests[manifestPath];
    var prefix := LogicalPrefix(canonical[|root|..]);
    var ghostNames := CollectGhostNames(keys, prefix, ExistingNames(contents));
    ghosts := MakeGhosts(dirPath, ghostNames);
  }

  /** No manifest, no ghosts: canonicalisation fails, no ancestor-or-self is a
      src root, or the closest src root's manifest fails to open or parse, in
      which case no higher ancestor is tried. */
  lemma NoManifestNoGhosts(dirPath: Path, contents: seq<DirEntry>, fs: FileSystem)
    ensures fs.canonicalize(dirPath).None? ==> ExpectedGhostNames(dirPath, contents, fs) == {}
    ensures fs.canonicalize(dirPath).Some?
      && (forall q :: IsPrefix(q, fs.canonicalize(dirPath).value) ==> !IsSrcRoot(q, fs.existing))
      ==> ExpectedGhostNames(dirPath, contents, fs) == {}
    ensures fs.canonicalize(dirPath).Some?
      && NearestSrcRoot(fs.canonicalize(dirPath).value, fs.existing).Some?
      && NearestSrcRoot(fs.canonicalize(dirPath).value, fs.existing).value + ManifestFile !in fs.manifests
      ==> ExpectedGhostNames(dirPath, contents, fs) == {}
  {
    if fs.canonicalize(dirPath).Some? {
      NearestSrcRootIsClosest(fs.canonicalize(dirPath).value, fs.existing);
    }
  }

  /** The chosen src root is the closest ancestor-or-self with a manifest, and
      the prefix is `//` exactly when the directory is that root. */
  lemma ChosenRootIsClosest(dirPath: Path, fs: FileSystem)
    requires ResolveManifest(dirPath, fs).Some?
    ensures var ctx := ResolveManifest(dirPath, fs).value;
      && IsPrefix(ctx.root, ctx.canonical)
      && IsSrcRoot(ctx.root, fs.existing)
      && (forall q :: IsPrefix(q, ctx.canonical) && |q| > |ctx.root| ==> !IsSrcRoot(q, fs.existing))
      && (LogicalPrefix(ctx.canonical[|ctx.root|..]) == "//" <==> ctx.canonical == ctx.root)
  {
    var ctx := ResolveManifest(dirPath, fs).value;
    NearestSrcRootIsClosest(ctx.canonical, fs.existing);
    assert ctx.canonical[..|ctx.root|] == ctx.root;
    if ctx.canonical[|ctx.root|..] == [] {
      assert ctx.canonical == ctx.canonical[..|ctx.root|];
    }
  }

  /** Every ghost name is the first segment of the non-empty remainder of a key
      under the prefix that names no physical entry, and every such segment is a
      ghost name. */
  lemma GhostNameOrigin(keys: set<string>, prefix: string, existing: set<string>, n: string)
    ensures n in GhostNames(keys, prefix, existing) <==>
      && n !in existing
      && exists k :: k in keys && StartsWith(k, prefix) && |k| > |prefix| && n == Before(k[|prefix|..], '/')
  {
    if n !in existing {
      if k :| k in keys && StartsWith(k, prefix) && |k| > |prefix| && n == Before(k[|prefix|..], '/') {
        assert Segment(k, prefix) == Some(n);
      }
    }
  }

  /** A key equal to the prefix itself contributes no ghost. */
  lemma KeyEqualToPrefixAddsNothing(keys: set<string>, prefix: string, existing: set<string>)
    ensures GhostNames(keys + {prefix}, prefix, existing) == GhostNames(keys, prefix, existing)
  {
    GhostNamesInsert(keys, prefix, prefix, existing);
  }

  /** Physical entries take precedence: no ghost is named after an entry of the directory. */
  lemma GhostsNeverShadowEntries(dirPath: Path, contents: seq<DirEntry>, fs: FileSystem, n: string)
    requires n in ExpectedGhostNames(dirPath, contents, fs)
    ensures forall i :: 0 <= i < |contents| ==> FileName(contents[i].path) != n
  {
    var ctx := ResolveManifest(dirPath, fs).value;
    assert n !in ExistingNames(contents);
    forall i | 0 <= i < |contents|
      ensures FileName(contents[i].path) != n
    {
      assert FileName(contents[i].path) in ExistingNames(contents);
    }
  }

  /** A key made of the prefix, one segment and a `/`-led rest yields that segment. */
  lemma SegmentUnder(prefix: string, name: string, rest: string)
    requires '/' !in name && name != []
    requires rest == [] || rest[0] == '/'
    ensures Segment(prefix + name + rest, prefix) == Some(name)
  {
    var key := prefix + name + rest;
    assert key[..|prefix|] == prefix;
    assert key[|prefix|..] == name + rest;
    if rest == [] {
      assert Before(name, '/') == name;
    } else {
      assert rest == ['/'] + rest[1..];
      BeforeSeparator(name, '/', rest[1..]);
      assert name + rest == name + ['/'] + rest[1..];
    }
  }

  /** Under `//areas/`, the keys `//areas/tools/dev` and `//areas/apps/flow`
      yield exactly the ghosts `tools` and `apps`. */
  lemma AreasExample()
    ensures GhostNames(AreaKeys, "//areas/", {}) == {"tools", "apps"}
  {
    AreaKeySegments();
    TwoGhostNames("//areas/tools/dev", "//areas/apps/flow", "//areas/", {});
  }

  /** Below `//areas/`, the two example keys lie in the segments `tools` and `apps`. */
  lemma AreaKeySegments()
    ensures Segment("//areas/tools/dev", "//areas/") == Some("tools")
    ensures Segment("//areas/apps/flow", "//areas/") == Some("apps")
  {
    assert "//areas/tools/dev" == "//areas/" + "tools" + "/dev";
    SegmentUnder("//areas/", "tools", "/dev");
    assert "//areas/apps/flow" == "//areas/" + "apps" + "/flow";
    SegmentUnder("//areas/", "apps", "/flow");
  }

  /** Under `//areas/tools/`, the same two keys yield the single ghost `dev`. */
  lemma AreasToolsExample()
    ensures GhostNames(AreaKeys, "//areas/tools/", {}) == {"dev"}
  {
    var p := "//areas/tools/";
    var tools, apps := "//areas/tools/dev", "//areas/apps/flow";
    SegmentUnder(p, "dev", "");
    assert tools == p + "dev" + "";
    assert apps[8] != p[8];
    assert Segment(apps, p) == None;
    TwoGhostNames(tools, apps, p, {});
  }

  /** The two manifest keys of the examples. */
  const AreaKeys: set<string> := {"//areas/tools/dev", "//areas/apps/flow"}

  /** A filesystem whose paths are already canonical and whose only manifest
      is the one of the src root `root`, holding `keys`. */
  function OneManifest(root: Path, keys: set<string>): FileSystem {
    FileSystem(p => Some(p), {root + ManifestFile}, map[root + ManifestFile := keys])
  }

  /** Below the only src root, a directory's ghost names are those the
      manifest's keys yield under the prefix of its path relative to that root. */
  lemma SingleRootGhostNames(root: Path, rel: Path, keys: set<string>, contents: seq<DirEntry>)
    requires FileName(root) == "src"
    ensures ExpectedGhostNames(root + rel, contents, OneManifest(root, keys)) ==
      GhostNames(keys, LogicalPrefix(rel), ExistingNames(contents))
  {
    var fs := OneManifest(root, keys);
    var p := root + rel;
    assert p[..|root|] == root;
    assert IsSrcRoot(root, fs.existing);
    NearestSrcRootIsClosest(p, fs.existing);
    var found := NearestSrcRoot(p, fs.existing).value;
    assert found + ManifestFile == root + ManifestFile;
    assert found == (found + ManifestFile)[..|found|];
    assert found == root;
    assert p[|root|..] == rel;
  }

  /** The directory `/repo/src/areas` of a repository whose src root lists the
      two example keys gets the ghosts `tools` and `apps`. */
  lemma AreasDirectoryExample()
    ensures ExpectedGhostNames(["repo", "src", "areas"], [], OneManifest(["repo", "src"], AreaKeys))
      == {"tools", "apps"}
  {
    SingleRootGhostNames(["repo", "src"], ["areas"], AreaKeys, []);
    assert ["repo", "src"] + ["areas"] == ["repo", "src", "areas"];
    AreasPrefix();
    assert ExistingNames([]) == {};
    AreasExample();
  }

  /** Its subdirectory `/repo/src/areas/tools` gets the single ghost `dev`. */
  lemma AreasToolsDirectoryExample()
    ensures ExpectedGhostNames(["repo", "src", "areas", "tools"], [], OneManifest(["repo", "src"], AreaKeys))
      == {"dev"}
  {
    SingleRootGhostNames(["repo", "src"], ["areas", "tools"], AreaKeys, []);
    assert ["repo", "src"] + ["areas", "tools"] == ["repo", "src", "areas", "tools"];
    AreasToolsPrefix();
    assert ExistingNames([]) == {};
    AreasToolsExample();
  }

  /** The prefix of `areas` below the root. */
  lemma AreasPrefix()
    ensures LogicalPrefix(["areas"]) == "//areas/"
  {
    LogicalPrefixExtends([], "areas");
    assert [] + ["areas"] == ["areas"];
  }

  /** The prefix of `areas/tools` below the root, one level deeper. */
  lemma AreasToolsPrefix()
    ensures LogicalPrefix(["areas", "tools"]) == "//areas/tools/"
  {
    AreasPrefix();
    LogicalPrefixExtends(["areas"], "tools");
    assert ["areas"] + ["tools"] == ["areas", "tools"];
  }

  /** The ghost names two keys yield are the names each of them yields. */
  lemma TwoGhostNames(k1: string, k2: string, prefix: string, existing: set<string>)
    ensures GhostNames({k1, k2}, prefix, existing) ==
      (if Segment(k1, prefix).Some? && Segment(k1, prefix).value !in existing
       then {Segment(k1, prefix).value} else {}) +
      (if Segment(k2, prefix).Some? && Segment(k2, prefix).value !in existing
       then {Segment(k2, prefix).value} else {})
  {
    GhostNamesInsert({}, k1, prefix, existing);
    GhostNamesInsert({k1}, k2, prefix, existing);
    assert {} + {k1} == {k1};
    assert {k1} + {k2} == {k1, k2};
    assert GhostNames({}, prefix, existing) == {};
  }
}
