# wls directory listing core, modelled in Dafny

This project models two parts of `wls`, an `ls` replacement:

- **The listing core of `src/fs/dir.rs`.**
  - `Dir` is a snapshot of one directory: its path and the entries read from it.
  - `Dir::files` builds the `Files` iterator. The iterator yields, in order:
    `.` and `..` when the dot filter asks for them; then the real entries that
    survive the dotfile and git-ignore filters, in read order; then the
    *ghosts*.
  - A ghost is a child that the monorepo manifest declares but the directory
    does not hold on disk. `get_ghosts` finds the closest ancestor-or-self
    directory named `src` that has a `.meta/manifest.json`. It reads that
    manifest's keys and works out the directory's logical prefix (`//` or
    `//rel/path/`). Each key under the prefix yields a ghost named after the
    key's first segment below the prefix, unless a real entry has that name.
- **The string processing of `build.rs`.**
  - `compile_ls_colors` turns a dircolors database into `LS_COLORS` text.
  - `strip_codes` removes three escape markers.
  - `nonstandard_features_string` gives the feature summary.

Layout:

- `wrappers.dfy`: `Option`, `Result`, `IoError`.
- `strings.dfy`: the Rust `str` operations the core uses (`trim`,
  `starts_with`, `splitn` on whitespace, `split`, `join`, `replace`).
- `paths.dfy`: a path is a sequence of components, and `[]` is the root.
- `entries.dfy`: directory entries, listing entries, the git cache.
- `ghosts.dfy`: `get_ghosts`.
- `dir.dfy`: `DotFilter`, `DotsNext`, `Dir`, `Files`.
- `build.dfy`: the build-script core.

The filesystem is an input value (`Ghosts.FileSystem`). It has three parts:

- the canonicalisation function;
- the set of existing paths;
- a map from manifest file paths to the key sets their JSON objects hold.

A manifest path that is missing from the map is one that fails to open or
parse. The directory read handed to `Dir::read`/`Dir::read_dir` is a
`Result<seq<DirEntry>>`. The dircolors file handed to `compile_ls_colors` is
the result of opening it, holding one read result per line.

The imperative parts stay imperative:

- `Dir` and `Files` are classes.
- `Files::next_visible_file` is a loop over a cursor.
- The ancestor walk, the manifest-key scan and the ghost construction of
  `get_ghosts` are loops.
- The line loop of `compile_ls_colors` keeps its `continue`s.

Each of these methods is proved against a specification function:
`NearestSrcRoot`, `GhostNames`, `Visible`, `Files.Remaining`, `ParseLine` and
`Compiled`. The properties the source promises are proved about those
functions as lemmas.

`src/fs/dir.rs` has no display zones, no ghost directories with ghost
children of their own and no `is_valid_ghost_dir` check: `get_ghosts` yields
only the listed directory's direct ghost children, and only that is modelled.

## Model

| member | source | states |
|---|---|---|
| Ghosts.NearestSrcRoot | src/fs/dir.rs:38-53 | the directory the ancestor walk stops at is an ancestor-or-self of the canonical path, is named `src` and has `.meta/manifest.json` |
| Ghosts.NearestSrcRootIsClosest | src/fs/dir.rs:41-53 | the walk stops at the closest such directory: no strictly deeper ancestor-or-self qualifies; it finds none exactly when no ancestor-or-self qualifies |
| Ghosts.FindSrcRoot | src/fs/dir.rs:38-53 | the `loop` over `current.parent()` returns exactly the closest src root, or `None` once it has passed the filesystem root |
| Ghosts.ResolveManifest | src/fs/dir.rs:28-76 | a manifest context exists exactly when canonicalisation succeeds, the walk finds a src root and that root's manifest opens and parses; the root is then the walk's, a prefix of the canonical path, and the keys are that manifest's keys |
| Ghosts.LogicalPrefix | src/fs/dir.rs:84-88 | the prefix starts with `//` and ends with `/`, and it is exactly `//` when the relative path is empty |
| Ghosts.LogicalPrefixExtends | src/fs/dir.rs:84-88 | one directory deeper, the prefix is the parent's prefix followed by the directory's name and `/`: the relative path's components joined by `/` sit between `//` and the final `/` |
| Ghosts.Segment | src/fs/dir.rs:99-103 | a key yields a segment exactly when it starts with the prefix and has a non-empty remainder; the segment holds no `/` and the key starts with prefix + segment |
| Ghosts.ExistingNames | src/fs/dir.rs:92-94 | (definition) the file names of the entries read from the directory |
| Ghosts.GhostNames | src/fs/dir.rs:97-111 | (definition) the first segments below the prefix of the keys that have one, leaving out the names of physical entries |
| Ghosts.ExpectedGhostNames | src/fs/dir.rs:27-111 | (definition) no names when no manifest context resolves, otherwise the ghost names of the manifest's keys under the directory's logical prefix |
| Ghosts.CollectGhostNames | src/fs/dir.rs:90-111 | the scan over the manifest keys collects exactly the set of first segments, below the prefix, that name no physical entry |
| Ghosts.MakeGhosts | src/fs/dir.rs:113-117 | one ghost per name, no name twice, each at the directory's path joined with its name as `Path::join` compares it (an empty or `.` name adds no component) |
| Ghosts.GetGhosts | src/fs/dir.rs:27-121 | the ghosts are exactly one `Ghost` per expected ghost name, at `dir.path` joined with that name |
| Ghosts.NoManifestNoGhosts | src/fs/dir.rs:29-76 | no ghosts when canonicalisation fails, when no ancestor-or-self is a src root, or when the closest root's manifest fails to open or parse (no higher root is tried) |
| Ghosts.ChosenRootIsClosest | src/fs/dir.rs:38-88 | the root used is a prefix of the canonical path and the closest src root, so the `strip_prefix` failure branch is never taken; the prefix is `//` exactly when the directory is the root |
| Ghosts.GhostNameOrigin | src/fs/dir.rs:98-111 | a name is a ghost name if and only if it names no physical entry and is the first `/`-segment of some key's non-empty remainder after the prefix |
| Ghosts.KeyEqualToPrefixAddsNothing | src/fs/dir.rs:99-101 | a key equal to the prefix itself (empty suffix) adds no ghost |
| Ghosts.GhostsNeverShadowEntries | src/fs/dir.rs:92-107 | no ghost name equals the file name of any entry of the directory |
| Ghosts.SegmentUnder | src/fs/dir.rs:99-103 | prefix + name + (`/`-led rest) yields exactly `name` |
| Ghosts.AreasExample | src/fs/dir.rs:90-111 | under `//areas/`, keys `//areas/tools/dev` and `//areas/apps/flow` give exactly the ghosts `tools` and `apps` |
| Ghosts.TwoGhostNames | src/fs/dir.rs:97-111 | the ghost names of two keys are the names each key yields, united |
| Ghosts.AreasToolsExample | src/fs/dir.rs:90-111 | under `//areas/tools/`, the same keys give exactly the ghost `dev` |
| Ghosts.SingleRootGhostNames | src/fs/dir.rs:27-111 | below the only src root of an already-canonical filesystem, a directory's ghost names are what the manifest's keys yield under the prefix of its path relative to that root |
| Ghosts.AreasPrefix | src/fs/dir.rs:84-88 | the prefix of `areas` below the root is `//areas/` |
| Ghosts.AreasToolsPrefix | src/fs/dir.rs:84-88 | the prefix of `areas/tools` below the root is `//areas/tools/` |
| Ghosts.AreasDirectoryExample | src/fs/dir.rs:27-111 | `/repo/src/areas`, whose src root `/repo/src` lists `//areas/tools/dev` and `//areas/apps/flow`, gets exactly the ghosts `tools` and `apps` |
| Ghosts.AreasToolsDirectoryExample | src/fs/dir.rs:27-111 | `/repo/src/areas/tools` in the same repository gets exactly the ghost `dev` |
| Paths.JoinName | src/fs/dir.rs:115 | `Path::join` of one name, compared by components: the path is kept for an empty or `.` name, otherwise extended by that one name |
| FsDir.ShowsDotfiles | src/fs/dir.rs:374-380 | dotfiles are shown exactly when the filter is not `JustFiles` |
| FsDir.Dots | src/fs/dir.rs:383-389 | listing starts at `.` exactly for `DotfilesAndDots`, and never starts at `..` |
| FsDir.ParentOf | src/fs/dir.rs:256-263 | the path of `..` is the directory's path with one more component, `..`, not its parent |
| FsDir.Keep | src/fs/dir.rs:271-288 | (definition) an entry survives when it is not a dotfile hidden by the filter and not git-ignored while ignoring |
| FsDir.Visible | src/fs/dir.rs:267-311 | only real entries, never more than were read |
| FsDir.Listing | src/fs/dir.rs:184-210 | (definition) the dot entries of the filter, then the visible entries, then the ghosts |
| FsDir.HasPath | src/fs/dir.rs:214-216 | true exactly when some entry has that path |
| FsDir.VisibleConcat | src/fs/dir.rs:267-311 | filtering is entry-by-entry and keeps read order: the visible files of two runs are the first run's followed by the second's |
| FsDir.VisibleMember | src/fs/dir.rs:267-311 | a file is visible if and only if it is built from an entry that is not a hidden dotfile and not git-ignored while ignoring |
| FsDir.AbsentCacheIgnoresNothing | src/fs/dir.rs:283-288 | with no git cache, git-ignoring removes nothing (the default status is not `Ignored`) |
| FsDir.UnfilteredListsEverything | src/fs/dir.rs:267-311 | showing dotfiles without git-ignoring lists every entry, one-to-one and in read order |
| FsDir.ListingOrder | src/fs/dir.rs:330-353 | `.` then `..` come first with `DotfilesAndDots`; otherwise only real entries and ghosts; the ghosts are exactly the last entries |
| FsDir.ListedEntriesPassFilters | src/fs/dir.rs:271-288 | every listed real entry comes from the directory's contents, is no dotfile under `JustFiles`, and is not git-ignored while ignoring |
| FsDir.NoGhostsListsNoGhosts | src/fs/dir.rs:193-194 | with ghosts switched off no ghost is listed |
| FsDir.Dir.constructor | src/fs/dir.rs:143-148 | the new snapshot has the given path and no entries |
| FsDir.Dir.Read | src/fs/dir.rs:155-162 | on success the entries read replace the contents; on error the error is returned and the contents are unchanged |
| FsDir.Dir.ReadDir | src/fs/dir.rs:172-179 | on success a fresh snapshot with the path and the entries read; otherwise the read error |
| FsDir.Dir.Contains | src/fs/dir.rs:214-216 | true exactly when some entry of the contents has exactly that path |
| FsDir.Dir.Join | src/fs/dir.rs:220-222 | the result extends the directory's path by exactly the child's components |
| FsDir.Dir.Files | src/fs/dir.rs:184-210 | the iterator will produce exactly the listing (dots, visible entries, ghosts); no ghosts when they are switched off, otherwise exactly the ghosts `get_ghosts` gives |
| FsDir.Files.constructor | src/fs/dir.rs:199-209 | the iterator starts with everything of the listing still to produce |
| FsDir.Files.Valid | src/fs/dir.rs:227-254 | (definition) the cursors into the entries and the ghosts are within bounds |
| FsDir.Files.Remaining | src/fs/dir.rs:330-353 | (definition) what is still to come: the dot entries not yet produced, the visible entries after the cursor, the ghosts after theirs |
| FsDir.Files.NextVisibleFile | src/fs/dir.rs:267-311 | yields the first remaining visible entry and advances past it, or `None` with all entries consumed |
| FsDir.Files.NextRealOrGhost | src/fs/dir.rs:346-351 | once the dots are done, yields the next visible real entry, else the next ghost, else `None` |
| FsDir.Files.Next | src/fs/dir.rs:330-353 | yields the first entry still to produce and drops it from what remains, or `None` for ever once nothing remains |
| Build.NamedCode | build.rs:113-132 | a named key's code is two lower-case letters, and named keys start with an upper-case letter |
| Build.LsKey | build.rs:112-139 | named keys map to their code, other keys starting with `.` get a leading `*`, all others pass through; the result holds only characters of the key, `*` and code letters |
| Build.LsKeyMakesGlobs | build.rs:133-138 | the LS_COLORS key is a glob (`*`-led) exactly when the dircolors key starts with `.` or `*` |
| Build.KeyAliasesAgree | build.rs:113-123 | `NORMAL`/`NORM`, `RESET`/`RS`, `LINK`/`LNK`/`SYMLINK`, `FIFO`/`PIPE`, `BLK`/`BLOCK`, `CHR`/`CHAR` share their codes |
| Build.SplitKey | build.rs:95-103 | `splitn(2, whitespace)`: the key is the whitespace-free start of the line; there is a rest exactly when the line holds whitespace, and it starts after that one whitespace character |
| Build.ValueOf | build.rs:100-106 | the value is the trimmed text before the first `#` of the trimmed rest (or before its end when it has none); it is trimmed, holds no `#`, and holds only characters of the rest |
| Build.ParseLine | build.rs:82-109 | an accepted line has a non-empty whitespace-free key not starting with `#`, and a non-empty trimmed value without `#` |
| Build.ParsedCharacters | build.rs:82-109 | the key and value of an accepted line are made of the line's characters |
| Build.Item | build.rs:141 | (definition) an item is the LS_COLORS key, `=` and the value |
| Build.LineItems | build.rs:82-141 | a line contributes at most one item |
| Build.Compiled | build.rs:80-144 | never more items than lines |
| Build.CollectSnoc | build.rs:80-141 | the line loop appends what the next line contributes to the items so far |
| Build.ParseLineTrims | build.rs:82 | a line is parsed exactly as its trimmed text is |
| Build.SplitKeyAt | build.rs:95-103 | a whitespace-free key and one whitespace character split off exactly the remainder after them |
| Build.CommentValue | build.rs:100-106 | the value of whitespace, `VALUE`, whitespace and `#comment` is `VALUE`, whatever the comment holds |
| Build.KeyAloneSkipped | build.rs:95-103 | a key with nothing after it contributes nothing |
| Build.ReadLines | build.rs:80-81 | the lines read successfully exactly when no line read fails, and then the strings are the lines' values, one per line; otherwise the error is that of the first line that fails |
| Build.CompiledFile | build.rs:75-145 | (definition) the open error, else the first read error, else the accepted lines' items joined with `:` |
| Build.ReadErrorPersists | build.rs:80-81 | the first line that fails to read decides the error of the whole run |
| Build.CompileLsColors | build.rs:75-145 | the result is the open or first read error, else the accepted lines' items joined with `:`; an empty file gives `""` |
| Build.CompiledConcat | build.rs:80-144 | the items of concatenated lines are the items of each part, in input order |
| Build.CompiledLine | build.rs:141 | an accepted line contributes exactly its `ls_key=value` item |
| Build.CompiledSkip | build.rs:82-109 | a skipped line contributes nothing |
| Build.KeyAndRest | build.rs:82-109 | a key, one whitespace character and any remainder parse as that key with the remainder's value, or are skipped when that value is empty; only `TERM` and a space make a `TERM ` line |
| Build.KeyAndBlank | build.rs:95-103 | a key followed by whitespace only contributes nothing |
| Build.TrimKeyLine | build.rs:82 | trimming a line that starts with a key and whitespace trims only the remainder's end, or all of it when it is blank |
| Build.LeadingWhitespaceIgnored | build.rs:82 | whitespace before a line makes no difference to how it is parsed |
| Build.KeyAndRemainder | build.rs:89-109 | the same for a remainder not ending in whitespace, on a line that does not start with `TERM ` |
| Build.PaddedValue | build.rs:100-106 | a value with whitespace around it and no `#` is read as itself |
| Build.KeyValueLine | build.rs:95-109 | `KEY VALUE`, with any run of whitespace between key and value and any whitespace after, is accepted as exactly that key and value |
| Build.CommentedLine | build.rs:95-109 | `KEY VALUE #comment`, with any whitespace around the value, is accepted as that key and value: the comment and the whitespace before it are dropped |
| Build.NotTermLine | build.rs:89-92 | a whitespace-free key and a whitespace character make a `TERM ` line only when they are `TERM` and a space |
| Build.TermLineSkipped | build.rs:89-92 | every line starting `TERM ` contributes nothing |
| Build.TermKeyText | build.rs:89 | the key `TERM` and a space make a line that starts `TERM ` |
| Build.BlankAndCommentLinesSkipped | build.rs:82-87 | a line that is empty or starts with `#` after trimming contributes nothing |
| Build.MissingValueSkipped | build.rs:95-109 | a key alone, or a key, whitespace and any remainder whose value is empty, contributes nothing |
| Build.ItemParts | build.rs:111-141 | an item holds only the characters of its key and value, `=`, `*` and code letters |
| Build.ItemCharacters | build.rs:111-141 | an item holds only the line's characters, `=`, `*` and code letters |
| Build.ItemsWithoutSeparator | build.rs:111-141 | when no line contains `:`, no item does |
| Build.LineItemsWithoutSeparator | build.rs:111-141 | a line without `:` contributes no item with `:` |
| Build.CompiledItemsRecoverable | build.rs:141-144 | the output splits at `:` back into exactly its items, in order, when no line holds `:` and some line is accepted |
| Build.StripCodes | build.rs:148-153 | removing markers never lengthens the text |
| Build.StripCodesLeavesPlainText | build.rs:148-153 | a text containing none of the three markers is returned unchanged |
| Build.MarkersDiffer | build.rs:148-153 | no marker starts a text that begins with a different marker |
| Build.MarkerStays | build.rs:148-153 | the pass for one marker keeps a different marker in place and goes on after it |
| Build.PassStep | build.rs:148-153 | a pass cuts a leading piece that is its own marker and keeps any other marker or backslash-free text |
| Build.PassRemoves | build.rs:148-153 | a pass over markers and backslash-free texts removes exactly the pieces that are its marker |
| Build.Without | build.rs:148-153 | the pieces left by a pass are all different from its marker and all come from the input |
| Build.Plain | build.rs:148-153 | the text pieces are no marker and all come from the input |
| Build.WithoutAllMarkers | build.rs:148-153 | the three passes in turn leave exactly the text pieces, in order |
| Build.StripCodesRemovesEveryMarker | build.rs:148-153 | any text made of the three markers and backslash-free texts, in any number and order, loses every marker and keeps every text, in order |
| Build.ReleaseVersionStripped | build.rs:49-59 | the version text of a release build, stripped, is the tagline, the version and the url without their colour markers |
| Build.NonstandardFeaturesString | build.rs:208-218 | the summary is exactly `+git` with the GIT feature and `-git` without |

## Left out

- Filesystem I/O (`canonicalize`, `exists`, `read_dir`, opening files) is not performed: its outcomes are inputs (`FileSystem`, the `Result` handed to `Read`/`ReadDir`/`CompileLsColors`).
- The JSON parsing of the manifest (`serde_json`) is reduced to the key set of the parsed object; the manifest's values are never used by `get_ghosts`.
- Logging (`debug!`, `warn!`, `info!`) has no observable effect on the results and is omitted.
- The Windows-only branches of `next_visible_file` (hiding `_`-prefixed and hidden-attribute files) are not modelled; the model is the non-Windows build.
- `GitCache` is reduced to the set of paths whose unstaged status is `Ignored`; how statuses are computed belongs to the git module, which is not part of this model.
- `deref_links` and `total_size` are only passed on to `File` constructors; they do not affect which entries are listed, so they are not parameters of the model.
- `File::from_args`, `File::new_aa_current`, `File::new_aa_parent` and `File::new_ghost` are reduced to the path and name they record; the metadata they fetch is not modelled.
- FsDir.Dir.Join: Rust's `Path::join` with an absolute child replaces the base path; the model only appends relative children.
- The order of the ghosts follows the enumeration of a `HashSet` in the source and is unspecified; the model and its contracts fix only which ghosts appear, once each, after the real entries.
- `get_ghosts` is modelled as three loops (`FindSrcRoot`, `CollectGhostNames`, `MakeGhosts`) driven by `GetGhosts`, and the `DotsNext::Files` arm of `next` as its own method `NextRealOrGhost`; the behaviour is that of the single Rust functions.
- Build.LsKey: the source's separate match arm for keys starting with `*` returns the key unchanged, as the fallback arm does, so the model merges the two.
- Build.CompileLsColors: the line splitting of `BufRead::lines` (dropping `\n` and `\r\n`) is not modelled; the input is the lines already split.
- Build.NonstandardFeaturesString: reading the `CARGO_FEATURE_GIT` environment variable (`feature_enabled`) is replaced by a boolean parameter.
- The rest of `build.rs` (`main`, `git_hash`, `build_date`, `is_debug_build`, `is_development_version`, `cargo_version`, `version_string`) reads environment variables, spawns `git`, reads the clock or writes files, and is not modelled.

