/**
 * `generate_manifest.js`: the publisher's side of the update channel. It
 * checks the builder configuration, derives the channel's base URL, the
 * composite game version and the dated manifest version, walks
 * `update_files/` for every non-hidden file, and writes `manifest.json` next
 * to the script. The current git branch, the clock, SHA-1 and `stat.size` are
 * parameters.
 */
module ManifestGenerator {
  import opened Wrappers
  import opened Strings
  import opened Js
  import opened Documents
  import opened FileTree
  import Descriptor
  import ConfigValidator
  import Updater

  const RequiredFields: seq<string> := ["repoUser", "repoName", "branch", "fabricLoaderVersion", "gameVersion"]

  const LauncherVersion := "1.1.1"

  /** Why the script exits without writing a manifest. */
  datatype GenerateError =
    | MissingRequired(fields: seq<string>)
    | UpdateDirMissing
    | UpdateDirNotADirectory
    | WriteFailed

  /** `currentBranch || config.branch`: an empty or absent branch falls back to the configured one. */
  function Branch(currentBranch: Option<string>, config: ConfigValidator.Config): string {
    if currentBranch.Some? && currentBranch.value != "" then currentBranch.value
    else Text(Get(config, "branch"))
  }

  /** `BASE_URL`: the raw-content folder that the published files are served from. */
  function BaseUrl(config: ConfigValidator.Config, currentBranch: Option<string>): string {
    "https://raw.githubusercontent.com/" + Text(Get(config, "repoUser")) + "/" + Text(Get(config, "repoName")) + "/"
      + Branch(currentBranch, config) + "/update_files"
  }

  /** `GAME_VERSION`: the composite id the updater later splits back apart. */
  function GameVersionId(config: ConfigValidator.Config): string {
    "fabric-loader-" + Text(Get(config, "fabricLoaderVersion")) + "-" + Text(Get(config, "gameVersion"))
  }

  /** `MANIFEST_VERSION`: the date part of an ISO timestamp with its dashes turned into dots. */
  function ManifestVersion(iso: string): string {
    ReplaceAll(Split(iso, 'T')[0], '-', '.')
  }

  function LauncherUrl(config: ConfigValidator.Config): string {
    "https://github.com/" + Text(Get(config, "repoUser")) + "/" + Text(Get(config, "repoName"))
      + "/releases/download/v" + LauncherVersion + "/horizonsetup-" + LauncherVersion + ".exe"
  }

  function UpdateDir(scriptDir: Path): Path {
    scriptDir + ["update_files"]
  }

  function ManifestPath(scriptDir: Path): Path {
    scriptDir + ["manifest.json"]
  }

  // ----- The directory walk -----

  /** Hidden files and the Windows thumbnail cache are not published. */
  predicate Hidden(name: string) {
    StartsWith(name, ".") || name == "Thumbs.db"
  }

  /** `path.relative(root, q)` with backslashes turned into slashes. */
  function RelativePath(root: Path, q: Path): string
    requires IsPrefix(root, q)
  {
    ReplaceAll(Join(q[|root|..], "/"), '\\', '/')
  }

  function EntryFor(root: Path, q: Path, c: Content, baseUrl: string,
                    sha1: Content -> string, size: Content -> nat): FileEntry
    requires IsPrefix(root, q)
  {
    var rel := RelativePath(root, q);
    FileEntry(rel, baseUrl + "/" + rel, Some(sha1(c)), Some(size(c)))
  }

  /** The entries `scanDirectory(dir)` appends, in `readdir` order, depth first. */
  function ScanDir(t: Tree, root: Path, dir: Path, baseUrl: string,
                   sha1: Content -> string, size: Content -> nat): seq<FileEntry>
    requires IsPrefix(root, dir)
    decreases |Under(t, dir)|, 2, 0
  {
    if IsDir(t, dir) then ScanNames(t, root, dir, t[dir].names, baseUrl, sha1, size) else []
  }

  function ScanNames(t: Tree, root: Path, dir: Path, names: seq<string>, baseUrl: string,
                     sha1: Content -> string, size: Content -> nat): seq<FileEntry>
    requires IsPrefix(root, dir) && dir in t
    decreases |Under(t, dir)|, 1, |names|
  {
    if names == [] then []
    else Contribution(t, root, dir, names[0], baseUrl, sha1, size) + ScanNames(t, root, dir, names[1..], baseUrl, sha1, size)
  }

  /** What the listed name `n` of `dir` adds: its whole subtree, its own entry, or nothing. */
  function Contribution(t: Tree, root: Path, dir: Path, n: string, baseUrl: string,
                        sha1: Content -> string, size: Content -> nat): seq<FileEntry>
    requires IsPrefix(root, dir) && dir in t
    decreases |Under(t, dir)|, 0, 0
  {
    var child := dir + [n];
    assert child[..|root|] == dir[..|root|];
    if IsDir(t, child) then
      UnderShrinks(t, dir, n);
      ScanDir(t, root, child, baseUrl, sha1, size)
    else if IsFile(t, child) && !Hidden(n) then [EntryFor(root, child, t[child].data, baseUrl, sha1, size)]
    else []
  }

  /** `scanDirectory(dir, fileList)`: appends to `fileList` and returns it. */
  method ScanDirectory(disk: Disk, root: Path, dir: Path, baseUrl: string,
                       sha1: Content -> string, size: Content -> nat, fileList: seq<FileEntry>)
    returns (list: seq<FileEntry>)
    requires IsPrefix(root, dir) && IsDir(disk.tree, dir)
    ensures list == fileList + ScanDir(disk.tree, root, dir, baseUrl, sha1, size)
    decreases |Under(disk.tree, dir)|, 2, 0
  {
    var files := disk.tree[dir].names;
    list := fileList;
    var i := 0;
    while i < |files|
      invariant 0 <= i <= |files|
      invariant list + ScanNames(disk.tree, root, dir, files[i..], baseUrl, sha1, size)
                == fileList + ScanDir(disk.tree, root, dir, baseUrl, sha1, size)
    {
      var file := files[i];
      var filePath := dir + [file];
      assert files[i..][1..] == files[i + 1..];
      assert filePath[..|root|] == dir[..|root|];
      if IsDir(disk.tree, filePath) {
        UnderShrinks(disk.tree, dir, file);
        list := ScanDirectory(disk, root, filePath, baseUrl, sha1, size, list);
      } else if IsFile(disk.tree, filePath) {
        var relativePath := RelativePath(root, filePath);
        if !(StartsWith(file, ".") || file == "Thumbs.db") {
          var data := disk.tree[filePath].data;
          list := list + [FileEntry(relativePath, baseUrl + "/" + relativePath, Some(sha1(data)), Some(size(data)))];
        }
      }
      i := i + 1;
    }
  }

  // ----- The script -----

  function BuildManifest(config: ConfigValidator.Config, isoNow: string, files: seq<FileEntry>): Manifest {
    Manifest(Str(ManifestVersion(isoNow)), Str(GameVersionId(config)), Str(LauncherVersion),
             Str(LauncherUrl(config)), FilesList(files))
  }

  /** The whole script: the tree afterwards and the manifest written, or why it stopped. */
  function Generate(t: Tree, scriptDir: Path, config: ConfigValidator.Config, currentBranch: Option<string>,
                    isoNow: string, sha1: Content -> string, size: Content -> nat): (Tree, Result<Manifest, GenerateError>)
  {
    var missing := ConfigValidator.MissingAmong(config, RequiredFields);
    var root := UpdateDir(scriptDir);
    if |missing| > 0 then (t, Err(MissingRequired(missing)))
    else if root !in t then (t, Err(UpdateDirMissing))
    else if !IsDir(t, root) then (t, Err(UpdateDirNotADirectory))
    else
      Publish(t, scriptDir, BuildManifest(config, isoNow, ScanDir(t, root, root, BaseUrl(config, currentBranch), sha1, size)))
  }

  /** `fs.writeFileSync(MANIFEST_PATH, ...)`; a failed write throws. */
  function Publish(t: Tree, scriptDir: Path, m: Manifest): (Tree, Result<Manifest, GenerateError>) {
    match WriteTree(t, ManifestPath(scriptDir), ManifestDoc(m))
    case Some(r) => (r, Ok(m))
    case None => (t, Err(WriteFailed))
  }

  method GenerateManifest(disk: Disk, scriptDir: Path, config: ConfigValidator.Config, currentBranch: Option<string>,
                          isoNow: string, sha1: Content -> string, size: Content -> nat)
    returns (r: Result<Manifest, GenerateError>)
    requires disk.Valid()
    modifies disk
    ensures disk.Valid()
    ensures (disk.tree, r) == Generate(old(disk.tree), scriptDir, config, currentBranch, isoNow, sha1, size)
    ensures disk.log == old(disk.log) + if r.Ok? then [Wrote(ManifestPath(scriptDir))] else []
  {
    var missing := ConfigValidator.MissingAmong(config, RequiredFields);
    if |missing| > 0 {
      return Err(MissingRequired(missing));
    }
    var baseUrl := BaseUrl(config, currentBranch);
    var updateDir := UpdateDir(scriptDir);
    if !disk.Exists(updateDir) {
      return Err(UpdateDirMissing);
    }
    if !IsDir(disk.tree, updateDir) {
      // readdirSync on a file throws
      return Err(UpdateDirNotADirectory);
    }
    var files := ScanDirectory(disk, updateDir, updateDir, baseUrl, sha1, size, []);
    assert files == ScanDir(disk.tree, updateDir, updateDir, baseUrl, sha1, size);
    var manifest := BuildManifest(config, isoNow, files);
    assert Generate(disk.tree, scriptDir, config, currentBranch, isoNow, sha1, size)
        == Publish(disk.tree, scriptDir, manifest);
    var ok := disk.WriteFile(ManifestPath(scriptDir), ManifestDoc(manifest));
    if !ok {
      return Err(WriteFailed);
    }
    return Ok(manifest);
  }

  // ----- Properties of the walk -----

  /** A file the walk publishes: strictly below `dir`, and not hidden. */
  predicate Scanned(t: Tree, dir: Path, q: Path) {
    IsFile(t, q) && IsPrefix(dir, q) && |q| > |dir| && !Hidden(Last(q))
  }

  /** Soundness: every entry describes a published file below `dir`, with its digest and size. */
  lemma {:induction false} ScanDirSound(t: Tree, root: Path, dir: Path, baseUrl: string,
                                        sha1: Content -> string, size: Content -> nat, e: FileEntry)
    requires IsPrefix(root, dir) && e in ScanDir(t, root, dir, baseUrl, sha1, size)
    ensures exists q :: Scanned(t, dir, q) && IsPrefix(root, q) && e == EntryFor(root, q, t[q].data, baseUrl, sha1, size)
    decreases |Under(t, dir)|, 2, 0
  {
    ScanNamesSound(t, root, dir, t[dir].names, baseUrl, sha1, size, e);
  }

  lemma {:induction false} ScanNamesSound(t: Tree, root: Path, dir: Path, names: seq<string>, baseUrl: string,
                                          sha1: Content -> string, size: Content -> nat, e: FileEntry)
    requires IsPrefix(root, dir) && dir in t && e in ScanNames(t, root, dir, names, baseUrl, sha1, size)
    ensures exists q :: Scanned(t, dir, q) && IsPrefix(root, q) && e == EntryFor(root, q, t[q].data, baseUrl, sha1, size)
    decreases |Under(t, dir)|, 1, |names|
  {
    var here := Contribution(t, root, dir, names[0], baseUrl, sha1, size);
    if e in here {
      ContributionSound(t, root, dir, names[0], baseUrl, sha1, size, e);
    } else {
      ScanNamesSound(t, root, dir, names[1..], baseUrl, sha1, size, e);
    }
  }

  lemma {:induction false} ContributionSound(t: Tree, root: Path, dir: Path, n: string, baseUrl: string,
                                             sha1: Content -> string, size: Content -> nat, e: FileEntry)
    requires IsPrefix(root, dir) && dir in t && e in Contribution(t, root, dir, n, baseUrl, sha1, size)
    ensures exists q :: Scanned(t, dir, q) && IsPrefix(root, q) && e == EntryFor(root, q, t[q].data, baseUrl, sha1, size)
    decreases |Under(t, dir)|, 0, 0
  {
    var child := dir + [n];
    assert child[..|root|] == dir[..|root|];
    assert child[..|dir|] == dir;
    if IsDir(t, child) {
      UnderShrinks(t, dir, n);
      ScanDirSound(t, root, child, baseUrl, sha1, size, e);
      var q :| Scanned(t, child, q) && IsPrefix(root, q) && e == EntryFor(root, q, t[q].data, baseUrl, sha1, size);
      assert q[..|dir|] == q[..|child|][..|dir|];
      assert Scanned(t, dir, q);
    } else {
      assert Last(child) == n;
      assert Scanned(t, dir, child);
    }
  }

  /** A name listed in `names` contributes to `ScanNames`. */
  lemma {:induction false} ScanNamesIncludes(t: Tree, root: Path, dir: Path, names: seq<string>, i: nat, baseUrl: string,
                                             sha1: Content -> string, size: Content -> nat, e: FileEntry)
    requires IsPrefix(root, dir) && dir in t && i < |names|
    requires e in Contribution(t, root, dir, names[i], baseUrl, sha1, size)
    ensures e in ScanNames(t, root, dir, names, baseUrl, sha1, size)
    decreases i
  {
    if i > 0 {
      assert names[1..][i - 1] == names[i];
      ScanNamesIncludes(t, root, dir, names[1..], i - 1, baseUrl, sha1, size, e);
    }
  }

  /** Completeness: in a well-formed tree every non-hidden file below `dir` is published. */
  lemma {:induction false} ScanDirComplete(t: Tree, root: Path, dir: Path, baseUrl: string,
                                           sha1: Content -> string, size: Content -> nat, q: Path)
    requires ParentsList(t) && IsPrefix(root, dir) && IsDir(t, dir) && Scanned(t, dir, q)
    ensures IsPrefix(root, q)
    ensures EntryFor(root, q, t[q].data, baseUrl, sha1, size) in ScanDir(t, root, dir, baseUrl, sha1, size)
    decreases |q| - |dir|
  {
    assert q[..|root|] == q[..|dir|][..|root|];
    var e := EntryFor(root, q, t[q].data, baseUrl, sha1, size);
    var n := q[|dir|];
    var child := dir + [n];
    BelowIsListed(t, dir, q);
    assert child[..|root|] == dir[..|root|];
    if |q| > |dir| + 1 {
      assert q[..|child|] == child;
      AncestorIsDir(t, q, |child|);
      assert Scanned(t, child, q);
      ScanDirComplete(t, root, child, baseUrl, sha1, size, q);
    } else {
      assert q == child;
    }
    var names := t[dir].names;
    var i :| 0 <= i < |names| && names[i] == n;
    ScanNamesIncludes(t, root, dir, names, i, baseUrl, sha1, size, e);
  }

  /** Joining names that lack a character with a separator that lacks it gives a string that lacks it. */
  lemma {:induction false} JoinLacks(parts: seq<string>, sep: string, ch: char)
    requires ch !in sep && forall i :: 0 <= i < |parts| ==> ch !in parts[i]
    ensures ch !in Join(parts, sep)
    decreases |parts|
  {
    if |parts| > 1 {
      JoinLacks(parts[1..], sep, ch);
    }
  }

  /**
   * Where the updater puts a published file: `path.join(target, entry.path)` is
   * the file's own place below `update_files`, moved under `target`, as long as
   * no name on the way holds a backslash.
   */
  lemma EntryDestination(root: Path, q: Path, target: Path)
    requires IsPrefix(root, q) && |q| > |root| && ValidPath(q)
    requires forall i :: |root| <= i < |q| ==> '\\' !in q[i]
    ensures JoinPath(target, RelativePath(root, q)) == target + q[|root|..]
  {
    var names := q[|root|..];
    assert forall i :: 0 <= i < |names| ==> names[i] == q[|root| + i];
    JoinLacks(names, "/", '\\');
    var joined := Join(names, "/");
    assert RelativePath(root, q) == joined;
    JoinPathOfJoin(target, names);
  }

  /**
   * Publish then update: a client whose copy of a published file has the same
   * contents leaves it alone: it is either a preserved user file or up to date.
   */
  lemma PublishedCopyIsCurrent(t: Tree, root: Path, q: Path, baseUrl: string, size: Content -> nat,
                               env: Updater.Env, client: Tree)
    requires WellFormed(t) && IsPrefix(root, q) && Scanned(t, root, q)
    requires forall i :: |root| <= i < |q| ==> '\\' !in q[i]
    requires env.sha1(t[q].data) != ""
    requires IsFile(client, env.target + q[|root|..]) && client[env.target + q[|root|..]].data == t[q].data
    ensures var r := Updater.DownloadTask(env, client, EntryFor(root, q, t[q].data, baseUrl, env.sha1, size));
      r.tree == client && r.kind in {Updater.Kept, Updater.UpToDate}
  {
    PresentPathValid(t, q);
    EntryDestination(root, q, env.target);
  }

  // ----- Properties of the script -----

  /** `fabric-loader-<L>-<G>` parses back into `L` and `G` when the loader version has no dash. */
  lemma CompositeIdRoundTrip(loader: string, game: string)
    requires '-' !in loader
    ensures Descriptor.ParseCompositeId("fabric-loader-" + loader + "-" + game) == Some(Descriptor.CompositeId(loader, game))
  {
    assert "fabric-loader-" + loader + "-" + game == "fabric" + ['-'] + ("loader" + ['-'] + (loader + ['-'] + game));
    DashedParse("fabric", "loader", loader, game);
  }

  /** Any two dash-free leading tokens give way to the loader version and the game version. */
  lemma DashedParse(a: string, b: string, loader: string, game: string)
    requires '-' !in a && '-' !in b && '-' !in loader
    ensures Descriptor.ParseCompositeId(a + ['-'] + (b + ['-'] + (loader + ['-'] + game)))
         == Some(Descriptor.CompositeId(loader, game))
  {
    var tail := loader + ['-'] + game;
    var middle := b + ['-'] + tail;
    var id := a + ['-'] + middle;
    var g := Split(game, '-');
    assert Split(tail, '-') == [loader] + g by {
      SplitConcat(loader, game, '-');
      SplitWithoutSeparator(loader, '-');
    }
    assert Split(middle, '-') == [b, loader] + g by {
      SplitConcat(b, tail, '-');
      SplitWithoutSeparator(b, '-');
    }
    assert Split(id, '-') == [a, b, loader] + g by {
      SplitConcat(a, middle, '-');
      SplitWithoutSeparator(a, '-');
    }
    assert ([a, b, loader] + g)[3..] == g;
    JoinSplit(game, '-');
  }

  /** The composite id the script publishes names the configured versions. */
  lemma GameVersionParses(config: ConfigValidator.Config)
    requires '-' !in Text(Get(config, "fabricLoaderVersion"))
    ensures Descriptor.ParseCompositeId(GameVersionId(config))
         == Some(Descriptor.CompositeId(Text(Get(config, "fabricLoaderVersion")), Text(Get(config, "gameVersion"))))
  {
    CompositeIdRoundTrip(Text(Get(config, "fabricLoaderVersion")), Text(Get(config, "gameVersion")));
  }

  /** `YYYY-MM-DDT...` becomes `YYYY.MM.DD`. */
  lemma ManifestVersionOfIso(y: string, m: string, d: string, rest: string)
    requires 'T' !in y && 'T' !in m && 'T' !in d && '-' !in y && '-' !in m && '-' !in d
    ensures ManifestVersion(y + "-" + m + "-" + d + "T" + rest) == y + "." + m + "." + d
  {
    var date := y + "-" + m + "-" + d;
    assert 'T' !in date;
    assert y + "-" + m + "-" + d + "T" + rest == date + ['T'] + rest;
    SplitConcat(date, rest, 'T');
    SplitWithoutSeparator(date, 'T');
    var r := ReplaceAll(date, '-', '.');
    var want := y + "." + m + "." + d;
    assert |r| == |want|;
    forall i | 0 <= i < |r| ensures r[i] == want[i] {
      if i < |y| {
        assert date[i] == y[i] && want[i] == y[i];
      } else if i == |y| {
        assert date[i] == '-' && want[i] == '.';
      } else if i < |y| + 1 + |m| {
        assert date[i] == m[i - |y| - 1] && want[i] == m[i - |y| - 1];
      } else if i == |y| + 1 + |m| {
        assert date[i] == '-' && want[i] == '.';
      } else {
        assert date[i] == d[i - |y| - |m| - 2] && want[i] == d[i - |y| - |m| - 2];
      }
    }
  }

  /** A falsy required field stops the script before anything is read or written, and is named. */
  lemma GenerateRejectsMissing(t: Tree, scriptDir: Path, config: ConfigValidator.Config, currentBranch: Option<string>,
                               isoNow: string, sha1: Content -> string, size: Content -> nat)
    ensures var (r, res) := Generate(t, scriptDir, config, currentBranch, isoNow, sha1, size);
      && ((exists f :: f in RequiredFields && !Truthy(Get(config, f))) <==> res.Err? && res.error.MissingRequired?)
      && (res.Err? ==> r == t)
      && (res.Err? && res.error.MissingRequired? ==>
            forall f :: f in res.error.fields <==> f in RequiredFields && !Truthy(Get(config, f)))
  {
    var g := Generate(t, scriptDir, config, currentBranch, isoNow, sha1, size);
    var missing := ConfigValidator.MissingAmong(config, RequiredFields);
    ConfigValidator.MissingAmongExact(config, RequiredFields);
    if |missing| > 0 {
      assert missing[0] in missing;
      assert g == (t, Err(MissingRequired(missing)));
    } else {
      assert forall f :: f in RequiredFields ==> Truthy(Get(config, f));
      var root := UpdateDir(scriptDir);
      if root in t && IsDir(t, root) {
        var m := BuildManifest(config, isoNow, ScanDir(t, root, root, BaseUrl(config, currentBranch), sha1, size));
        assert g == Publish(t, scriptDir, m);
        PublishFails(t, scriptDir, m);
      } else {
        assert g.0 == t && g.1.Err? && !g.1.error.MissingRequired?;
      }
    }
  }

  /** The write is the only step after the checks that can fail, and it leaves the tree alone. */
  lemma PublishFails(t: Tree, scriptDir: Path, m: Manifest)
    ensures var (r, res) := Publish(t, scriptDir, m);
      res.Err? ==> r == t && res.error == WriteFailed
  {
  }

  /** Past the checks, the script writes the manifest built from the walk. */
  lemma GenerateBuilds(t: Tree, scriptDir: Path, config: ConfigValidator.Config, currentBranch: Option<string>,
                       isoNow: string, sha1: Content -> string, size: Content -> nat, r: Tree, m: Manifest)
    requires Generate(t, scriptDir, config, currentBranch, isoNow, sha1, size) == (r, Ok(m))
    ensures IsDir(t, UpdateDir(scriptDir))
    ensures m == BuildManifest(config, isoNow, ScanDir(t, UpdateDir(scriptDir), UpdateDir(scriptDir), BaseUrl(config, currentBranch), sha1, size))
    ensures WriteTree(t, ManifestPath(scriptDir), ManifestDoc(m)) == Some(r)
  {
  }

  /**
   * A successful run writes exactly `manifest.json`, holding the composite game
   * version, the launcher version and the entries of the walk; no other path
   * appears and every other file is as it was.
   */
  lemma GenerateWrites(t: Tree, scriptDir: Path, config: ConfigValidator.Config, currentBranch: Option<string>,
                       isoNow: string, sha1: Content -> string, size: Content -> nat, r: Tree, m: Manifest)
    requires WellFormed(t)
    requires Generate(t, scriptDir, config, currentBranch, isoNow, sha1, size) == (r, Ok(m))
    ensures WellFormed(r)
    ensures IsFile(r, ManifestPath(scriptDir)) && r[ManifestPath(scriptDir)] == File(ManifestDoc(m))
    ensures forall q :: q in r <==> q in t || q == ManifestPath(scriptDir)
    ensures forall q :: IsFile(t, q) && q != ManifestPath(scriptDir) ==> IsFile(r, q) && r[q] == t[q]
    ensures m.gameVersion == Str(GameVersionId(config)) && m.launcherVersion == Str(LauncherVersion)
    ensures m.files == FilesList(ScanDir(t, UpdateDir(scriptDir), UpdateDir(scriptDir), BaseUrl(config, currentBranch), sha1, size))
  {
    GenerateBuilds(t, scriptDir, config, currentBranch, isoNow, sha1, size, r, m);
    WriteTreeWellFormed(t, ManifestPath(scriptDir), ManifestDoc(m));
    WriteTreeFrame(t, ManifestPath(scriptDir), ManifestDoc(m));
  }

  /**
   * The updater accepts what the script publishes: served as the channel's
   * manifest, it has a truthy game version and a file list, so a sync goes on
   * to apply it rather than stopping as invalid or as having no list.
   */
  lemma PublishedManifestApplied(t: Tree, scriptDir: Path, config: ConfigValidator.Config, currentBranch: Option<string>,
                                 isoNow: string, sha1: Content -> string, size: Content -> nat,
                                 s: Updater.Settings, locked: set<Path>, client: Tree, target: Path,
                                 manifestUrl: string, now: nat, remote: Remote)
    requires s.limit > 0
    requires Generate(t, scriptDir, config, currentBranch, isoNow, sha1, size).1.Ok?
    requires remote(Updater.ManifestRequest(manifestUrl, now))
          == Fetched(ManifestDoc(Generate(t, scriptDir, config, currentBranch, isoNow, sha1, size).1.value))
    requires EnsureDirTree(client, target).Some?
    ensures var m := Generate(t, scriptDir, config, currentBranch, isoNow, sha1, size).1.value;
      m.files.FilesList? &&
      Updater.Sync(s, locked, client, target, manifestUrl, now, remote, sha1)
        == Updater.ApplyManifest(s, locked, EnsureDirTree(client, target).value, target, m, remote, sha1)
  {
    var g := Generate(t, scriptDir, config, currentBranch, isoNow, sha1, size);
    var m := g.1.value;
    GenerateBuilds(t, scriptDir, config, currentBranch, isoNow, sha1, size, g.0, m);
    assert m.gameVersion == Str(GameVersionId(config)) && m.files.FilesList?;
    assert |GameVersionId(config)| > 0;
    assert Truthy(m.gameVersion);
  }
}
