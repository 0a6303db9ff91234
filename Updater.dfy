/**
 * `GameUpdater`: the synchronisation of a game directory with a remote
 * manifest. The specification functions say what each phase does to the
 * file tree; the `GameUpdater` class performs the phases on a `Disk`, step by
 * step, and is proved to agree with them.
 */
module Updater {
  import opened Wrappers
  import opened Strings
  import opened Js
  import opened Documents
  import opened FileTree
  import opened Descriptor

  const DefaultManifestUrl := "https://raw.githubusercontent.com/Chomingo/Hoppercloud/master/manifest.json"

  // ----- Pruning of stale mods -----

  /** Basenames of the manifest entries whose path starts with `mods/`, in manifest order. */
  function ModNames(files: seq<FileEntry>): seq<string>
    decreases |files|
  {
    if files == [] then []
    else (if StartsWith(files[0].path, "mods/") then [Basename(files[0].path)] else []) + ModNames(files[1..])
  }

  /** `modsDir` listing entry `n` is declared by the manifest. */
  predicate Doomed(m: Path, names: seq<string>, keep: seq<string>, q: Path) {
    |q| > |m| && q[..|m|] == m && q[|m|] in names && q[|m|] !in keep
  }

  /** The removal loop over the listing `names` of `m`: stops at the first removal the system refuses. */
  function PruneListing(t: Tree, locked: set<Path>, m: Path, names: seq<string>, keep: seq<string>): (Tree, bool)
    decreases |names|
  {
    if names == [] then (t, true)
    else if names[0] in keep then PruneListing(t, locked, m, names[1..], keep)
    else if Blocked(t, locked, m + [names[0]]) then (t, false)
    else PruneListing(RemoveTree(t, m + [names[0]]), locked, m, names[1..], keep)
  }

  /** `cleanupOldMods`: the new tree and whether it completed without an error. */
  function Prune(t: Tree, locked: set<Path>, target: Path, files: seq<FileEntry>): (Tree, bool) {
    var m := target + ["mods"];
    if target + [".admin"] in t then (t, true)
    else if m !in t then (t, true)
    else if t[m].File? then (t, false)
    else PruneListing(t, locked, m, t[m].names, ModNames(files))
  }

  /** A name is kept exactly when some `mods/` entry of the manifest has it as basename. */
  lemma {:induction false} ModNamesMembership(files: seq<FileEntry>, n: string)
    ensures n in ModNames(files) <==>
      exists i :: 0 <= i < |files| && StartsWith(files[i].path, "mods/") && Basename(files[i].path) == n
    decreases |files|
  {
    if files != [] {
      ModNamesMembership(files[1..], n);
      if n in ModNames(files[1..]) {
        var i :| 0 <= i < |files[1..]| && StartsWith(files[1..][i].path, "mods/") && Basename(files[1..][i].path) == n;
        assert files[i + 1] == files[1..][i];
      }
      if exists i :: 0 <= i < |files| && StartsWith(files[i].path, "mods/") && Basename(files[i].path) == n {
        var i :| 0 <= i < |files| && StartsWith(files[i].path, "mods/") && Basename(files[i].path) == n;
        if i > 0 {
          assert files[1..][i - 1] == files[i];
        }
      }
    }
  }

  /** The removal loop keeps the tree well formed and the listed directory a directory. */
  lemma {:induction false} PruneListingWellFormed(t: Tree, locked: set<Path>, m: Path, names: seq<string>, keep: seq<string>)
    requires WellFormed(t) && IsDir(t, m)
    ensures WellFormed(PruneListing(t, locked, m, names, keep).0) && IsDir(PruneListing(t, locked, m, names, keep).0, m)
    decreases |names|
  {
    if names != [] {
      var n := names[0];
      if n in keep {
        PruneListingWellFormed(t, locked, m, names[1..], keep);
      } else if !Blocked(t, locked, m + [n]) {
        assert Parent(m + [n]) == m;
        RemoveTreeWellFormed(t, m + [n]);
        RemoveTreeKeys(t, m + [n]);
        PruneListingWellFormed(RemoveTree(t, m + [n]), locked, m, names[1..], keep);
      }
    }
  }

  /** The removal loop only removes paths, and keeps every path that is not inside an undeclared entry. */
  lemma {:induction false} PruneListingFrame(t: Tree, locked: set<Path>, m: Path, names: seq<string>, keep: seq<string>)
    ensures var r := PruneListing(t, locked, m, names, keep).0;
      && (forall q :: q in r ==> q in t)
      && (forall q :: q in t && !Doomed(m, names, keep, q) ==> q in r && (q == m || r[q] == t[q]))
    decreases |names|
  {
    if names != [] {
      var n := names[0];
      if n in keep {
        PruneListingFrame(t, locked, m, names[1..], keep);
        forall q | q in t && !Doomed(m, names, keep, q) ensures !Doomed(m, names[1..], keep, q) { }
      } else if !Blocked(t, locked, m + [n]) {
        var t1 := RemoveTree(t, m + [n]);
        assert Parent(m + [n]) == m;
        RemoveTreeKeys(t, m + [n]);
        PruneListingFrame(t1, locked, m, names[1..], keep);
        var r := PruneListing(t, locked, m, names, keep).0;
        forall q | q in t && !Doomed(m, names, keep, q)
          ensures q in r && (q == m || r[q] == t[q])
        {
          assert !IsPrefix(m + [n], q);
          assert !Doomed(m, names[1..], keep, q);
        }
      }
    }
  }

  /** When the removal loop completes, no undeclared entry is left. */
  lemma {:induction false} PruneListingClears(t: Tree, locked: set<Path>, m: Path, names: seq<string>, keep: seq<string>)
    ensures var (r, ok) := PruneListing(t, locked, m, names, keep);
      ok ==> forall q :: q in t && Doomed(m, names, keep, q) ==> q !in r
    decreases |names|
  {
    if names != [] {
      var n := names[0];
      if n in keep {
        PruneListingClears(t, locked, m, names[1..], keep);
        var (r, ok) := PruneListing(t, locked, m, names, keep);
        forall q | ok && q in t && Doomed(m, names, keep, q) ensures Doomed(m, names[1..], keep, q) { }
      } else if !Blocked(t, locked, m + [n]) {
        var t1 := RemoveTree(t, m + [n]);
        RemoveTreeKeys(t, m + [n]);
        PruneListingClears(t1, locked, m, names[1..], keep);
        PruneListingFrame(t1, locked, m, names[1..], keep);
        var (r, ok) := PruneListing(t, locked, m, names, keep);
        forall q | ok && q in t && Doomed(m, names, keep, q)
          ensures q !in r
        {
          if q[|m|] == n {
            assert IsPrefix(m + [n], q);
          } else {
            assert Doomed(m, names[1..], keep, q);
          }
        }
      }
    }
  }

  /**
   * The removal loop keeps the tree well formed, only removes paths, keeps
   * whatever is not inside an undeclared entry, and when it completes leaves
   * no undeclared entry.
   */
  lemma PruneListingEffect(t: Tree, locked: set<Path>, m: Path, names: seq<string>, keep: seq<string>)
    requires WellFormed(t) && IsDir(t, m)
    ensures var (r, ok) := PruneListing(t, locked, m, names, keep);
      && WellFormed(r) && IsDir(r, m)
      && (forall q :: q in r ==> q in t)
      && (forall q :: q in t && !Doomed(m, names, keep, q) ==> q in r && (q == m || r[q] == t[q]))
      && (ok ==> forall q :: q in t && Doomed(m, names, keep, q) ==> q !in r)
  {
    PruneListingWellFormed(t, locked, m, names, keep);
    PruneListingFrame(t, locked, m, names, keep);
    PruneListingClears(t, locked, m, names, keep);
  }

  /**
   * What pruning does: it only removes paths, it changes nothing outside
   * `mods`, it leaves declared mods as they were, and when it completes the
   * `mods` listing holds exactly the declared names it held before. With an
   * `.admin` marker it does nothing.
   */
  lemma PruneEffect(t: Tree, locked: set<Path>, target: Path, files: seq<FileEntry>)
    requires WellFormed(t)
    ensures var (r, ok) := Prune(t, locked, target, files); var m := target + ["mods"];
      && WellFormed(r)
      && (target + [".admin"] in t ==> r == t && ok)
      && (forall q :: q in r ==> q in t)
      && (forall q :: q in t && !IsPrefix(m, q) ==> q in r && r[q] == t[q])
      && (forall q :: q in t && |q| > |m| && IsPrefix(m, q) && q[|m|] in ModNames(files) ==> q in r && r[q] == t[q])
      && (ok && IsDir(t, m) && target + [".admin"] !in t ==>
            forall n :: n in Children(r, m) <==> n in Children(t, m) && n in ModNames(files))
  {
    var m := target + ["mods"];
    var keep := ModNames(files);
    var (r, ok) := Prune(t, locked, target, files);
    if target + [".admin"] !in t && IsDir(t, m) {
      var names := t[m].names;
      PruneListingEffect(t, locked, m, names, keep);
      forall q | q in t && !IsPrefix(m, q) ensures !Doomed(m, names, keep, q) { }
      forall q | q in t && |q| > |m| && IsPrefix(m, q) && q[|m|] in keep ensures !Doomed(m, names, keep, q) { }
      if ok {
        forall n ensures n in Children(r, m) <==> n in names && n in keep {
          if n in Children(r, m) {
            var i :| 0 <= i < |r[m].names| && r[m].names[i] == n;
            assert m + [n] in r;
            assert Parent(m + [n]) == m && Last(m + [n]) == n;
            assert (m + [n])[..|m|] == m && (m + [n])[|m|] == n;
          }
          if n in names && n in keep {
            var i :| 0 <= i < |names| && names[i] == n;
            assert m + [n] in t;
            assert (m + [n])[..|m|] == m && (m + [n])[|m|] == n;
            assert m + [n] in r;
            assert Parent(m + [n]) == m && Last(m + [n]) == n;
          }
        }
      }
    }
  }

  // ----- Downloads -----

  /** What one file task needs: where files go, which names are the user's, the network, and SHA-1. */
  datatype Env = Env(target: Path, preserved: seq<string>, remote: Remote, sha1: Content -> string)

  /**
   * How one task ended. `Kept`: a preserved user file that exists; `UpToDate`:
   * the local file has the declared digest; `Downloaded`: the body was written
   * (with whether it has the declared digest); `Missing`: a 404, skipped;
   * `Error`: the task threw.
   */
  datatype TaskKind = Kept | UpToDate | Downloaded(digestMatches: bool) | Missing | Error

  datatype TaskResult = TaskResult(tree: Tree, kind: TaskKind)

  /** The tasks that bump the progress counter. */
  predicate Counts(k: TaskKind) {
    k.Kept? || k.UpToDate? || k.Downloaded?
  }

  function Dest(env: Env, f: FileEntry): Path {
    JoinPath(env.target, f.path)
  }

  /** The local file already has the digest the entry declares. */
  predicate Current(env: Env, t: Tree, f: FileEntry) {
    IsFile(t, Dest(env, f)) && DeclaresSha1(f) && env.sha1(t[Dest(env, f)].data) == f.sha1.value
  }

  /** `downloadFile` for one entry. */
  function DownloadTask(env: Env, t: Tree, f: FileEntry): TaskResult {
    var dest := Dest(env, f);
    if Basename(f.path) in env.preserved && dest in t then TaskResult(t, Kept)
    else if dest in t && DeclaresSha1(f) && t[dest].Dir? then TaskResult(t, Error)
    else if Current(env, t, f) then TaskResult(t, UpToDate)
    else Transfer(env, t, f)
  }

  /** The transfer part of `downloadFile`: create the directory, open the file, fetch, write. */
  function Transfer(env: Env, t: Tree, f: FileEntry): TaskResult {
    var dest := Dest(env, f);
    match EnsureDirTree(t, Parent(dest))
    case None => TaskResult(t, Error)
    case Some(t1) =>
      // the write stream creates or truncates the file before the request is made
      match WriteTree(t1, dest, Blob([]))
      case None => TaskResult(t1, Error)
      case Some(t2) =>
        match env.remote(f.url)
        case Fetched(body) =>
          (match WriteTree(t2, dest, body)
           case Some(t3) => TaskResult(t3, Downloaded(!DeclaresSha1(f) || env.sha1(body) == f.sha1.value))
           case None => TaskResult(t2, Error))
        case NotFound => TaskResult(t2, Missing)
        case Failed => TaskResult(t2, Error)
  }

  /** The state threaded through the tasks: the tree, the progress counter, and whether a task threw. */
  datatype RunState = RunState(tree: Tree, processed: nat, failed: bool)

  function Step(env: Env, s: RunState, f: FileEntry): RunState {
    var r := DownloadTask(env, s.tree, f);
    RunState(r.tree, s.processed + (if Counts(r.kind) then 1 else 0), s.failed || r.kind.Error?)
  }

  /** `Promise.all` over one chunk: every task runs even when an earlier one threw. */
  function RunChunk(env: Env, s: RunState, chunk: seq<FileEntry>): RunState
    decreases |chunk|
  {
    if chunk == [] then s else RunChunk(env, Step(env, s, chunk[0]), chunk[1..])
  }

  /** `files.slice(i, i + k)` for `i = 0, k, 2k, ...`. */
  function Chunks(files: seq<FileEntry>, k: nat): seq<seq<FileEntry>>
    requires k > 0
    decreases |files|
  {
    if files == [] then []
    else
      var n := if |files| < k then |files| else k;
      [files[..n]] + Chunks(files[n..], k)
  }

  function Flatten(chunks: seq<seq<FileEntry>>): seq<FileEntry>
    decreases |chunks|
  {
    if chunks == [] then [] else chunks[0] + Flatten(chunks[1..])
  }

  /** Chunks run one after another; a chunk with a failed task ends the run. */
  function RunChunks(env: Env, s: RunState, chunks: seq<seq<FileEntry>>): RunState
    decreases |chunks|
  {
    if chunks == [] then s
    else
      var r := RunChunk(env, s, chunks[0]);
      if r.failed then r else RunChunks(env, r, chunks[1..])
  }

  /** `downloadFiles` with `k` tasks at a time. */
  function DownloadAll(env: Env, t: Tree, files: seq<FileEntry>, k: nat): RunState
    requires k > 0
  {
    RunChunks(env, RunState(t, 0, false), Chunks(files, k))
  }

  /** The chunk that starts at `i`. */
  lemma ChunksAt(files: seq<FileEntry>, i: nat, k: nat)
    requires k > 0 && i < |files|
    ensures var end := if i + k < |files| then i + k else |files|;
      Chunks(files[i..], k) == [files[i..end]] + Chunks(files[end..], k)
  {
    var end := if i + k < |files| then i + k else |files|;
    var s := files[i..];
    var n := if |s| < k then |s| else k;
    assert n == end - i;
    assert s[..n] == files[i..end];
    assert s[n..] == files[end..];
  }

  /** The chunks cover the file list in order, each holding between one and `k` entries, all but the last exactly `k`. */
  lemma {:induction false} ChunksPartition(files: seq<FileEntry>, k: nat)
    requires k > 0
    ensures Flatten(Chunks(files, k)) == files
    ensures forall i :: 0 <= i < |Chunks(files, k)| ==> 1 <= |Chunks(files, k)[i]| <= k
    ensures forall i :: 0 <= i < |Chunks(files, k)| - 1 ==> |Chunks(files, k)[i]| == k
    decreases |files|
  {
    if files != [] {
      var n := if |files| < k then |files| else k;
      ChunksPartition(files[n..], k);
      var cs := Chunks(files, k);
      assert cs[1..] == Chunks(files[n..], k);
      assert files[..n] + files[n..] == files;
      forall i | 0 <= i < |cs| - 1 ensures |cs[i]| == k {
        if i > 0 {
          assert cs[i] == Chunks(files[n..], k)[i - 1];
        } else {
          assert files[n..] != [];
        }
      }
      forall i | 0 <= i < |cs| ensures 1 <= |cs[i]| <= k {
        if i > 0 {
          assert cs[i] == Chunks(files[n..], k)[i - 1];
        }
      }
    }
  }

  // Facts about single tasks

  lemma ParentValid(p: Path)
    requires ValidPath(p)
    ensures ValidPath(Parent(p))
  {
  }

  /**
   * A task only adds paths, keeps the tree well formed, changes no file other
   * than its destination, and unless it threw leaves its destination present.
   */
  lemma TaskFrame(env: Env, t: Tree, f: FileEntry)
    requires WellFormed(t) && ValidPath(env.target)
    ensures var r := DownloadTask(env, t, f);
      && WellFormed(r.tree)
      && (forall q :: q in t ==> q in r.tree)
      && (forall q :: IsFile(t, q) && q != Dest(env, f) ==> IsFile(r.tree, q) && r.tree[q] == t[q])
      && (!r.kind.Error? ==> Dest(env, f) in r.tree)
  {
    var dest := Dest(env, f);
    JoinPathValid(env.target, f.path);
    ParentValid(dest);
    if !(Basename(f.path) in env.preserved && dest in t) && !(dest in t && DeclaresSha1(f) && t[dest].Dir?)
      && !Current(env, t, f) && EnsureDirTree(t, Parent(dest)).Some?
    {
      var t1 := EnsureDirTree(t, Parent(dest)).value;
      MakeDirsWellFormed(t, Parent(dest));
      if WriteTree(t1, dest, Blob([])).Some? {
        var t2 := WriteTree(t1, dest, Blob([])).value;
        WriteTreeWellFormed(t1, dest, Blob([]));
        WriteTreeFrame(t1, dest, Blob([]));
        if env.remote(f.url).Fetched? && WriteTree(t2, dest, env.remote(f.url).body).Some? {
          WriteTreeWellFormed(t2, dest, env.remote(f.url).body);
          WriteTreeFrame(t2, dest, env.remote(f.url).body);
        }
      }
    }
  }

  /**
   * How a task decides: it keeps a preserved file that exists, skips a file
   * whose declared digest already matches, and otherwise transfers; a body it
   * wrote is at the destination, and a 404 leaves the truncated, empty file.
   */
  lemma TaskDecision(env: Env, t: Tree, f: FileEntry)
    requires WellFormed(t) && ValidPath(env.target)
    ensures var r := DownloadTask(env, t, f); var dest := Dest(env, f);
      && (r.kind == Kept <==> Basename(f.path) in env.preserved && dest in t)
      && (r.kind == UpToDate <==> !(Basename(f.path) in env.preserved && dest in t) && Current(env, t, f))
      && (r.kind.Kept? || r.kind.UpToDate? ==> r.tree == t)
      && (!DeclaresSha1(f) && !(Basename(f.path) in env.preserved && dest in t) ==> r == Transfer(env, t, f))
      && (r.kind.Downloaded? ==>
            && env.remote(f.url).Fetched? && IsFile(r.tree, dest) && r.tree[dest].data == env.remote(f.url).body
            && (r.kind.digestMatches <==> !DeclaresSha1(f) || env.sha1(env.remote(f.url).body) == f.sha1.value))
      && (r.kind.Missing? ==> env.remote(f.url).NotFound? && IsFile(r.tree, dest) && r.tree[dest].data == Blob([]))
  {
    var dest := Dest(env, f);
    if !(Basename(f.path) in env.preserved && dest in t) && !(dest in t && DeclaresSha1(f) && t[dest].Dir?)
      && !Current(env, t, f) && EnsureDirTree(t, Parent(dest)).Some?
    {
      var t1 := EnsureDirTree(t, Parent(dest)).value;
      if WriteTree(t1, dest, Blob([])).Some? {
        var t2 := WriteTree(t1, dest, Blob([])).value;
        WriteTreeFrame(t1, dest, Blob([]));
        if env.remote(f.url).Fetched? && WriteTree(t2, dest, env.remote(f.url).body).Some? {
          WriteTreeFrame(t2, dest, env.remote(f.url).body);
        }
      }
    }
  }

  // Facts about runs

  /** Running `a + b` as one chunk is running `a`, then `b`. */
  lemma {:induction false} RunChunkConcat(env: Env, s: RunState, a: seq<FileEntry>, b: seq<FileEntry>)
    ensures RunChunk(env, s, a + b) == RunChunk(env, RunChunk(env, s, a), b)
    decreases |a|
  {
    if a == [] {
      assert a + b == b;
    } else {
      assert (a + b)[0] == a[0] && (a + b)[1..] == a[1..] + b;
      RunChunkConcat(env, Step(env, s, a[0]), a[1..], b);
    }
  }

  lemma {:induction false} RunChunkSticky(env: Env, s: RunState, chunk: seq<FileEntry>)
    ensures s.failed ==> RunChunk(env, s, chunk).failed
    ensures RunChunk(env, s, chunk).processed <= s.processed + |chunk|
    ensures RunChunk(env, s, chunk).processed >= s.processed
    decreases |chunk|
  {
    if chunk != [] {
      RunChunkSticky(env, Step(env, s, chunk[0]), chunk[1..]);
    }
  }

  /**
   * Chunking is invisible except in where the run stops: the chunked run fails
   * exactly when running every task in order would record a failure, and when
   * neither fails the two end in the same state.
   */
  lemma {:induction false} RunChunksSequential(env: Env, s: RunState, chunks: seq<seq<FileEntry>>)
    requires !s.failed
    ensures RunChunks(env, s, chunks).failed == RunChunk(env, s, Flatten(chunks)).failed
    ensures !RunChunks(env, s, chunks).failed ==> RunChunks(env, s, chunks) == RunChunk(env, s, Flatten(chunks))
    decreases |chunks|
  {
    if chunks != [] {
      var r := RunChunk(env, s, chunks[0]);
      RunChunkConcat(env, s, chunks[0], Flatten(chunks[1..]));
      RunChunkSticky(env, r, Flatten(chunks[1..]));
      if !r.failed {
        RunChunksSequential(env, r, chunks[1..]);
      }
    }
  }

  lemma DownloadAllSequential(env: Env, t: Tree, files: seq<FileEntry>, k: nat)
    requires k > 0
    ensures DownloadAll(env, t, files, k).failed == RunChunk(env, RunState(t, 0, false), files).failed
    ensures !DownloadAll(env, t, files, k).failed ==>
      DownloadAll(env, t, files, k) == RunChunk(env, RunState(t, 0, false), files)
  {
    ChunksPartition(files, k);
    RunChunksSequential(env, RunState(t, 0, false), Chunks(files, k));
  }

  /** How many tasks of a sequential run over `chunk` end in a 404. */
  function Skips(env: Env, s: RunState, chunk: seq<FileEntry>): nat
    decreases |chunk|
  {
    if chunk == [] then 0
    else (if DownloadTask(env, s.tree, chunk[0]).kind.Missing? then 1 else 0) + Skips(env, Step(env, s, chunk[0]), chunk[1..])
  }

  lemma {:induction false} RunChunkTally(env: Env, s: RunState, chunk: seq<FileEntry>)
    requires !s.failed
    ensures Skips(env, s, chunk) <= |chunk|
    ensures !RunChunk(env, s, chunk).failed ==>
      RunChunk(env, s, chunk).processed + Skips(env, s, chunk) == s.processed + |chunk|
    decreases |chunk|
  {
    if chunk != [] {
      var s1 := Step(env, s, chunk[0]);
      RunChunkSticky(env, s1, chunk[1..]);
      if !s1.failed {
        RunChunkTally(env, s1, chunk[1..]);
      } else {
        SkipsBound(env, s1, chunk[1..]);
      }
    }
  }

  lemma {:induction false} SkipsBound(env: Env, s: RunState, chunk: seq<FileEntry>)
    ensures Skips(env, s, chunk) <= |chunk|
    decreases |chunk|
  {
    if chunk != [] {
      SkipsBound(env, Step(env, s, chunk[0]), chunk[1..]);
    }
  }

  /**
   * In a run without failures the progress counter rises once for every entry
   * except those answered with a 404.
   */
  lemma DownloadAllTally(env: Env, t: Tree, files: seq<FileEntry>, k: nat)
    requires k > 0
    ensures !DownloadAll(env, t, files, k).failed ==>
      DownloadAll(env, t, files, k).processed == |files| - Skips(env, RunState(t, 0, false), files)
  {
    DownloadAllSequential(env, t, files, k);
    RunChunkTally(env, RunState(t, 0, false), files);
  }

  lemma {:induction false} RunChunksCount(env: Env, s: RunState, chunks: seq<seq<FileEntry>>)
    ensures s.processed <= RunChunks(env, s, chunks).processed <= s.processed + |Flatten(chunks)|
    decreases |chunks|
  {
    if chunks != [] {
      var r := RunChunk(env, s, chunks[0]);
      RunChunkSticky(env, s, chunks[0]);
      RunChunksCount(env, r, chunks[1..]);
    }
  }

  /** The progress counter never exceeds the number of entries. */
  lemma DownloadAllCount(env: Env, t: Tree, files: seq<FileEntry>, k: nat)
    requires k > 0
    ensures DownloadAll(env, t, files, k).processed <= |files|
  {
    ChunksPartition(files, k);
    RunChunksCount(env, RunState(t, 0, false), Chunks(files, k));
  }

  /** The entries that land on `q` all have a preserved basename. */
  predicate OnlyPreservedAt(target: Path, preserved: seq<string>, files: seq<FileEntry>, q: Path) {
    forall f :: f in files && JoinPath(target, f.path) == q ==> Basename(f.path) in preserved
  }

  lemma {:induction false} RunChunkFrame(env: Env, s: RunState, chunk: seq<FileEntry>, q: Path)
    requires WellFormed(s.tree) && ValidPath(env.target)
    requires IsFile(s.tree, q) && OnlyPreservedAt(env.target, env.preserved, chunk, q)
    ensures var r := RunChunk(env, s, chunk);
      WellFormed(r.tree) && IsFile(r.tree, q) && r.tree[q] == s.tree[q]
    decreases |chunk|
  {
    if chunk != [] {
      TaskFrame(env, s.tree, chunk[0]);
      assert OnlyPreservedAt(env.target, env.preserved, chunk[1..], q) by {
        forall f | f in chunk[1..] ensures f in chunk { }
      }
      RunChunkFrame(env, Step(env, s, chunk[0]), chunk[1..], q);
    }
  }

  lemma {:induction false} RunChunksFrame(env: Env, s: RunState, chunks: seq<seq<FileEntry>>, q: Path)
    requires WellFormed(s.tree) && ValidPath(env.target)
    requires IsFile(s.tree, q) && OnlyPreservedAt(env.target, env.preserved, Flatten(chunks), q)
    ensures var r := RunChunks(env, s, chunks);
      WellFormed(r.tree) && IsFile(r.tree, q) && r.tree[q] == s.tree[q]
    decreases |chunks|
  {
    if chunks != [] {
      assert Flatten(chunks) == chunks[0] + Flatten(chunks[1..]);
      RunChunkFrame(env, s, chunks[0], q);
      RunChunksFrame(env, RunChunk(env, s, chunks[0]), chunks[1..], q);
    }
  }

  /**
   * A file is never overwritten by a run when every entry that lands on it has
   * a preserved name, and in particular when no entry lands on it.
   */
  lemma DownloadAllFrame(env: Env, t: Tree, files: seq<FileEntry>, k: nat, q: Path)
    requires k > 0 && WellFormed(t) && ValidPath(env.target)
    requires IsFile(t, q) && OnlyPreservedAt(env.target, env.preserved, files, q)
    ensures var r := DownloadAll(env, t, files, k);
      WellFormed(r.tree) && IsFile(r.tree, q) && r.tree[q] == t[q]
  {
    ChunksPartition(files, k);
    RunChunksFrame(env, RunState(t, 0, false), Chunks(files, k), q);
  }

  lemma {:induction false} RunChunkKeeps(env: Env, s: RunState, chunk: seq<FileEntry>)
    requires WellFormed(s.tree) && ValidPath(env.target)
    ensures var r := RunChunk(env, s, chunk);
      && WellFormed(r.tree)
      && (forall q :: q in s.tree ==> q in r.tree)
      && (!r.failed ==> forall f :: f in chunk ==> Dest(env, f) in r.tree)
    decreases |chunk|
  {
    if chunk != [] {
      TaskFrame(env, s.tree, chunk[0]);
      var s1 := Step(env, s, chunk[0]);
      RunChunkKeeps(env, s1, chunk[1..]);
      RunChunkSticky(env, s1, chunk[1..]);
    }
  }

  lemma {:induction false} RunChunksKeeps(env: Env, s: RunState, chunks: seq<seq<FileEntry>>)
    requires WellFormed(s.tree) && ValidPath(env.target) && !s.failed
    ensures var r := RunChunks(env, s, chunks);
      && WellFormed(r.tree)
      && (forall q :: q in s.tree ==> q in r.tree)
      && (!r.failed ==> forall f :: f in Flatten(chunks) ==> Dest(env, f) in r.tree)
    decreases |chunks|
  {
    if chunks != [] {
      assert Flatten(chunks) == chunks[0] + Flatten(chunks[1..]);
      RunChunkKeeps(env, s, chunks[0]);
      var r := RunChunk(env, s, chunks[0]);
      if !r.failed {
        RunChunksKeeps(env, r, chunks[1..]);
      }
    }
  }

  /** A run removes nothing, and a run without failures leaves every entry's destination present. */
  lemma DownloadAllPresent(env: Env, t: Tree, files: seq<FileEntry>, k: nat)
    requires k > 0 && WellFormed(t) && ValidPath(env.target)
    ensures var r := DownloadAll(env, t, files, k);
      && WellFormed(r.tree)
      && (forall q :: q in t ==> q in r.tree)
      && (!r.failed ==> forall f :: f in files ==> Dest(env, f) in r.tree)
  {
    ChunksPartition(files, k);
    RunChunksKeeps(env, RunState(t, 0, false), Chunks(files, k));
  }

  /** Every entry is either a preserved file that exists or already has its declared digest. */
  predicate Converged(env: Env, t: Tree, files: seq<FileEntry>) {
    forall f :: f in files ==> (Basename(f.path) in env.preserved && Dest(env, f) in t) || Current(env, t, f)
  }

  lemma {:induction false} RunChunkConverged(env: Env, s: RunState, chunk: seq<FileEntry>)
    requires Converged(env, s.tree, chunk)
    ensures RunChunk(env, s, chunk) == s.(processed := s.processed + |chunk|)
    decreases |chunk|
  {
    if chunk != [] {
      assert Converged(env, s.tree, chunk[1..]) by {
        forall f | f in chunk[1..] ensures f in chunk { }
      }
      RunChunkConverged(env, Step(env, s, chunk[0]), chunk[1..]);
    }
  }

  /** Any sublist of a converged list is converged. */
  lemma ConvergedSublist(env: Env, t: Tree, a: seq<FileEntry>, b: seq<FileEntry>)
    requires Converged(env, t, b) && forall f :: f in a ==> f in b
    ensures Converged(env, t, a)
  {
  }

  lemma {:induction false} RunChunksConverged(env: Env, s: RunState, chunks: seq<seq<FileEntry>>)
    requires !s.failed && Converged(env, s.tree, Flatten(chunks))
    ensures RunChunks(env, s, chunks) == s.(processed := s.processed + |Flatten(chunks)|)
    decreases |chunks|
  {
    if chunks != [] {
      var all := Flatten(chunks);
      var rest := Flatten(chunks[1..]);
      assert all == chunks[0] + rest;
      ConvergedSublist(env, s.tree, chunks[0], all);
      ConvergedSublist(env, s.tree, rest, all);
      RunChunkConverged(env, s, chunks[0]);
      var r := s.(processed := s.processed + |chunks[0]|);
      assert RunChunks(env, s, chunks) == RunChunks(env, r, chunks[1..]);
      RunChunksConverged(env, r, chunks[1..]);
    }
  }

  /**
   * A second run over a directory that is already in sync transfers nothing:
   * the tree is unchanged, no task fails and every entry is counted.
   */
  lemma DownloadAllConverged(env: Env, t: Tree, files: seq<FileEntry>, k: nat)
    requires k > 0 && Converged(env, t, files)
    ensures DownloadAll(env, t, files, k) == RunState(t, |files|, false)
  {
    ChunksPartition(files, k);
    RunChunksConverged(env, RunState(t, 0, false), Chunks(files, k));
  }

  // ----- Installing the loader profile -----

  datatype PatchError =
    | NotAString | BadVersionFormat | VersionDirFailed
    | LoaderFetchFailed | IndexFetchFailed | VanillaNotFound | VanillaFetchFailed | WriteFailed

  datatype PatchDone = AlreadyInstalled | Installed

  function VersionDir(root: Path, id: string): Path {
    JoinPath(root + ["versions"], id)
  }

  /** `versions/<id>/<id>.json` under the game root. */
  function VersionJson(root: Path, id: string): Path {
    JoinPath(VersionDir(root, id), id + ".json")
  }

  /** `versions.find(v => v.id === id)`. */
  function FindVersion(versions: seq<VersionInfo>, id: string): Option<VersionInfo>
    decreases |versions|
  {
    if versions == [] then None
    else if versions[0].id == id then Some(versions[0])
    else FindVersion(versions[1..], id)
  }

  /** `find` answers the first entry with that id, and nothing only when there is none. */
  lemma {:induction false} FindVersionFirst(versions: seq<VersionInfo>, id: string)
    ensures FindVersion(versions, id).None? <==> forall i :: 0 <= i < |versions| ==> versions[i].id != id
    ensures FindVersion(versions, id).Some? ==>
      exists i :: 0 <= i < |versions| && versions[i] == FindVersion(versions, id).value && versions[i].id == id
        && forall j :: 0 <= j < i ==> versions[j].id != id
    decreases |versions|
  {
    if versions != [] && versions[0].id != id {
      FindVersionFirst(versions[1..], id);
      if FindVersion(versions, id).Some? {
        var i :| 0 <= i < |versions[1..]| && versions[1..][i] == FindVersion(versions, id).value
          && versions[1..][i].id == id && forall j :: 0 <= j < i ==> versions[1..][j].id != id;
        assert versions[i + 1] == versions[1..][i];
        forall j | 0 <= j < i + 1 ensures versions[j].id != id {
          if j > 0 {
            assert versions[j] == versions[1..][j - 1];
          }
        }
      } else {
        forall i | 0 <= i < |versions| ensures versions[i].id != id {
          if i > 0 {
            assert versions[i] == versions[1..][i - 1];
          }
        }
      }
    }
  }

  /** The three requests: the loader profile, the base game index, the base game profile. */
  function FetchProfiles(remote: Remote, c: CompositeId): Result<(Profile, Profile), PatchError> {
    match remote(FabricMetaUrl(c))
    case Fetched(ProfileDoc(loader)) =>
      (match remote(VanillaIndexUrl)
       case Fetched(VersionIndexDoc(versions)) =>
         (match FindVersion(versions, c.mcVersion)
          case None => Err(VanillaNotFound)
          case Some(info) =>
            match remote(info.url)
            case Fetched(ProfileDoc(vanilla)) => Ok((loader, vanilla))
            case _ => Err(VanillaFetchFailed))
       case _ => Err(IndexFetchFailed))
    case _ => Err(LoaderFetchFailed)
  }

  /**
   * Each request fails with its own error; the base game profile is the one
   * the first index entry with the game version points to, and the index
   * answers "not found" exactly when no entry has that id.
   */
  lemma FetchProfilesOutcome(remote: Remote, c: CompositeId)
    ensures var lr := remote(FabricMetaUrl(c)); var ir := remote(VanillaIndexUrl); var r := FetchProfiles(remote, c);
      var loaderOk := lr.Fetched? && lr.body.ProfileDoc?; var indexOk := ir.Fetched? && ir.body.VersionIndexDoc?;
      && (r == Err(LoaderFetchFailed) <==> !loaderOk)
      && (r == Err(IndexFetchFailed) <==> loaderOk && !indexOk)
      && (r == Err(VanillaNotFound) <==>
            loaderOk && indexOk && forall i :: 0 <= i < |ir.body.versions| ==> ir.body.versions[i].id != c.mcVersion)
      && (r.Ok? ==>
            && loaderOk && indexOk && r.value.0 == lr.body.profile
            && exists i :: 0 <= i < |ir.body.versions| && ir.body.versions[i].id == c.mcVersion
                 && (forall j :: 0 <= j < i ==> ir.body.versions[j].id != c.mcVersion)
                 && remote(ir.body.versions[i].url) == Fetched(ProfileDoc(r.value.1)))
  {
    var ir := remote(VanillaIndexUrl);
    if ir.Fetched? && ir.body.VersionIndexDoc? {
      FindVersionFirst(ir.body.versions, c.mcVersion);
    }
  }

  /** `patchFabric`: the new tree and the outcome. */
  function PatchSpec(t: Tree, root: Path, gameVersion: JsValue, remote: Remote): (Tree, Result<PatchDone, PatchError>) {
    if !gameVersion.Str? then (t, Err(NotAString))
    else
      var id := gameVersion.s;
      match ParseCompositeId(id)
      case None => (t, Err(BadVersionFormat))
      case Some(c) =>
        if VersionJson(root, id) in t then (t, Ok(AlreadyInstalled))
        else
          match EnsureDirTree(t, VersionDir(root, id))
          case None => (t, Err(VersionDirFailed))
          case Some(t1) =>
            match FetchProfiles(remote, c)
            case Err(e) => (t1, Err(e))
            case Ok((loader, vanilla)) =>
              match WriteTree(t1, VersionJson(root, id), ProfileDoc(PatchedProfile(loader, vanilla, id)))
              case None => (t1, Err(WriteFailed))
              case Some(t2) => (t2, Ok(Installed))
  }

  /** Patching only adds paths and changes no file other than the descriptor it installs. */
  lemma PatchFrame(t: Tree, root: Path, gameVersion: JsValue, remote: Remote)
    requires WellFormed(t) && ValidPath(root)
    ensures var r := PatchSpec(t, root, gameVersion, remote).0;
      && WellFormed(r)
      && (forall q :: q in t ==> q in r)
      && (forall q :: IsFile(t, q) && !(gameVersion.Str? && q == VersionJson(root, gameVersion.s)) ==>
            IsFile(r, q) && r[q] == t[q])
  {
    if gameVersion.Str? && ParseCompositeId(gameVersion.s).Some? {
      var id := gameVersion.s;
      JoinPathValid(root + ["versions"], id);
      if VersionJson(root, id) !in t && EnsureDirTree(t, VersionDir(root, id)).Some? {
        var t1 := EnsureDirTree(t, VersionDir(root, id)).value;
        MakeDirsWellFormed(t, VersionDir(root, id));
        if FetchProfiles(remote, ParseCompositeId(id).value).Ok? {
          var pr := FetchProfiles(remote, ParseCompositeId(id).value).value;
          var doc := ProfileDoc(PatchedProfile(pr.0, pr.1, id));
          if WriteTree(t1, VersionJson(root, id), doc).Some? {
            WriteTreeWellFormed(t1, VersionJson(root, id), doc);
            WriteTreeFrame(t1, VersionJson(root, id), doc);
          }
        }
      }
    }
  }

  /**
   * A version id that is not a string, or splits into fewer than four tokens,
   * is refused before anything changes; an installed descriptor is never rewritten.
   */
  lemma PatchGuards(t: Tree, root: Path, gameVersion: JsValue, remote: Remote)
    ensures !gameVersion.Str? ==> PatchSpec(t, root, gameVersion, remote) == (t, Err(NotAString))
    ensures gameVersion.Str? && CountChar(gameVersion.s, '-') < 3 ==>
      PatchSpec(t, root, gameVersion, remote) == (t, Err(BadVersionFormat))
    ensures gameVersion.Str? && CountChar(gameVersion.s, '-') >= 3 && VersionJson(root, gameVersion.s) in t ==>
      PatchSpec(t, root, gameVersion, remote) == (t, Ok(AlreadyInstalled))
  {
    if gameVersion.Str? {
      ParseRejectsShortIds(gameVersion.s);
    }
  }

  /**
   * A successful install writes the patched descriptor built from the two
   * fetched profiles, and from then on patching with any network answers
   * `AlreadyInstalled` and changes nothing.
   */
  lemma PatchInstalled(t: Tree, root: Path, gameVersion: JsValue, remote: Remote, later: Remote)
    requires PatchSpec(t, root, gameVersion, remote).1 == Ok(Installed)
    ensures gameVersion.Str? && ParseCompositeId(gameVersion.s).Some?
    ensures var r := PatchSpec(t, root, gameVersion, remote).0; var id := gameVersion.s;
      var pr := FetchProfiles(remote, ParseCompositeId(id).value);
      && VersionJson(root, id) !in t
      && pr.Ok?
      && IsFile(r, VersionJson(root, id))
      && r[VersionJson(root, id)] == File(ProfileDoc(PatchedProfile(pr.value.0, pr.value.1, id)))
      && PatchSpec(r, root, gameVersion, later) == (r, Ok(AlreadyInstalled))
  {
    var id := gameVersion.s;
    var t1 := EnsureDirTree(t, VersionDir(root, id)).value;
    var pr := FetchProfiles(remote, ParseCompositeId(id).value).value;
    WriteTreeFrame(t1, VersionJson(root, id), ProfileDoc(PatchedProfile(pr.0, pr.1, id)));
  }

  // ----- The whole synchronisation -----

  /** The updater's fixed settings: its game root, the user files it never overwrites, the chunk size. */
  datatype Settings = Settings(gameRoot: Path, preserved: seq<string>, limit: nat)

  datatype SyncError = TargetDirFailed | InvalidManifest | DownloadFailed | PatchFailed(reason: PatchError)

  /**
   * `Skipped`: the manifest could not be fetched; `NoFileList`: `files` is
   * truthy but not an array, so nothing is done; `Updated`: every phase
   * succeeded, with whether the local snapshot was saved.
   */
  datatype SyncOutcome = Skipped | NoFileList | Updated(snapshotSaved: bool) | Aborted(error: SyncError)

  /** The manifest URL with its cache-busting timestamp. */
  function ManifestRequest(manifestUrl: string, now: nat): string {
    (if manifestUrl == "" then DefaultManifestUrl else manifestUrl) + "?t=" + NatText(now)
  }

  function SnapshotPath(target: Path): Path {
    target + ["client-manifest.json"]
  }

  /** The phases after a valid manifest with a file list: prune, download, patch, snapshot. */
  function ApplyManifest(s: Settings, locked: set<Path>, t: Tree, target: Path, m: Manifest,
                         remote: Remote, sha1: Content -> string): (Tree, SyncOutcome)
    requires s.limit > 0 && m.files.FilesList?
  {
    var files := m.files.entries;
    var pruned := Prune(t, locked, target, files).0;
    var d := DownloadAll(Env(target, s.preserved, remote, sha1), pruned, files, s.limit);
    if d.failed then (d.tree, Aborted(DownloadFailed))
    else
      var (t3, patch) := PatchSpec(d.tree, s.gameRoot, m.gameVersion, remote);
      if patch.Err? then (t3, Aborted(PatchFailed(patch.error)))
      else
        match WriteTree(t3, SnapshotPath(target), ManifestDoc(m))
        case Some(t4) => (t4, Updated(true))
        case None => (t3, Updated(false))
  }

  /** `checkAndDownloadUpdates` into `target`. */
  function Sync(s: Settings, locked: set<Path>, t: Tree, target: Path, manifestUrl: string, now: nat,
                remote: Remote, sha1: Content -> string): (Tree, SyncOutcome)
    requires s.limit > 0
  {
    match EnsureDirTree(t, target)
    case None => (t, Aborted(TargetDirFailed))
    case Some(t0) =>
      match remote(ManifestRequest(manifestUrl, now))
      case Fetched(ManifestDoc(m)) =>
        if !Truthy(m.gameVersion) || m.files.FilesMissing? then (t0, Aborted(InvalidManifest))
        else if m.files.FilesNotArray? then (t0, NoFileList)
        else ApplyManifest(s, locked, t0, target, m, remote, sha1)
      case Fetched(_) => (t0, Aborted(InvalidManifest))
      case _ => (t0, Skipped)
  }

  /** The paths a manifest lets the sync write: anything in `mods`, entry destinations, the descriptor, the snapshot. */
  predicate Untouched(s: Settings, target: Path, m: Manifest, q: Path) {
    m.files.FilesList? ==>
      && !IsPrefix(target + ["mods"], q)
      && OnlyPreservedAt(target, s.preserved, m.files.entries, q)
      && q != SnapshotPath(target)
      && !(m.gameVersion.Str? && q == VersionJson(s.gameRoot, m.gameVersion.s))
  }

  /**
   * Nothing else changes: a file that the manifest gives the sync no business
   * with is left exactly as it was, whatever the network answers, and the tree
   * stays well formed.
   */
  lemma SyncFrame(s: Settings, locked: set<Path>, t: Tree, target: Path, manifestUrl: string, now: nat,
                  remote: Remote, sha1: Content -> string, q: Path)
    requires s.limit > 0 && WellFormed(t) && ValidPath(s.gameRoot) && ValidPath(target)
    requires IsFile(t, q)
    requires remote(ManifestRequest(manifestUrl, now)).Fetched? && remote(ManifestRequest(manifestUrl, now)).body.ManifestDoc? ==>
      Untouched(s, target, remote(ManifestRequest(manifestUrl, now)).body.manifest, q)
    ensures var r := Sync(s, locked, t, target, manifestUrl, now, remote, sha1).0;
      WellFormed(r) && IsFile(r, q) && r[q] == t[q]
  {
    if EnsureDirTree(t, target).Some? {
      var t0 := EnsureDirTree(t, target).value;
      MakeDirsWellFormed(t, target);
      var resp := remote(ManifestRequest(manifestUrl, now));
      if resp.Fetched? && resp.body.ManifestDoc? && resp.body.manifest.files.FilesList?
         && Truthy(resp.body.manifest.gameVersion) {
        var m := resp.body.manifest;
        assert Sync(s, locked, t, target, manifestUrl, now, remote, sha1) == ApplyManifest(s, locked, t0, target, m, remote, sha1);
        ApplyManifestFrame(s, locked, t0, target, m, remote, sha1, q);
      }
    }
  }

  /** The phases after the manifest checks keep the tree well formed and leave an untouched file as it was. */
  lemma ApplyManifestFrame(s: Settings, locked: set<Path>, t: Tree, target: Path, m: Manifest,
                           remote: Remote, sha1: Content -> string, q: Path)
    requires s.limit > 0 && m.files.FilesList? && WellFormed(t) && ValidPath(s.gameRoot) && ValidPath(target)
    requires IsFile(t, q) && Untouched(s, target, m, q)
    ensures var r := ApplyManifest(s, locked, t, target, m, remote, sha1).0;
      WellFormed(r) && IsFile(r, q) && r[q] == t[q]
  {
    var files := m.files.entries;
    var env := Env(target, s.preserved, remote, sha1);
    PruneEffect(t, locked, target, files);
    var pruned := Prune(t, locked, target, files).0;
    DownloadAllFrame(env, pruned, files, s.limit, q);
    var d := DownloadAll(env, pruned, files, s.limit);
    if !d.failed {
      PatchFrame(d.tree, s.gameRoot, m.gameVersion, remote);
      var (t3, patch) := PatchSpec(d.tree, s.gameRoot, m.gameVersion, remote);
      if patch.Ok? && WriteTree(t3, SnapshotPath(target), ManifestDoc(m)).Some? {
        WriteTreeWellFormed(t3, SnapshotPath(target), ManifestDoc(m));
        WriteTreeFrame(t3, SnapshotPath(target), ManifestDoc(m));
      }
    }
  }

  /** Whenever patching succeeds the descriptor exists. */
  lemma PatchSucceededPresent(t: Tree, root: Path, gameVersion: JsValue, remote: Remote)
    requires PatchSpec(t, root, gameVersion, remote).1.Ok?
    ensures gameVersion.Str? && VersionJson(root, gameVersion.s) in PatchSpec(t, root, gameVersion, remote).0
  {
    if PatchSpec(t, root, gameVersion, remote).1 == Ok(Installed) {
      PatchInstalled(t, root, gameVersion, remote, remote);
    }
  }

  lemma ApplyManifestComplete(s: Settings, locked: set<Path>, t: Tree, target: Path, m: Manifest,
                              remote: Remote, sha1: Content -> string)
    requires s.limit > 0 && m.files.FilesList? && WellFormed(t) && ValidPath(s.gameRoot) && ValidPath(target)
    requires ApplyManifest(s, locked, t, target, m, remote, sha1).1.Updated?
    ensures m.gameVersion.Str?
    ensures var (r, outcome) := ApplyManifest(s, locked, t, target, m, remote, sha1);
      && (forall f :: f in m.files.entries ==> JoinPath(target, f.path) in r)
      && VersionJson(s.gameRoot, m.gameVersion.s) in r
      && (outcome.snapshotSaved ==> IsFile(r, SnapshotPath(target)) && r[SnapshotPath(target)] == File(ManifestDoc(m)))
  {
    var files := m.files.entries;
    var env := Env(target, s.preserved, remote, sha1);
    PruneEffect(t, locked, target, files);
    var pruned := Prune(t, locked, target, files).0;
    DownloadAllPresent(env, pruned, files, s.limit);
    var d := DownloadAll(env, pruned, files, s.limit);
    PatchFrame(d.tree, s.gameRoot, m.gameVersion, remote);
    PatchSucceededPresent(d.tree, s.gameRoot, m.gameVersion, remote);
    var t3 := PatchSpec(d.tree, s.gameRoot, m.gameVersion, remote).0;
    if WriteTree(t3, SnapshotPath(target), ManifestDoc(m)).Some? {
      WriteTreeFrame(t3, SnapshotPath(target), ManifestDoc(m));
    }
  }

  /**
   * After an update every entry of the manifest is present at its destination,
   * the loader descriptor is installed, and a saved snapshot holds the manifest.
   */
  lemma SyncUpdatedComplete(s: Settings, locked: set<Path>, t: Tree, target: Path, manifestUrl: string, now: nat,
                            remote: Remote, sha1: Content -> string)
    requires s.limit > 0 && WellFormed(t) && ValidPath(s.gameRoot) && ValidPath(target)
    requires Sync(s, locked, t, target, manifestUrl, now, remote, sha1).1.Updated?
    ensures var resp := remote(ManifestRequest(manifestUrl, now));
      resp.Fetched? && resp.body.ManifestDoc? && resp.body.manifest.files.FilesList? && resp.body.manifest.gameVersion.Str?
    ensures var (r, outcome) := Sync(s, locked, t, target, manifestUrl, now, remote, sha1);
      var m := remote(ManifestRequest(manifestUrl, now)).body.manifest;
      && (forall f :: f in m.files.entries ==> JoinPath(target, f.path) in r)
      && VersionJson(s.gameRoot, m.gameVersion.s) in r
      && (outcome.snapshotSaved ==> IsFile(r, SnapshotPath(target)) && r[SnapshotPath(target)] == File(ManifestDoc(m)))
  {
    var t0 := EnsureDirTree(t, target).value;
    MakeDirsWellFormed(t, target);
    var m := remote(ManifestRequest(manifestUrl, now)).body.manifest;
    assert Sync(s, locked, t, target, manifestUrl, now, remote, sha1) == ApplyManifest(s, locked, t0, target, m, remote, sha1);
    ApplyManifestComplete(s, locked, t0, target, m, remote, sha1);
  }

  /**
   * The exits before any phase runs: an unreachable manifest skips the
   * update, a body that is not a manifest or lacks a truthy `gameVersion` or
   * `files` is invalid, and a `files` that is not an array does nothing. Each
   * leaves only the target directory created.
   */
  lemma SyncEarlyExits(s: Settings, locked: set<Path>, t: Tree, target: Path, manifestUrl: string, now: nat,
                       remote: Remote, sha1: Content -> string)
    requires s.limit > 0 && EnsureDirTree(t, target).Some?
    ensures var resp := remote(ManifestRequest(manifestUrl, now)); var t0 := EnsureDirTree(t, target).value;
      var sync := Sync(s, locked, t, target, manifestUrl, now, remote, sha1);
      && (!resp.Fetched? ==> sync == (t0, Skipped))
      && (resp.Fetched? && !resp.body.ManifestDoc? ==> sync == (t0, Aborted(InvalidManifest)))
      && (resp.Fetched? && resp.body.ManifestDoc? &&
          (!Truthy(resp.body.manifest.gameVersion) || resp.body.manifest.files.FilesMissing?) ==>
            sync == (t0, Aborted(InvalidManifest)))
      && ((resp.Fetched? && resp.body.ManifestDoc? && Truthy(resp.body.manifest.gameVersion) &&
           resp.body.manifest.files.FilesNotArray?) ==> sync == (t0, NoFileList))
      && (sync.1 in {Skipped, NoFileList, Aborted(InvalidManifest)} ==> sync.0 == t0)
  {
  }

  /**
   * The phase policy after validation: a failed pruning is only a warning
   * (only the tree it leaves matters), a failed download aborts before the
   * patch, a failed patch aborts before the snapshot, and otherwise the update
   * succeeds whether or not the snapshot is saved.
   */
  lemma ApplyManifestPhases(s: Settings, locked: set<Path>, t: Tree, target: Path, m: Manifest,
                            remote: Remote, sha1: Content -> string)
    requires s.limit > 0 && m.files.FilesList?
    ensures var env := Env(target, s.preserved, remote, sha1);
      var d := DownloadAll(env, Prune(t, locked, target, m.files.entries).0, m.files.entries, s.limit);
      var patch := PatchSpec(d.tree, s.gameRoot, m.gameVersion, remote);
      var (r, outcome) := ApplyManifest(s, locked, t, target, m, remote, sha1);
      && (outcome == Aborted(DownloadFailed) <==> d.failed)
      && (d.failed ==> r == d.tree)
      && (outcome.Aborted? && outcome.error.PatchFailed? <==> !d.failed && patch.1.Err?)
      && (!d.failed && patch.1.Err? ==> r == patch.0 && outcome.error.reason == patch.1.error)
      && (outcome.Updated? <==> !d.failed && patch.1.Ok?)
      && outcome != Aborted(InvalidManifest) && outcome != Aborted(TargetDirFailed)
      && outcome != Skipped && outcome != NoFileList
  {
  }

  // ----- The updater object -----

  /**
   * The descriptor assembly of `patchFabric`, performed as the source does it:
   * push the base game libraries the loader lacks, merge the arguments, copy
   * the assets, then fill in artifacts library by library.
   */
  method PatchDescriptor(loader: Profile, vanilla: Profile, id: string) returns (p: Profile)
    ensures p == PatchedProfile(loader, vanilla, id)
  {
    var existing := KeysOf(loader.libraries);
    var libs := loader.libraries;
    var i := 0;
    while i < |vanilla.libraries|
      invariant 0 <= i <= |vanilla.libraries|
      invariant libs == loader.libraries + Appended(vanilla.libraries[..i], existing)
    {
      var lib := vanilla.libraries[i];
      assert vanilla.libraries[..i + 1][..i] == vanilla.libraries[..i];
      if LibKey(lib.name) !in existing {
        libs := libs + [lib];
      }
      i := i + 1;
    }
    assert vanilla.libraries[..|vanilla.libraries|] == vanilla.libraries;

    var args := loader.arguments.GetOr(Arguments(None, None));
    if vanilla.arguments.Some? {
      var va := vanilla.arguments.value;
      args := Arguments(Some(va.game.GetOr([]) + args.game.GetOr([])), Some(va.jvm.GetOr([]) + args.jvm.GetOr([])));
    }

    ghost var merged := libs;
    var j := 0;
    while j < |libs|
      invariant 0 <= j <= |libs| && |libs| == |merged|
      invariant forall n :: 0 <= n < j ==> libs[n] == FixLibrary(merged[n])
      invariant forall n :: j <= n < |libs| ==> libs[n] == merged[n]
    {
      libs := libs[j := FixLibrary(libs[j])];
      j := j + 1;
    }
    assert libs == FixAll(merged);

    p := loader.(id := id, inheritsFrom := None, libraries := libs, arguments := Some(args),
                 assets := vanilla.assets, assetIndex := vanilla.assetIndex, downloads := vanilla.downloads);
  }

  class GameUpdater {
    const gameRoot: Path
    const concurrencyLimit: nat
    const preservedFiles: seq<string>

    ghost predicate Valid() {
      && ValidPath(gameRoot)
      && concurrencyLimit == 5
      && preservedFiles == ["options.txt", "optionsof.txt", "optionsshaders.txt", "servers.dat"]
    }

    function Config(): Settings {
      Settings(gameRoot, preservedFiles, concurrencyLimit)
    }

    constructor (root: Path)
      requires ValidPath(root)
      ensures Valid() && gameRoot == root
    {
      gameRoot := root;
      concurrencyLimit := 5;
      preservedFiles := ["options.txt", "optionsof.txt", "optionsshaders.txt", "servers.dat"];
    }

    /** Removes every entry of `mods` that the manifest does not declare; stops at the first refused removal. */
    method CleanupOldMods(disk: Disk, files: seq<FileEntry>, target: Path) returns (ok: bool)
      requires disk.Valid()
      modifies disk
      ensures disk.Valid()
      ensures (disk.tree, ok) == Prune(old(disk.tree), disk.locked, target, files)
      ensures |disk.log| >= |old(disk.log)| && disk.log[..|old(disk.log)|] == old(disk.log)
      ensures forall i :: |old(disk.log)| <= i < |disk.log| ==>
        disk.log[i].Removed? && IsPrefix(target + ["mods"], disk.log[i].path)
    {
      if disk.Exists(target + [".admin"]) {
        return true;
      }
      var modsDir := target + ["mods"];
      if !disk.Exists(modsDir) {
        return true;
      }
      if disk.tree[modsDir].File? {
        // readdir on a regular file fails
        return false;
      }
      var localMods := disk.tree[modsDir].names;
      var keep := ModNames(files);
      ghost var t0 := disk.tree;
      var i := 0;
      while i < |localMods|
        invariant 0 <= i <= |localMods|
        invariant disk.Valid()
        invariant PruneListing(t0, disk.locked, modsDir, localMods, keep) ==
                  PruneListing(disk.tree, disk.locked, modsDir, localMods[i..], keep)
        invariant |disk.log| >= |old(disk.log)| && disk.log[..|old(disk.log)|] == old(disk.log)
        invariant forall n :: |old(disk.log)| <= n < |disk.log| ==>
          disk.log[n].Removed? && IsPrefix(modsDir, disk.log[n].path)
      {
        var name := localMods[i];
        assert localMods[i..][0] == name && localMods[i..][1..] == localMods[i + 1..];
        if name !in keep {
          var removed := disk.Remove(modsDir + [name]);
          if !removed {
            return false;
          }
        }
        i := i + 1;
      }
      return true;
    }

    /** `downloadFile`: one entry, against `env`. */
    method DownloadFile(disk: Disk, env: Env, f: FileEntry) returns (kind: TaskKind)
      requires disk.Valid() && ValidPath(env.target)
      modifies disk
      ensures disk.Valid()
      ensures DownloadTask(env, old(disk.tree), f) == TaskResult(disk.tree, kind)
    {
      var dest := JoinPath(env.target, f.path);
      if Basename(f.path) in env.preserved && disk.Exists(dest) {
        return Kept;
      }
      if disk.Exists(dest) && DeclaresSha1(f) {
        if disk.tree[dest].Dir? {
          // hashing a directory fails
          return Error;
        }
        if env.sha1(disk.tree[dest].data) == f.sha1.value {
          return UpToDate;
        }
      }
      kind := TransferFile(disk, env, f);
    }

    /** The transfer of one entry, after the checks of `downloadFile` found it must be fetched. */
    method TransferFile(disk: Disk, env: Env, f: FileEntry) returns (kind: TaskKind)
      requires disk.Valid() && ValidPath(env.target)
      modifies disk
      ensures disk.Valid()
      ensures Transfer(env, old(disk.tree), f) == TaskResult(disk.tree, kind)
    {
      var dest := JoinPath(env.target, f.path);
      JoinPathValid(env.target, f.path);
      ParentValid(dest);
      var dirOk := disk.EnsureDir(Parent(dest));
      if !dirOk {
        return Error;
      }
      ghost var t1 := disk.tree;
      var created := disk.WriteFile(dest, Blob([]));
      if !created {
        return Error;
      }
      ghost var t2 := disk.tree;
      assert t2 == WriteTree(t1, dest, Blob([])).value;
      var response := env.remote(f.url);
      if response.NotFound? {
        return Missing;
      }
      if !response.Fetched? {
        return Error;
      }
      var written := disk.WriteFile(dest, response.body);
      if !written {
        return Error;
      }
      kind := Downloaded(!DeclaresSha1(f) || env.sha1(response.body) == f.sha1.value);
    }

    /** One chunk: `Promise.all` over its tasks, every one of which runs. */
    method DownloadChunk(disk: Disk, env: Env, chunk: seq<FileEntry>, processed0: nat, progress0: seq<nat>)
      returns (processed: nat, progress: seq<nat>, failed: bool)
      requires disk.Valid() && ValidPath(env.target)
      requires |progress0| == processed0 && forall n :: 0 <= n < |progress0| ==> progress0[n] == n + 1
      modifies disk
      ensures disk.Valid()
      ensures RunChunk(env, RunState(old(disk.tree), processed0, false), chunk) == RunState(disk.tree, processed, failed)
      ensures |progress| == processed && forall n :: 0 <= n < |progress| ==> progress[n] == n + 1
    {
      ghost var start := RunState(disk.tree, processed0, false);
      processed, progress, failed := processed0, progress0, false;
      var j := 0;
      while j < |chunk|
        invariant 0 <= j <= |chunk|
        invariant disk.Valid()
        invariant RunChunk(env, start, chunk) == RunChunk(env, RunState(disk.tree, processed, failed), chunk[j..])
        invariant |progress| == processed && forall n :: 0 <= n < |progress| ==> progress[n] == n + 1
      {
        assert chunk[j..][0] == chunk[j] && chunk[j..][1..] == chunk[j + 1..];
        var kind := DownloadFile(disk, env, chunk[j]);
        if Counts(kind) {
          processed := processed + 1;
          progress := progress + [processed];
        }
        if kind.Error? {
          failed := true;
        }
        j := j + 1;
      }
    }

    /**
     * `downloadFiles`: the entries in chunks of `concurrencyLimit`; a chunk
     * with a failed task ends the run. `progress` is the sequence of `current`
     * values the progress events carry.
     */
    method DownloadFiles(disk: Disk, files: seq<FileEntry>, target: Path, remote: Remote, sha1: Content -> string)
      returns (ok: bool, processed: nat, progress: seq<nat>)
      requires Valid() && disk.Valid() && ValidPath(target)
      modifies disk
      ensures disk.Valid()
      ensures var r := DownloadAll(Env(target, preservedFiles, remote, sha1), old(disk.tree), files, concurrencyLimit);
        disk.tree == r.tree && ok == !r.failed && processed == r.processed
      ensures processed <= |files|
      ensures |progress| == processed && forall i :: 0 <= i < |progress| ==> progress[i] == i + 1
    {
      var env := Env(target, preservedFiles, remote, sha1);
      var k := concurrencyLimit;
      ghost var goal := DownloadAll(env, disk.tree, files, k);
      DownloadAllCount(env, disk.tree, files, k);
      processed := 0;
      progress := [];
      var i := 0;
      while i < |files|
        invariant 0 <= i <= |files|
        invariant disk.Valid()
        invariant goal == RunChunks(env, RunState(disk.tree, processed, false), Chunks(files[i..], k))
        invariant |progress| == processed && forall n :: 0 <= n < |progress| ==> progress[n] == n + 1
        decreases |files| - i
      {
        var end := if i + k < |files| then i + k else |files|;
        var chunk := files[i..end];
        ChunksAt(files, i, k);
        var failed;
        processed, progress, failed := DownloadChunk(disk, env, chunk, processed, progress);
        if failed {
          return false, processed, progress;
        }
        i := end;
      }
      assert files[|files|..] == [];
      ok := true;
    }

    /** The three requests of `patchFabric`, with `find` over the base game index. */
    method FetchDescriptors(remote: Remote, c: CompositeId) returns (r: Result<(Profile, Profile), PatchError>)
      ensures r == FetchProfiles(remote, c)
    {
      var response := remote(FabricMetaUrl(c));
      if !(response.Fetched? && response.body.ProfileDoc?) {
        return Err(LoaderFetchFailed);
      }
      var index := remote(VanillaIndexUrl);
      if !(index.Fetched? && index.body.VersionIndexDoc?) {
        return Err(IndexFetchFailed);
      }
      var info := FindVersion(index.body.versions, c.mcVersion);
      if info.None? {
        return Err(VanillaNotFound);
      }
      var vResponse := remote(info.value.url);
      if !(vResponse.Fetched? && vResponse.body.ProfileDoc?) {
        return Err(VanillaFetchFailed);
      }
      return Ok((response.body.profile, vResponse.body.profile));
    }

    /** `patchFabric`: installs `versions/<id>/<id>.json` unless it already exists. */
    method PatchFabric(disk: Disk, gameVersion: JsValue, remote: Remote) returns (r: Result<PatchDone, PatchError>)
      requires Valid() && disk.Valid()
      modifies disk
      ensures disk.Valid()
      ensures (disk.tree, r) == PatchSpec(old(disk.tree), gameRoot, gameVersion, remote)
    {
      if !gameVersion.Str? {
        // path.join refuses a non-string
        return Err(NotAString);
      }
      var targetVersion := gameVersion.s;
      var versionDir := JoinPath(gameRoot + ["versions"], targetVersion);
      var jsonPath := JoinPath(versionDir, targetVersion + ".json");
      var versionParts := Split(targetVersion, '-');
      if |versionParts| < 4 {
        return Err(BadVersionFormat);
      }
      var c := CompositeId(versionParts[2], Join(versionParts[3..], "-"));
      if disk.Exists(jsonPath) {
        return Ok(AlreadyInstalled);
      }
      JoinPathValid(gameRoot + ["versions"], targetVersion);
      var dirOk := disk.EnsureDir(versionDir);
      if !dirOk {
        return Err(VersionDirFailed);
      }
      ghost var t1 := disk.tree;
      var fetched := FetchDescriptors(remote, c);
      if fetched.Err? {
        return Err(fetched.error);
      }
      var patched := PatchDescriptor(fetched.value.0, fetched.value.1, targetVersion);
      var written := disk.WriteFile(jsonPath, ProfileDoc(patched));
      if !written {
        return Err(WriteFailed);
      }
      return Ok(Installed);
    }

    /**
     * `checkAndDownloadUpdates`: fetch and validate the manifest, then prune
     * (a failure is only a warning), download, patch, and save the snapshot
     * (a failure is only a warning).
     */
    method CheckAndDownloadUpdates(disk: Disk, targetGameDir: Option<Path>, manifestUrl: string, now: nat,
                                   remote: Remote, sha1: Content -> string) returns (outcome: SyncOutcome)
      requires Valid() && disk.Valid()
      requires targetGameDir.Some? ==> ValidPath(targetGameDir.value)
      modifies disk
      ensures disk.Valid()
      ensures (disk.tree, outcome) ==
        Sync(Config(), disk.locked, old(disk.tree), targetGameDir.GetOr(gameRoot), manifestUrl, now, remote, sha1)
      ensures outcome == Updated(true) ==>
        |disk.log| > 0 && disk.log[|disk.log| - 1] == Wrote(SnapshotPath(targetGameDir.GetOr(gameRoot)))
      ensures outcome in {Skipped, NoFileList, Aborted(InvalidManifest), Aborted(TargetDirFailed)} ==>
        |disk.log| >= |old(disk.log)| && forall i :: |old(disk.log)| <= i < |disk.log| ==> disk.log[i].MadeDir?
    {
      var target := targetGameDir.GetOr(gameRoot);
      var ok := disk.EnsureDir(target);
      if !ok {
        return Aborted(TargetDirFailed);
      }
      var url := if manifestUrl == "" then DefaultManifestUrl else manifestUrl;
      var response := remote(url + "?t=" + NatText(now));
      if !response.Fetched? {
        return Skipped;
      }
      if !response.body.ManifestDoc? {
        return Aborted(InvalidManifest);
      }
      var manifest := response.body.manifest;
      if !Truthy(manifest.gameVersion) || manifest.files.FilesMissing? {
        return Aborted(InvalidManifest);
      }
      if !manifest.files.FilesList? {
        return NoFileList;
      }
      assert Sync(Config(), disk.locked, old(disk.tree), target, manifestUrl, now, remote, sha1)
          == ApplyManifest(Config(), disk.locked, disk.tree, target, manifest, remote, sha1);
      var files := manifest.files.entries;
      var pruned := CleanupOldMods(disk, files, target);
      var downloaded, processed, progress := DownloadFiles(disk, files, target, remote, sha1);
      if !downloaded {
        return Aborted(DownloadFailed);
      }
      var patch := PatchFabric(disk, manifest.gameVersion, remote);
      if patch.Err? {
        return Aborted(PatchFailed(patch.error));
      }
      var saved := disk.WriteFile(SnapshotPath(target), ManifestDoc(manifest));
      return Updated(saved);
    }
  }
}
