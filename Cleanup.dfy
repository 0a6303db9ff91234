/**
 * `cleanupGameFiles`: deletes logs, crash reports and caches from the game
 * root. Each target is a name below the root: a directory whose matching
 * entries go (a glob), or a path that goes whole. Targets are visited in
 * order, missing ones are skipped, and the first failure ends the run with the
 * count reached so far. Byte sizes and the freed-megabytes figure are not
 * modelled.
 */
module Cleanup {
  import opened Wrappers
  import opened Strings
  import opened FileTree

  /** One entry of the target list: a name below the game root, its kind, and an optional glob. */
  datatype Target = Target(name: string, isDir: bool, glob: Option<string>)

  const CompressedLogs := Target("logs", true, Some("*.log.gz"))
  const LatestLog := Target("logs", true, Some("latest.log"))
  const CrashReports := Target("crash-reports", true, Some("*"))
  const NativeLog := Target("nativelog.txt", false, None)
  const MixinOut := Target(".mixin.out", true, None)
  const WebCache := Target("webcache", true, None)
  const LauncherLog := Target("launcher_log.txt", false, None)

  /** The list `cleanupGameFiles` walks, in its order. */
  const Targets: seq<Target> := [CompressedLogs, LatestLog, CrashReports, NativeLog, MixinOut, WebCache, LauncherLog]

  /** The tree, the `filesDeleted` counter and the `success` flag. */
  datatype Sweep = Sweep(tree: Tree, deleted: nat, ok: bool)

  /** A directory target with a (truthy) glob: its listing is filtered rather than the path removed. */
  predicate Globbed(target: Target) {
    target.isDir && target.glob.Some? && target.glob.value != ""
  }

  /** Whether a listed entry goes: all of them for `*`, else those ending in the glob without its first `*`. */
  predicate Selected(target: Target, file: string)
    requires Globbed(target)
  {
    if target.glob.value == "*" then true
    else EndsWith(file, RemoveFirst(target.glob.value, '*'))
  }

  function CountSelected(target: Target, names: seq<string>): nat
    requires Globbed(target)
    decreases |names|
  {
    if names == [] then 0
    else (if Selected(target, names[0]) then 1 else 0) + CountSelected(target, names[1..])
  }

  /** One entry of a listing: `fs.stat` then `fs.remove` when it is selected. */
  function StepListed(t: Tree, locked: set<Path>, dir: Path, file: string, target: Target, count: nat): Sweep
    requires Globbed(target)
  {
    var p := dir + [file];
    if !Selected(target, file) then Sweep(t, count, true)
    else if p !in t then Sweep(t, count, false)
    else if Blocked(t, locked, p) then Sweep(t, count, false)
    else Sweep(RemoveTree(t, p), count + 1, true)
  }

  /** The loop over a listing read once; the first failure ends it. */
  function RemoveListed(t: Tree, locked: set<Path>, dir: Path, names: seq<string>, target: Target, count: nat): Sweep
    requires Globbed(target)
    decreases |names|
  {
    if names == [] then Sweep(t, count, true)
    else
      var s := StepListed(t, locked, dir, names[0], target, count);
      if !s.ok then s else RemoveListed(s.tree, locked, dir, names[1..], target, s.deleted)
  }

  /** One target: skipped when missing, filtered when globbed (`readdir` on a file throws), else removed whole. */
  function SweepTarget(t: Tree, locked: set<Path>, root: Path, target: Target, count: nat): Sweep {
    var full := root + [target.name];
    if full !in t then Sweep(t, count, true)
    else if Globbed(target) then
      if !IsDir(t, full) then Sweep(t, count, false)
      else RemoveListed(t, locked, full, t[full].names, target, count)
    else if Blocked(t, locked, full) then Sweep(t, count, false)
    else Sweep(RemoveTree(t, full), count + 1, true)
  }

  /** The targets in order; the first failure ends the run. */
  function SweepAll(t: Tree, locked: set<Path>, root: Path, targets: seq<Target>, count: nat): Sweep
    decreases |targets|
  {
    if targets == [] then Sweep(t, count, true)
    else
      var s := SweepTarget(t, locked, root, targets[0], count);
      if !s.ok then s else SweepAll(s.tree, locked, root, targets[1..], s.deleted)
  }

  function CleanupSpec(t: Tree, locked: set<Path>, gameRoot: Path): Sweep {
    if gameRoot !in t then Sweep(t, 0, true) else SweepAll(t, locked, gameRoot, Targets, 0)
  }

  // ----- The procedure -----

  /** `after` is `before` followed by `n` removals. */
  ghost predicate RemovalsAppended(before: seq<Op>, after: seq<Op>, n: nat) {
    && |after| == |before| + n && after[..|before|] == before
    && forall i :: |before| <= i < |after| ==> after[i].Removed?
  }

  lemma RemovalsAppendedTrans(a: seq<Op>, b: seq<Op>, c: seq<Op>, m: nat, n: nat)
    requires RemovalsAppended(a, b, m) && RemovalsAppended(b, c, n)
    ensures RemovalsAppended(a, c, m + n)
  {
    assert c[..|a|] == b[..|a|];
    forall i | |a| <= i < |c| ensures c[i].Removed? {
      if i < |b| {
        assert c[i] == c[..|b|][i];
      }
    }
  }

  /** The body of the inner loops, for one listed name. */
  method RemoveEntry(disk: Disk, dir: Path, file: string, target: Target, count0: nat)
    returns (ok: bool, count: nat)
    requires disk.Valid() && Globbed(target)
    modifies disk
    ensures disk.Valid()
    ensures Sweep(disk.tree, count, ok) == StepListed(old(disk.tree), disk.locked, dir, file, target, count0)
    ensures disk.log == old(disk.log) + if count == count0 then [] else [Removed(dir + [file])]
  {
    count := count0;
    if Selected(target, file) {
      var filePath := dir + [file];
      if !disk.Exists(filePath) {
        // fs.stat throws
        return false, count;
      }
      ok := disk.Remove(filePath);
      if ok {
        count := count + 1;
      }
    } else {
      ok := true;
    }
  }

  /** The inner loops over a directory listing. */
  method RemoveMatching(disk: Disk, dir: Path, names: seq<string>, target: Target, count0: nat)
    returns (ok: bool, count: nat)
    requires disk.Valid() && Globbed(target)
    modifies disk
    ensures disk.Valid()
    ensures Sweep(disk.tree, count, ok) == RemoveListed(old(disk.tree), disk.locked, dir, names, target, count0)
    ensures count >= count0 && RemovalsAppended(old(disk.log), disk.log, count - count0)
  {
    ok := true;
    count := count0;
    var j := 0;
    while j < |names|
      invariant 0 <= j <= |names|
      invariant disk.Valid()
      invariant RemoveListed(old(disk.tree), disk.locked, dir, names, target, count0)
             == RemoveListed(disk.tree, disk.locked, dir, names[j..], target, count)
      invariant count >= count0 && RemovalsAppended(old(disk.log), disk.log, count - count0)
    {
      assert names[j..][0] == names[j] && names[j..][1..] == names[j + 1..];
      ghost var logBefore, countBefore := disk.log, count;
      var stepOk;
      stepOk, count := RemoveEntry(disk, dir, names[j], target, count);
      RemovalsAppendedTrans(old(disk.log), logBefore, disk.log, countBefore - count0, count - countBefore);
      if !stepOk {
        return false, count;
      }
      j := j + 1;
    }
  }

  /** The body of the outer loop, for one target below the game root. */
  method SweepOne(disk: Disk, gameRoot: Path, target: Target, count0: nat) returns (ok: bool, count: nat)
    requires disk.Valid()
    modifies disk
    ensures disk.Valid()
    ensures Sweep(disk.tree, count, ok) == SweepTarget(old(disk.tree), disk.locked, gameRoot, target, count0)
    ensures count >= count0 && RemovalsAppended(old(disk.log), disk.log, count - count0)
  {
    count := count0;
    var fullPath := gameRoot + [target.name];
    if !disk.Exists(fullPath) {
      return true, count;
    }
    if target.isDir && target.glob.Some? && target.glob.value != "" {
      if !IsDir(disk.tree, fullPath) {
        // fs.readdir on a file throws
        return false, count;
      }
      ok, count := RemoveMatching(disk, fullPath, disk.tree[fullPath].names, target, count);
    } else {
      ok := disk.Remove(fullPath);
      if ok {
        count := count + 1;
      }
    }
  }

  /** The outer loop: the targets in order, stopping at the first failure. */
  method SweepList(disk: Disk, gameRoot: Path, targets: seq<Target>) returns (success: bool, filesDeleted: nat)
    requires disk.Valid()
    modifies disk
    ensures disk.Valid()
    ensures Sweep(disk.tree, filesDeleted, success) == SweepAll(old(disk.tree), disk.locked, gameRoot, targets, 0)
    ensures RemovalsAppended(old(disk.log), disk.log, filesDeleted)
  {
    filesDeleted := 0;
    var i := 0;
    while i < |targets|
      invariant 0 <= i <= |targets|
      invariant disk.Valid()
      invariant SweepAll(old(disk.tree), disk.locked, gameRoot, targets, 0)
             == SweepAll(disk.tree, disk.locked, gameRoot, targets[i..], filesDeleted)
      invariant RemovalsAppended(old(disk.log), disk.log, filesDeleted)
    {
      assert targets[i..][0] == targets[i] && targets[i..][1..] == targets[i + 1..];
      ghost var logBefore, countBefore := disk.log, filesDeleted;
      var ok;
      ok, filesDeleted := SweepOne(disk, gameRoot, targets[i], filesDeleted);
      RemovalsAppendedTrans(old(disk.log), logBefore, disk.log, countBefore, filesDeleted - countBefore);
      if !ok {
        return false, filesDeleted;
      }
      i := i + 1;
    }
    success := true;
  }

  /** `cleanupGameFiles()`: `success` and `filesDeleted`. */
  method CleanupGameFiles(disk: Disk, gameRoot: Path) returns (success: bool, filesDeleted: nat)
    requires disk.Valid()
    modifies disk
    ensures disk.Valid()
    ensures Sweep(disk.tree, filesDeleted, success) == CleanupSpec(old(disk.tree), disk.locked, gameRoot)
    ensures RemovalsAppended(old(disk.log), disk.log, filesDeleted)
  {
    if !disk.Exists(gameRoot) {
      return true, 0;
    }
    success, filesDeleted := SweepList(disk, gameRoot, Targets);
  }

  // ----- Properties -----

  /** `q` is not inside a selected entry of `dir`. */
  predicate Spared(target: Target, dir: Path, q: Path)
    requires Globbed(target)
  {
    !(IsPrefix(dir, q) && |q| > |dir| && Selected(target, q[|dir|]))
  }

  /** Removing one entry of `dir` leaves whether a sibling is locked as it was. */
  lemma SiblingBlocked(t: Tree, locked: set<Path>, dir: Path, n: string, m: string)
    requires n != m
    ensures Blocked(RemoveTree(t, dir + [n]), locked, dir + [m]) <==> Blocked(t, locked, dir + [m])
  {
    RemoveTreeKeys(t, dir + [n]);
    forall q | IsPrefix(dir + [m], q)
      ensures !IsPrefix(dir + [n], q)
    {
      assert q[|dir|] == (dir + [m])[|dir|] == m;
    }
  }

  /** Filtering a listing keeps the tree well formed. */
  lemma {:induction false} RemoveListedWellFormed(t: Tree, locked: set<Path>, dir: Path, names: seq<string>,
                                                  target: Target, count: nat)
    requires WellFormed(t) && Globbed(target)
    ensures WellFormed(RemoveListed(t, locked, dir, names, target, count).tree)
    decreases |names|
  {
    if names != [] && Selected(target, names[0]) {
      var p := dir + [names[0]];
      if p in t && !Blocked(t, locked, p) {
        RemoveTreeWellFormed(t, p);
        RemoveListedWellFormed(RemoveTree(t, p), locked, dir, names[1..], target, count + 1);
      }
    } else if names != [] {
      RemoveListedWellFormed(t, locked, dir, names[1..], target, count);
    }
  }

  /** Filtering a listing only removes paths, and only inside selected entries; `dir` itself stays. */
  lemma {:induction false} RemoveListedFrame(t: Tree, locked: set<Path>, dir: Path, names: seq<string>,
                                             target: Target, count: nat)
    requires IsDir(t, dir) && Globbed(target)
    ensures var s := RemoveListed(t, locked, dir, names, target, count);
      && IsDir(s.tree, dir) && s.deleted >= count
      && (forall q :: q in s.tree ==> q in t)
      && (forall q :: q in t && Spared(target, dir, q) ==> q in s.tree)
      && (forall q :: IsFile(t, q) && Spared(target, dir, q) ==> IsFile(s.tree, q) && s.tree[q] == t[q])
    decreases |names|
  {
    if names != [] {
      var n := names[0];
      var p := dir + [n];
      if Selected(target, n) && p in t && !Blocked(t, locked, p) {
        RemoveTreeKeys(t, p);
        assert Parent(p) == dir && !IsPrefix(p, dir);
        RemoveListedFrame(RemoveTree(t, p), locked, dir, names[1..], target, count + 1);
        forall q | IsPrefix(p, q) ensures !Spared(target, dir, q) {
          assert q[|dir|] == p[|dir|] == n;
        }
      } else {
        RemoveListedFrame(t, locked, dir, names[1..], target, count);
      }
    }
  }

  /**
   * Filtering a listing of distinct existing entries fails exactly when a
   * selected entry is locked, and on success counts every selected entry once.
   */
  lemma {:induction false} RemoveListedOutcome(t: Tree, locked: set<Path>, dir: Path, names: seq<string>,
                                               target: Target, count: nat)
    requires Globbed(target)
    requires NoDuplicates(names) && forall n :: n in names ==> dir + [n] in t
    ensures var s := RemoveListed(t, locked, dir, names, target, count);
      && (s.ok <==> forall n :: n in names && Selected(target, n) ==> !Blocked(t, locked, dir + [n]))
      && count <= s.deleted <= count + CountSelected(target, names)
      && (s.ok ==> s.deleted == count + CountSelected(target, names))
    decreases |names|
  {
    if names != [] {
      var n := names[0];
      var rest := names[1..];
      assert NoDuplicates(rest) by {
        forall i, j | 0 <= i < j < |rest| ensures rest[i] != rest[j] {
          assert rest[i] == names[i + 1] && rest[j] == names[j + 1];
        }
      }
      assert n !in rest by {
        forall i | 0 <= i < |rest| ensures rest[i] != n {
          assert rest[i] == names[i + 1];
        }
      }
      var p := dir + [n];
      assert p in t;
      if !Selected(target, n) {
        assert StepListed(t, locked, dir, n, target, count) == Sweep(t, count, true);
        RemoveListedOutcome(t, locked, dir, rest, target, count);
      } else if !Blocked(t, locked, p) {
        var t1 := RemoveTree(t, p);
        assert StepListed(t, locked, dir, n, target, count) == Sweep(t1, count + 1, true);
        RemoveTreeKeys(t, p);
        forall m | m in rest ensures dir + [m] in t1 && (Blocked(t1, locked, dir + [m]) <==> Blocked(t, locked, dir + [m])) {
          assert !IsPrefix(p, dir + [m]) by {
            assert (dir + [m])[|dir|] == m;
          }
          SiblingBlocked(t, locked, dir, n, m);
        }
        RemoveListedOutcome(t1, locked, dir, rest, target, count + 1);
      }
    }
  }

  /** After a successful filter no selected entry of the listing is left. */
  lemma {:induction false} RemoveListedClears(t: Tree, locked: set<Path>, dir: Path, names: seq<string>,
                                              target: Target, count: nat)
    requires IsDir(t, dir) && Globbed(target)
    requires RemoveListed(t, locked, dir, names, target, count).ok
    ensures var s := RemoveListed(t, locked, dir, names, target, count);
      forall q :: q in s.tree && IsPrefix(dir, q) && |q| > |dir| && q[|dir|] in names ==> !Selected(target, q[|dir|])
    decreases |names|
  {
    if names != [] {
      var n := names[0];
      var p := dir + [n];
      var s := RemoveListed(t, locked, dir, names, target, count);
      if Selected(target, n) {
        var t1 := RemoveTree(t, p);
        RemoveTreeKeys(t, p);
        assert Parent(p) == dir && !IsPrefix(p, dir);
        RemoveListedClears(t1, locked, dir, names[1..], target, count + 1);
        RemoveListedFrame(t1, locked, dir, names[1..], target, count + 1);
        forall q | IsPrefix(dir, q) && |q| > |dir| && q[|dir|] == n ensures IsPrefix(p, q) {
          assert q[..|p|] == q[..|dir|] + [q[|dir|]];
        }
      } else {
        RemoveListedClears(t, locked, dir, names[1..], target, count);
      }
    }
  }

  /** What a target leaves behind: no selected entry below a globbed one, nothing at all at any other. */
  predicate Cleared(t: Tree, root: Path, target: Target) {
    var full := root + [target.name];
    if Globbed(target) then
      forall q :: q in t && IsPrefix(full, q) && |q| > |full| ==> !Selected(target, q[|full|])
    else
      forall q :: q in t ==> !IsPrefix(full, q)
  }

  lemma SweepTargetWellFormed(t: Tree, locked: set<Path>, root: Path, target: Target, count: nat)
    requires WellFormed(t)
    ensures WellFormed(SweepTarget(t, locked, root, target, count).tree)
  {
    var full := root + [target.name];
    if full in t && Globbed(target) && IsDir(t, full) {
      RemoveListedWellFormed(t, locked, full, t[full].names, target, count);
    } else if full in t && !Globbed(target) && !Blocked(t, locked, full) {
      RemoveTreeWellFormed(t, full);
    }
  }

  /** One target only removes paths, all of them below its own path, and never lowers the count. */
  lemma SweepTargetFrame(t: Tree, locked: set<Path>, root: Path, target: Target, count: nat)
    ensures var full := root + [target.name]; var s := SweepTarget(t, locked, root, target, count);
      && s.deleted >= count
      && (forall q :: q in s.tree ==> q in t)
      && (forall q :: IsFile(t, q) && !IsPrefix(full, q) ==> IsFile(s.tree, q) && s.tree[q] == t[q])
      && (full in t && Globbed(target) && s.ok ==> IsDir(s.tree, full))
  {
    var full := root + [target.name];
    if full in t && Globbed(target) && IsDir(t, full) {
      RemoveListedFrame(t, locked, full, t[full].names, target, count);
    } else if full in t && !Globbed(target) && !Blocked(t, locked, full) {
      RemoveTreeKeys(t, full);
      assert Parent(full) == root;
    }
  }

  /**
   * One target: a missing one succeeds and changes nothing; a globbed one
   * fails exactly on a regular file or a locked selected entry, and otherwise
   * counts each selected entry once; any other fails exactly when something
   * below it is locked, and otherwise counts once.
   */
  lemma SweepTargetOutcome(t: Tree, locked: set<Path>, root: Path, target: Target, count: nat)
    requires WellFormed(t)
    ensures var full := root + [target.name]; var s := SweepTarget(t, locked, root, target, count);
      && (full !in t ==> s == Sweep(t, count, true))
      && (full in t && !Globbed(target) ==>
            (s.ok <==> !Blocked(t, locked, full)) && (s.ok ==> s.deleted == count + 1))
      && (full in t && Globbed(target) ==>
            (s.ok <==> IsDir(t, full) && forall n :: n in t[full].names && Selected(target, n) ==> !Blocked(t, locked, full + [n]))
            && (s.ok ==> s.deleted == count + CountSelected(target, t[full].names)))
  {
    var full := root + [target.name];
    if full in t && Globbed(target) && IsDir(t, full) {
      var names := t[full].names;
      assert NoDuplicates(names);
      forall n | n in names ensures full + [n] in t {
        var i :| 0 <= i < |names| && names[i] == n;
      }
      RemoveListedOutcome(t, locked, full, names, target, count);
    }
  }

  /** A successful target leaves nothing it selects. */
  lemma SweepTargetClears(t: Tree, locked: set<Path>, root: Path, target: Target, count: nat)
    requires ParentsList(t)
    requires SweepTarget(t, locked, root, target, count).ok
    ensures Cleared(SweepTarget(t, locked, root, target, count).tree, root, target)
  {
    var full := root + [target.name];
    var s := SweepTarget(t, locked, root, target, count);
    SweepTargetFrame(t, locked, root, target, count);
    if full !in t {
      forall q | q in t ensures !IsPrefix(full, q) {
        if IsPrefix(full, q) && q != full {
          AncestorIsDir(t, q, |full|);
        }
      }
    } else if Globbed(target) {
      RemoveListedClears(t, locked, full, t[full].names, target, count);
      forall q | q in s.tree && IsPrefix(full, q) && |q| > |full| ensures !Selected(target, q[|full|]) {
        BelowIsListed(t, full, q);
      }
    } else {
      RemoveTreeKeys(t, full);
    }
  }

  /** A later target only removes paths, so what an earlier one cleared stays cleared. */
  lemma ClearedShrinks(t: Tree, r: Tree, root: Path, target: Target)
    requires Cleared(t, root, target) && forall q :: q in r ==> q in t
    ensures Cleared(r, root, target)
  {
  }

  /** The targets in order keep the tree well formed. */
  lemma {:induction false} SweepAllWellFormed(t: Tree, locked: set<Path>, root: Path, targets: seq<Target>, count: nat)
    requires WellFormed(t)
    ensures WellFormed(SweepAll(t, locked, root, targets, count).tree)
    decreases |targets|
  {
    if targets != [] {
      SweepTargetWellFormed(t, locked, root, targets[0], count);
      var s0 := SweepTarget(t, locked, root, targets[0], count);
      if s0.ok {
        SweepAllWellFormed(s0.tree, locked, root, targets[1..], s0.deleted);
      }
    }
  }

  /** The targets in order only remove paths, and a file below none of the target paths is untouched. */
  lemma {:induction false} SweepAllFrame(t: Tree, locked: set<Path>, root: Path, targets: seq<Target>, count: nat)
    ensures var s := SweepAll(t, locked, root, targets, count);
      && s.deleted >= count
      && (forall q :: q in s.tree ==> q in t)
      && (forall q :: IsFile(t, q) && (forall k :: 0 <= k < |targets| ==> !IsPrefix(root + [targets[k].name], q)) ==>
            IsFile(s.tree, q) && s.tree[q] == t[q])
    decreases |targets|
  {
    if targets != [] {
      SweepTargetFrame(t, locked, root, targets[0], count);
      var s0 := SweepTarget(t, locked, root, targets[0], count);
      if s0.ok {
        SweepAllFrame(s0.tree, locked, root, targets[1..], s0.deleted);
        forall q | IsFile(t, q) && (forall k :: 0 <= k < |targets| ==> !IsPrefix(root + [targets[k].name], q))
          ensures forall k :: 0 <= k < |targets[1..]| ==> !IsPrefix(root + [targets[1..][k].name], q)
        {
          forall k | 0 <= k < |targets[1..]| ensures !IsPrefix(root + [targets[1..][k].name], q) {
            assert targets[1..][k] == targets[k + 1];
          }
        }
      }
    }
  }

  lemma ClearedCons(t: Tree, root: Path, targets: seq<Target>)
    requires targets != [] && Cleared(t, root, targets[0])
    requires forall k :: 0 <= k < |targets[1..]| ==> Cleared(t, root, targets[1..][k])
    ensures forall k :: 0 <= k < |targets| ==> Cleared(t, root, targets[k])
  {
    forall k | 0 < k < |targets| ensures Cleared(t, root, targets[k]) {
      assert targets[1..][k - 1] == targets[k];
    }
  }

  /** A successful run clears every target. */
  lemma {:induction false} SweepAllClears(t: Tree, locked: set<Path>, root: Path, targets: seq<Target>, count: nat)
    requires WellFormed(t) && SweepAll(t, locked, root, targets, count).ok
    ensures forall k :: 0 <= k < |targets| ==> Cleared(SweepAll(t, locked, root, targets, count).tree, root, targets[k])
    decreases |targets|
  {
    if targets != [] {
      var s0 := SweepTarget(t, locked, root, targets[0], count);
      SweepTargetClears(t, locked, root, targets[0], count);
      SweepTargetWellFormed(t, locked, root, targets[0], count);
      SweepAllClears(s0.tree, locked, root, targets[1..], s0.deleted);
      SweepAllFrame(s0.tree, locked, root, targets[1..], s0.deleted);
      var s := SweepAll(s0.tree, locked, root, targets[1..], s0.deleted);
      assert SweepAll(t, locked, root, targets, count) == s;
      ClearedShrinks(s0.tree, s.tree, root, targets[0]);
      ClearedCons(s.tree, root, targets);
    }
  }

  /**
   * The targets in order, from a well-formed tree: it stays well formed,
   * files below none of the target paths are untouched, and on success every
   * target is cleared.
   */
  lemma SweepAllEffect(t: Tree, locked: set<Path>, root: Path, targets: seq<Target>)
    requires WellFormed(t)
    ensures var s := SweepAll(t, locked, root, targets, 0);
      && WellFormed(s.tree)
      && (forall q :: q in s.tree ==> q in t)
      && (forall q :: IsFile(t, q) && (forall k :: 0 <= k < |targets| ==> !IsPrefix(root + [targets[k].name], q)) ==>
            IsFile(s.tree, q) && s.tree[q] == t[q])
      && (s.ok ==> forall k :: 0 <= k < |targets| ==> Cleared(s.tree, root, targets[k]))
  {
    SweepAllWellFormed(t, locked, root, targets, 0);
    SweepAllFrame(t, locked, root, targets, 0);
    if SweepAll(t, locked, root, targets, 0).ok {
      SweepAllClears(t, locked, root, targets, 0);
    }
  }

  /** Below a missing root every target is trivially cleared. */
  lemma MissingRootCleared(t: Tree, root: Path, targets: seq<Target>)
    requires ParentsList(t) && root !in t
    ensures forall k :: 0 <= k < |targets| ==> Cleared(t, root, targets[k])
  {
    AbsentHasNothingBelow(t, root);
    forall k | 0 <= k < |targets| ensures Cleared(t, root, targets[k]) {
      forall q | q in t ensures !IsPrefix(root + [targets[k].name], q) {
        assert |q| > |root| ==> q[..|root|] == q[..|root| + 1][..|root|];
      }
    }
  }

  /**
   * `cleanupGameFiles` as a whole: a missing game root changes nothing and
   * reports success; otherwise the tree stays well formed, files outside the
   * target paths are untouched, and on success every target is cleared.
   */
  lemma CleanupEffect(t: Tree, locked: set<Path>, gameRoot: Path)
    requires WellFormed(t)
    ensures var s := CleanupSpec(t, locked, gameRoot);
      && (gameRoot !in t ==> s == Sweep(t, 0, true))
      && WellFormed(s.tree)
      && (forall q :: q in s.tree ==> q in t)
      && (forall q :: IsFile(t, q) && (forall k :: 0 <= k < |Targets| ==> !IsPrefix(gameRoot + [Targets[k].name], q)) ==>
            IsFile(s.tree, q) && s.tree[q] == t[q])
      && (s.ok ==> forall k :: 0 <= k < |Targets| ==> Cleared(s.tree, gameRoot, Targets[k]))
  {
    if gameRoot in t {
      SweepAllEffect(t, locked, gameRoot, Targets);
    } else {
      MissingRootCleared(t, gameRoot, Targets);
    }
  }

  /** `crash-reports` is emptied and kept: after it succeeds, the directory is there and nothing is below it. */
  lemma CrashReportsEmptied(t: Tree, locked: set<Path>, root: Path, count: nat)
    requires WellFormed(t) && IsDir(t, root + ["crash-reports"])
    requires SweepTarget(t, locked, root, CrashReports, count).ok
    ensures var r := SweepTarget(t, locked, root, CrashReports, count).tree;
      IsDir(r, root + ["crash-reports"]) && forall q :: q in r && IsPrefix(root + ["crash-reports"], q) ==> q == root + ["crash-reports"]
  {
    SweepTargetFrame(t, locked, root, CrashReports, count);
    SweepTargetClears(t, locked, root, CrashReports, count);
  }

  /** The first `logs` glob selects exactly the names ending in `.log.gz`. */
  lemma CompressedLogsSelected(file: string)
    ensures Selected(CompressedLogs, file) <==> EndsWith(file, ".log.gz")
  {
    assert RemoveFirst("*.log.gz", '*') == ".log.gz";
  }

  /**
   * The `latest.log` glob has no `*`, so it is a suffix test too: any name
   * ending in `latest.log` is removed, not only `latest.log` itself.
   */
  lemma LatestLogIsSuffixMatch(file: string)
    ensures Selected(LatestLog, file) <==> EndsWith(file, "latest.log")
  {
    assert RemoveFirst("latest.log", '*') == "latest.log";
  }

  /** Whatever comes before `latest.log`, the name is selected: `notlatest.log` goes as well. */
  lemma PrefixedLatestLogSelected(prefix: string)
    ensures Selected(LatestLog, prefix + "latest.log")
  {
    LatestLogIsSuffixMatch(prefix + "latest.log");
    assert (prefix + "latest.log")[|prefix|..] == "latest.log";
  }
}
