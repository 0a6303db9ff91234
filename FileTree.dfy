/**
 * The file system as a map from absolute paths (sequences of names) to nodes.
 * A directory node keeps its listing in `readdir` order. `Disk` is the
 * mutable store the updater, the manifest producer and the cleanup work on.
 */
module FileTree {
  import opened Wrappers
  import opened Strings
  import opened Documents

  type Path = seq<string>

  datatype Node = File(data: Content) | Dir(names: seq<string>)

  type Tree = map<Path, Node>

  /** A single path segment that `path.join` keeps as it is. */
  predicate ValidName(n: string) {
    n != "" && n != "." && n != ".." && '/' !in n
  }

  predicate ValidPath(p: Path) {
    forall i :: 0 <= i < |p| ==> ValidName(p[i])
  }

  predicate IsPrefix(a: Path, b: Path) {
    |a| <= |b| && b[..|a|] == a
  }

  function Parent(p: Path): Path {
    if p == [] then [] else p[..|p| - 1]
  }

  function Last(p: Path): string
    requires p != []
  {
    p[|p| - 1]
  }

  predicate IsDir(t: Tree, p: Path) {
    p in t && t[p].Dir?
  }

  predicate IsFile(t: Tree, p: Path) {
    p in t && t[p].File?
  }

  /** `readdir(d)` on a directory. */
  function Children(t: Tree, d: Path): seq<string> {
    if IsDir(t, d) then t[d].names else []
  }

  ghost predicate NoDuplicates(s: seq<string>) {
    forall i, j :: 0 <= i < j < |s| ==> s[i] != s[j]
  }

  /** Every path other than the root sits in a directory that lists its name. */
  ghost predicate ParentsList(t: Tree) {
    forall p {:trigger Parent(p)} {:trigger Last(p)} :: p in t && p != [] ==> IsDir(t, Parent(p)) && Last(p) in t[Parent(p)].names
  }

  ghost predicate ListingsDistinct(t: Tree) {
    forall d :: d in t && t[d].Dir? ==> NoDuplicates(t[d].names)
  }

  /** Every listed name is a valid name of a path that exists. */
  ghost predicate ListingsExist(t: Tree) {
    forall d, i :: d in t && t[d].Dir? && 0 <= i < |t[d].names| ==>
      d + [t[d].names[i]] in t && ValidName(t[d].names[i])
  }

  /** The tree invariant: the root is a directory and listings agree with the paths present. */
  ghost predicate WellFormed(t: Tree) {
    IsDir(t, []) && ParentsList(t) && ListingsDistinct(t) && ListingsExist(t)
  }

  /** The listing without `n`. */
  function RemoveName(names: seq<string>, n: string): (r: seq<string>)
    ensures forall x :: x in r <==> x in names && x != n
    ensures |r| <= |names|
  {
    if names == [] then []
    else if names[0] == n then RemoveName(names[1..], n)
    else [names[0]] + RemoveName(names[1..], n)
  }

  /** `fs.remove(p)`: `p` and everything below it go, and the parent no longer lists it. */
  function RemoveTree(t: Tree, p: Path): (r: Tree)
    requires p != []
  {
    map q | q in t && !IsPrefix(p, q) ::
      if q == Parent(p) && t[q].Dir? then Dir(RemoveName(t[q].names, Last(p))) else t[q]
  }

  /** Put `node` at `p`, adding its name to the parent's listing when `p` is new. */
  function Insert(t: Tree, p: Path, node: Node): Tree
    requires p != []
  {
    if p in t || !IsDir(t, Parent(p)) then t[p := node]
    else t[Parent(p) := Dir(t[Parent(p)].names + [Last(p)])][p := node]
  }

  /** Some prefix of `d` (or `d` itself) is a regular file. */
  predicate FileOnPath(t: Tree, d: Path)
    decreases |d|
  {
    IsFile(t, d) || (d != [] && FileOnPath(t, Parent(d)))
  }

  /** Create every missing directory on the way to `d`, outermost first. */
  function MakeDirs(t: Tree, d: Path): Tree
    decreases |d|
  {
    if d == [] then t
    else
      var t1 := MakeDirs(t, Parent(d));
      if d in t1 then t1 else Insert(t1, d, Dir([]))
  }

  /** `fs.ensureDir(d)`: fails when a regular file stands on the path. */
  function EnsureDirTree(t: Tree, d: Path): Option<Tree> {
    if FileOnPath(t, d) then None else Some(MakeDirs(t, d))
  }

  /** Writing a file: the parent must be a directory and `p` must not be one. */
  function WriteTree(t: Tree, p: Path, c: Content): Option<Tree> {
    if p != [] && IsDir(t, Parent(p)) && ValidName(Last(p)) && !IsDir(t, p) then Some(Insert(t, p, File(c)))
    else None
  }

  /** Removal of `p` fails when a locked path exists at or below it. */
  predicate Blocked(t: Tree, locked: set<Path>, p: Path) {
    exists q :: q in locked && q in t && IsPrefix(p, q)
  }

  /** `path.join(base, rel)` for a normalised `base`: empty and `.` segments vanish, `..` climbs. */
  function Resolve(base: Path, segs: seq<string>): Path
    decreases |segs|
  {
    if segs == [] then base
    else if segs[0] == "" || segs[0] == "." then Resolve(base, segs[1..])
    else if segs[0] == ".." then Resolve(Parent(base), segs[1..])
    else Resolve(base + [segs[0]], segs[1..])
  }

  function JoinPath(base: Path, rel: string): Path {
    Resolve(base, Split(rel, '/'))
  }

  function LastNonEmpty(pieces: seq<string>): string
    decreases |pieces|
  {
    if pieces == [] then ""
    else if pieces[|pieces| - 1] != "" then pieces[|pieces| - 1]
    else LastNonEmpty(pieces[..|pieces| - 1])
  }

  /** `path.basename(s)`: the last name of a `/`-separated path, trailing slashes ignored. */
  function Basename(s: string): string {
    LastNonEmpty(Split(s, '/'))
  }

  // ----- Lemmas -----

  lemma {:induction false} RemoveNameNoDuplicates(names: seq<string>, n: string)
    requires NoDuplicates(names)
    ensures NoDuplicates(RemoveName(names, n))
    decreases |names|
  {
    if names != [] {
      assert NoDuplicates(names[1..]);
      RemoveNameNoDuplicates(names[1..], n);
      if names[0] != n {
        var rest := RemoveName(names[1..], n);
        assert names[0] !in names[1..];
        assert names[0] !in rest;
        var r := [names[0]] + rest;
        forall i, j | 0 <= i < j < |r| ensures r[i] != r[j] {
          if i == 0 {
            assert r[j] == rest[j - 1];
            assert rest[j - 1] in rest;
          } else {
            assert r[i] == rest[i - 1] && r[j] == rest[j - 1];
          }
        }
      }
    }
  }

  lemma PrefixOfParent(p: Path, q: Path)
    requires q != [] && IsPrefix(p, Parent(q))
    ensures IsPrefix(p, q)
  {
  }

  /** A prefix of `d + [n]` that is no prefix of `d` is `d + [n]` itself. */
  lemma PrefixOfChild(p: Path, d: Path, n: string)
    requires IsPrefix(p, d + [n]) && !IsPrefix(p, d)
    ensures p == d + [n]
  {
  }

  lemma ParentAndLast(p: Path)
    requires p != []
    ensures p == Parent(p) + [Last(p)]
  {
  }

  lemma RemoveTreeParentsList(t: Tree, p: Path)
    requires p != [] && ParentsList(t)
    ensures ParentsList(RemoveTree(t, p))
  {
    var r := RemoveTree(t, p);
    forall q | q in r && q != []
      ensures IsDir(r, Parent(q)) && Last(q) in r[Parent(q)].names
    {
      assert q in t && !IsPrefix(p, q);
      if IsPrefix(p, Parent(q)) {
        PrefixOfParent(p, q);
      }
      assert Parent(q) in r;
      if Parent(q) == Parent(p) && Last(q) == Last(p) {
        ParentAndLast(q);
        ParentAndLast(p);
        assert false;
      }
    }
  }

  lemma RemoveTreeListingsDistinct(t: Tree, p: Path)
    requires p != [] && ListingsDistinct(t)
    ensures ListingsDistinct(RemoveTree(t, p))
  {
    var r := RemoveTree(t, p);
    forall d | d in r && r[d].Dir?
      ensures NoDuplicates(r[d].names)
    {
      if d == Parent(p) && t[d].Dir? {
        RemoveNameNoDuplicates(t[d].names, Last(p));
      }
    }
  }

  lemma RemoveTreeListingsExist(t: Tree, p: Path)
    requires p != [] && ListingsExist(t)
    ensures ListingsExist(RemoveTree(t, p))
  {
    var r := RemoveTree(t, p);
    forall d, i | d in r && r[d].Dir? && 0 <= i < |r[d].names|
      ensures d + [r[d].names[i]] in r && ValidName(r[d].names[i])
    {
      var n := r[d].names[i];
      assert n in r[d].names;
      assert n in t[d].names;
      var k :| 0 <= k < |t[d].names| && t[d].names[k] == n;
      assert d + [n] in t && ValidName(n);
      if IsPrefix(p, d + [n]) {
        assert !IsPrefix(p, d);
        PrefixOfChild(p, d, n);
        ParentAndLast(p);
        assert false;
      }
    }
  }

  /** Removing a subtree keeps the tree well formed. */
  lemma RemoveTreeWellFormed(t: Tree, p: Path)
    requires WellFormed(t) && p != []
    ensures WellFormed(RemoveTree(t, p))
  {
    RemoveTreeParentsList(t, p);
    RemoveTreeListingsDistinct(t, p);
    RemoveTreeListingsExist(t, p);
  }

  /** A path that is not yet present is not listed by its parent. */
  lemma AbsentNotListed(t: Tree, p: Path)
    requires ListingsExist(t) && p != [] && IsDir(t, Parent(p)) && p !in t
    ensures Last(p) !in t[Parent(p)].names
  {
    if Last(p) in t[Parent(p)].names {
      var k :| 0 <= k < |t[Parent(p)].names| && t[Parent(p)].names[k] == Last(p);
      ParentAndLast(p);
    }
  }

  lemma InsertParentsList(t: Tree, p: Path, node: Node)
    requires ParentsList(t) && p != [] && IsDir(t, Parent(p))
    requires p in t ==> t[p].File? && node.File?
    ensures ParentsList(Insert(t, p, node))
  {
    var r := Insert(t, p, node);
    forall q | q in r && q != []
      ensures IsDir(r, Parent(q)) && Last(q) in r[Parent(q)].names
    {
      if q != p {
        assert q in t;
      }
    }
  }

  lemma InsertListingsDistinct(t: Tree, p: Path, node: Node)
    requires ListingsDistinct(t) && ListingsExist(t) && p != [] && IsDir(t, Parent(p))
    requires node.Dir? ==> NoDuplicates(node.names)
    ensures ListingsDistinct(Insert(t, p, node))
  {
    var r := Insert(t, p, node);
    if p !in t {
      AbsentNotListed(t, p);
      var names := t[Parent(p)].names;
      var grown := names + [Last(p)];
      forall i, j | 0 <= i < j < |grown| ensures grown[i] != grown[j] {
        if j == |names| {
          assert grown[i] == names[i];
        } else {
          assert grown[i] == names[i] && grown[j] == names[j];
        }
      }
      assert NoDuplicates(grown);
    }
  }

  lemma InsertListingsExist(t: Tree, p: Path, node: Node)
    requires ListingsExist(t) && p != [] && IsDir(t, Parent(p)) && ValidName(Last(p))
    requires node == Dir([]) || node.File?
    ensures ListingsExist(Insert(t, p, node))
  {
    var r := Insert(t, p, node);
    var par := Parent(p);
    forall d, i | d in r && r[d].Dir? && 0 <= i < |r[d].names|
      ensures d + [r[d].names[i]] in r && ValidName(r[d].names[i])
    {
      if d == par && p !in t && i == |t[par].names| {
        ParentAndLast(p);
      } else {
        assert d != p;
        assert r[d].names[i] == t[d].names[i];
      }
    }
  }

  /** Inserting a new empty directory or a file keeps the tree well formed. */
  lemma InsertWellFormed(t: Tree, p: Path, node: Node)
    requires WellFormed(t) && p != [] && IsDir(t, Parent(p)) && ValidName(Last(p))
    requires node == Dir([]) || node.File?
    requires p in t ==> t[p].File? && node.File?
    ensures WellFormed(Insert(t, p, node))
  {
    InsertParentsList(t, p, node);
    InsertListingsDistinct(t, p, node);
    InsertListingsExist(t, p, node);
  }

  /** One more segment of `MakeDirs`, as the loop of `Disk.EnsureDir` takes it. */
  lemma MakeDirsStep(t: Tree, d: Path, i: nat)
    requires i < |d|
    ensures Parent(d[..i + 1]) == d[..i]
    ensures MakeDirs(t, d[..i + 1]) ==
      var t1 := MakeDirs(t, d[..i]); if d[..i + 1] in t1 then t1 else Insert(t1, d[..i + 1], Dir([]))
  {
    assert Parent(d[..i + 1]) == d[..i];
  }

  /** `MakeDirs` leaves a well-formed tree in which `d` is a directory and every file is unchanged. */
  lemma {:induction false} MakeDirsWellFormed(t: Tree, d: Path)
    requires WellFormed(t) && ValidPath(d) && !FileOnPath(t, d)
    ensures WellFormed(MakeDirs(t, d)) && IsDir(MakeDirs(t, d), d)
    ensures forall q :: q in t ==> q in MakeDirs(t, d)
    ensures forall q :: IsFile(t, q) ==> IsFile(MakeDirs(t, d), q) && MakeDirs(t, d)[q] == t[q]
    ensures forall q :: IsFile(MakeDirs(t, d), q) ==> IsFile(t, q)
    decreases |d|
  {
    if d != [] {
      var par := Parent(d);
      assert ValidPath(par);
      MakeDirsWellFormed(t, par);
      var t1 := MakeDirs(t, par);
      if d !in t1 {
        assert ValidName(Last(d));
        InsertWellFormed(t1, d, Dir([]));
      } else {
        assert d !in t || t[d].Dir?;
      }
    }
  }

  /** Normalising a path of valid names appends them unchanged. */
  lemma {:induction false} ResolvePlain(base: Path, segs: seq<string>)
    requires ValidPath(segs)
    ensures Resolve(base, segs) == base + segs
    decreases |segs|
  {
    if segs != [] {
      assert ValidPath(segs[1..]);
      ResolvePlain(base + [segs[0]], segs[1..]);
      assert base + [segs[0]] + segs[1..] == base + segs;
    }
  }

  /** `path.join(base, names.join('/'))` is `base` followed by the names. */
  lemma JoinPathOfJoin(base: Path, names: Path)
    requires |names| >= 1 && ValidPath(names)
    ensures JoinPath(base, Join(names, "/")) == base + names
  {
    SplitJoin(names, '/');
    ResolvePlain(base, names);
  }

  /** Normalisation keeps every segment valid. */
  lemma {:induction false} ResolveValid(base: Path, segs: seq<string>)
    requires ValidPath(base)
    requires forall i :: 0 <= i < |segs| ==> '/' !in segs[i]
    ensures ValidPath(Resolve(base, segs))
    decreases |segs|
  {
    if segs != [] {
      if segs[0] == "" || segs[0] == "." {
        ResolveValid(base, segs[1..]);
      } else if segs[0] == ".." {
        ResolveValid(Parent(base), segs[1..]);
      } else {
        ResolveValid(base + [segs[0]], segs[1..]);
      }
    }
  }

  /** `path.join` of a valid base yields a valid path. */
  lemma JoinPathValid(base: Path, rel: string)
    requires ValidPath(base)
    ensures ValidPath(JoinPath(base, rel))
  {
    SplitPiecesLackSeparator(rel, '/');
    ResolveValid(base, Split(rel, '/'));
  }

  /** A successful write keeps the tree well formed. */
  lemma WriteTreeWellFormed(t: Tree, p: Path, c: Content)
    requires WellFormed(t) && WriteTree(t, p, c).Some?
    ensures WellFormed(WriteTree(t, p, c).value)
  {
    InsertWellFormed(t, p, File(c));
  }

  /** A successful write changes only `p`: every other path keeps its node kind and every other file its contents. */
  lemma WriteTreeFrame(t: Tree, p: Path, c: Content)
    requires WriteTree(t, p, c).Some?
    ensures IsFile(WriteTree(t, p, c).value, p) && WriteTree(t, p, c).value[p] == File(c)
    ensures forall q :: q in WriteTree(t, p, c).value <==> q in t || q == p
    ensures forall q :: IsFile(t, q) && q != p ==> IsFile(WriteTree(t, p, c).value, q) && WriteTree(t, p, c).value[q] == t[q]
    ensures forall q :: IsDir(t, q) ==> IsDir(WriteTree(t, p, c).value, q)
  {
  }

  /** What `fs.remove(p)` keeps: every path not below `p`, all but the parent unchanged. */
  lemma RemoveTreeKeys(t: Tree, p: Path)
    requires p != []
    ensures forall q :: q in RemoveTree(t, p) <==> q in t && !IsPrefix(p, q)
    ensures forall q :: q in t && !IsPrefix(p, q) && q != Parent(p) ==> RemoveTree(t, p)[q] == t[q]
    ensures IsDir(t, Parent(p)) ==> IsDir(RemoveTree(t, p), Parent(p))
  {
    assert !IsPrefix(p, Parent(p));
  }

  /** The paths at or below `d`: the measure that recursive walks of a directory tree decrease. */
  function Under(t: Tree, d: Path): set<Path> {
    set q | q in t && IsPrefix(d, q)
  }

  lemma UnderShrinks(t: Tree, dir: Path, n: string)
    requires dir in t
    ensures |Under(t, dir + [n])| < |Under(t, dir)|
  {
    var a := Under(t, dir + [n]);
    var b := Under(t, dir);
    assert a <= b by {
      forall q | q in a ensures q in b {
        assert q[..|dir|] == (q[..|dir| + 1])[..|dir|];
      }
    }
    assert dir in b && dir !in a;
    assert |a| < |b| by {
      assert b == a + (b - a);
      assert |b| == |a| + |b - a|;
    }
  }

  /** Every proper prefix of a present path is a directory. */
  lemma {:induction false} AncestorIsDir(t: Tree, q: Path, k: nat)
    requires ParentsList(t) && q in t && k < |q|
    ensures IsDir(t, q[..k])
    decreases |q| - k
  {
    var p := Parent(q);
    assert IsDir(t, p);
    if k < |p| {
      AncestorIsDir(t, p, k);
      assert p[..k] == q[..k];
    }
  }

  /** A path strictly below `dir` lies in a child that `dir` lists. */
  lemma BelowIsListed(t: Tree, dir: Path, q: Path)
    requires ParentsList(t) && q in t && IsPrefix(dir, q) && |q| > |dir|
    ensures dir + [q[|dir|]] in t && IsDir(t, dir) && q[|dir|] in t[dir].names
  {
    var child := q[..|dir| + 1];
    assert child == dir + [q[|dir|]];
    if |q| > |dir| + 1 {
      AncestorIsDir(t, q, |dir| + 1);
    } else {
      assert child == q;
    }
    assert Parent(child) == dir && Last(child) == q[|dir|];
    assert IsDir(t, Parent(child)) && Last(child) in t[Parent(child)].names;
  }

  /** Nothing lies below a path that is not present. */
  lemma AbsentHasNothingBelow(t: Tree, p: Path)
    requires ParentsList(t) && p !in t
    ensures forall q :: q in t ==> !IsPrefix(p, q)
  {
    forall q | q in t ensures !IsPrefix(p, q) {
      if |q| > |p| {
        AncestorIsDir(t, q, |p|);
        assert q[..|p|] in t;
      } else {
        assert q[..|q|] == q;
      }
    }
  }

  /** Every present path is made of valid names. */
  lemma {:induction false} PresentPathValid(t: Tree, q: Path)
    requires WellFormed(t) && q in t
    ensures ValidPath(q)
    decreases |q|
  {
    if q != [] {
      var p := Parent(q);
      PresentPathValid(t, p);
      var names := t[p].names;
      var i :| 0 <= i < |names| && names[i] == Last(q);
      assert ValidName(names[i]);
      ParentAndLast(q);
    }
  }

  // ----- The mutable store -----

  /** One change to the disk, recorded for stating the order of the phases. */
  datatype Op = Removed(path: Path) | Wrote(path: Path) | MadeDir(path: Path)

  class Disk {
    var tree: Tree
    /** Paths the operating system refuses to delete (held open by another process). */
    const locked: set<Path>
    /** Every change made, in order. */
    ghost var log: seq<Op>

    ghost predicate Valid()
      reads this
    {
      WellFormed(tree)
    }

    constructor (contents: Tree, busy: set<Path>)
      requires WellFormed(contents)
      ensures Valid() && tree == contents && locked == busy && log == []
    {
      tree := contents;
      locked := busy;
      log := [];
    }

    /** `fs.pathExists(p)`. */
    predicate Exists(p: Path)
      reads this
    {
      p in tree
    }

    /** `fs.remove(p)`; a missing `p` is no error. */
    method Remove(p: Path) returns (ok: bool)
      requires Valid() && p != []
      modifies this
      ensures Valid()
      ensures ok == !Blocked(old(tree), locked, p)
      ensures tree == if ok then RemoveTree(old(tree), p) else old(tree)
      ensures log == old(log) + if ok then [Removed(p)] else []
    {
      ok := !exists q :: q in locked && q in tree && IsPrefix(p, q);
      if ok {
        RemoveTreeWellFormed(tree, p);
        tree := RemoveTree(tree, p);
        log := log + [Removed(p)];
      }
    }

    /** `fs.ensureDir(d)`: creates the missing directories from the outermost in. */
    method EnsureDir(d: Path) returns (ok: bool)
      requires Valid() && ValidPath(d)
      modifies this
      ensures Valid()
      ensures ok == EnsureDirTree(old(tree), d).Some?
      ensures tree == if ok then EnsureDirTree(old(tree), d).value else old(tree)
      ensures ok ==> IsDir(tree, d)
      ensures |log| >= |old(log)| && log[..|old(log)|] == old(log)
      ensures forall i :: |old(log)| <= i < |log| ==> log[i].MadeDir?
    {
      ok := !FileOnPath(tree, d);
      if !ok {
        return;
      }
      MakeDirsWellFormed(tree, d);
      ghost var t0 := tree;
      var i := 0;
      assert d[..0] == [];
      while i < |d|
        invariant 0 <= i <= |d|
        invariant tree == MakeDirs(t0, d[..i])
        invariant |log| >= |old(log)| && log[..|old(log)|] == old(log)
        invariant forall k :: |old(log)| <= k < |log| ==> log[k].MadeDir?
      {
        var q := d[..i + 1];
        MakeDirsStep(t0, d, i);
        if q !in tree {
          tree := Insert(tree, q, Dir([]));
          log := log + [MadeDir(q)];
        }
        i := i + 1;
      }
      assert d[..|d|] == d;
    }

    /** `fs.writeFile(p, c)`, or `writeJson`: fails when the parent is missing or `p` is a directory. */
    method WriteFile(p: Path, c: Content) returns (ok: bool)
      requires Valid()
      modifies this
      ensures Valid()
      ensures ok == WriteTree(old(tree), p, c).Some?
      ensures tree == if ok then WriteTree(old(tree), p, c).value else old(tree)
      ensures log == old(log) + if ok then [Wrote(p)] else []
    {
      ok := p != [] && IsDir(tree, Parent(p)) && ValidName(Last(p)) && !IsDir(tree, p);
      if ok {
        InsertWellFormed(tree, p, File(c));
        tree := Insert(tree, p, File(c));
        log := log + [Wrote(p)];
      }
    }
  }
}
