/**
 * The pure parts of `GameUpdater.patchFabric`: reading the composite version
 * id, merging the loader profile with the base game profile, and filling in
 * Maven artifact downloads for libraries that lack one.
 */
module Descriptor {
  import opened Wrappers
  import opened Strings
  import opened Js
  import opened Documents

  const FabricMavenHost := "https://maven.fabricmc.net/"
  const MojangLibrariesHost := "https://libraries.minecraft.net/"
  const VanillaIndexUrl := "https://piston-meta.mojang.com/mc/game/version_manifest_v2.json"

  /** The two versions a composite id `fabric-loader-<loader>-<game>` names. */
  datatype CompositeId = CompositeId(loaderVersion: string, mcVersion: string)

  /** `gameVersion.split('-')`: at least four tokens; token 2 is the loader, tokens 3.. rejoined are the game. */
  function ParseCompositeId(id: string): Option<CompositeId> {
    var tokens := Split(id, '-');
    if |tokens| >= 4 then Some(CompositeId(tokens[2], Join(tokens[3..], "-"))) else None
  }

  /** The loader profile endpoint. */
  function FabricMetaUrl(c: CompositeId): string {
    "https://meta.fabricmc.net/v2/versions/loader/" + c.mcVersion + "/" + c.loaderVersion + "/profile/json"
  }

  /** `name.split(':')[0] + ':' + name.split(':')[1]`; a missing second token reads as `undefined`. */
  function LibKey(name: string): string {
    var parts := Split(name, ':');
    parts[0] + ":" + (if |parts| > 1 then parts[1] else "undefined")
  }

  /** The `group:artifact` keys of the loader's libraries, taken once before any push. */
  function KeysOf(libs: seq<Library>): set<string> {
    set i | 0 <= i < |libs| :: LibKey(libs[i].name)
  }

  /** The base game libraries that get pushed: those whose key is not in `existing`, in order. */
  function Appended(vanilla: seq<Library>, existing: set<string>): seq<Library>
    decreases |vanilla|
  {
    if vanilla == [] then []
    else
      var last := vanilla[|vanilla| - 1];
      Appended(vanilla[..|vanilla| - 1], existing) + (if LibKey(last.name) in existing then [] else [last])
  }

  /** The merged library list: the loader's, then the base game's that the loader does not provide. */
  function MergedLibraries(loader: seq<Library>, vanilla: seq<Library>): seq<Library> {
    loader + Appended(vanilla, KeysOf(loader))
  }

  /** `arguments` after the merge: base game arguments first, loader arguments after. */
  function MergedArguments(loader: Option<Arguments>, vanilla: Option<Arguments>): Arguments {
    var own := loader.GetOr(Arguments(None, None));
    match vanilla
    case None => own
    case Some(va) =>
      Arguments(Some(va.game.GetOr([]) + own.game.GetOr([])), Some(va.jvm.GetOr([]) + own.jvm.GetOr([])))
  }

  /** Maven layout: `group(dots as slashes)/artifact/version/artifact-version.jar`. */
  function ArtifactPath(group: string, artifact: string, version: string): string {
    ReplaceAll(group, '.', '/') + "/" + artifact + "/" + version + "/" + artifact + "-" + version + ".jar"
  }

  predicate LoaderEcosystem(group: string) {
    Contains(group, "fabricmc") || Contains(group, "ow2") || Contains(group, "jetbrains")
  }

  /** The host a synthesised artifact is fetched from. */
  function ArtifactBase(url: Option<string>, group: string): string {
    if url.Some? && url.value != "" then url.value
    else if LoaderEcosystem(group) then FabricMavenHost
    else MojangLibrariesHost
  }

  /** One pass of the `forEach` that fills in `downloads.artifact`. */
  function FixLibrary(lib: Library): Library {
    var d := lib.downloads.GetOr(LibDownloads(None, Undefined));
    var parts := Split(lib.name, ':');
    if d.artifact.Some? || |parts| < 3 then lib.(downloads := Some(d))
    else
      var path := ArtifactPath(parts[0], parts[1], parts[2]);
      lib.(downloads := Some(d.(artifact := Some(Artifact(path, ArtifactBase(lib.url, parts[0]) + path, 0)))))
  }

  function FixAll(libs: seq<Library>): (r: seq<Library>)
    ensures |r| == |libs|
  {
    seq(|libs|, i requires 0 <= i < |libs| => FixLibrary(libs[i]))
  }

  /** The descriptor `patchFabric` writes for composite id `id`. */
  function PatchedProfile(loader: Profile, vanilla: Profile, id: string): Profile {
    loader.(
      id := id,
      inheritsFrom := None,
      libraries := FixAll(MergedLibraries(loader.libraries, vanilla.libraries)),
      arguments := Some(MergedArguments(loader.arguments, vanilla.arguments)),
      assets := vanilla.assets,
      assetIndex := vanilla.assetIndex,
      downloads := vanilla.downloads)
  }

  // ----- Composite id -----

  function CountChar(s: string, c: char): nat
    decreases |s|
  {
    if s == [] then 0 else (if s[0] == c then 1 else 0) + CountChar(s[1..], c)
  }

  lemma {:induction false} SplitCount(s: string, c: char)
    ensures |Split(s, c)| == CountChar(s, c) + 1
    decreases |s|
  {
    if s != [] {
      SplitCount(s[1..], c);
    }
  }

  /** The id is rejected exactly when it holds fewer than three dashes. */
  lemma ParseRejectsShortIds(id: string)
    ensures ParseCompositeId(id).None? <==> CountChar(id, '-') < 3
  {
    SplitCount(id, '-');
  }

  /** Rebuilding a parsed `fabric-loader-...` id gives the id back. */
  lemma ParseThenRebuild(id: string)
    requires ParseCompositeId(id).Some?
    requires Split(id, '-')[..2] == ["fabric", "loader"]
    ensures var c := ParseCompositeId(id).value;
      "fabric-loader-" + c.loaderVersion + "-" + c.mcVersion == id
  {
    var tokens := Split(id, '-');
    JoinSplit(id, '-');
    var c := ParseCompositeId(id).value;
    assert tokens[0] == "fabric" && tokens[1] == "loader" by {
      assert tokens[..2][0] == tokens[0] && tokens[..2][1] == tokens[1];
    }
    assert tokens[1..][1..] == tokens[2..];
    assert tokens[2..][1..] == tokens[3..];
    assert Join(tokens[2..], "-") == c.loaderVersion + "-" + c.mcVersion;
    assert Join(tokens[1..], "-") == "loader" + "-" + (c.loaderVersion + "-" + c.mcVersion);
    assert Join(tokens, "-") == "fabric" + "-" + ("loader" + "-" + (c.loaderVersion + "-" + c.mcVersion));
  }

  // ----- Library merge -----

  /**
   * A base game library is pushed exactly as often as it occurs, when its key is
   * not among the loader's, and never otherwise (the key set is not updated by
   * the pushes, so duplicates in the base list are all pushed).
   */
  lemma {:induction false} AppendedCounts(vanilla: seq<Library>, existing: set<string>)
    ensures forall l :: multiset(Appended(vanilla, existing))[l] ==
                       (if LibKey(l.name) in existing then 0 else multiset(vanilla)[l])
    decreases |vanilla|
  {
    if vanilla != [] {
      var init := vanilla[..|vanilla| - 1];
      var last := vanilla[|vanilla| - 1];
      AppendedCounts(init, existing);
      assert vanilla == init + [last];
      assert multiset(vanilla) == multiset(init) + multiset{last};
    }
  }

  /** The merge keeps the loader's libraries first and in order, then `Appended`. */
  lemma MergedLibrariesShape(loader: seq<Library>, vanilla: seq<Library>)
    ensures |MergedLibraries(loader, vanilla)| >= |loader|
    ensures MergedLibraries(loader, vanilla)[..|loader|] == loader
    ensures forall l :: l in MergedLibraries(loader, vanilla)[|loader|..] <==>
      l in vanilla && LibKey(l.name) !in KeysOf(loader)
  {
    var m := MergedLibraries(loader, vanilla);
    assert m[|loader|..] == Appended(vanilla, KeysOf(loader));
    AppendedCounts(vanilla, KeysOf(loader));
    forall l ensures l in m[|loader|..] <==> l in vanilla && LibKey(l.name) !in KeysOf(loader) {
      assert l in m[|loader|..] <==> multiset(m[|loader|..])[l] > 0;
      assert l in vanilla <==> multiset(vanilla)[l] > 0;
    }
  }

  /** `group:artifact` of a three-part coordinate. */
  lemma {:induction false} LibKeyOfCoordinate(g: string, a: string, v: string)
    requires ':' !in g && ':' !in a && ':' !in v
    ensures Split(g + ":" + a + ":" + v, ':') == [g, a, v]
    ensures LibKey(g + ":" + a + ":" + v) == g + ":" + a
  {
    assert g + ":" + a + ":" + v == g + [':'] + (a + [':'] + v);
    SplitConcat(a, v, ':');
    SplitConcat(g, a + [':'] + v, ':');
    SplitWithoutSeparator(g, ':');
    SplitWithoutSeparator(a, ':');
    SplitWithoutSeparator(v, ':');
  }

  /**
   * A loader library wins over a base game library with the same key: the
   * loader's `G1:A1:v1` stays, the base game's `G1:A1:v2` is dropped, and the
   * base game's `G2:A2:v1` is appended.
   */
  lemma MergeExample(g1: string, a1: string, g2: string, a2: string,
                     v1: string, v2: string, x: Library, y: Library, z: Library)
    requires ':' !in g1 && ':' !in a1 && ':' !in g2 && ':' !in a2 && ':' !in v1 && ':' !in v2
    requires g1 + ":" + a1 != g2 + ":" + a2
    requires x.name == g1 + ":" + a1 + ":" + v1
    requires y.name == g1 + ":" + a1 + ":" + v2
    requires z.name == g2 + ":" + a2 + ":" + v1
    ensures MergedLibraries([x], [y, z]) == [x, z]
  {
    LibKeyOfCoordinate(g1, a1, v1);
    LibKeyOfCoordinate(g1, a1, v2);
    LibKeyOfCoordinate(g2, a2, v1);
    assert KeysOf([x]) == {g1 + ":" + a1} by {
      assert [x][0] == x;
    }
    assert [y, z][..1] == [y];
    assert [y][..0] == [];
    assert [y, z][1] == z;
    assert LibKey(y.name) in KeysOf([x]) && LibKey(z.name) !in KeysOf([x]);
    assert Appended([y], KeysOf([x])) == [];
    assert Appended([y, z], KeysOf([x])) == Appended([y], KeysOf([x])) + [z];
  }

  // ----- Arguments -----

  /**
   * The arguments of the written descriptor: with base game arguments, each
   * list holds the base game's entries first and the loader's after them;
   * without, the loader's arguments stay as they are, or `{}` when it has none.
   */
  lemma PatchedArguments(loader: Profile, vanilla: Profile, id: string)
    ensures var p := PatchedProfile(loader, vanilla, id); var own := loader.arguments.GetOr(Arguments(None, None));
      && p.arguments.Some?
      && (vanilla.arguments.None? ==> p.arguments.value == own)
      && (vanilla.arguments.Some? ==>
            var va := vanilla.arguments.value; var g := p.arguments.value.game; var j := p.arguments.value.jvm;
            && g.Some? && |g.value| == |va.game.GetOr([])| + |own.game.GetOr([])|
            && g.value[..|va.game.GetOr([])|] == va.game.GetOr([]) && g.value[|va.game.GetOr([])|..] == own.game.GetOr([])
            && j.Some? && |j.value| == |va.jvm.GetOr([])| + |own.jvm.GetOr([])|
            && j.value[..|va.jvm.GetOr([])|] == va.jvm.GetOr([]) && j.value[|va.jvm.GetOr([])|..] == own.jvm.GetOr([]))
  {
    if vanilla.arguments.Some? {
      var va := vanilla.arguments.value;
      var own := loader.arguments.GetOr(Arguments(None, None));
      var g := va.game.GetOr([]) + own.game.GetOr([]);
      var j := va.jvm.GetOr([]) + own.jvm.GetOr([]);
      assert g[..|va.game.GetOr([])|] == va.game.GetOr([]);
      assert j[..|va.jvm.GetOr([])|] == va.jvm.GetOr([]);
    }
  }

  /** Base game arguments `[x, y]` and loader arguments `[z]` merge into `[x, y, z]`. */
  lemma ArgumentsExample(x: JsValue, y: JsValue, z: JsValue, jvm: Option<seq<JsValue>>)
    ensures MergedArguments(Some(Arguments(Some([z]), jvm)), Some(Arguments(Some([x, y]), None))).game
      == Some([x, y, z])
  {
    assert [x, y] + [z] == [x, y, z];
  }

  // ----- Artifacts -----

  lemma {:induction false} SplitOfReplaced(g: string)
    requires '/' !in g
    ensures Split(ReplaceAll(g, '.', '/'), '/') == Split(g, '.')
    decreases |g|
  {
    if g != [] {
      var r := ReplaceAll(g, '.', '/');
      assert r[1..] == ReplaceAll(g[1..], '.', '/');
      assert '/' !in g[1..];
      SplitOfReplaced(g[1..]);
    }
  }

  /**
   * The synthesised path follows the Maven layout: its `/`-separated segments
   * are the group's dot-separated parts, the artifact, the version and the
   * jar name.
   */
  lemma ArtifactPathLayout(g: string, a: string, v: string)
    requires '/' !in g && '/' !in a && '/' !in v
    ensures Split(ArtifactPath(g, a, v), '/') == Split(g, '.') + [a, v, a + "-" + v + ".jar"]
  {
    var jar := a + "-" + v + ".jar";
    var r := ReplaceAll(g, '.', '/');
    var tail := a + ['/'] + (v + ['/'] + jar);
    assert ArtifactPath(g, a, v) == r + ['/'] + tail;
    SplitSegments(a, v, jar);
    SplitConcat(r, tail, '/');
    SplitOfReplaced(g);
  }

  /** Three slash-free segments joined by `/` split back into themselves. */
  lemma SplitSegments(a: string, v: string, jar: string)
    requires '/' !in a && '/' !in v && '/' !in jar
    ensures Split(a + ['/'] + (v + ['/'] + jar), '/') == [a, v, jar]
  {
    var tail := v + ['/'] + jar;
    assert Split(tail, '/') == [v, jar] by {
      SplitConcat(v, jar, '/');
      SplitWithoutSeparator(v, '/');
      SplitWithoutSeparator(jar, '/');
    }
    SplitConcat(a, tail, '/');
    SplitWithoutSeparator(a, '/');
  }

  /**
   * What the artifact pass does to one library: an existing artifact is left
   * alone, a coordinate with fewer than three parts only gains an empty
   * `downloads`, and any other gets artifact `path`, URL `base + path`, size 0.
   */
  lemma FixLibraryEffect(lib: Library)
    ensures FixLibrary(lib).name == lib.name && FixLibrary(lib).url == lib.url
    ensures FixLibrary(lib).downloads.Some?
    ensures lib.downloads.Some? && lib.downloads.value.artifact.Some? ==> FixLibrary(lib) == lib
    ensures |Split(lib.name, ':')| < 3 && lib.downloads.None? ==>
      FixLibrary(lib).downloads == Some(LibDownloads(None, Undefined))
    ensures var parts := Split(lib.name, ':');
      |parts| >= 3 && (lib.downloads.None? || lib.downloads.value.artifact.None?) ==>
        && FixLibrary(lib).downloads.value.artifact.Some?
        && var art := FixLibrary(lib).downloads.value.artifact.value;
        && art.path == ArtifactPath(parts[0], parts[1], parts[2])
        && art.url == ArtifactBase(lib.url, parts[0]) + art.path
        && art.size == 0
  {
  }

  /** The pass is idempotent: a fixed library is left as it is. */
  lemma FixLibraryIdempotent(lib: Library)
    ensures FixLibrary(FixLibrary(lib)) == FixLibrary(lib)
  {
  }

  /**
   * The patched descriptor is self-contained: it carries the target id, no
   * `inheritsFrom`, the base game's assets and downloads, and every library has
   * a `downloads` object, with an artifact whenever its coordinate has three parts.
   */
  lemma PatchedProfileSelfContained(loader: Profile, vanilla: Profile, id: string)
    ensures var p := PatchedProfile(loader, vanilla, id);
      && p.id == id && p.inheritsFrom.None?
      && p.assets == vanilla.assets && p.assetIndex == vanilla.assetIndex && p.downloads == vanilla.downloads
      && p.mainClass == loader.mainClass
      && |p.libraries| == |loader.libraries| + |Appended(vanilla.libraries, KeysOf(loader.libraries))|
      && (forall i :: 0 <= i < |p.libraries| ==> p.libraries[i].downloads.Some?)
      && (forall i :: 0 <= i < |p.libraries| && |Split(p.libraries[i].name, ':')| >= 3 ==>
            p.libraries[i].downloads.value.artifact.Some?)
  {
    var p := PatchedProfile(loader, vanilla, id);
    var m := MergedLibraries(loader.libraries, vanilla.libraries);
    forall i | 0 <= i < |p.libraries|
      ensures p.libraries[i].downloads.Some?
      ensures |Split(p.libraries[i].name, ':')| >= 3 ==> p.libraries[i].downloads.value.artifact.Some?
    {
      assert p.libraries[i] == FixLibrary(m[i]);
      FixLibraryEffect(m[i]);
    }
  }

  /**
   * Library `i` of the written descriptor is library `i` of the merge, with
   * its artifact filled in: an existing artifact is kept; otherwise a full
   * coordinate gets the Maven path, fetched from the library's own URL when it
   * has one, from the loader's Maven for `fabricmc`, `ow2` and `jetbrains`
   * groups, and from Mojang's library host for every other group.
   */
  lemma PatchedArtifact(loader: Profile, vanilla: Profile, id: string, i: nat)
    requires i < |MergedLibraries(loader.libraries, vanilla.libraries)|
    ensures var lib := MergedLibraries(loader.libraries, vanilla.libraries)[i];
      var p := PatchedProfile(loader, vanilla, id); var parts := Split(lib.name, ':');
      && i < |p.libraries| && p.libraries[i].name == lib.name && p.libraries[i].url == lib.url
      && (lib.downloads.Some? && lib.downloads.value.artifact.Some? ==> p.libraries[i] == lib)
      && (|parts| >= 3 && (lib.downloads.None? || lib.downloads.value.artifact.None?) ==>
            && p.libraries[i].downloads.Some? && p.libraries[i].downloads.value.artifact.Some?
            && var art := p.libraries[i].downloads.value.artifact.value;
            && art.path == ArtifactPath(parts[0], parts[1], parts[2]) && art.size == 0
            && (lib.url.Some? && lib.url.value != "" ==> art.url == lib.url.value + art.path)
            && (!(lib.url.Some? && lib.url.value != "") &&
                (Contains(parts[0], "fabricmc") || Contains(parts[0], "ow2") || Contains(parts[0], "jetbrains")) ==>
                  art.url == "https://maven.fabricmc.net/" + art.path)
            && (!(lib.url.Some? && lib.url.value != "") &&
                !(Contains(parts[0], "fabricmc") || Contains(parts[0], "ow2") || Contains(parts[0], "jetbrains")) ==>
                  art.url == "https://libraries.minecraft.net/" + art.path))
  {
    var m := MergedLibraries(loader.libraries, vanilla.libraries);
    assert PatchedProfile(loader, vanilla, id).libraries[i] == FixLibrary(m[i]);
    FixLibraryEffect(m[i]);
  }
}
