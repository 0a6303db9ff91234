/**
 * The documents the launcher exchanges: the update manifest with its file
 * entries, the version descriptors (loader profile and base game profile),
 * the base game's version index, and what the network answers.
 * JSON documents are held as their parsed values; serialisation is not modelled.
 */
module Documents {
  import opened Wrappers
  import opened Js

  /** One entry of `manifest.files`. `sha1` and `size` are optional hints. */
  datatype FileEntry = FileEntry(path: string, url: string, sha1: Option<string>, size: Option<nat>)

  /** `if (file.sha1)`: a declared, non-empty digest. */
  predicate DeclaresSha1(f: FileEntry) {
    f.sha1.Some? && f.sha1.value != ""
  }

  /** `manifest.files`: falsy, truthy but not an array, or an array of entries. */
  datatype FilesField = FilesMissing | FilesNotArray | FilesList(entries: seq<FileEntry>)

  datatype Manifest = Manifest(
    version: JsValue,
    gameVersion: JsValue,
    launcherVersion: JsValue,
    launcherUrl: JsValue,
    files: FilesField)

  /** `downloads.artifact` of a library. */
  datatype Artifact = Artifact(path: string, url: string, size: int)

  /** `lib.downloads`: the artifact and whatever else the object holds (classifiers). */
  datatype LibDownloads = LibDownloads(artifact: Option<Artifact>, classifiers: JsValue)

  /** A library reference: `name` is the Maven coordinate `group:artifact:version[:classifier]`. */
  datatype Library = Library(name: string, url: Option<string>, downloads: Option<LibDownloads>)

  /** `arguments.game` and `arguments.jvm`; their elements are strings or rule objects. */
  datatype Arguments = Arguments(game: Option<seq<JsValue>>, jvm: Option<seq<JsValue>>)

  /** A version descriptor. Fields the patcher does not touch are represented by `mainClass`. */
  datatype Profile = Profile(
    id: string,
    inheritsFrom: Option<string>,
    libraries: seq<Library>,
    arguments: Option<Arguments>,
    assets: JsValue,
    assetIndex: JsValue,
    downloads: JsValue,
    mainClass: JsValue)

  /** An element of `version_manifest_v2.json`'s `versions`. */
  datatype VersionInfo = VersionInfo(id: string, url: string)

  /** What a file, or a response body, holds. */
  datatype Content =
    | Blob(bytes: seq<bv8>)
    | ManifestDoc(manifest: Manifest)
    | ProfileDoc(profile: Profile)
    | VersionIndexDoc(versions: seq<VersionInfo>)

  /** The outcome of an HTTP GET: a body, a 404, or any other failure (DNS, timeout, 5xx). */
  datatype Response = Fetched(body: Content) | NotFound | Failed

  /** The network, as a function from the requested URL to its response. */
  type Remote = string -> Response
}
