/** Values shared by the release, download, extraction and image-tag steps of
    the ContainerSSH image build script. */
module Model {

  /** One octet of a downloaded or extracted file. */
  type Byte = b: int | 0 <= b < 256

  /** The part of the local filesystem the script touches: path to contents.
      A path that is absent from the map does not exist. */
  type FileSystem = map<string, seq<Byte>>

  /** A file attached to a GitHub release, as decoded from the release listing. */
  datatype Asset = Asset(name: string, downloadUrl: string)

  /** One element of the decoded release listing, in the order the API returned it. */
  datatype Release = Release(tagName: string, assets: seq<Asset>)

  /** The type flag of a tar header; only regular files are ever extracted. */
  datatype EntryKind = Regular | Directory | Symlink | OtherKind

  /** One tar entry as the tar reader presents it: its header name and type,
      the bytes of its body that can be read, and whether the body could be
      read to its end (false for an archive truncated inside this body). */
  datatype TarEntry = TarEntry(name: string, kind: EntryKind, body: seq<Byte>, complete: bool)

  /** How the tar reader's header loop stops after the last entry: a clean
      end-of-archive, or a header that cannot be read. */
  datatype ArchiveEnd = CleanEnd | BadHeader

  /** A decoded tar stream: its entries in archive order and how it ends. */
  datatype Archive = Archive(entries: seq<TarEntry>, end: ArchiveEnd)

  /** What the gzip layer makes of a file: not a gzip stream, or a tar stream. */
  datatype Tarball = NotGzip | Gzip(archive: Archive)

  /** An archive member name and the local path it is extracted to. */
  datatype SourceTarget = SourceTarget(source: string, target: string)

  /** Configured registry: the NAMES of the environment variables holding its credentials. */
  datatype Registry = Registry(userVariable: string, passwordVariable: string)

  /** The errors the modelled code returns. */
  datatype Error =
    | VersionNotFound
    | CreateFailed(path: string)
    | DownloadFailed(url: string)
    | OpenFailed(path: string)
    | GzipFailed(path: string)
    | HeaderReadFailed
    | ExtractFailed(path: string)

  datatype Option<+T> = None | Some(value: T)

  datatype Result<+T> = Ok(value: T) | Err(error: Error)

  datatype Outcome = Pass | Fail(error: Error)

  /** The filesystem after a step, together with how the step ended. Files a
      step wrote before it failed stay written, as they do in the script. */
  datatype Effect = Effect(fs: FileSystem, outcome: Outcome)

  /** The filesystem agrees with `fs` on path `p` (same presence, same contents). */
  predicate SameAt(fs: FileSystem, fs': FileSystem, p: string) {
    (p in fs <==> p in fs') && (p in fs ==> fs[p] == fs'[p])
  }

  /** `keys` lists every element of `s` exactly once: one possible iteration
      order of a Go map whose key set is `s`. */
  ghost predicate Enumerates(keys: seq<string>, s: set<string>) {
    && (forall i, j :: 0 <= i < j < |keys| ==> keys[i] != keys[j])
    && (forall k :: k in keys <==> k in s)
  }
}
