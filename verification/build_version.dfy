/** `buildVersion`: download the release tarball of one version, extract the
    binary and its notices into the build context, and work out the image
    names to build and the credentials to push them with. The image build and
    push calls themselves belong to the container engine and are not
    modelled; the result is what would be handed to them. */
module BuildVersion {
  import opened Model
  import ReleaseSelection
  import Download
  import Extraction
  import ExtractionProperties
  import ImageTags

  /** Everything the script learns from outside itself during one version's
      build: the decoded release listing, the body each download URL delivers
      (absent: the download fails), how the gzip and tar layers read a file,
      the paths whose creation fails, the paths whose removal fails, the
      environment, and the temporary tarball path. */
  datatype World = World(
    releases: seq<Release>,
    bodies: map<string, seq<Byte>>,
    decode: seq<Byte> -> Tarball,
    uncreatable: set<string>,
    unremovable: set<string>,
    env: map<string, string>,
    tarball: string)

  /** The release asset holding the Linux amd64 build of `version`. */
  function AssetName(version: string): string {
    "containerssh_" + version + "_linux_amd64.tar.gz"
  }

  /** The archive members copied into the build context, and where to. */
  const FileMap: seq<SourceTarget> := [
    SourceTarget("containerssh", "containerssh/containerssh"),
    SourceTarget("LICENSE.md", "containerssh/LICENSE.md"),
    SourceTarget("NOTICE.md", "containerssh/NOTICE.md")
  ]

  /** The paths of the build context that extraction may write. */
  function ContextFiles(): set<string> {
    set st | st in FileMap :: st.target
  }

  lemma ExtractionStaysInContext(entries: seq<TarEntry>)
    ensures Extraction.MatchedTargets(entries, FileMap) <= ContextFiles()
  {
  }

  /** The image names to build, and the push requests when pushing. */
  datatype Images = Images(names: seq<string>, pushes: seq<ImageTags.PushAuth>)

  /** The filesystem after the build of one version, and its result. */
  datatype Run = Run(fs: FileSystem, result: Result<Images>)

  /** The download step of `buildVersion`. */
  function FetchTarball(fs: FileSystem, w: World, version: string): (r: Effect)
    ensures forall p :: p != w.tarball ==> SameAt(fs, r.fs, p)
    ensures fs.Keys <= r.fs.Keys
    ensures r.outcome == Fail(VersionNotFound) <==> !ReleaseSelection.AnyMatch(w.releases, version)
    ensures r.outcome.Fail? ==> r.outcome.error.VersionNotFound? || r.outcome.error.CreateFailed? || r.outcome.error.DownloadFailed?
  {
    var targets := map[AssetName(version) := w.tarball];
    assert forall p :: p in targets.Values ==> p == w.tarball by {
      forall p | p in targets.Values ensures p == w.tarball {
        var k :| k in targets && targets[k] == p;
      }
    }
    Download.DownloadRelease(fs, w.releases, version, targets, w.bodies, w.uncreatable)
  }

  /** The download step writes no file other than the tarball. */
  lemma FetchTouchesOnlyTarball(fs: FileSystem, w: World, version: string, p: string)
    requires p != w.tarball
    ensures SameAt(fs, FetchTarball(fs, w, version).fs, p)
  {
    var targets := map[AssetName(version) := w.tarball];
    assert p !in targets.Values;
  }

  /** The extraction step writes no file outside the build context. */
  lemma ExtractTouchesOnlyContext(fs: FileSystem, w: World, p: string)
    requires p !in ContextFiles()
    ensures SameAt(fs, Extraction.GetFilesFromTarball(fs, w.tarball, w.decode, FileMap, w.uncreatable).fs, p)
  {
    if w.tarball in fs && w.decode(fs[w.tarball]).Gzip? {
      ExtractionStaysInContext(w.decode(fs[w.tarball]).archive.entries);
    }
  }

  /** Download and extraction, the file-producing part of `buildVersion`:
      outside the tarball and the build context, no file changes. */
  function Prepare(fs: FileSystem, w: World, version: string): (r: Effect)
    ensures forall p :: p != w.tarball && p !in ContextFiles() ==> SameAt(fs, r.fs, p)
    ensures fs.Keys <= r.fs.Keys
    ensures r.outcome == Fail(VersionNotFound) <==> !ReleaseSelection.AnyMatch(w.releases, version)
  {
    var d := FetchTarball(fs, w, version);
    if d.outcome.Fail? then
      assert forall p :: p != w.tarball ==> SameAt(fs, d.fs, p) by {
        forall p | p != w.tarball ensures SameAt(fs, d.fs, p) {
          FetchTouchesOnlyTarball(fs, w, version, p);
        }
      }
      d
    else
      var x := Extraction.GetFilesFromTarball(d.fs, w.tarball, w.decode, FileMap, w.uncreatable);
      assert forall p :: p != w.tarball && p !in ContextFiles() ==> SameAt(fs, x.fs, p) by {
        forall p | p != w.tarball && p !in ContextFiles() ensures SameAt(fs, x.fs, p) {
          FetchTouchesOnlyTarball(fs, w, version, p);
          ExtractTouchesOnlyContext(d.fs, w, p);
        }
      }
      x
  }

  /** One version's build, up to the image build. On every outcome modelled
      here the deferred removal runs; its error is discarded, so the
      temporary tarball is gone afterwards unless its removal fails, and the
      result does not depend on the removal. */
  function Build(
    fs: FileSystem, w: World, version: string, tags: seq<string>, orders: seq<seq<string>>,
    date: string, registries: map<string, Registry>, push: bool): (run: Run)
    requires |orders| == |tags|
    ensures w.tarball !in w.unremovable ==> w.tarball !in run.fs
    ensures w.tarball in w.unremovable && w.tarball in fs ==> w.tarball in run.fs
    ensures forall p :: p != w.tarball && p !in ContextFiles() ==> SameAt(fs, run.fs, p)
    ensures run.result == Err(VersionNotFound) <==> !ReleaseSelection.AnyMatch(w.releases, version)
    ensures run.result.Ok? ==> |run.result.value.pushes| == if push then |run.result.value.names| else 0
    ensures run.result.Ok? ==> forall i :: 0 <= i < |run.result.value.pushes| ==>
      run.result.value.pushes[i].image == run.result.value.names[i]
    ensures run.result.Ok? ==> run.result.value.names == ImageTags.ExpandTags(tags, orders, date)
    ensures run.result.Ok? ==>
      run.result.value.pushes == (if push then ImageTags.PushAuths(run.result.value.names, registries, w.env) else [])
  {
    var x := Prepare(fs, w, version);
    var left := if w.tarball in w.unremovable then x.fs else x.fs - {w.tarball};
    if x.outcome.Fail? then Run(left, Err(x.outcome.error))
    else
      var names := ImageTags.ExpandTags(tags, orders, date);
      var pushes := if push then ImageTags.PushAuths(names, registries, w.env) else [];
      Run(left, Ok(Images(names, pushes)))
  }

  /** The removal's error is discarded: whether the tarball can be removed
      changes neither the result nor any other file. */
  lemma RemovalFailureIsIgnored(
    fs: FileSystem, w: World, version: string, tags: seq<string>, orders: seq<seq<string>>,
    date: string, registries: map<string, Registry>, push: bool, unremovable: set<string>)
    requires |orders| == |tags|
    ensures var a := Build(fs, w, version, tags, orders, date, registries, push);
      var b := Build(fs, w.(unremovable := unremovable), version, tags, orders, date, registries, push);
      && a.result == b.result
      && forall p :: p != w.tarball ==> SameAt(a.fs, b.fs, p)
  {
  }

  /** When the chosen release has no asset for this version, the download
      step starts nothing and succeeds; with no file at the tarball path, the
      build then fails opening it. */
  lemma MissingAssetFailsAtOpen(
    fs: FileSystem, w: World, version: string, tags: seq<string>, orders: seq<seq<string>>,
    date: string, registries: map<string, Registry>, push: bool)
    requires |orders| == |tags|
    requires w.tarball !in fs
    requires ReleaseSelection.SelectRelease(w.releases, version).Ok?
    requires forall a :: a in ReleaseSelection.SelectRelease(w.releases, version).value.assets ==>
      a.name != AssetName(version)
    ensures Build(fs, w, version, tags, orders, date, registries, push).result == Err(OpenFailed(w.tarball))
  {
    var release := ReleaseSelection.SelectRelease(w.releases, version).value;
    Download.PlanEmptyIffNoMatch(release.assets, map[AssetName(version) := w.tarball]);
  }

  /** With no asset for this version, whatever file already sits at the
      tarball path (one left by an earlier run, say) is what gets extracted. */
  lemma LeftoverTarballIsExtracted(fs: FileSystem, w: World, version: string)
    requires w.tarball in fs
    requires ReleaseSelection.SelectRelease(w.releases, version).Ok?
    requires forall a :: a in ReleaseSelection.SelectRelease(w.releases, version).value.assets ==>
      a.name != AssetName(version)
    ensures Prepare(fs, w, version) == Extraction.GetFilesFromTarball(fs, w.tarball, w.decode, FileMap, w.uncreatable)
  {
    var release := ReleaseSelection.SelectRelease(w.releases, version).value;
    Download.PlanEmptyIffNoMatch(release.assets, map[AssetName(version) := w.tarball]);
  }

  /** So a stale tarball that reads as an empty, cleanly ended archive lets the
      build of a version without its asset succeed. */
  lemma StaleTarballBuildSucceeds(
    fs: FileSystem, w: World, version: string, tags: seq<string>, orders: seq<seq<string>>,
    date: string, registries: map<string, Registry>, push: bool)
    requires |orders| == |tags|
    requires w.tarball in fs && w.decode(fs[w.tarball]) == Gzip(Archive([], CleanEnd))
    requires ReleaseSelection.SelectRelease(w.releases, version).Ok?
    requires forall a :: a in ReleaseSelection.SelectRelease(w.releases, version).value.assets ==>
      a.name != AssetName(version)
    ensures Build(fs, w, version, tags, orders, date, registries, push).result.Ok?
  {
    LeftoverTarballIsExtracted(fs, w, version);
  }

  /** After a successful build, each build-context file holds the last
      regular archive entry of its member name. */
  lemma ContextFileContents(
    fs: FileSystem, w: World, version: string, tags: seq<string>, orders: seq<seq<string>>,
    date: string, registries: map<string, Registry>, push: bool, i: int, k: int)
    requires |orders| == |tags|
    requires w.tarball !in ContextFiles()
    requires Build(fs, w, version, tags, orders, date, registries, push).result.Ok?
    requires 0 <= i < |FileMap|
    requires w.tarball in FetchTarball(fs, w, version).fs
    requires w.decode(FetchTarball(fs, w, version).fs[w.tarball]).Gzip?
    requires ExtractionProperties.LastRegularNamed(
      w.decode(FetchTarball(fs, w, version).fs[w.tarball]).archive.entries, FileMap[i].source, k)
    ensures FileMap[i].target in Build(fs, w, version, tags, orders, date, registries, push).fs
    ensures Build(fs, w, version, tags, orders, date, registries, push).fs[FileMap[i].target]
         == w.decode(FetchTarball(fs, w, version).fs[w.tarball]).archive.entries[k].body
  {
    var d := FetchTarball(fs, w, version);
    var a := w.decode(d.fs[w.tarball]).archive;
    assert FileMap[i].target in ContextFiles();
    assert ExtractionProperties.UniqueTarget(FileMap, i);
    assert ExtractionProperties.FirstForSource(FileMap, i);
    ExtractionProperties.LastEntryWins(d.fs, a.entries, a.end, FileMap, w.uncreatable, i, k);
  }
}
