# ContainerSSH image build script: verified model of its decision rules

The ContainerSSH image build script (`build.go`) builds one container image per
product version. It finds the version's GitHub release and downloads the Linux
amd64 tarball. It extracts the `containerssh` binary, `LICENSE.md` and
`NOTICE.md` into the build context. It expands every configured tag into image
names for every registry, and with `--push` it pushes each name using the
credentials of the registry named before its first `/`.

This project models the decision rules under that plumbing as pure Dafny
functions and proves their properties:

- **Release selection** (`ReleaseSelection`): the first release in listing
  order tagged `version` or `"v" + version`, or "version not found".
- **Asset download** (`Download`): assets crossed with the name-to-target map.
  The order of the inner map loop does not matter. Each download truncates its
  target first, and the run stops at the first failure.
- **Tarball extraction** (`Extraction`, `ExtractionProperties`): the tar stream
  is a sequence of entries. The filesystem is a `map<string, seq<Byte>>`. Only
  regular entries are considered. A clean end of archive is success even when
  some wanted members never appeared.
- **Image names and registry recovery** (`ImageTags`, `StringSplit`): tag ×
  registry expansion with date-stamped variants, its exact size, and the
  round trip through `strings.Split(name, "/")[0]`.
- **Build-context archive names** (`TarDirectory`): the slice
  `path[len(src)+1:]`.
- **One version's build** (`BuildVersion`): the steps above composed, with the
  temporary tarball removed on every modelled path unless its removal fails,
  which the script ignores.

Side effects are modelled as values. A step that writes files returns an
`Effect`: the new filesystem plus `Pass` or `Fail(error)`. Files written before
an error stay written, as in the script. The outside world is passed in as
parameters:

- the decoded release listing;
- `bodies`, the body each download URL delivers (a URL absent from it fails);
- `decode`, what the gzip and tar readers make of a file's bytes;
- `uncreatable`, the paths whose `os.Create` fails;
- the environment;
- the tarball path.

Go map iteration order is unspecified, so loops over maps take an explicit key
order. Every property is proved for every order.

Two behaviours of the script are easy to miss:

- **Missing registry credentials are not rejected.** An unset variable, an
  empty variable name or an unconfigured registry reads as the empty string,
  and the push proceeds (`ImageTags.PushAuths`,
  `ImageTags.MissingRegistryPushesEmptyCredentials`).
- **Several pairs naming the same archive member.** Every such pair creates
  its target. The tar reader hands out the entry body only once, so the first
  target gets the bytes and later ones get an empty file
  (`ExtractionProperties.DrainedDuplicateIsEmpty`).

## Model

| member | source | states |
|---|---|---|
| ReleaseSelection.SelectRelease | build.go:125-131 | A selected release is at some index whose tag is `version` or `"v"+version`, and no earlier release matches either string. A failure is always "version not found", and then no release in the list matches. |
| ReleaseSelection.SelectFailsIffNoMatch | build.go:126-131 | Selection fails exactly when no release in the list carries a matching tag. |
| ReleaseSelection.SelectReturnsFirstMatch | build.go:125-130 | Whichever index is the first match in list order, selection returns exactly that release, so duplicate tags resolve to the earliest. |
| ReleaseSelection.GetRelease | build.go:125-131 | The scan loop returns a release with a matching tag taken from the list, agrees with the first-match selection, and fails exactly when nothing matches. |
| Download.TransfersFor | build.go:43-49 | For one asset, the inner loop over the map keys in a given order starts a download exactly when the asset's name is among the keys, and then only to that key's target from the asset's URL. |
| Download.InnerLoopIsOrderFree | build.go:42-49 | For any iteration order of the name-to-target map, the inner loop for one asset yields one download to the target of its name when the name is a key, and nothing otherwise. |
| Download.Plan | build.go:42-50 | A download (url, target) is planned exactly when some asset has a name that is a key, that asset's download URL, and that key's target. The plan is no longer than the asset list. |
| Download.PlanEmptyIffNoMatch | build.go:42-51 | The plan is empty exactly when no asset name is a key, so a release without a wanted asset downloads nothing and still succeeds. |
| Download.Fetch | build.go:54-89 | Only planned targets change, and no file is deleted. The run succeeds exactly when every target can be created and every URL delivers. It fails only with a create or download error. A failed download leaves its target existing and empty, because it was truncated before the request. |
| Download.FetchStopsAtFirstFailure | build.go:45-46 | Once a prefix of the plan fails, the transfers planned after it are never started: appending them changes neither the filesystem nor the error. |
| Download.FetchLastWriteWins | build.go:42-50 | After a successful run, a target holds the body of the last planned download into it. |
| Download.DownloadRelease | build.go:37-52 | "version not found" is returned exactly when no release matches, and then no file changes. No path other than a target of the map ever changes. |
| Extraction.CopyToTargets | build.go:167-187 | For one regular entry, only targets of pairs naming the entry change. The pair loop succeeds exactly when no pair matches, or when no matched target fails to be created and the body reads to its end. A failure is a create error on an uncreatable path or a copy error on a truncated body. |
| Extraction.Step | build.go:165-189 | A non-regular entry changes nothing and passes. A regular entry changes only targets of pairs naming it, and passes exactly when no pair names it, or its body is complete and none of those targets is uncreatable. |
| Extraction.ExtractEntries | build.go:155-191 | Only targets of pairs whose source names a regular entry change. The loop succeeds exactly when the archive ends cleanly, every body is complete and no matched target is uncreatable. Sources that never appear do not prevent success. Failures are header-read, create or copy errors. |
| Extraction.GetFilesFromTarball | build.go:144-192 | A missing tarball is an open error and a non-gzip file a gzip error, both with no file changed. Otherwise the header-loop frame and success condition hold, and the error is never a release or download error. |
| ExtractionProperties.NonRegularEntriesIgnored | build.go:165-189 | Removing directories, symlinks and other non-regular entries (with readable bodies) from the archive changes neither the resulting filesystem nor the outcome. |
| ExtractionProperties.CopyContents | build.go:167-186 | Within one entry, a pair's unique target gets the entry body if the pair is the first to name the entry, and an empty file if the body was already drained by an earlier copy. |
| ExtractionProperties.TargetContents | build.go:155-191 | After successful extraction, a pair's unique target holds the body of the last regular entry named by its source, or an empty file if an earlier pair names the same source. |
| ExtractionProperties.LastEntryWins | build.go:169-177 | Because `os.Create` truncates, when a member name appears in several regular entries, a target with its own distinct pair ends up with the last such entry's bytes. |
| ExtractionProperties.DrainedDuplicateIsEmpty | build.go:167-186 | A later pair naming an already-matched member gets an empty file, because the tar reader yields each body once. |
| ExtractionProperties.CopyOverlay | build.go:167-186 | The pair loop's writes do not depend on existing files: run over `fs + g`, it overlays on `fs` what it does to `g`, with the same outcome. |
| ExtractionProperties.ExtractOverlay | build.go:155-191 | The header loop's writes and outcome do not depend on existing files: they overlay the starting filesystem. |
| ExtractionProperties.ExtractionIdempotent | build.go:155-191 | Extracting the same archive a second time over the result of the first gives the identical filesystem and outcome. |
| StringSplit.Split | build.go:323 | `strings.Split` with a one-character separator gives at least one piece. No piece contains the separator, and joining the pieces with it gives back the input. |
| StringSplit.SplitHead | build.go:323 | The first piece of `prefix + "/" + rest` is `prefix` when `prefix` contains no `/`. |
| ImageTags.ExpandTag | build.go:298-303 | For one tag, each registry in the iteration order contributes its plain name, plus a dated name unless the tag is `latest`. The size is the number of registries times 2, or times 1 for `latest`. |
| ImageTags.ExpandTags | build.go:296-304 | A name is produced exactly when it is the plain name of some tag in a registry visited for it, or the dated name of such a tag other than `latest`. |
| ImageTags.ExpansionCount | build.go:296-304 | Whatever registry orders Go picks, the number of names is `|tags|·|registries|` plus `|registries|` times the number of tags (with repeats) other than `latest`. |
| ImageTags.ExpansionMembers | build.go:296-304 | Set form, for any registry orders: the output holds exactly `r/containerssh/containerssh:t` for every tag and registry, and `…:t-date` for every tag other than `latest`. |
| ImageTags.RegistryOf | build.go:323 | The first `/`-separated component of a name is a `/`-free prefix of it, followed in the name by a `/` unless it is the whole name. |
| ImageTags.RegistryRoundTrip | build.go:323 | For a registry without `/`, the first `/`-separated component of any name built for it (build.go:299, 301) is that registry. |
| ImageTags.PushedRegistriesAreConfigured | build.go:323-326 | Every name the build produces is pushed against a configured registry, given registry names without `/`. |
| ImageTags.ImageNameInjective | build.go:299 | Plain image names of slash-free registries determine registry and tag. |
| ImageTags.DatedAsPlain | build.go:299-301 | A dated name equals a plain name only for the same registry and the tag `t + "-" + date`. |
| ImageTags.DatedInjective | build.go:301 | Dated names with the same date determine registry and tag. |
| ImageTags.DatedNameIffNotLatest | build.go:300-302 | For a listed tag and configured registry, the dated name is produced exactly when the tag is not `latest`. This assumes no tag is itself `t + "-" + date`. |
| ImageTags.Getenv | build.go:325-326 | `os.Getenv`: the value of a set variable, and the empty string for an unset variable or the empty name. |
| ImageTags.LookupRegistry | build.go:325-326 | A configured registry's record, or the zero value with empty variable names for a registry not in the map. |
| ImageTags.PushAuths | build.go:321-329 | Push requests go one per image name, in order. Each uses the registry before the first `/` as server address and an empty email. Its credentials are the environment values of that registry's variables, with a missing registry, an empty variable name or an unset variable reading as empty and not rejected. |
| ImageTags.MissingRegistryPushesEmptyCredentials | build.go:323-326 | A name whose registry is not configured is pushed with an empty username and password, whatever the environment holds. |
| ImageTags.PushUsesConfiguredCredentials | build.go:323-327 | For the names the build produces, the registry is always found, so credentials come from its configured variables and never from the zero-value fallback. |
| TarDirectory.ArchiveName | build.go:238 | The slice exists exactly when the path is at least one longer than the root. The name is then the path's suffix after `len(src)+1` characters. A shorter path is Go's slice panic. |
| TarDirectory.ArchiveNameOfChild | build.go:238 | For a walked path `src + "/" + rel`, the archive-internal name is exactly `rel`. |
| TarDirectory.ArchiveNameIgnoresPrefixText | build.go:238 | The cut uses only the root's length: any path with a prefix of that length plus one gets the remainder as its name. |
| TarDirectory.ArchiveNames | build.go:231-238 | The walk yields exactly one name per regular file and none for directories or other paths. It aborts exactly when some regular path is too short to slice. |
| TarDirectory.ArchiveNamesOfChildren | build.go:231-238 | A walk whose regular files all lie at `src + "/" + rel` names them by their relative paths, in walk order; the root directory itself and other non-regular paths may appear anywhere in the walk and get no name. |
| TarDirectory.RootThenChild | build.go:231-238 | A walk that first visits the root directory `src` and then the file `src + "/" + rel` archives exactly one file, named `rel`. |
| BuildVersion.FetchTarball | build.go:276-286 | The download step of a version's build changes no file but the temporary tarball. It reports "version not found" exactly when no release matches, and otherwise fails only with a create or download error. |
| BuildVersion.FetchTouchesOnlyTarball | build.go:278-286 | The download step of a version's build changes no file other than the temporary tarball. |
| BuildVersion.ExtractTouchesOnlyContext | build.go:287-295 | The extraction step changes no file outside the three build-context targets. |
| BuildVersion.Prepare | build.go:276-295 | Download then extraction changes nothing outside the tarball and the build context, and deletes no file. It reports "version not found" exactly when no release matches. |
| BuildVersion.Build | build.go:265-318 | On every modelled outcome the deferred removal runs: the temporary tarball is gone unless its removal fails, and a tarball that could not be removed is still there. No other file outside the build context changes. "Version not found" occurs exactly when no release matches. On success the image names are the tag × registry expansion, and the push requests are one per name, in name order, with that registry's credentials when pushing, and none otherwise. |
| BuildVersion.RemovalFailureIsIgnored | build.go:281-283 | The removal's error is discarded: whether the tarball can be removed changes neither the build's result nor any file other than the tarball. |
| BuildVersion.MissingAssetFailsAtOpen | build.go:278-293 | When the selected release has no `containerssh_<version>_linux_amd64.tar.gz` asset and no file sits at the tarball path, the download step silently does nothing and the build then fails opening the never-written tarball. |
| BuildVersion.LeftoverTarballIsExtracted | build.go:276-293 | When the selected release has no such asset but a file already sits at the tarball path, download and extraction amount to extracting that file. |
| BuildVersion.StaleTarballBuildSucceeds | build.go:276-304 | So a leftover file that reads as an empty, cleanly ended archive lets the build of a version without its asset succeed. |
| BuildVersion.ContextFileContents | build.go:287-295 | After a successful build, each build-context file holds the last regular archive entry of its member name from the downloaded tarball. |

## Left out

- HTTP: requests, bearer headers, status checks and JSON decoding in
  `getRelease` and `downloadAsset` (build.go:54-123). The decoded release list
  is an input. A download either delivers a whole body or fails.
- Download.Fetch: a body copy that fails part-way (build.go:86-88) is not
  modelled. Such a failure is a whole-download failure that leaves the target
  empty, whereas the script would leave a partial file.
- The gzip and tar byte formats (build.go:145-156). `decode` stands for both
  readers. A truncated entry body is a flag on the entry, and a broken header
  is how the entry stream ends.
- Extraction.GetFilesFromTarball: the tarball is decoded once, up front. A
  fileMap target that is the tarball itself, and so gets rewritten while it is
  read, is not modelled.
- The image build and push calls, their streamed output, and the goroutine and
  pipe producer with its `log.Fatalf` (build.go:194-226, 334-345). These are
  container-engine calls and concurrency. `BuildVersion.Build` returns the
  names and push requests it would hand over, and does not model failures of
  those calls.
- The directory walk and tar writing in `tarDirectory` (build.go:228-263),
  apart from the name slicing. The walk is given as a sequence of visited
  paths.
- JSON and base64 encoding of the push credentials (build.go:330-336). This is
  library encoding. The model stops at the credential record.
- YAML configuration, `--push` parsing, the Docker client set-up and `main`'s
  loop over versions (build.go:350-397). These are glue around `buildVersion`.
- `os.TempDir` and `path.Join` (build.go:276-277). The tarball path is an
  input.
- Go strings are byte strings and the model's strings are `seq<char>`. The
  only offset arithmetic, `path[len(src)+1:]`, gives the same name in both
  views for paths that begin with `src + "/"`, which are the only paths the
  walk produces below the root, and for ASCII text. Otherwise the two can
  differ: root `"é"` and path `"ab/c"` give `"c"` in Go (a cut at byte 3) and
  `"/c"` in the model (a cut at character 2); root `"a"` and path `"aéb"` give
  the bytes `A9 62` in Go and `"b"` in the model. So
  `TarDirectory.ArchiveName` and `TarDirectory.ArchiveNameIgnoresPrefixText`
  describe the character view only for such paths.
- The compose-driven build, test and push variants and the external-process
  runner are not modelled.
- BuildVersion.Build: the tarball removal is promised only for the outcomes
  modelled, and only when `os.Remove` succeeds; its error is discarded
  (build.go:282), and a path in `unremovable` stays in place. Two exits skip the deferred `os.Remove` (build.go:281-283) and
  leave the tarball behind: a `log.Fatalf` in the tar-producing goroutine
  (build.go:205, 208), and the slice panic at build.go:238 inside that
  goroutine (the `None` case of `TarDirectory.ArchiveNames`), which ends the
  process; `BuildVersion.LeftoverTarballIsExtracted` shows
  what a later run then does with it.
- Extraction.CopyToTargets: a failing write to a created target (disk full,
  I/O error) during `io.Copy` (build.go:177) is not modelled. The script then
  reports "failed to extract" after a partial write; the model passes for a
  complete body. As for `Download.Fetch`, the content of a partial write is
  not something the model could state.
- Extraction.Step: the same target write failures are not modelled.
- Extraction.ExtractEntries: the same target write failures are not modelled,
  so its success condition holds only when target writes do not fail.
- Extraction.GetFilesFromTarball: target write failures are not modelled, and
  neither is an `os.Open` failure (build.go:145) of a tarball that exists but
  cannot be read; only a missing tarball gives the open error.
- ImageTags.DatedNameIffNotLatest: assumes no tag equals `t + "-" + date`,
  because such a tag's plain name is the same string as `t`'s dated name.
  Without that, the "only if" direction fails for `t = "latest"`.
- ImageTags.ExpansionCount: counts tags with repetition, so a repeated tag
  counts twice, as it does in the script's output.
- ExtractionProperties.LastEntryWins: stated for a pair that is the first to
  name its member and whose target no other pair shares, as in the build
  script's fixed member list. `ExtractionProperties.TargetContents` drops the
  first-for-source condition but still needs a target no other pair shares;
  a target shared by several pairs is covered by no lemma.
