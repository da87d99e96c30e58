/** Extracting named members of the release tarball (`getFilesFromTarball`).
    The gzip and tar decoders are not modelled: the archive is the sequence of
    entries the tar reader hands out, followed by how the header loop ends. */
module Extraction {
  import opened Model

  /** Targets of the pairs whose source is `name`. */
  function TargetsOf(name: string, pairs: seq<SourceTarget>): set<string> {
    set st | st in pairs && st.source == name :: st.target
  }

  /** Names of the regular-file entries of an archive. */
  function RegularNames(entries: seq<TarEntry>): set<string> {
    set e | e in entries && e.kind == Regular :: e.name
  }

  /** Targets of the pairs whose source names some regular entry: the only
      paths extraction can write. */
  function MatchedTargets(entries: seq<TarEntry>, pairs: seq<SourceTarget>): set<string> {
    set st | st in pairs && st.source in RegularNames(entries) :: st.target
  }

  /** Every entry body could be read to its end. */
  predicate AllComplete(entries: seq<TarEntry>) {
    forall k :: 0 <= k < |entries| ==> entries[k].complete
  }

  lemma TargetsOfCons(name: string, pairs: seq<SourceTarget>)
    requires |pairs| > 0
    ensures TargetsOf(name, pairs)
         == (if pairs[0].source == name then {pairs[0].target} else {}) + TargetsOf(name, pairs[1..])
  {
    assert forall st :: st in pairs <==> st == pairs[0] || st in pairs[1..];
  }

  /** The pair loop for one regular entry: every pair whose source equals the
      entry name creates (truncates) its target and copies the entry body into
      it. The tar reader hands the body out once: after the first copy
      (`unread` false) it is drained, and later matching pairs receive an empty
      file. A body that breaks off fails the copy after its readable part was
      written. `uncreatable` holds the paths whose creation fails. */
  function CopyToTargets(fs: FileSystem, e: TarEntry, pairs: seq<SourceTarget>, unread: bool, uncreatable: set<string>): (r: Effect)
    ensures forall p :: p !in TargetsOf(e.name, pairs) ==> SameAt(fs, r.fs, p)
    ensures fs.Keys <= r.fs.Keys
    ensures r.outcome.Pass? <==>
      TargetsOf(e.name, pairs) == {} || ((e.complete || !unread) && TargetsOf(e.name, pairs) !! uncreatable)
    ensures r.outcome.Fail? ==>
      || (r.outcome.error.CreateFailed? && r.outcome.error.path in uncreatable)
      || (r.outcome.error.ExtractFailed? && !e.complete)
    decreases |pairs|
  {
    if |pairs| == 0 then Effect(fs, Pass)
    else
      TargetsOfCons(e.name, pairs);
      var st := pairs[0];
      if st.source != e.name then CopyToTargets(fs, e, pairs[1..], unread, uncreatable)
      else if st.target in uncreatable then Effect(fs, Fail(CreateFailed(st.target)))
      else if !unread then CopyToTargets(fs[st.target := []], e, pairs[1..], false, uncreatable)
      else if !e.complete then Effect(fs[st.target := e.body], Fail(ExtractFailed(st.target)))
      else CopyToTargets(fs[st.target := e.body], e, pairs[1..], false, uncreatable)
  }

  /** What one entry does: regular entries go through the pair loop, others
      are skipped. */
  function Step(fs: FileSystem, e: TarEntry, pairs: seq<SourceTarget>, uncreatable: set<string>): (r: Effect)
    ensures e.kind != Regular ==> r == Effect(fs, Pass)
    ensures forall p :: p !in TargetsOf(e.name, pairs) ==> SameAt(fs, r.fs, p)
    ensures fs.Keys <= r.fs.Keys
    ensures r.outcome.Pass? <==>
      e.kind != Regular || TargetsOf(e.name, pairs) == {} || (e.complete && TargetsOf(e.name, pairs) !! uncreatable)
  {
    if e.kind == Regular then CopyToTargets(fs, e, pairs, true, uncreatable) else Effect(fs, Pass)
  }

  /** The header loop: entries in archive order until the end of the archive.
      A body left unread because it breaks off makes the next header read fail. */
  function ExtractEntries(fs: FileSystem, entries: seq<TarEntry>, end: ArchiveEnd, pairs: seq<SourceTarget>, uncreatable: set<string>): (r: Effect)
    ensures forall p :: p !in MatchedTargets(entries, pairs) ==> SameAt(fs, r.fs, p)
    ensures fs.Keys <= r.fs.Keys
    ensures r.outcome.Pass? <==>
      && end == CleanEnd
      && AllComplete(entries)
      && MatchedTargets(entries, pairs) !! uncreatable
    ensures r.outcome.Fail? ==>
      || r.outcome.error == HeaderReadFailed
      || (r.outcome.error.CreateFailed? && r.outcome.error.path in uncreatable)
      || r.outcome.error.ExtractFailed?
    decreases |entries|
  {
    if |entries| == 0 then Effect(fs, if end == CleanEnd then Pass else Fail(HeaderReadFailed))
    else
      var e := entries[0];
      MatchedCons(entries, pairs);
      var s := Step(fs, e, pairs, uncreatable);
      if s.outcome.Fail? then s
      else if !e.complete then Effect(s.fs, Fail(HeaderReadFailed))
      else
        var r := ExtractEntries(s.fs, entries[1..], end, pairs, uncreatable);
        assert AllComplete(entries) <==> AllComplete(entries[1..]) by {
          assert forall k :: 1 <= k < |entries| ==> entries[k] == entries[1..][k - 1];
        }
        r
  }

  lemma MatchedCons(entries: seq<TarEntry>, pairs: seq<SourceTarget>)
    requires |entries| > 0
    ensures MatchedTargets(entries, pairs)
         == (if entries[0].kind == Regular then TargetsOf(entries[0].name, pairs) else {})
            + MatchedTargets(entries[1..], pairs)
  {
    assert forall e :: e in entries <==> e == entries[0] || e in entries[1..];
    assert RegularNames(entries)
        == (if entries[0].kind == Regular then {entries[0].name} else {}) + RegularNames(entries[1..]);
  }

  /** `getFilesFromTarball`: open the tarball, read it as gzip, then run the
      header loop. */
  function GetFilesFromTarball(
    fs: FileSystem, tarball: string, decode: seq<Byte> -> Tarball,
    pairs: seq<SourceTarget>, uncreatable: set<string>): (r: Effect)
    ensures tarball !in fs ==> r == Effect(fs, Fail(OpenFailed(tarball)))
    ensures tarball in fs && decode(fs[tarball]).NotGzip? ==> r == Effect(fs, Fail(GzipFailed(tarball)))
    ensures tarball in fs && decode(fs[tarball]).Gzip? ==>
      var a := decode(fs[tarball]).archive;
      && (forall p :: p !in MatchedTargets(a.entries, pairs) ==> SameAt(fs, r.fs, p))
      && (r.outcome.Pass? <==> a.end == CleanEnd && AllComplete(a.entries) && MatchedTargets(a.entries, pairs) !! uncreatable)
    ensures r.outcome.Fail? ==> !r.outcome.error.VersionNotFound? && !r.outcome.error.DownloadFailed?
    ensures fs.Keys <= r.fs.Keys
  {
    if tarball !in fs then Effect(fs, Fail(OpenFailed(tarball)))
    else
      match decode(fs[tarball])
      case NotGzip => Effect(fs, Fail(GzipFailed(tarball)))
      case Gzip(a) => ExtractEntries(fs, a.entries, a.end, pairs, uncreatable)
  }
}
