/** Choosing the release for a requested version from the decoded GitHub
    release listing (`getRelease`). */
module ReleaseSelection {
  import opened Model

  /** A release tag names `version` when it is the version itself or the
      version with a leading "v". */
  predicate TagMatches(tag: string, version: string) {
    tag == version || tag == "v" + version
  }

  /** Index `i` holds the first release, in listing order, whose tag matches. */
  ghost predicate IsFirstMatch(releases: seq<Release>, version: string, i: int) {
    && 0 <= i < |releases|
    && TagMatches(releases[i].tagName, version)
    && forall j :: 0 <= j < i ==> !TagMatches(releases[j].tagName, version)
  }

  /** Some release in the listing carries a matching tag. */
  ghost predicate AnyMatch(releases: seq<Release>, version: string) {
    exists i :: 0 <= i < |releases| && TagMatches(releases[i].tagName, version)
  }

  /** The release `getRelease` returns: the first match in listing order, or
      "version not found" once the whole listing has been scanned. */
  function SelectRelease(releases: seq<Release>, version: string): (r: Result<Release>)
    ensures r.Ok? ==> exists i :: IsFirstMatch(releases, version, i) && r.value == releases[i]
    ensures r.Err? ==> r.error == VersionNotFound
    ensures r.Err? ==> forall j :: 0 <= j < |releases| ==> !TagMatches(releases[j].tagName, version)
    decreases |releases|
  {
    if |releases| == 0 then Err(VersionNotFound)
    else if TagMatches(releases[0].tagName, version) then
      assert IsFirstMatch(releases, version, 0);
      Ok(releases[0])
    else
      var r := SelectRelease(releases[1..], version);
      if r.Ok? then
        assert exists i :: IsFirstMatch(releases, version, i) && r.value == releases[i] by {
          var i :| IsFirstMatch(releases[1..], version, i) && r.value == releases[1..][i];
          assert IsFirstMatch(releases, version, i + 1);
        }
        r
      else
        assert forall j :: 1 <= j < |releases| ==> releases[j] == releases[1..][j - 1];
        r
  }

  /** Selection fails exactly when no release in the listing matches. */
  lemma SelectFailsIffNoMatch(releases: seq<Release>, version: string)
    ensures SelectRelease(releases, version).Err? <==> !AnyMatch(releases, version)
  {
    var r := SelectRelease(releases, version);
    if r.Ok? {
      var i :| IsFirstMatch(releases, version, i) && r.value == releases[i];
    }
  }

  /** The first match is unique: any matching index `i` with no match before it
      is the one selection returns, and no earlier release matches either string. */
  lemma SelectReturnsFirstMatch(releases: seq<Release>, version: string, i: int)
    requires IsFirstMatch(releases, version, i)
    ensures SelectRelease(releases, version) == Ok(releases[i])
  {
    var r := SelectRelease(releases, version);
    if r.Ok? {
      var k :| IsFirstMatch(releases, version, k) && r.value == releases[k];
    }
  }

  /** The scan loop of `getRelease`: walks the listing in order and returns at
      the first matching tag. */
  method GetRelease(releases: seq<Release>, version: string) returns (r: Result<Release>)
    ensures r == SelectRelease(releases, version)
    ensures r.Ok? ==> TagMatches(r.value.tagName, version) && r.value in releases
    ensures r.Err? <==> !AnyMatch(releases, version)
  {
    var prefixed := "v" + version;
    var k := 0;
    while k < |releases|
      invariant 0 <= k <= |releases|
      invariant forall j :: 0 <= j < k ==> !TagMatches(releases[j].tagName, version)
    {
      if releases[k].tagName == version || releases[k].tagName == prefixed {
        SelectReturnsFirstMatch(releases, version, k);
        return Ok(releases[k]);
      }
      k := k + 1;
    }
    SelectFailsIffNoMatch(releases, version);
    return Err(VersionNotFound);
  }
}
