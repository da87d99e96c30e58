/** Fetching the wanted assets of the selected release (`downloadRelease` and
    `downloadAsset`). The HTTP exchange itself is not modelled: `bodies` maps
    each URL whose download succeeds to the body it delivers, and a URL absent
    from it fails (request error or non-200 status). */
module Download {
  import opened Model
  import ReleaseSelection

  /** One call of `downloadAsset`: fetch `url` into local file `target`. */
  datatype Transfer = Transfer(url: string, target: string)

  /** The inner loop of `downloadRelease` for one asset, visiting the keys of
      the name-to-target map in the iteration order `keys`. */
  function TransfersFor(asset: Asset, keys: seq<string>, targets: map<string, string>): (ts: seq<Transfer>)
    requires forall k :: k in keys ==> k in targets
    ensures forall t :: t in ts <==> asset.name in keys && t == Transfer(asset.downloadUrl, targets[asset.name])
  {
    if |keys| == 0 then []
    else
      (if keys[0] == asset.name then [Transfer(asset.downloadUrl, targets[keys[0]])] else [])
      + TransfersFor(asset, keys[1..], targets)
  }

  /** What one asset contributes to the plan: a transfer to the target of the
      key equal to its name, if there is one. */
  function MatchFor(asset: Asset, targets: map<string, string>): seq<Transfer> {
    if asset.name in targets then [Transfer(asset.downloadUrl, targets[asset.name])] else []
  }

  /** Map keys are distinct, so whichever order Go iterates the map in, the
      inner loop produces exactly the asset's single match or nothing. */
  lemma {:induction false} InnerLoopIsOrderFree(asset: Asset, keys: seq<string>, targets: map<string, string>)
    requires Enumerates(keys, targets.Keys)
    ensures TransfersFor(asset, keys, targets) == MatchFor(asset, targets)
  {
    DistinctKeysMatchOnce(asset, keys, targets);
  }

  lemma {:induction false} DistinctKeysMatchOnce(asset: Asset, keys: seq<string>, targets: map<string, string>)
    requires forall k :: k in keys ==> k in targets
    requires forall i, j :: 0 <= i < j < |keys| ==> keys[i] != keys[j]
    ensures TransfersFor(asset, keys, targets)
         == if asset.name in keys then [Transfer(asset.downloadUrl, targets[asset.name])] else []
  {
    if |keys| > 0 {
      var rest := keys[1..];
      assert forall i, j :: 0 <= i < j < |rest| ==> rest[i] != rest[j] by {
        forall i, j | 0 <= i < j < |rest| ensures rest[i] != rest[j] {
          assert rest[i] == keys[i + 1] && rest[j] == keys[j + 1];
        }
      }
      DistinctKeysMatchOnce(asset, rest, targets);
      if keys[0] == asset.name {
        assert asset.name !in rest;
      }
      assert asset.name in keys <==> keys[0] == asset.name || asset.name in rest;
    }
  }

  /** The transfers `downloadRelease` starts, in asset order. */
  function Plan(assets: seq<Asset>, targets: map<string, string>): (p: seq<Transfer>)
    ensures |p| <= |assets|
    ensures forall t :: t in p <==>
      exists a :: a in assets && a.name in targets && t == Transfer(a.downloadUrl, targets[a.name])
  {
    if |assets| == 0 then []
    else
      var rest := Plan(assets[1..], targets);
      assert forall a :: a in assets <==> a == assets[0] || a in assets[1..];
      MatchFor(assets[0], targets) + rest
  }

  /** An empty plan, and so a download step that writes nothing, exactly when
      no asset of the release is named in the map. */
  lemma PlanEmptyIffNoMatch(assets: seq<Asset>, targets: map<string, string>)
    ensures Plan(assets, targets) == [] <==> forall a :: a in assets ==> a.name !in targets
  {
    var p := Plan(assets, targets);
    if p != [] {
      assert p[0] in p;
    }
    if exists a :: a in assets && a.name in targets {
      var a :| a in assets && a.name in targets;
      assert Transfer(a.downloadUrl, targets[a.name]) in p;
    }
  }

  /** The local files a plan writes to. */
  function Targets(plan: seq<Transfer>): set<string> {
    set t | t in plan :: t.target
  }

  /** Runs the transfers in order, stopping at the first failure. Each
      transfer first creates (truncates) its target, so a failed download
      leaves an empty file behind; `uncreatable` holds the paths whose
      creation fails. */
  function Fetch(fs: FileSystem, plan: seq<Transfer>, bodies: map<string, seq<Byte>>, uncreatable: set<string>): (r: Effect)
    ensures forall p :: p !in Targets(plan) ==> SameAt(fs, r.fs, p)
    ensures fs.Keys <= r.fs.Keys
    ensures r.outcome.Pass? <==> forall t :: t in plan ==> t.target !in uncreatable && t.url in bodies
    ensures r.outcome.Fail? ==> r.outcome.error.CreateFailed? || r.outcome.error.DownloadFailed?
    ensures r.outcome.Fail? && r.outcome.error.DownloadFailed? ==>
      exists t :: t in plan && t.url == r.outcome.error.url && t.target in r.fs && r.fs[t.target] == []
    decreases |plan|
  {
    if |plan| == 0 then Effect(fs, Pass)
    else
      var t := plan[0];
      assert forall x :: x in plan <==> x == t || x in plan[1..];
      if t.target in uncreatable then Effect(fs, Fail(CreateFailed(t.target)))
      else if t.url !in bodies then Effect(fs[t.target := []], Fail(DownloadFailed(t.url)))
      else
        assert Targets(plan) == {t.target} + Targets(plan[1..]);
        Fetch(fs[t.target := bodies[t.url]], plan[1..], bodies, uncreatable)
  }

  /** The run stops at the first failure: transfers planned after a failing
      prefix are never started, so they change neither files nor outcome. */
  lemma {:induction false} FetchStopsAtFirstFailure(
    fs: FileSystem, plan: seq<Transfer>, more: seq<Transfer>, bodies: map<string, seq<Byte>>, uncreatable: set<string>)
    requires Fetch(fs, plan, bodies, uncreatable).outcome.Fail?
    ensures Fetch(fs, plan + more, bodies, uncreatable) == Fetch(fs, plan, bodies, uncreatable)
    decreases |plan|
  {
    var t := plan[0];
    assert (plan + more)[0] == t && (plan + more)[1..] == plan[1..] + more;
    if t.target !in uncreatable && t.url in bodies {
      FetchStopsAtFirstFailure(fs[t.target := bodies[t.url]], plan[1..], more, bodies, uncreatable);
    }
  }

  /** After a successful run, a target holds the body of the last transfer
      written to it. */
  lemma {:induction false} FetchLastWriteWins(fs: FileSystem, plan: seq<Transfer>, bodies: map<string, seq<Byte>>, uncreatable: set<string>, i: int)
    requires Fetch(fs, plan, bodies, uncreatable).outcome.Pass?
    requires 0 <= i < |plan|
    requires forall j :: i < j < |plan| ==> plan[j].target != plan[i].target
    ensures plan[i].url in bodies
    ensures plan[i].target in Fetch(fs, plan, bodies, uncreatable).fs
    ensures Fetch(fs, plan, bodies, uncreatable).fs[plan[i].target] == bodies[plan[i].url]
    decreases |plan|
  {
    var t := plan[0];
    assert t in plan;
    var fs1 := fs[t.target := bodies[t.url]];
    if i == 0 {
      var r := Fetch(fs1, plan[1..], bodies, uncreatable);
      assert t.target !in Targets(plan[1..]) by {
        forall x | x in plan[1..] ensures x.target != t.target {
          var j :| 0 <= j < |plan[1..]| && plan[1..][j] == x;
          assert plan[j + 1] == x;
        }
      }
      assert SameAt(fs1, r.fs, t.target);
    } else {
      FetchLastWriteWins(fs1, plan[1..], bodies, uncreatable, i - 1);
    }
  }

  /** `downloadRelease`: select the release, then fetch every asset named in
      `targets`. Selection failure touches no file. */
  function DownloadRelease(
    fs: FileSystem, releases: seq<Release>, version: string, targets: map<string, string>,
    bodies: map<string, seq<Byte>>, uncreatable: set<string>): (r: Effect)
    ensures r.outcome == Fail(VersionNotFound) <==> !ReleaseSelection.AnyMatch(releases, version)
    ensures r.outcome == Fail(VersionNotFound) ==> r.fs == fs
    ensures forall p :: p !in targets.Values ==> SameAt(fs, r.fs, p)
    ensures fs.Keys <= r.fs.Keys
  {
    ReleaseSelection.SelectFailsIffNoMatch(releases, version);
    match ReleaseSelection.SelectRelease(releases, version)
    case Err(e) => Effect(fs, Fail(e))
    case Ok(release) => Fetch(fs, Plan(release.assets, targets), bodies, uncreatable)
  }
}
