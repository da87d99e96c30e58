/** The image names `buildVersion` builds (every tag for every registry, plus
    a date-stamped variant) and the registry `pushImage` recovers from each
    name to look up its credentials. */
module ImageTags {
  import opened Model
  import StringSplit

  /** What follows the registry name in every image name. */
  const Repository: string := "/containerssh/containerssh:"

  /** The tag that gets no date-stamped variant. */
  const Latest: string := "latest"

  function ImageName(registry: string, tag: string): string {
    registry + Repository + tag
  }

  function DatedName(registry: string, tag: string, date: string): string {
    ImageName(registry, tag) + "-" + date
  }

  /** What one (tag, registry) iteration appends. */
  function NamesFor(tag: string, registry: string, date: string): seq<string> {
    [ImageName(registry, tag)] + (if tag != Latest then [DatedName(registry, tag, date)] else [])
  }

  /** `s` is one of the names built for tag `t` in registry `r`. */
  predicate BuiltFor(s: string, t: string, r: string, date: string) {
    s == ImageName(r, t) || (t != Latest && s == DatedName(r, t, date))
  }

  /** The inner loop for one tag, over the registries in the order `order`
      that Go's map iteration picked. */
  function ExpandTag(tag: string, order: seq<string>, date: string): (names: seq<string>)
    ensures |names| == |order| * (if tag != Latest then 2 else 1)
    ensures forall s :: s in names <==> exists r :: r in order && BuiltFor(s, tag, r, date)
  {
    if |order| == 0 then []
    else
      var rest := ExpandTag(tag, order[1..], date);
      assert forall r :: r in order <==> r == order[0] || r in order[1..];
      assert forall s :: s in NamesFor(tag, order[0], date) <==> BuiltFor(s, tag, order[0], date);
      NamesFor(tag, order[0], date) + rest
  }

  /** The tag loop of `buildVersion`. Go iterates the registry map afresh for
      every tag, so `orders[i]` is the registry order used for `tags[i]`. */
  function ExpandTags(tags: seq<string>, orders: seq<seq<string>>, date: string): (names: seq<string>)
    requires |orders| == |tags|
    ensures forall s :: s in names <==>
      exists i, r :: 0 <= i < |tags| && r in orders[i] && BuiltFor(s, tags[i], r, date)
  {
    if |tags| == 0 then []
    else
      var rest := ExpandTags(tags[1..], orders[1..], date);
      var names := ExpandTag(tags[0], orders[0], date) + rest;
      assert forall s :: s in names ==>
        exists i, r :: 0 <= i < |tags| && r in orders[i] && BuiltFor(s, tags[i], r, date) by {
        forall s | s in names
          ensures exists i, r :: 0 <= i < |tags| && r in orders[i] && BuiltFor(s, tags[i], r, date)
        {
          if s !in ExpandTag(tags[0], orders[0], date) {
            var i, r :| 0 <= i < |tags| - 1 && r in orders[1..][i] && BuiltFor(s, tags[1..][i], r, date);
            assert r in orders[i + 1] && BuiltFor(s, tags[i + 1], r, date);
          }
        }
      }
      assert forall s ::
        (exists i, r :: 0 <= i < |tags| && r in orders[i] && BuiltFor(s, tags[i], r, date)) ==> s in names
      by {
        forall s, i, r | 0 <= i < |tags| && r in orders[i] && BuiltFor(s, tags[i], r, date)
          ensures s in names
        {
          if i > 0 {
            assert r in orders[1..][i - 1] && BuiltFor(s, tags[1..][i - 1], r, date);
          }
        }
      }
      names
  }

  /** How many tags are not "latest", counting repeats. */
  function CountDated(tags: seq<string>): nat {
    if |tags| == 0 then 0 else (if tags[0] != Latest then 1 else 0) + CountDated(tags[1..])
  }

  lemma {:induction false} EnumerationLength(order: seq<string>, s: set<string>)
    requires Enumerates(order, s)
    ensures |order| == |s|
    decreases |order|
  {
    if |order| > 0 {
      var rest := order[1..];
      assert Enumerates(rest, s - {order[0]}) by {
        forall k ensures k in rest <==> k in s - {order[0]} {
          if k in rest {
            var j :| 0 <= j < |rest| && rest[j] == k;
            assert order[j + 1] == k;
          }
          if k in s && k != order[0] {
            assert k in order;
          }
        }
        assert forall i, j :: 0 <= i < j < |rest| ==> rest[i] == order[i + 1] && rest[j] == order[j + 1];
      }
      EnumerationLength(rest, s - {order[0]});
    } else {
      assert forall k :: k !in s;
      assert s == {};
    }
  }

  /** Exact size of the expansion: one name per tag and registry, plus one
      more per registry for every tag other than "latest". */
  lemma {:induction false} ExpansionCount(tags: seq<string>, orders: seq<seq<string>>, registries: set<string>, date: string)
    requires |orders| == |tags|
    requires forall i :: 0 <= i < |orders| ==> Enumerates(orders[i], registries)
    ensures |ExpandTags(tags, orders, date)| == |tags| * |registries| + CountDated(tags) * |registries|
    decreases |tags|
  {
    if |tags| > 0 {
      EnumerationLength(orders[0], registries);
      ExpansionCount(tags[1..], orders[1..], registries, date);
      assert (|tags| - 1) * |registries| + |registries| == |tags| * |registries|;
      assert (CountDated(tags) - 1) * |registries| + |registries| == CountDated(tags) * |registries|;
    }
  }

  /** Membership in set terms: the expansion holds exactly the plain name of
      every tag in every registry and the dated name of every tag other than
      "latest", whatever order the registries were visited in. */
  lemma ExpansionMembers(tags: seq<string>, orders: seq<seq<string>>, registries: set<string>, date: string, s: string)
    requires |orders| == |tags|
    requires forall i :: 0 <= i < |orders| ==> Enumerates(orders[i], registries)
    ensures s in ExpandTags(tags, orders, date) <==>
      exists t, r :: t in tags && r in registries && BuiltFor(s, t, r, date)
  {
    var names := ExpandTags(tags, orders, date);
    if s in names {
      var i, r :| 0 <= i < |tags| && r in orders[i] && BuiltFor(s, tags[i], r, date);
      assert tags[i] in tags;
    }
    if exists t, r :: t in tags && r in registries && BuiltFor(s, t, r, date) {
      var t, r :| t in tags && r in registries && BuiltFor(s, t, r, date);
      var i :| 0 <= i < |tags| && tags[i] == t;
      assert r in orders[i];
    }
  }

  /** The registry `pushImage` uses for an image name: the text before the
      first "/". */
  function RegistryOf(image: string): (r: string)
    ensures '/' !in r
    ensures |r| <= |image| && r == image[..|r|]
    ensures |r| < |image| ==> image[|r|] == '/'
  {
    var parts := StringSplit.Split(image, '/');
    assert '/' !in parts[0];
    assert |parts| > 1 ==> image == parts[0] + ['/'] + StringSplit.Join(parts[1..], '/');
    parts[0]
  }

  /** Registry names contain no "/", so they survive the split at "/". */
  ghost predicate SlashFree(registries: set<string>) {
    forall r :: r in registries ==> '/' !in r
  }

  /** A built name is the registry, a "/", and the rest. */
  lemma NameShape(r: string, t: string, date: string)
    ensures ImageName(r, t) == r + ['/'] + (Repository[1..] + t)
    ensures DatedName(r, t, date) == r + ['/'] + (Repository[1..] + t + "-" + date)
  {
    assert Repository == ['/'] + Repository[1..];
  }

  /** Splitting a built name at "/" gives back the registry it was built for. */
  lemma RegistryRoundTrip(r: string, t: string, date: string)
    requires '/' !in r
    ensures RegistryOf(ImageName(r, t)) == r
    ensures RegistryOf(DatedName(r, t, date)) == r
  {
    NameShape(r, t, date);
    StringSplit.SplitHead(r, '/', Repository[1..] + t);
    StringSplit.SplitHead(r, '/', Repository[1..] + t + "-" + date);
  }

  /** Every image name the build produces is pushed with a configured registry. */
  lemma PushedRegistriesAreConfigured(
    tags: seq<string>, orders: seq<seq<string>>, registries: set<string>, date: string, s: string)
    requires |orders| == |tags| && SlashFree(registries)
    requires forall i :: 0 <= i < |orders| ==> Enumerates(orders[i], registries)
    requires s in ExpandTags(tags, orders, date)
    ensures RegistryOf(s) in registries
  {
    var i, r :| 0 <= i < |tags| && r in orders[i] && BuiltFor(s, tags[i], r, date);
    RegistryRoundTrip(r, tags[i], date);
  }

  /** Built names determine registry and tag: equal plain names have equal
      registries and tags. */
  lemma ImageNameInjective(r1: string, t1: string, r2: string, t2: string)
    requires '/' !in r1 && '/' !in r2
    requires ImageName(r1, t1) == ImageName(r2, t2)
    ensures r1 == r2 && t1 == t2
  {
    RegistryRoundTrip(r1, t1, "");
    RegistryRoundTrip(r2, t2, "");
    var n := ImageName(r1, t1);
    assert t1 == n[|r1| + |Repository|..];
    assert t2 == n[|r2| + |Repository|..];
  }

  /** A dated name can coincide with a plain name only for the tag that
      spells out the date suffix. */
  lemma DatedAsPlain(r: string, t: string, r': string, t': string, date: string)
    requires '/' !in r && '/' !in r'
    requires DatedName(r, t, date) == ImageName(r', t')
    ensures r' == r && t' == t + "-" + date
  {
    assert DatedName(r, t, date) == ImageName(r, t + "-" + date);
    ImageNameInjective(r, t + "-" + date, r', t');
  }

  /** Dated names with the same date determine registry and tag. */
  lemma DatedInjective(r: string, t: string, r': string, t': string, date: string)
    requires '/' !in r && '/' !in r'
    requires DatedName(r, t, date) == DatedName(r', t', date)
    ensures r' == r && t' == t
  {
    var d := "-" + date;
    var a := ImageName(r, t);
    var b := ImageName(r', t');
    assert DatedName(r, t, date) == a + d && DatedName(r', t', date) == b + d;
    assert a == (a + d)[..|a|];
    assert b == (b + d)[..|b|];
    ImageNameInjective(r, t, r', t');
  }

  /** The dated name of tag `t` is built exactly when `t` is not "latest",
      provided no tag spells out that dated suffix itself (the tag
      `t + "-" + date` would produce the same name as a plain tag). */
  lemma DatedNameIffNotLatest(
    tags: seq<string>, orders: seq<seq<string>>, registries: set<string>, date: string, t: string, r: string)
    requires |orders| == |tags| && SlashFree(registries)
    requires forall i :: 0 <= i < |orders| ==> Enumerates(orders[i], registries)
    requires t in tags && r in registries
    requires t + "-" + date !in tags
    ensures DatedName(r, t, date) in ExpandTags(tags, orders, date) <==> t != Latest
  {
    var s := DatedName(r, t, date);
    ExpansionMembers(tags, orders, registries, date, s);
    if s in ExpandTags(tags, orders, date) {
      var t', r' :| t' in tags && r' in registries && BuiltFor(s, t', r', date);
      if s == ImageName(r', t') {
        DatedAsPlain(r, t, r', t', date);
      } else {
        DatedInjective(r, t, r', t', date);
      }
    } else {
      assert !BuiltFor(s, t, r, date);
    }
  }

  /** The credential request `pushImage` sends for one image. */
  datatype PushAuth = PushAuth(image: string, username: string, password: string, email: string, serverAddress: string)

  /** `os.Getenv`: an unset variable reads as the empty string, and so does
      the empty variable name, which no environment can hold. */
  function Getenv(env: map<string, string>, name: string): (v: string)
    ensures name == "" || name !in env ==> v == ""
    ensures name != "" && name in env ==> v == env[name]
  {
    if name != "" && name in env then env[name] else ""
  }

  /** Go map lookup: a missing registry reads as the zero value, whose
      variable names are empty. */
  function LookupRegistry(registries: map<string, Registry>, name: string): (reg: Registry)
    ensures name in registries ==> reg == registries[name]
    ensures name !in registries ==> reg.userVariable == "" && reg.passwordVariable == ""
  {
    if name in registries then registries[name] else Registry("", "")
  }

  /** The loop of `pushImage`: one credential request per image name, in
      order, for the registry before the first "/". Empty credentials are not
      rejected. */
  function PushAuths(images: seq<string>, registries: map<string, Registry>, env: map<string, string>): (auths: seq<PushAuth>)
    ensures |auths| == |images|
    ensures forall i :: 0 <= i < |images| ==>
      && auths[i].image == images[i]
      && auths[i].serverAddress == RegistryOf(images[i])
      && auths[i].email == ""
      && auths[i].username == Getenv(env, LookupRegistry(registries, auths[i].serverAddress).userVariable)
      && auths[i].password == Getenv(env, LookupRegistry(registries, auths[i].serverAddress).passwordVariable)
  {
    if |images| == 0 then []
    else
      var server := RegistryOf(images[0]);
      var reg := LookupRegistry(registries, server);
      [PushAuth(images[0], Getenv(env, reg.userVariable), Getenv(env, reg.passwordVariable), "", server)]
      + PushAuths(images[1..], registries, env)
  }

  /** A name whose registry is not configured is pushed with empty
      credentials, whatever the environment holds. */
  lemma MissingRegistryPushesEmptyCredentials(
    images: seq<string>, registries: map<string, Registry>, env: map<string, string>, i: int)
    requires 0 <= i < |images|
    requires RegistryOf(images[i]) !in registries
    ensures PushAuths(images, registries, env)[i].username == ""
    ensures PushAuths(images, registries, env)[i].password == ""
  {
  }

  /** For the names the build produced, every push finds its registry's
      configured variables: the zero-value fallback is never taken. */
  lemma PushUsesConfiguredCredentials(
    tags: seq<string>, orders: seq<seq<string>>, registries: map<string, Registry>, date: string,
    env: map<string, string>, i: int)
    requires |orders| == |tags| && SlashFree(registries.Keys)
    requires forall j :: 0 <= j < |orders| ==> Enumerates(orders[j], registries.Keys)
    requires 0 <= i < |ExpandTags(tags, orders, date)|
    ensures var auth := PushAuths(ExpandTags(tags, orders, date), registries, env)[i];
      && auth.serverAddress in registries
      && auth.username == Getenv(env, registries[auth.serverAddress].userVariable)
      && auth.password == Getenv(env, registries[auth.serverAddress].passwordVariable)
  {
    var names := ExpandTags(tags, orders, date);
    PushedRegistriesAreConfigured(tags, orders, registries.Keys, date, names[i]);
  }
}
