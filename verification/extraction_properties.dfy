/** Properties of tarball extraction that relate several runs or several
    entries: skipped entries, which entry's bytes a target ends up with, and
    idempotence. */
module ExtractionProperties {
  import opened Model
  import opened Extraction

  /** An entry the header loop passes over without effect: not a regular
      file, and with a body the reader can skip to its end. */
  predicate Skippable(e: TarEntry) {
    e.kind != Regular && e.complete
  }

  function DropSkippable(entries: seq<TarEntry>): seq<TarEntry> {
    if |entries| == 0 then []
    else if Skippable(entries[0]) then DropSkippable(entries[1..])
    else [entries[0]] + DropSkippable(entries[1..])
  }

  /** Directories, symlinks and other non-regular entries change neither the
      filesystem nor the outcome: removing them from the archive gives the
      same result. */
  lemma {:induction false} NonRegularEntriesIgnored(
    fs: FileSystem, entries: seq<TarEntry>, end: ArchiveEnd, pairs: seq<SourceTarget>, uncreatable: set<string>)
    ensures ExtractEntries(fs, entries, end, pairs, uncreatable)
         == ExtractEntries(fs, DropSkippable(entries), end, pairs, uncreatable)
    decreases |entries|
  {
    if |entries| > 0 {
      var e := entries[0];
      var s := Step(fs, e, pairs, uncreatable);
      if Skippable(e) {
        NonRegularEntriesIgnored(fs, entries[1..], end, pairs, uncreatable);
      } else if s.outcome.Pass? && e.complete {
        NonRegularEntriesIgnored(s.fs, entries[1..], end, pairs, uncreatable);
        assert ([e] + DropSkippable(entries[1..]))[1..] == DropSkippable(entries[1..]);
      } else {
        assert ([e] + DropSkippable(entries[1..]))[0] == e;
      }
    }
  }

  /** The target of pair `i` is written by no other pair. */
  ghost predicate UniqueTarget(pairs: seq<SourceTarget>, i: int)
    requires 0 <= i < |pairs|
  {
    forall j :: 0 <= j < |pairs| && j != i ==> pairs[j].target != pairs[i].target
  }

  /** Pair `i` is the first pair naming its source. */
  ghost predicate FirstForSource(pairs: seq<SourceTarget>, i: int)
    requires 0 <= i < |pairs|
  {
    forall j :: 0 <= j < i ==> pairs[j].source != pairs[i].source
  }

  /** For one matching entry, the target of a pair whose target is unique gets
      the entry body if the pair is the first to name the entry and the body
      was still unread, and an empty file otherwise. */
  lemma {:induction false} CopyContents(
    fs: FileSystem, e: TarEntry, pairs: seq<SourceTarget>, unread: bool, uncreatable: set<string>, i: int)
    requires 0 <= i < |pairs| && pairs[i].source == e.name && UniqueTarget(pairs, i)
    requires CopyToTargets(fs, e, pairs, unread, uncreatable).outcome.Pass?
    ensures pairs[i].target in CopyToTargets(fs, e, pairs, unread, uncreatable).fs
    ensures CopyToTargets(fs, e, pairs, unread, uncreatable).fs[pairs[i].target]
         == if unread && FirstForSource(pairs, i) then e.body else []
    decreases |pairs|
  {
    var st := pairs[0];
    var t := pairs[i].target;
    if i == 0 {
      var fs1 := fs[st.target := if unread then e.body else []];
      var r := CopyToTargets(fs1, e, pairs[1..], false, uncreatable);
      assert t !in TargetsOf(e.name, pairs[1..]) by {
        forall x | x in pairs[1..] ensures x.target != t {
          var j :| 0 <= j < |pairs[1..]| && pairs[1..][j] == x;
          assert pairs[j + 1] == x;
        }
      }
      assert SameAt(fs1, r.fs, t);
    } else {
      var rest := pairs[1..];
      assert UniqueTarget(rest, i - 1) by {
        forall j | 0 <= j < |rest| && j != i - 1 ensures rest[j].target != rest[i - 1].target {
          assert rest[j] == pairs[j + 1];
        }
      }
      if st.source != e.name {
        CopyContents(fs, e, rest, unread, uncreatable, i - 1);
        assert FirstForSource(pairs, i) <==> FirstForSource(rest, i - 1) by {
          assert forall j :: 1 <= j < i ==> pairs[j] == rest[j - 1];
        }
      } else {
        var fs1 := fs[st.target := if unread then e.body else []];
        CopyContents(fs1, e, rest, false, uncreatable, i - 1);
        assert !FirstForSource(pairs, i);
      }
    }
  }

  /** Index `k` holds the last regular entry named `name`. */
  ghost predicate LastRegularNamed(entries: seq<TarEntry>, name: string, k: int) {
    && 0 <= k < |entries|
    && entries[k].kind == Regular && entries[k].name == name
    && forall m :: k < m < |entries| ==> !(entries[m].kind == Regular && entries[m].name == name)
  }

  /** What a successful extraction leaves in the target of pair `i` (whose
      target no other pair shares): the body of the LAST regular entry named
      by its source, since every later match truncates and rewrites it; but an
      empty file when an earlier pair names the same source, because that
      earlier copy drained the entry. */
  lemma {:induction false} TargetContents(
    fs: FileSystem, entries: seq<TarEntry>, end: ArchiveEnd, pairs: seq<SourceTarget>, uncreatable: set<string>,
    i: int, k: int)
    requires 0 <= i < |pairs| && UniqueTarget(pairs, i)
    requires LastRegularNamed(entries, pairs[i].source, k)
    requires ExtractEntries(fs, entries, end, pairs, uncreatable).outcome.Pass?
    ensures pairs[i].target in ExtractEntries(fs, entries, end, pairs, uncreatable).fs
    ensures ExtractEntries(fs, entries, end, pairs, uncreatable).fs[pairs[i].target]
         == if FirstForSource(pairs, i) then entries[k].body else []
    decreases |entries|
  {
    var e := entries[0];
    var s := Step(fs, e, pairs, uncreatable);
    var rest := entries[1..];
    var t := pairs[i].target;
    if k == 0 {
      CopyContents(fs, e, pairs, true, uncreatable, i);
      var r := ExtractEntries(s.fs, rest, end, pairs, uncreatable);
      assert t !in MatchedTargets(rest, pairs) by {
        forall st | st in pairs && st.source in RegularNames(rest) ensures st.target != t {
          var j :| 0 <= j < |pairs| && pairs[j] == st;
        }
      }
      assert SameAt(s.fs, r.fs, t);
    } else {
      assert LastRegularNamed(rest, pairs[i].source, k - 1) by {
        assert forall m :: 0 <= m < |rest| ==> rest[m] == entries[m + 1];
      }
      TargetContents(s.fs, rest, end, pairs, uncreatable, i, k - 1);
      assert entries[k] == rest[k - 1];
    }
  }

  /** With a pair list whose sources and targets are all distinct, as in the
      build script, each target ends up holding the last regular entry of its
      source. */
  lemma LastEntryWins(
    fs: FileSystem, entries: seq<TarEntry>, end: ArchiveEnd, pairs: seq<SourceTarget>, uncreatable: set<string>,
    i: int, k: int)
    requires 0 <= i < |pairs| && UniqueTarget(pairs, i) && FirstForSource(pairs, i)
    requires LastRegularNamed(entries, pairs[i].source, k)
    requires ExtractEntries(fs, entries, end, pairs, uncreatable).outcome.Pass?
    ensures pairs[i].target in ExtractEntries(fs, entries, end, pairs, uncreatable).fs
    ensures ExtractEntries(fs, entries, end, pairs, uncreatable).fs[pairs[i].target] == entries[k].body
  {
    TargetContents(fs, entries, end, pairs, uncreatable, i, k);
  }

  /** A second pair naming an already-matched source gets an empty file: the
      tar reader hands each body out only once. */
  lemma DrainedDuplicateIsEmpty(
    fs: FileSystem, entries: seq<TarEntry>, end: ArchiveEnd, pairs: seq<SourceTarget>, uncreatable: set<string>,
    i: int, j: int, k: int)
    requires 0 <= j < i < |pairs| && pairs[j].source == pairs[i].source && UniqueTarget(pairs, i)
    requires LastRegularNamed(entries, pairs[i].source, k)
    requires ExtractEntries(fs, entries, end, pairs, uncreatable).outcome.Pass?
    ensures pairs[i].target in ExtractEntries(fs, entries, end, pairs, uncreatable).fs
    ensures ExtractEntries(fs, entries, end, pairs, uncreatable).fs[pairs[i].target] == []
  {
    TargetContents(fs, entries, end, pairs, uncreatable, i, k);
  }

  /** What the pair loop writes does not depend on the files already there:
      running it over `fs + g` overlays on `fs` what it does to `g`. */
  lemma {:induction false} CopyOverlay(
    fs: FileSystem, g: FileSystem, e: TarEntry, pairs: seq<SourceTarget>, unread: bool, uncreatable: set<string>)
    ensures CopyToTargets(fs + g, e, pairs, unread, uncreatable)
         == var r := CopyToTargets(g, e, pairs, unread, uncreatable); Effect(fs + r.fs, r.outcome)
    decreases |pairs|
  {
    if |pairs| > 0 {
      var st := pairs[0];
      var v: seq<Byte> := if unread then e.body else [];
      UpdateOverlay(fs, g, st.target, v);
      if st.source != e.name {
        CopyOverlay(fs, g, e, pairs[1..], unread, uncreatable);
      } else if st.target !in uncreatable {
        CopyOverlay(fs, g[st.target := v], e, pairs[1..], false, uncreatable);
      }
    }
  }

  lemma UpdateOverlay(fs: FileSystem, g: FileSystem, p: string, v: seq<Byte>)
    ensures (fs + g)[p := v] == fs + g[p := v]
  {
    assert ((fs + g)[p := v]).Keys == (fs + g[p := v]).Keys;
  }

  /** The header loop likewise overlays its writes on whatever was there. */
  lemma {:induction false} ExtractOverlay(
    fs: FileSystem, g: FileSystem, entries: seq<TarEntry>, end: ArchiveEnd, pairs: seq<SourceTarget>, uncreatable: set<string>)
    ensures ExtractEntries(fs + g, entries, end, pairs, uncreatable)
         == var r := ExtractEntries(g, entries, end, pairs, uncreatable); Effect(fs + r.fs, r.outcome)
    decreases |entries|
  {
    if |entries| > 0 {
      var e := entries[0];
      if e.kind == Regular {
        CopyOverlay(fs, g, e, pairs, true, uncreatable);
      }
      var s := Step(g, e, pairs, uncreatable);
      if s.outcome.Pass? && e.complete {
        ExtractOverlay(fs, s.fs, entries[1..], end, pairs, uncreatable);
      }
    }
  }

  /** Extracting the same archive twice leaves the same files (and the same
      outcome) as extracting it once. */
  lemma ExtractionIdempotent(
    fs: FileSystem, entries: seq<TarEntry>, end: ArchiveEnd, pairs: seq<SourceTarget>, uncreatable: set<string>)
    ensures var once := ExtractEntries(fs, entries, end, pairs, uncreatable);
            ExtractEntries(once.fs, entries, end, pairs, uncreatable) == once
  {
    var empty: FileSystem := map[];
    var w := ExtractEntries(empty, entries, end, pairs, uncreatable);
    assert fs + empty == fs;
    ExtractOverlay(fs, empty, entries, end, pairs, uncreatable);
    var once := ExtractEntries(fs, entries, end, pairs, uncreatable);
    assert once.fs == fs + w.fs;
    ExtractOverlay(once.fs, empty, entries, end, pairs, uncreatable);
    assert once.fs + empty == once.fs;
    assert once.fs + w.fs == fs + w.fs;
  }
}
