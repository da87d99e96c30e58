/** The names `tarDirectory` gives the files of the image build context inside
    the archive it streams to the image build. The walk and the tar writer
    themselves are not modelled: the walk is the sequence of visited paths. */
module TarDirectory {
  import opened Model

  /** One path visited by the directory walk, and whether it is a regular file. */
  datatype Visited = Visited(path: string, regular: bool)

  /** `path[len(src)+1:]`: drop the walk root and the separator after it. A
      path too short for that slice makes Go panic, which is `None` here
      (this happens when the walk root is itself a regular file). */
  function ArchiveName(src: string, path: string): (name: Option<string>)
    ensures name.None? <==> |path| < |src| + 1
    ensures name.Some? ==> |name.value| == |path| - |src| - 1
    ensures name.Some? ==> path == path[..|src| + 1] + name.value
  {
    if |path| < |src| + 1 then None else Some(path[|src| + 1..])
  }

  /** A file found under the root, at `src + "/" + rel`, is archived as `rel`. */
  lemma ArchiveNameOfChild(src: string, rel: string)
    ensures ArchiveName(src, src + "/" + rel) == Some(rel)
  {
    assert (src + "/" + rel)[|src| + 1..] == rel;
  }

  /** Only the prefix's LENGTH is used: a path outside the root is cut at the
      same place, so the name is not a path relative to the root. */
  lemma ArchiveNameIgnoresPrefixText(src: string, other: string, rel: string)
    requires |other| == |src| + 1
    ensures ArchiveName(src, other + rel) == Some(rel)
  {
    assert (other + rel)[|src| + 1..] == rel;
  }

  /** The names of the regular files of a walk, in walk order; the walk aborts
      (the panic) at the first regular path too short to slice. Non-regular
      paths are skipped. */
  function ArchiveNames(src: string, walk: seq<Visited>): (names: Option<seq<string>>)
    ensures names.Some? <==> forall k :: 0 <= k < |walk| && walk[k].regular ==> |src| + 1 <= |walk[k].path|
    ensures names.Some? ==> |names.value| == CountRegular(walk)
  {
    if |walk| == 0 then Some([])
    else
      var rest := ArchiveNames(src, walk[1..]);
      assert forall k :: 1 <= k < |walk| ==> walk[k] == walk[1..][k - 1];
      if !walk[0].regular then rest
      else match ArchiveName(src, walk[0].path)
        case None => None
        case Some(n) => if rest.Some? then Some([n] + rest.value) else None
  }

  /** How many visited paths are regular files. */
  function CountRegular(walk: seq<Visited>): nat {
    if |walk| == 0 then 0 else (if walk[0].regular then 1 else 0) + CountRegular(walk[1..])
  }

  /** A walk whose regular files lie below the root (each at
      `src + "/" + rel`; the root itself and other directories may appear
      anywhere) yields exactly the relative names of its regular files, in
      walk order. */
  lemma {:induction false} ArchiveNamesOfChildren(src: string, walk: seq<Visited>, rels: seq<string>)
    requires |rels| == |walk|
    requires forall k :: 0 <= k < |walk| && walk[k].regular ==> walk[k].path == src + "/" + rels[k]
    ensures ArchiveNames(src, walk) == Some(RegularRels(walk, rels))
    decreases |walk|
  {
    if |walk| > 0 {
      assert forall k :: 0 <= k < |walk| - 1 ==> walk[1..][k] == walk[k + 1] && rels[1..][k] == rels[k + 1];
      ArchiveNamesOfChildren(src, walk[1..], rels[1..]);
      if walk[0].regular {
        ArchiveNameOfChild(src, rels[0]);
      } else {
        assert RegularRels(walk, rels) == RegularRels(walk[1..], rels[1..]);
        assert ArchiveNames(src, walk) == ArchiveNames(src, walk[1..]);
      }
    }
  }

  /** The walk visits the root directory first; it gets no name, and the file
      below it is named by its relative path. */
  lemma RootThenChild(src: string, rel: string)
    ensures ArchiveNames(src, [Visited(src, false), Visited(src + "/" + rel, true)]) == Some([rel])
  {
    var walk := [Visited(src, false), Visited(src + "/" + rel, true)];
    var rels := ["", rel];
    ArchiveNamesOfChildren(src, walk, rels);
    assert walk[1..] == [walk[1]] && rels[1..] == [rel];
    assert RegularRels(walk, rels) == RegularRels(walk[1..], rels[1..]) == [rel];
  }

  /** The relative names of the regular entries, in walk order. */
  function RegularRels(walk: seq<Visited>, rels: seq<string>): seq<string>
    requires |rels| == |walk|
  {
    if |walk| == 0 then []
    else (if walk[0].regular then [rels[0]] else []) + RegularRels(walk[1..], rels[1..])
  }
}
