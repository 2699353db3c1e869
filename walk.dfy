/** The initial scan: the entries a recursive directory walk yields, and the registry
    `initialize_files` builds from them. */
module Walk {
  import opened Wrappers
  import opened Paths
  import opened Expirations

  /** The type of a walk entry; walks do not follow symbolic links. */
  datatype FileType = File | Dir | Symlink

  datatype DirEntry = DirEntry(path: Path, fileType: FileType)

  /** One item of a walk: an entry, or an error, with the path it concerns when there is one. */
  datatype WalkItem = Found(entry: DirEntry) | Failed(at: Option<Path>)

  /** The walks of `roots`, one after the other, as `flat_map` chains them. */
  function Walked(roots: seq<Path>, walk: Path -> seq<WalkItem>): (items: seq<WalkItem>)
    ensures forall x :: x in items <==> exists root :: root in roots && x in walk(root)
    decreases |roots|
  {
    if roots == [] then [] else Walked(roots[..|roots| - 1], walk) + walk(roots[|roots| - 1])
  }

  predicate IsRegularFile(item: WalkItem)
  {
    item.Found? && item.entry.fileType == File
  }

  /** Every regular file of the walk has a canonical path. */
  predicate Canonicalizable(items: seq<WalkItem>, canonicalize: Path -> Option<Path>)
  {
    forall i :: 0 <= i < |items| && IsRegularFile(items[i]) ==> canonicalize(items[i].entry.path).Some?
  }

  /** The canonical paths of the walk's regular files, in walk order. */
  function FilePaths(items: seq<WalkItem>, canonicalize: Path -> Option<Path>): seq<Path>
    requires Canonicalizable(items, canonicalize)
    decreases |items|
  {
    if items == [] then []
    else
      var init, last := items[..|items| - 1], items[|items| - 1];
      assert forall i :: 0 <= i < |init| ==> init[i] == items[i];
      if IsRegularFile(last) then FilePaths(init, canonicalize) + [canonicalize(last.entry.path).value]
      else FilePaths(init, canonicalize)
  }

  /** The registry `initialize_files` builds: starting empty, each walk item in turn is
      skipped unless it is a regular file, which is added under its canonical path. */
  function InitialExpirations(items: seq<WalkItem>, canonicalize: Path -> Option<Path>,
                              parseDuration: string -> Option<nat>, creationTime: Path -> Option<int>): (r: Registry)
    requires Canonicalizable(items, canonicalize)
    ensures forall k :: k in r ==> ExpirationOf(k, parseDuration, creationTime).Some?
                                   && r[k] == ExpirationOf(k, parseDuration, creationTime).value
    decreases |items|
  {
    if items == [] then map[]
    else
      var init, last := items[..|items| - 1], items[|items| - 1];
      assert forall i :: 0 <= i < |init| ==> init[i] == items[i];
      var before := InitialExpirations(init, canonicalize, parseDuration, creationTime);
      if IsRegularFile(last) then AddedFile(before, canonicalize(last.entry.path).value, parseDuration, creationTime)
      else before
  }

  /** The initial registry is the empty one with `add_file` applied to the walk's regular
      files in walk order; errors and other entries contribute nothing. */
  lemma {:induction false} InitialIsAddedFiles(items: seq<WalkItem>, canonicalize: Path -> Option<Path>,
                                               parseDuration: string -> Option<nat>, creationTime: Path -> Option<int>)
    requires Canonicalizable(items, canonicalize)
    ensures InitialExpirations(items, canonicalize, parseDuration, creationTime)
            == AddedFiles(map[], FilePaths(items, canonicalize), parseDuration, creationTime)
    decreases |items|
  {
    if items != [] {
      var init := items[..|items| - 1];
      assert forall i :: 0 <= i < |init| ==> init[i] == items[i];
      InitialIsAddedFiles(init, canonicalize, parseDuration, creationTime);
      var ps := FilePaths(init, canonicalize);
      if IsRegularFile(items[|items| - 1]) {
        var p := canonicalize(items[|items| - 1].entry.path).value;
        assert (ps + [p])[..|ps + [p]| - 1] == ps;
      }
    }
  }

  /** A regular file's canonical path is in the initial registry exactly when it has an
      expiration, and then maps to it; nothing else is. */
  lemma InitialIsTracked(items: seq<WalkItem>, canonicalize: Path -> Option<Path>,
                         parseDuration: string -> Option<nat>, creationTime: Path -> Option<int>)
    requires Canonicalizable(items, canonicalize)
    ensures forall k :: k in InitialExpirations(items, canonicalize, parseDuration, creationTime)
                        <==> k in FilePaths(items, canonicalize) && ExpirationOf(k, parseDuration, creationTime).Some?
    ensures forall k :: k in InitialExpirations(items, canonicalize, parseDuration, creationTime) ==>
                        InitialExpirations(items, canonicalize, parseDuration, creationTime)[k]
                        == ExpirationOf(k, parseDuration, creationTime).value
  {
    InitialIsAddedFiles(items, canonicalize, parseDuration, creationTime);
    AddedFilesOverrides(map[], FilePaths(items, canonicalize), parseDuration, creationTime);
    assert map[] + Tracked(FilePaths(items, canonicalize), parseDuration, creationTime)
           == Tracked(FilePaths(items, canonicalize), parseDuration, creationTime);
  }
}
