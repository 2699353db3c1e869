/** The expiration registry as a value: a map from path to expiration instant,
    and the changes that adding, removing and sweeping make to it. */
module Expirations {
  import opened Wrappers
  import opened Paths
  import opened Ttl

  /** Path to expiration instant. Time is an integer in the unit the duration parser returns. */
  type Registry = map<Path, int>

  /** The expiration `add_file` records for `path`: creation time plus TTL, when the path
      carries a TTL and its creation time can be read. */
  function ExpirationOf(path: Path, parseDuration: string -> Option<nat>, creationTime: Path -> Option<int>): (r: Option<int>)
    ensures r.Some? <==> NearestTtl(path, parseDuration).Some? && creationTime(path).Some?
    ensures r.Some? ==> creationTime(path).value <= r.value
  {
    match NearestTtl(path, parseDuration)
    case None => None
    case Some(ttl) =>
      match creationTime(path)
      case None => None
      case Some(created) => Some(created + ttl)
  }

  /** `add_file` on a registry: `path` now maps to its expiration if it has one; nothing else changes. */
  function AddedFile(m: Registry, path: Path, parseDuration: string -> Option<nat>, creationTime: Path -> Option<int>): (r: Registry)
    ensures NearestTtl(path, parseDuration).None? || creationTime(path).None? ==> r == m
    ensures NearestTtl(path, parseDuration).Some? && creationTime(path).Some? ==>
              path in r && r[path] == creationTime(path).value + NearestTtl(path, parseDuration).value
    ensures forall k :: k != path ==> (k in r <==> k in m)
    ensures forall k :: k != path && k in r ==> r[k] == m[k]
  {
    match ExpirationOf(path, parseDuration, creationTime)
    case None => m
    case Some(expiration) => m[path := expiration]
  }

  /** Adding the same file twice, with the same oracle answers, is adding it once. */
  lemma AddedFileIdempotent(m: Registry, path: Path, parseDuration: string -> Option<nat>, creationTime: Path -> Option<int>)
    ensures AddedFile(AddedFile(m, path, parseDuration, creationTime), path, parseDuration, creationTime)
            == AddedFile(m, path, parseDuration, creationTime)
  {
  }

  /** `add_file` applied to each of `paths`, in order. */
  function AddedFiles(m: Registry, paths: seq<Path>, parseDuration: string -> Option<nat>, creationTime: Path -> Option<int>): (r: Registry)
    ensures m.Keys <= r.Keys
    ensures forall k :: k !in paths ==> (k in r <==> k in m)
    ensures forall k :: k in r && k !in paths ==> r[k] == m[k]
    decreases |paths|
  {
    if paths == [] then m
    else AddedFile(AddedFiles(m, paths[..|paths| - 1], parseDuration, creationTime), paths[|paths| - 1], parseDuration, creationTime)
  }

  /** The entries that `paths` contribute: each path that has an expiration, mapped to it. */
  function Tracked(paths: seq<Path>, parseDuration: string -> Option<nat>, creationTime: Path -> Option<int>): (t: Registry)
  {
    map p | p in paths && ExpirationOf(p, parseDuration, creationTime).Some? :: ExpirationOf(p, parseDuration, creationTime).value
  }

  /** Appending a path to the list adds its own entry, if it has one, to those already contributed. */
  lemma TrackedSnoc(init: seq<Path>, last: Path, parseDuration: string -> Option<nat>, creationTime: Path -> Option<int>)
    ensures Tracked(init + [last], parseDuration, creationTime)
            == match ExpirationOf(last, parseDuration, creationTime)
               case None => Tracked(init, parseDuration, creationTime)
               case Some(e) => Tracked(init, parseDuration, creationTime)[last := e]
  {
    var paths := init + [last];
    assert forall p :: p in paths <==> p in init || p == last;
  }

  /** Adding files in order overrides the registry with exactly the entries they contribute. */
  lemma {:induction false} AddedFilesOverrides(m: Registry, paths: seq<Path>, parseDuration: string -> Option<nat>, creationTime: Path -> Option<int>)
    ensures AddedFiles(m, paths, parseDuration, creationTime) == m + Tracked(paths, parseDuration, creationTime)
    decreases |paths|
  {
    if paths == [] {
      assert Tracked(paths, parseDuration, creationTime) == map[];
    } else {
      var init, last := paths[..|paths| - 1], paths[|paths| - 1];
      assert paths == init + [last];
      AddedFilesOverrides(m, init, parseDuration, creationTime);
      TrackedSnoc(init, last, parseDuration, creationTime);
      var t := Tracked(init, parseDuration, creationTime);
      match ExpirationOf(last, parseDuration, creationTime)
      case None =>
      case Some(e) =>
        OverrideThenUpdate(m, t, last, e);
    }
  }

  /** Updating one key after an override is overriding with the updated map. */
  lemma OverrideThenUpdate(m: Registry, t: Registry, k: Path, v: int)
    ensures (m + t)[k := v] == m + t[k := v]
  {
  }

  /** A file-create event repeated with the same oracle answers changes nothing more. */
  lemma AddedFilesIdempotent(m: Registry, paths: seq<Path>, parseDuration: string -> Option<nat>, creationTime: Path -> Option<int>)
    ensures AddedFiles(AddedFiles(m, paths, parseDuration, creationTime), paths, parseDuration, creationTime)
            == AddedFiles(m, paths, parseDuration, creationTime)
  {
    var once := AddedFiles(m, paths, parseDuration, creationTime);
    AddedFilesOverrides(m, paths, parseDuration, creationTime);
    AddedFilesOverrides(once, paths, parseDuration, creationTime);
    var t := Tracked(paths, parseDuration, creationTime);
    assert (m + t) + t == m + t;
  }

  /** `remove` applied to each of `paths`, in order. */
  function RemovedAll(m: Registry, paths: seq<Path>): (r: Registry)
    ensures forall k :: k in r <==> k in m && k !in paths
    ensures forall k :: k in r ==> r[k] == m[k]
    decreases |paths|
  {
    if paths == [] then m
    else RemovedAll(m, paths[..|paths| - 1]) - {paths[|paths| - 1]}
  }

  /** Removing paths in order removes exactly those present among them; absent ones are no-ops. */
  lemma {:induction false} RemovedAllIsDifference(m: Registry, paths: seq<Path>)
    ensures RemovedAll(m, paths) == m - (set p | p in paths)
    decreases |paths|
  {
    if paths != [] {
      var init := paths[..|paths| - 1];
      RemovedAllIsDifference(m, init);
      assert (set p | p in paths) == (set p | p in init) + {paths[|paths| - 1]};
    }
  }

  /** The keys whose expiration lies before `now`: those a sweep at `now` tries to delete. */
  function Expired(m: Registry, now: int): set<Path>
  {
    set k | k in m && m[k] < now
  }

  /** The keys a sweep at `now` removes: expired entries whose file deletion succeeds. */
  function Evicted(m: Registry, now: int, removeFile: Path -> bool): set<Path>
  {
    set k | k in m && m[k] < now && removeFile(k)
  }

  /** `check_files`' effect on the registry: every evicted entry is gone, all else is kept. */
  function Swept(m: Registry, now: int, removeFile: Path -> bool): (r: Registry)
    ensures forall k :: k in m && now <= m[k] ==> k in r && r[k] == m[k]
    ensures forall k :: k in m && m[k] < now ==> (k in r <==> !removeFile(k))
    ensures forall k :: k in r ==> k in m && r[k] == m[k]
    ensures forall k :: k in r && r[k] < now ==> !removeFile(k)
  {
    m - Evicted(m, now, removeFile)
  }

  /** A sweep at a later instant subsumes an earlier one with the same deletion outcomes. */
  lemma SweptLaterSubsumes(m: Registry, earlier: int, later: int, removeFile: Path -> bool)
    requires earlier <= later
    ensures Swept(Swept(m, earlier, removeFile), later, removeFile) == Swept(m, later, removeFile)
  {
    var twice := Swept(Swept(m, earlier, removeFile), later, removeFile);
    var once := Swept(m, later, removeFile);
    assert twice.Keys == once.Keys;
  }

  /** A file at `root/ttl=10s/data.bin` created at `t0` expires at `t0 + 10`: a sweep at
      `t0 + 11` deletes and forgets it, one at `t0 + 5` leaves it alone. */
  lemma SweepExample(parseDuration: string -> Option<nat>, creationTime: Path -> Option<int>, removeFile: Path -> bool, t0: int)
    requires parseDuration("10s") == Some(10)
    requires creationTime([RootDir, Normal("root"), Normal("ttl=10s"), Normal("data.bin")]) == Some(t0)
    requires removeFile([RootDir, Normal("root"), Normal("ttl=10s"), Normal("data.bin")])
    ensures var p := [RootDir, Normal("root"), Normal("ttl=10s"), Normal("data.bin")];
            var m := AddedFile(map[], p, parseDuration, creationTime);
            && m == map[p := t0 + 10]
            && Swept(m, t0 + 11, removeFile) == map[]
            && Swept(m, t0 + 5, removeFile) == m
  {
    var p := [RootDir, Normal("root"), Normal("ttl=10s"), Normal("data.bin")];
    assert !HasMarker("data.bin") by { assert "data.bin"[..|Marker|][0] != Marker[0]; }
    assert "ttl=" + "10s" == "ttl=10s";
    ParseTtlOfMarked("10s", parseDuration);
    assert p[..3] == [RootDir, Normal("root"), Normal("ttl=10s")];
    assert NearestTtl(p, parseDuration) == Some(10);
    var m := AddedFile(map[], p, parseDuration, creationTime);
    assert Swept(m, t0 + 11, removeFile).Keys == {};
  }
}
