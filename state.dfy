/** The daemon's shared state and the operations that change it in place. */
module TtlFile {
  import opened Wrappers
  import opened Paths
  import opened Ttl
  import opened Expirations
  import opened Notify
  import opened Walk

  /** The expiration registry: every tracked file's path and the instant it expires. */
  class State {
    var expirations: Registry

    constructor ()
      ensures expirations == map[]
    {
      expirations := map[];
    }

    /** `add_file`: records the file's creation time plus the TTL in its path, when it
        has a TTL and its creation time can be read; otherwise leaves the registry alone. */
    method AddFile(path: Path, parseDuration: string -> Option<nat>, creationTime: Path -> Option<int>)
      modifies this
      ensures expirations == AddedFile(old(expirations), path, parseDuration, creationTime)
    {
      var ttl := FindTtl(path, parseDuration);
      if ttl.None? {
        return;
      }
      match creationTime(path)
      case Some(created) =>
        expirations := expirations[path := created + ttl.value];
      case None =>
    }

    /** `check_files`: at instant `now`, tries to delete every file whose expiration has
        passed and forgets exactly those whose deletion succeeded. Returns the paths it
        tried to delete. */
    method CheckFiles(now: int, removeFile: Path -> bool) returns (attempted: set<Path>)
      modifies this
      ensures expirations == Swept(old(expirations), now, removeFile)
      ensures attempted == Expired(old(expirations), now)
    {
      ghost var start := expirations;
      var pending := expirations.Keys;
      attempted := {};
      while pending != {}
        invariant pending <= start.Keys
        invariant expirations == start - (Evicted(start, now, removeFile) - pending)
        invariant attempted == Expired(start, now) - pending
        decreases pending
      {
        var path :| path in pending;
        pending := pending - {path};
        if now <= expirations[path] {
          continue;
        }
        attempted := attempted + {path};
        if removeFile(path) {
          expirations := expirations - {path};
        }
      }
    }

    /** `handle_notify_event`: applies one filesystem event to the registry. */
    method HandleNotifyEvent(event: Event, parseDuration: string -> Option<nat>, creationTime: Path -> Option<int>)
      requires WellFormed(event)
      modifies this
      ensures expirations == AfterEvent(old(expirations), event, parseDuration, creationTime)
    {
      match event.kind
      case Create(CreateFile) =>
        var i := 0;
        while i < |event.paths|
          invariant 0 <= i <= |event.paths|
          invariant expirations == AddedFiles(old(expirations), event.paths[..i], parseDuration, creationTime)
        {
          assert event.paths[..i + 1][..i] == event.paths[..i];
          AddFile(event.paths[i], parseDuration, creationTime);
          i := i + 1;
        }
        assert event.paths[..i] == event.paths;
      case Remove(RemoveFile) =>
        var i := 0;
        while i < |event.paths|
          invariant 0 <= i <= |event.paths|
          invariant expirations == RemovedAll(old(expirations), event.paths[..i])
        {
          assert event.paths[..i + 1][..i] == event.paths[..i];
          expirations := expirations - {event.paths[i]};
          i := i + 1;
        }
        assert event.paths[..i] == event.paths;
      case Modify(ModifyName(RenameBoth)) =>
        expirations := expirations - {event.paths[0]};
        AddFile(event.paths[1], parseDuration, creationTime);
      case _ =>
    }
  }

  /** `initialize_files`: walks every root and adds each regular file found, under its
      canonical path, to a fresh registry; walk errors and other entries are passed over. */
  method InitializeFiles(roots: seq<Path>, walk: Path -> seq<WalkItem>, canonicalize: Path -> Option<Path>,
                         parseDuration: string -> Option<nat>, creationTime: Path -> Option<int>)
    returns (state: State)
    requires Canonicalizable(Walked(roots, walk), canonicalize)
    ensures fresh(state)
    ensures state.expirations == InitialExpirations(Walked(roots, walk), canonicalize, parseDuration, creationTime)
  {
    state := new State();
    var items := Walked(roots, walk);
    var i := 0;
    while i < |items|
      invariant 0 <= i <= |items|
      invariant Canonicalizable(items[..i], canonicalize)
      invariant state.expirations == InitialExpirations(items[..i], canonicalize, parseDuration, creationTime)
    {
      assert items[..i + 1][..i] == items[..i];
      assert Canonicalizable(items[..i + 1], canonicalize) by {
        assert forall j :: 0 <= j < i + 1 ==> items[..i + 1][j] == items[j];
      }
      match items[i] {
        case Found(entry) =>
          if entry.fileType == File {
            var path := canonicalize(entry.path).value;
            state.AddFile(path, parseDuration, creationTime);
          }
        case Failed(_) =>
      }
      i := i + 1;
    }
    assert items[..i] == items;
  }
}
