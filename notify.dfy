/** Filesystem events, after the `notify` crate's `Event`, and the registry changes
    `handle_notify_event` makes for each. */
module Notify {
  import opened Wrappers
  import opened Paths
  import opened Ttl
  import opened Expirations

  datatype CreateKind = CreateAny | CreateFile | CreateFolder | CreateOther
  datatype RemoveKind = RemoveAny | RemoveFile | RemoveFolder | RemoveOther
  datatype RenameMode = RenameAny | RenameTo | RenameFrom | RenameBoth | RenameOther
  datatype ModifyKind = ModifyAny | ModifyData | ModifyMetadata | ModifyName(mode: RenameMode) | ModifyOther
  datatype EventKind = Any | Access | Create(createKind: CreateKind) | Modify(modifyKind: ModifyKind) | Remove(removeKind: RemoveKind) | Other

  /** An event: what happened, and the paths it happened to. */
  datatype Event = Event(kind: EventKind, paths: seq<Path>)

  /** A rename carrying both ends lists exactly the old and the new path. */
  predicate WellFormed(event: Event)
  {
    event.kind == Modify(ModifyName(RenameBoth)) ==> |event.paths| == 2
  }

  /** The kinds the handler acts on; every other kind is ignored. */
  predicate Handled(kind: EventKind)
  {
    kind == Create(CreateFile) || kind == Remove(RemoveFile) || kind == Modify(ModifyName(RenameBoth))
  }

  /** The registry after `handle_notify_event(event)`. */
  function AfterEvent(m: Registry, event: Event, parseDuration: string -> Option<nat>, creationTime: Path -> Option<int>): (r: Registry)
    requires WellFormed(event)
    ensures forall k :: k !in event.paths ==> (k in r <==> k in m)
    ensures forall k :: k in r && k !in event.paths ==> r[k] == m[k]
  {
    match event.kind
    case Create(CreateFile) => AddedFiles(m, event.paths, parseDuration, creationTime)
    case Remove(RemoveFile) => RemovedAll(m, event.paths)
    case Modify(ModifyName(RenameBoth)) => AddedFile(m - {event.paths[0]}, event.paths[1], parseDuration, creationTime)
    case _ => m
  }

  /** A file-create event adds each listed path that has an expiration; every other key,
      including a listed one without an expiration, keeps its value. */
  lemma CreateEventEffect(m: Registry, event: Event, parseDuration: string -> Option<nat>, creationTime: Path -> Option<int>)
    requires event.kind == Create(CreateFile)
    ensures forall k :: k in AfterEvent(m, event, parseDuration, creationTime)
                        <==> k in m || (k in event.paths && ExpirationOf(k, parseDuration, creationTime).Some?)
    ensures forall k :: k in event.paths && ExpirationOf(k, parseDuration, creationTime).Some? ==>
                        AfterEvent(m, event, parseDuration, creationTime)[k] == ExpirationOf(k, parseDuration, creationTime).value
    ensures forall k :: k in m && !(k in event.paths && ExpirationOf(k, parseDuration, creationTime).Some?) ==>
                        AfterEvent(m, event, parseDuration, creationTime)[k] == m[k]
    ensures AfterEvent(m, event, parseDuration, creationTime) == m + Tracked(event.paths, parseDuration, creationTime)
  {
    AddedFilesOverrides(m, event.paths, parseDuration, creationTime);
  }

  /** A file-remove event removes each listed path; absent ones are no-ops and no other key changes. */
  lemma RemoveEventEffect(m: Registry, event: Event, parseDuration: string -> Option<nat>, creationTime: Path -> Option<int>)
    requires event.kind == Remove(RemoveFile)
    ensures forall k :: k in AfterEvent(m, event, parseDuration, creationTime) <==> k in m && k !in event.paths
    ensures forall k :: k in AfterEvent(m, event, parseDuration, creationTime) ==> AfterEvent(m, event, parseDuration, creationTime)[k] == m[k]
  {
    RemovedAllIsDifference(m, event.paths);
  }

  /** A rename forgets the old path unless it is also the new one and that is re-added,
      and treats the new path as a freshly created file: it gets its expiration if it has one,
      and otherwise keeps whatever entry it already had; no other key changes. */
  lemma RenameEventEffect(m: Registry, event: Event, parseDuration: string -> Option<nat>, creationTime: Path -> Option<int>)
    requires event.kind == Modify(ModifyName(RenameBoth)) && |event.paths| == 2
    ensures var r := AfterEvent(m, event, parseDuration, creationTime);
            && (event.paths[0] in r ==> event.paths[0] == event.paths[1])
            && (ExpirationOf(event.paths[1], parseDuration, creationTime).Some? ==>
                  event.paths[1] in r && r[event.paths[1]] == ExpirationOf(event.paths[1], parseDuration, creationTime).value)
            && (ExpirationOf(event.paths[1], parseDuration, creationTime).None? ==>
                  (event.paths[1] in r <==> event.paths[1] in m && event.paths[1] != event.paths[0])
                  && (event.paths[1] in r ==> r[event.paths[1]] == m[event.paths[1]]))
            && (forall k :: k != event.paths[0] && k != event.paths[1] ==> (k in r <==> k in m))
            && (forall k :: k != event.paths[0] && k != event.paths[1] && k in r ==> r[k] == m[k])
  {
  }

  /** Every event kind the handler does not act on leaves the registry as it was. */
  lemma IgnoredEventUnchanged(m: Registry, event: Event, parseDuration: string -> Option<nat>, creationTime: Path -> Option<int>)
    requires !Handled(event.kind)
    ensures AfterEvent(m, event, parseDuration, creationTime) == m
  {
  }

  /** In particular, removing a directory does not touch the entries of the files below it. */
  lemma FolderRemovalIgnored(m: Registry, paths: seq<Path>, parseDuration: string -> Option<nat>, creationTime: Path -> Option<int>)
    ensures AfterEvent(m, Event(Remove(RemoveFolder), paths), parseDuration, creationTime) == m
  {
    IgnoredEventUnchanged(m, Event(Remove(RemoveFolder), paths), parseDuration, creationTime);
  }

  /** `root/report` renamed to `root/ttl=5m/report`: the old path is forgotten and the new
      one expires five minutes after its creation. */
  lemma RenameExample(m: Registry, parseDuration: string -> Option<nat>, creationTime: Path -> Option<int>, created: int)
    requires parseDuration("5m") == Some(300)
    requires creationTime([RootDir, Normal("root"), Normal("ttl=5m"), Normal("report")]) == Some(created)
    ensures var r := AfterEvent(m, Event(Modify(ModifyName(RenameBoth)),
                                         [[RootDir, Normal("root"), Normal("report")],
                                          [RootDir, Normal("root"), Normal("ttl=5m"), Normal("report")]]),
                                parseDuration, creationTime);
            && [RootDir, Normal("root"), Normal("report")] !in r
            && r[[RootDir, Normal("root"), Normal("ttl=5m"), Normal("report")]] == created + 300
  {
    var from := [RootDir, Normal("root"), Normal("report")];
    var to := [RootDir, Normal("root"), Normal("ttl=5m"), Normal("report")];
    assert !HasMarker("report") by { assert "report"[..|Marker|][0] != Marker[0]; }
    assert "ttl=" + "5m" == "ttl=5m";
    ParseTtlOfMarked("5m", parseDuration);
    assert to[..3] == [RootDir, Normal("root"), Normal("ttl=5m")];
    assert NearestTtl(to, parseDuration) == Some(300);
    assert from != to;
  }
}
