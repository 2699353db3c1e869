# ttl-file: a Dafny model of the expiration registry

`ttl-file` is a background process that deletes files once their time-to-live has passed.
A file's TTL is written into its path: the component nearest the filename that reads
`ttl=<duration>`, with a duration the `humantime` parser accepts, decides it. The process
keeps a registry from path to expiration instant (creation time plus TTL). An initial walk of
the watched roots fills the registry. Filesystem events then keep it up to date, and a
sweep once a second deletes expired files and forgets an entry once its file is deleted.

This project models that core, all of `src/main.rs` apart from process plumbing:

- `ttl.dfy` (module `Ttl`): `parse_ttl` as `ParseTtl`, and `find_ttl` two ways. `NearestTtl` is a
  recursive specification. `FindTtl` is a method with the source's reverse loop and early
  return, proved equal to it. The lemmas characterise the result: the nearest component
  that yields a TTL decides, a component with the prefix but no valid duration is skipped,
  and ancestors are never consulted once a TTL is found.
- `expirations.dfy` (module `Expirations`): the registry as a `map<Path, int>`, plus the value
  each operation produces. `AddedFile` is `add_file`, `AddedFiles` / `RemovedAll` apply a
  list of paths in order, and `Swept` is the `retain` sweep of `check_files`. It also holds
  closed forms of these (`Tracked`, set difference, `Evicted`) and lemmas connecting them.
- `notify.dfy` (module `Notify`): the events of the `notify` crate that matter here, and
  `AfterEvent`, the registry after `handle_notify_event`.
- `walk.dfy` (module `Walk`): the items of a directory walk, and `InitialExpirations`, the
  registry `initialize_files` builds.
- `state.dfy` (module `TtlFile`): class `State` with its `expirations` field. Its methods
  `AddFile`, `CheckFiles` and `HandleNotifyEvent` update the field in place and are proved
  against the functions above. `InitializeFiles` loops over the walk and fills a fresh `State`.

Every effect outside the process is passed in as a function parameter (an oracle):

- `parseDuration: string -> Option<nat>` stands for `humantime::parse_duration`.
- `creationTime: Path -> Option<int>` stands for `std::fs::metadata(path)` followed by
  `created()`. `None` means the metadata could not be read.
- `removeFile: Path -> bool` stands for `std::fs::remove_file`. `true` means the deletion
  succeeded.
- `canonicalize: Path -> Option<Path>` stands for `Path::canonicalize`.
- `walk: Path -> seq<WalkItem>` stands for `WalkDir::new(root)`.
- `now` is a parameter of `CheckFiles`. The source reads `SystemTime::now()` once per sweep.

Time is an unbounded integer. Durations are natural numbers in the same unit.

A path is a sequence of `Component`s (`Prefix`, `RootDir`, `CurDir`, `ParentDir`,
`Normal(name)`), root first.

What the code does not do, and the model therefore does not either:

- It has no directory-removal handling. A `Remove(Folder)` event is ignored like any
  other unhandled kind (`Notify.FolderRemovalIgnored`), so entries below a removed
  directory stay.
- It does not canonicalize event paths. Only the initial walk canonicalizes.
- A sweep keeps an entry while `now <= expiration` and returns nothing.

A rename whose new path yields no expiration does not remove an entry the new path
already had. `add_file` only ever inserts. `Notify.RenameEventEffect` states this case.

## Model

| member | source | states |
|---|---|---|
| `Ttl.ParseTtl` | src/main.rs:109-111 | a component yields a TTL only if its text begins with `ttl=` |
| `Ttl.ParseTtlOfMarked` | src/main.rs:109-111 | for text `ttl=` + rest, the result is exactly the duration parse of rest |
| `Ttl.ComponentTtl` | src/main.rs:114-116 | only a `Normal` component, one carrying the `ttl=` prefix, ever yields a TTL; root, `.`, `..` and prefixes never do |
| `Ttl.NearestTtl` | src/main.rs:113-122 | `find_ttl` as a recursion from the filename toward the root; a TTL it returns is that of some `Normal` component (characterised by `Ttl.NearestTtlAtNearestMarker`, `Ttl.NearestTtlHasNearestMarker`, `Ttl.NearestTtlNoneIffUnmarked`) |
| `Ttl.NearestTtlAtNearestMarker` | src/main.rs:113-122 | if component i yields a TTL and none nearer the filename does, the path's TTL is component i's |
| `Ttl.NearestTtlHasNearestMarker` | src/main.rs:113-122 | every TTL found comes from a component that yields it, with no component nearer the filename yielding one |
| `Ttl.NearestTtlNoneIffUnmarked` | src/main.rs:113-122 | no TTL is found exactly when no component of the path yields one |
| `Ttl.NearestTtlIgnoresAncestors` | src/main.rs:114-118 | once the components nearest the filename yield a TTL, any components before them toward the root are never consulted |
| `Ttl.NearestTtlSkipsUnmarked` | src/main.rs:114-121 | components nearer the filename that yield no TTL (prefix missing or duration invalid) do not change the result |
| `Ttl.NearestTtlExample` | src/main.rs:113-122 | in `/root/ttl=10s/ttl=soon/data.bin`, the unparseable `ttl=soon` is skipped and the TTL is 10 |
| `Ttl.FindTtl` | src/main.rs:113-122 | the reverse loop with early return computes the nearest-component TTL |
| `Expirations.ExpirationOf` | src/main.rs:20-29 | a file has an expiration exactly when its path yields a TTL and its creation time is readable, and the expiration is never before the creation time (the insert itself is characterised by `Expirations.AddedFile`) |
| `Expirations.AddedFile` | src/main.rs:19-38 | no TTL or no creation time leaves the registry unchanged; otherwise the path maps to creation time plus TTL, overwriting any earlier value; every other key is unchanged |
| `Expirations.AddedFileIdempotent` | src/main.rs:19-38 | adding the same file twice with the same oracle answers equals adding it once |
| `Expirations.AddedFiles` | src/main.rs:69-72 | `add_file` on each path in order never drops a key and leaves every unlisted key as it was (closed form in `Expirations.AddedFilesOverrides`) |
| `Expirations.AddedFilesOverrides` | src/main.rs:69-72 | adding a list of files in order overrides the registry with exactly the entries of those files that have an expiration |
| `Expirations.AddedFilesIdempotent` | src/main.rs:69-72 | repeating a list of additions with the same oracle answers changes nothing more |
| `Expirations.RemovedAll` | src/main.rs:79-82 | `remove` on each path in order leaves exactly the keys not listed, with their values (set-difference form in `Expirations.RemovedAllIsDifference`) |
| `Expirations.RemovedAllIsDifference` | src/main.rs:79-82 | removing a list of paths in order removes exactly those keys; absent paths are no-ops |
| `Expirations.Swept` | src/main.rs:40-60 | a sweep keeps every unexpired entry unchanged, removes an expired entry exactly when its deletion succeeds, keeps it unchanged when deletion fails, and never adds keys or alters values; every entry still expired afterwards is one whose deletion failed |
| `Expirations.SweptLaterSubsumes` | src/main.rs:40-60 | a sweep at a later instant, after one at an earlier instant with the same deletion outcomes, equals the later sweep alone |
| `Expirations.SweepExample` | src/main.rs:19-60 | a file at `/root/ttl=10s/data.bin` created at t0 expires at t0+10; a sweep at t0+11 deletes and forgets it; a sweep at t0+5 leaves it |
| `Notify.AfterEvent` | src/main.rs:62-100 | the registry after one event; no event changes a key it does not list (per-kind effects in `Notify.CreateEventEffect`, `Notify.RemoveEventEffect`, `Notify.RenameEventEffect`, `Notify.IgnoredEventUnchanged`) |
| `Notify.CreateEventEffect` | src/main.rs:64-73 | a file-create event overrides the registry with the entries of the listed paths that have an expiration; every other key, including a listed one without an expiration, keeps its value |
| `Notify.RemoveEventEffect` | src/main.rs:74-83 | a file-remove event leaves exactly the old keys not listed, with their values unchanged |
| `Notify.RenameEventEffect` | src/main.rs:84-97 | after rename-both, the old path is absent unless it equals the new one; the new path holds `add_file`'s result; every other key is unchanged |
| `Notify.IgnoredEventUnchanged` | src/main.rs:98 | every event kind other than file-create, file-remove and rename-both leaves the registry unchanged |
| `Notify.FolderRemovalIgnored` | src/main.rs:63-99 | a directory-removal event leaves the registry unchanged |
| `Notify.RenameExample` | src/main.rs:84-97 | renaming `/root/report` to `/root/ttl=5m/report` forgets the old path and gives the new one creation time plus 300 |
| `Walk.Walked` | src/main.rs:127 | the chained walks of the roots hold exactly the items of each root's walk |
| `Walk.InitialExpirations` | src/main.rs:125-148 | the registry built from a walk; every entry in it is a path's own expiration (fold characterised by `Walk.InitialIsAddedFiles`, keys by `Walk.InitialIsTracked`) |
| `Walk.InitialIsAddedFiles` | src/main.rs:125-148 | the initial registry equals the empty registry with `add_file` applied to the canonical paths of the walk's regular files, in walk order |
| `Walk.InitialIsTracked` | src/main.rs:125-148 | a key is in the initial registry exactly when it is the canonical path of a walked regular file that has an expiration, and then maps to that expiration |
| `TtlFile.State.constructor` | src/main.rs:13-16 | a new state has an empty registry |
| `TtlFile.State.AddFile` | src/main.rs:19-38 | the field becomes `AddedFile` of its old value |
| `TtlFile.State.CheckFiles` | src/main.rs:40-60 | the field becomes `Swept` of its old value at `now`, and deletion is attempted on exactly the expired paths |
| `TtlFile.State.HandleNotifyEvent` | src/main.rs:62-100 | the field becomes `AfterEvent` of its old value; a rename-both event must carry exactly two paths |
| `TtlFile.InitializeFiles` | src/main.rs:125-148 | returns a fresh state whose registry is `InitialExpirations` of the walks of all roots, chained in order |

## Left out

- `humantime::parse_duration` is the `parseDuration` parameter. Its grammar is not modelled.
- Filesystem calls are function parameters, so each call sees fixed answers. These are `metadata`/`created`, `remove_file`, `canonicalize` and the directory walk. Answers changing between calls is not modelled.
- The `created().unwrap()` panic at src/main.rs:28 is not modelled. `creationTime` gives the creation time whenever the metadata is readable.
- `InitializeFiles` requires that every walked regular file canonicalizes. This stands in for the `unwrap()` at src/main.rs:133.
- `HandleNotifyEvent` requires a rename-both event to carry exactly two paths. This stands in for `assert_eq!` at src/main.rs:89.
- `SystemTime` arithmetic is not modelled. That covers overflow panics when adding a duration and the epoch conversion in `timestamp`, which is used only for logging.
- The `DashMap` per-key concurrency and the notifier thread are not modelled. So `handle_notify_event` and `check_files` interleaving is not modelled. The model is one sequential map.
- `CheckFiles` visits keys in an arbitrary order, as `retain` does. Its effect does not depend on the order.
- Logging is left out: the `log::` calls and `timestamp`.
- Process plumbing is left out: `find_directories`, the current-directory fallback in `main`, `Box::leak`, watcher registration and the one-second `sleep` loop.
- `to_string_lossy` is not modelled: component names are already strings.
