# Crash-safe datafile storage of an embedded document database

This project models the Node.js storage module of an embedded, single-process
document database (`lib/storage.js`). The module wraps the filesystem
primitives the database uses. On top of them it builds three operations:

- `flushToStorage` opens a file or a directory, fsyncs it and closes it.
- `crashSafeWriteFile` rewrites a datafile whole, in six steps, through the
  sibling temp file `filename~`. It is meant to leave the old or the new content
  whatever point a crash interrupts it at.
- `ensureDatafileIntegrity` runs before a datafile is loaded. It is a
  three-state recovery machine: keep the datafile, promote the temp file, or
  create an empty datafile.

The filesystem is the class `FsPrimitives.FileSystem`. It holds:

- the visible files, as a `map<string, string>`;
- the open descriptors;
- a ghost log of every primitive call;
- the value of `process.platform`.

Each primitive (`exists`, `writeFile`, `appendFile`, `readFile`, `rename`,
`unlink`, `open`, `fsync`, `close`) is a method that updates the class in
place. Failures the operating system reports on its own are an explicit
`Fault` argument (`None` for success, `Some(reason)` for a failure). Failures
that follow from the state are decided by the map: opening (`"r+"`),
reading, renaming or unlinking a missing file reports `NoSuchFile`.

The storage operations are methods over a `FileSystem`. Their callbacks become
return values: `None` stands for `callback(null)`, `Some(e)` for
`callback(e)`.

- `crashSafeWriteFile` runs its six steps in order inside one labelled block
  and leaves the block after the first step that fails. These steps are the
  six tasks the source hands to `async.waterfall`.
- Each step is a small method. Its contract ties the state it leaves to
  `StateAfter(files, filename, data, k)`, the files once `k` steps have
  completed.
- The step's error is `StepError(w, k)` and its calls are `StepCalls(w, k)`.

Module `CrashSafety` is about crashes. A crash stops the process after some
number of steps, or in the middle of writing the temp file. The module proves
what `ensureDatafileIntegrity` makes of the state left behind, including
after any sequence of crashing writes.

Files: `fs_primitives.dfy` (module `FsPrimitives`), `storage.dfy` (module
`Storage`), `crash_safety.dfy` (module `CrashSafety`).

## Model

| member | source | states |
|---|---|---|
| `FsPrimitives.FileSystem.Exists` | lib/storage.js:18 | answers whether the path is a file, changes no file, and logs the call |
| `FsPrimitives.FileSystem.Rename` | lib/storage.js:19 | a missing source fails with NoSuchFile; otherwise the target takes the source's content and the source is gone, or the system's failure leaves every file unchanged |
| `FsPrimitives.Moved` | lib/storage.js:19 | after a rename the target holds the source's content, the source is gone (unless it is the target), and every other path is untouched |
| `FsPrimitives.FileSystem.WriteFile` | lib/storage.js:20 | on success the path holds exactly the data; on failure no file changes |
| `FsPrimitives.FileSystem.Unlink` | lib/storage.js:21 | a missing file fails with NoSuchFile; on success exactly that path is removed; on failure nothing changes |
| `FsPrimitives.FileSystem.AppendFile` | lib/storage.js:22 | on success the file holds its old content (empty if it was missing) followed by the data; on failure nothing changes |
| `FsPrimitives.FileSystem.ReadFile` | lib/storage.js:23 | a missing file fails with NoSuchFile; on success the content returned is the file's content |
| `FsPrimitives.FileSystem.Open` | lib/storage.js:64 | "r+" on a missing file fails with NoSuchFile; a successful open adds one fresh descriptor for the path; a failed one adds none |
| `FsPrimitives.OpenError` | lib/storage.js:64-67 | open fails exactly when the system reports a failure, or when the file is missing under "r+" |
| `FsPrimitives.FileSystem.Fsync` | lib/storage.js:68 | reports the system's answer for the descriptor's file and changes no state but the log |
| `FsPrimitives.FileSystem.Close` | lib/storage.js:69 | releases the descriptor whether or not close reports an error |
| `FsPrimitives.MissingOrFault` | lib/storage.js:19-21 | rename and unlink succeed exactly when the source exists and the system reports no failure |
| `FsPrimitives.FaultError` | lib/storage.js:20 | a call that only the system can fail fails exactly when the system says so, with the system's reason |
| `Storage.TempName` | lib/storage.js:90 | the temp file is a distinct sibling name: the datafile name followed by '~' (the same function serves line 128) |
| `Storage.DirNameCutsAtLastSlash` | lib/storage.js:95 | the directory flushed, `DirName` of the path, is "." for a name without '/', "/" when the only '/' is the first character, and otherwise exactly the part of the path before its last '/' |
| `Storage.FlushFlags` | lib/storage.js:47-53 | a plain name is opened "r+"; an options object is opened "r" exactly when isDir is set |
| `Storage.CombineFlushErrors` | lib/storage.js:70-76 | success exactly when fsync and close both succeeded; otherwise one FlushFailed error carrying both sub-errors as they were |
| `Storage.FlushOpensUnlessSkipped` | lib/storage.js:57-64 | a directory flush on win32/win64 succeeds with no call at all; every other flush, file flushes on every platform included, starts with the open |
| `Storage.FlushErrorCases` | lib/storage.js:64-79 | an open failure is returned as it is and nothing else is called; after a successful open, fsync and then close are always called, and the flush succeeds exactly when both succeed |
| `Storage.FlushToStorage` | lib/storage.js:44-80 | returns FlushResult and makes exactly the calls FlushCalls; no descriptor stays open and no file changes |
| `Storage.EnsureFileDoesntExist` | lib/storage.js:29-36 | a missing file means success with no unlink attempted; otherwise unlink is attempted, and on success the file is absent and nothing else changed |
| `Storage.StateAfter` | lib/storage.js:92-119 | the target keeps its content until the rename (step 5); from step 3 the temp file holds the data; after the rename the target holds exactly the data and the temp file is gone |
| `Storage.FlushDirectoryStep` | lib/storage.js:94-97 | steps 1 and 6: the directory flush's error is the step's error; on success the write advances to the next step with the files unchanged |
| `Storage.FlushTargetStep` | lib/storage.js:98-105 | step 2: exists is asked; an existing target is flushed and a missing one is skipped without error |
| `Storage.WriteTempStep` | lib/storage.js:106-108 | step 3: only the temp file is written, with the whole data |
| `Storage.FlushTempStep` | lib/storage.js:109 | step 4: the temp file is flushed and no file changes |
| `Storage.RenameStep` | lib/storage.js:110-112 | step 5: the temp file is renamed over the target |
| `Storage.CrashSafeWriteFile` | lib/storage.js:88-120 | the six steps run in order; the first step that fails ends the write with that step's error, and no later step makes a call; the files are those the completed steps leave (StateAfter), and no descriptor stays open; a write that stops before the rename leaves the target as it was (present or absent, same content), and one that got past the rename leaves exactly the data in the target and no temp file |
| `Storage.FlushChangesNothing` | lib/storage.js:64-79 | a flush only opens, fsyncs and closes: none of its calls can change a file |
| `Storage.StepChangesTargetOnlyByRename` | lib/storage.js:92-117 | within each step, the only call that can change the target is the rename of the temp file over it |
| `Storage.TargetOnlyReplacedByRename` | lib/storage.js:92-119 | over all the calls of a crash-safe write, the target is never written, appended, truncated or unlinked; it is only replaced by the rename |
| `Storage.Recover` | lib/storage.js:130-146 | the datafile always exists afterwards; an existing one is left as it was; otherwise it takes the temp file's content and the temp file is gone, or it is created empty; no other path changes |
| `Storage.EnsureDatafileIntegrity` | lib/storage.js:127-147 | target present: nothing changes, success; only the temp file present: rename it over the target; neither: write an empty target; on success the files are Recover's, on failure unchanged |
| `Storage.RecoverIdempotent` | lib/storage.js:130-134 | after one successful recovery a second one changes nothing |
| `CrashSafety.OnlyTargetAndTempChange` | lib/storage.js:106-112 | a write, however far it got, changes no file but the target and its temp file |
| `CrashSafety.RecoveredAfterCrash` | lib/storage.js:130-146 | with an existing datafile, a crash anywhere in the write followed by recovery leaves the old content (before the rename) or all of the new data (after it) |
| `CrashSafety.FirstWriteRecovered` | lib/storage.js:136-142 | for a first write that stops between steps, recovery gives an empty datafile before step 3 and all of the data after it |
| `CrashSafety.TornTempPromotedWithoutTarget` | lib/storage.js:136-144 | with no datafile, a crash in the middle of writing the temp file is recovered by promoting a strict prefix of the data |
| `CrashSafety.EveryVersionIsWhole` | lib/storage.js:88-146 | starting from an existing datafile, after any sequence of writes, each crashing anywhere and followed by recovery, the datafile holds exactly the Survivor: the data of the last write that got past its rename, or its original content if none did; so it always holds one whole version, and a completed write is never lost to a later write that crashes before its rename |
| `CrashSafety.LoadedThenWritten` | lib/storage.js:122-146 | the same three facts (the Survivor, one whole version, the last write past its rename wins) from any starting files, once recovery has run at load |

## Left out

- The optional callback of `crashSafeWriteFile` (line 89) is not modelled. Every operation returns its error instead.
- Asynchronous interleaving is not modelled. Each operation runs to completion before the next one starts.
- Durability is not modelled. The state a crash leaves is the visible map. An fsync is recorded as a call and changes nothing: the model keeps no durable/volatile split and no operating-system buffering. So the flushes matter to the proofs only as calls that change no file.
- Directories are not tracked. `mkdirp` (line 24) is not part of this model. Opening a directory with "r" fails only when the system says so, which also stands for a missing directory. Renaming directories is not modelled either.
- `Storage.DirName` simplifies `path.dirname`. It treats '/' as the only separator and does not strip trailing separators. A path that starts with "//" and has no other '/' (such as "//a") gives "/", where POSIX `path.dirname` gives "//".
- A failing `writeFile` or `appendFile` changes nothing in this model. A torn temp file appears only through a crash in `CrashSafety`.
- `fsync` and `close` need a descriptor that is open. The source only passes the descriptor returned by a successful open, so the bad-descriptor error cannot occur.
- `process.platform` is the `platform` field of `FileSystem`. It is compared with "win32" and "win64", as at lib/storage.js:59. The set of platform names Node can report is not modelled.
- The doc comment of `crashSafeWriteFile` (lib/storage.js:83) promises that a crash during the write loses no data. The model proves this only when the datafile already exists (`CrashSafety.RecoveredAfterCrash`, `CrashSafety.EveryVersionIsWhole`). Without a datafile, a crash in the middle of writing the temp file leaves a truncated temp file, and recovery promotes it (`CrashSafety.TornTempPromotedWithoutTarget`). `CrashSafety.LoadedThenWritten` assumes this order: `ensureDatafileIntegrity` runs once before the first write. The loader that would fix that order is not part of this model.
- A torn temp file is modelled as a prefix of the data counted in characters. A real write stops at a byte offset and can split a multi-byte UTF-8 character. No proof depends on where the cut falls.
- `browser-version/test/async.js` is not part of this model. It is a third-party control-flow library. Its waterfall contract (run the tasks in order, stop at the first error) is the straight-line code of `CrashSafeWriteFile`.
- `test_lac/openFds.test.js` is not part of this model. It only probes descriptor limits. The matching property, that no flush leaves a descriptor open, is in `Storage.FlushToStorage`'s contract.
