/** The Node.js storage module of the database: flushing a file or a
    directory to disk, removing a file, the crash-safe rewrite of a datafile
    through a temp file, and the recovery that runs before a datafile is
    loaded.

    Every operation runs to completion before the next one starts; the
    callbacks of the source become return values, and the error handed to a
    callback becomes an `Option<Error>` (None is `callback(null)`). */
module Storage {
  import opened FsPrimitives

  /** What the storage operations hand to their callback on failure. */
  datatype Error =
    | Io(cause: IoError)  // a primitive's own error, passed on unchanged
    | FlushFailed(errorOnFsync: Option<IoError>, errorOnClose: Option<IoError>)  // "Failed to flush to storage"

  function IoResult(e: Option<IoError>): (r: Option<Error>)
    ensures r.None? <==> e.None?
    ensures e.Some? ==> r == Some(Io(e.value))
  {
    if e.Some? then Some(Io(e.value)) else None
  }

  /** The sibling file a datafile is rewritten through: the file name with
      '~' appended.  crashSafeWriteFile and ensureDatafileIntegrity both use
      this one name. */
  function TempName(filename: Path): (t: Path)
    ensures t != filename
    ensures |t| == |filename| + 1 && t[..|filename|] == filename && t[|filename|] == '~'
  {
    filename + "~"
  }

  /** The index of the last '/' among the first n characters of p, or -1. */
  function LastSlash(p: Path, n: nat): (i: int)
    requires n <= |p|
    ensures -1 <= i < n
    ensures 0 <= i ==> p[i] == '/'
    ensures forall j :: i < j < n ==> p[j] != '/'
  {
    if n == 0 then -1
    else if p[n - 1] == '/' then n - 1
    else LastSlash(p, n - 1)
  }

  /** `path.dirname` on '/'-separated paths: what precedes the last '/',
      "/" for an entry of the root and "." for a bare file name. */
  function DirName(p: Path): (d: Path)
    ensures d == "." || d == "/" || (|d| < |p| && p[..|d|] == d && p[|d|] == '/')
  {
    var i := LastSlash(p, |p|);
    if i < 0 then "." else if i == 0 then "/" else p[..i]
  }

  /** DirName cuts the path at its last '/': "." when there is none, "/"
      when the only one is the first character, and otherwise everything
      before the last one. */
  lemma DirNameCutsAtLastSlash(p: Path)
    ensures (forall j :: 0 <= j < |p| ==> p[j] != '/') ==> DirName(p) == "."
    ensures 0 < |p| && p[0] == '/' && (forall j :: 0 < j < |p| ==> p[j] != '/') ==> DirName(p) == "/"
    ensures forall i :: 0 < i < |p| && p[i] == '/' && (forall j :: i < j < |p| ==> p[j] != '/') ==> DirName(p) == p[..i]
  {
  }

  // ---------------------------------------------------------------------
  // flushToStorage

  /** The first argument of flushToStorage: either a plain file name or an
      options object { filename, isDir }. */
  datatype FlushOptions =
    | FileName(name: Path)
    | Options(filename: Path, isDir: bool)

  function FlushTarget(o: FlushOptions): Path
  {
    match o
    case FileName(name) => name
    case Options(filename, _) => filename
  }

  /** A plain name is flushed as a file ("r+"); an options object as a
      directory ("r") exactly when isDir is set. */
  function FlushFlags(o: FlushOptions): (f: OpenFlags)
    ensures o.FileName? ==> f == ReadWrite
    ensures o.Options? ==> (f == ReadOnly <==> o.isDir)
  {
    match o
    case FileName(_) => ReadWrite
    case Options(_, isDir) => if isDir then ReadOnly else ReadWrite
  }

  /** The platforms on which a directory cannot be fsync'ed. */
  predicate CannotFsyncDirs(platform: string)
  {
    platform == "win32" || platform == "win64"
  }

  /** A directory flush on such a platform reports success at once. */
  predicate SkipsFlush(o: FlushOptions, platform: string)
  {
    FlushFlags(o) == ReadOnly && CannotFsyncDirs(platform)
  }

  /** The system's answers to the open, fsync and close of one flush. */
  datatype FlushFaults = FlushFaults(open: Fault, fsync: Fault, close: Fault)

  /** After a successful open: success only if fsync and close both
      succeeded, otherwise one error carrying both sub-causes. */
  function CombineFlushErrors(errorOnFsync: Option<IoError>, errorOnClose: Option<IoError>): (r: Option<Error>)
    ensures r.None? <==> errorOnFsync.None? && errorOnClose.None?
    ensures r.Some? ==> r.value.FlushFailed?
    ensures r.Some? ==> r.value.errorOnFsync == errorOnFsync && r.value.errorOnClose == errorOnClose
  {
    if errorOnFsync.Some? || errorOnClose.Some? then Some(FlushFailed(errorOnFsync, errorOnClose))
    else None
  }

  /** What flushToStorage hands to its callback. */
  function FlushResult(files: map<Path, string>, platform: string, o: FlushOptions, f: FlushFaults): Option<Error>
  {
    if SkipsFlush(o, platform) then None
    else
      var openErr := OpenError(files, FlushTarget(o), FlushFlags(o), f.open);
      if openErr.Some? then Some(Io(openErr.value))
      else CombineFlushErrors(FaultError(FlushTarget(o), f.fsync), FaultError(FlushTarget(o), f.close))
  }

  /** The primitive calls one flush makes. */
  function FlushCalls(files: map<Path, string>, platform: string, o: FlushOptions, f: FlushFaults): seq<Call>
  {
    if SkipsFlush(o, platform) then []
    else if OpenError(files, FlushTarget(o), FlushFlags(o), f.open).Some? then [OpenCall(FlushTarget(o), FlushFlags(o))]
    else [OpenCall(FlushTarget(o), FlushFlags(o)), FsyncCall(FlushTarget(o)), CloseCall(FlushTarget(o))]
  }

  /** A directory flush on win32/win64 succeeds without a call; every other
      flush starts by opening its target, on every platform. */
  lemma FlushOpensUnlessSkipped(files: map<Path, string>, platform: string, o: FlushOptions, f: FlushFaults)
    ensures SkipsFlush(o, platform) <==> o.Options? && o.isDir && CannotFsyncDirs(platform)
    ensures SkipsFlush(o, platform) ==> FlushResult(files, platform, o, f).None? && FlushCalls(files, platform, o, f) == []
    ensures !SkipsFlush(o, platform) ==>
      |FlushCalls(files, platform, o, f)| > 0 && FlushCalls(files, platform, o, f)[0] == OpenCall(FlushTarget(o), FlushFlags(o))
  {
  }

  /** An open failure is reported as it is; after a successful open, fsync
      and close are both attempted, and the flush succeeds only if both do. */
  lemma FlushErrorCases(files: map<Path, string>, platform: string, o: FlushOptions, f: FlushFaults)
    requires !SkipsFlush(o, platform)
    ensures var openErr := OpenError(files, FlushTarget(o), FlushFlags(o), f.open);
      && (openErr.Some? ==>
            FlushResult(files, platform, o, f) == Some(Io(openErr.value)) &&
            FlushCalls(files, platform, o, f) == [OpenCall(FlushTarget(o), FlushFlags(o))])
      && (openErr.None? ==>
            FlushCalls(files, platform, o, f) ==
              [OpenCall(FlushTarget(o), FlushFlags(o)), FsyncCall(FlushTarget(o)), CloseCall(FlushTarget(o))] &&
            (FlushResult(files, platform, o, f).None? <==> f.fsync.None? && f.close.None?) &&
            (FlushResult(files, platform, o, f).Some? ==>
               FlushResult(files, platform, o, f) ==
                 Some(FlushFailed(FaultError(FlushTarget(o), f.fsync), FaultError(FlushTarget(o), f.close)))))
  {
  }

  /** flushToStorage(options, callback): open, fsync, close.  No descriptor
      is left open on any path, and the visible files do not change. */
  method FlushToStorage(fs: FileSystem, options: FlushOptions, faults: FlushFaults) returns (err: Option<Error>)
    requires fs.Valid()
    modifies fs`fds, fs`nextFd, fs`log
    ensures fs.Valid() && fs.fds == old(fs.fds)
    ensures err == FlushResult(fs.files, fs.platform, options, faults)
    ensures fs.log == old(fs.log) + FlushCalls(fs.files, fs.platform, options, faults)
  {
    var filename := FlushTarget(options);
    var flags := FlushFlags(options);
    if flags == ReadOnly && (fs.platform == "win32" || fs.platform == "win64") {
      return None;
    }
    var fd, openErr := fs.Open(filename, flags, faults.open);
    if openErr.Some? {
      return Some(Io(openErr.value));
    }
    var errorOnFsync := fs.Fsync(fd, faults.fsync);
    var errorOnClose := fs.Close(fd, faults.close);
    assert fs.fds == old(fs.fds);
    err := CombineFlushErrors(errorOnFsync, errorOnClose);
  }

  // ---------------------------------------------------------------------
  // ensureFileDoesntExist

  /** ensureFileDoesntExist(file, callback): unlink the file if it is there. */
  method EnsureFileDoesntExist(fs: FileSystem, file: Path, unlinkFault: Fault) returns (err: Option<Error>)
    modifies fs`files, fs`log
    ensures err.None? ==> file !in fs.files
    ensures fs.files == if err.None? then old(fs.files) - {file} else old(fs.files)
    ensures file !in old(fs.files) ==> err.None? && fs.log == old(fs.log) + [ExistsCall(file)]
    ensures file in old(fs.files) ==>
      fs.log == old(fs.log) + [ExistsCall(file), UnlinkCall(file)] &&
      err == IoResult(FaultError(file, unlinkFault))
  {
    var fileExists := fs.Exists(file);
    if !fileExists {
      return None;
    }
    var e := fs.Unlink(file, unlinkFault);
    err := IoResult(e);
  }

  // ---------------------------------------------------------------------
  // crashSafeWriteFile

  /** The system's answers to the primitive calls of one crash-safe write,
      step by step. */
  datatype WriteFaults = WriteFaults(
    dirBefore: FlushFaults,  // step 1: flush the directory
    target: FlushFaults,     // step 2: flush the existing target
    writeTemp: Fault,        // step 3: write the temp file
    temp: FlushFaults,       // step 4: flush the temp file
    rename: Fault,           // step 5: rename the temp file over the target
    dirAfter: FlushFaults)   // step 6: flush the directory again

  /** One call of crashSafeWriteFile: the files it starts from, the
      platform, its arguments and the system's answers. */
  datatype WriteRun = WriteRun(
    files: map<Path, string>, platform: string, filename: Path, data: string, faults: WriteFaults)

  const StepCount: nat := 6

  /** The visible files once the first k steps of the write have completed.
      Only step 3 (the temp file is written) and step 5 (the rename) change
      them; the target changes only at the rename. */
  function StateAfter(files: map<Path, string>, filename: Path, data: string, k: nat): (s: map<Path, string>)
    ensures k < 5 ==> (filename in s <==> filename in files)
    ensures k < 5 && filename in files ==> s[filename] == files[filename]
    ensures 3 <= k < 5 ==> TempName(filename) in s && s[TempName(filename)] == data
    ensures 5 <= k ==> filename in s && s[filename] == data && TempName(filename) !in s
  {
    if k < 3 then files
    else if k < 5 then files[TempName(filename) := data]
    else Moved(files[TempName(filename) := data], TempName(filename), filename)
  }

  /** What a write that completed `done` steps leaves in the target: its
      old content (or its absence) before the rename, exactly the data and
      no temp file after it. */
  predicate TargetAfter(before: map<Path, string>, after: map<Path, string>, filename: Path, data: string, done: nat)
  {
    && (done < 5 ==> (filename in after <==> filename in before))
    && (done < 5 && filename in before ==> filename in after && after[filename] == before[filename])
    && (done >= 5 ==> filename in after && after[filename] == data && TempName(filename) !in after)
  }

  /** StateAfter's postconditions, gathered as one TargetAfter fact. */
  lemma StateAfterKeepsTarget(files: map<Path, string>, filename: Path, data: string, k: nat)
    ensures TargetAfter(files, StateAfter(files, filename, data, k), filename, data, k)
  {
  }

  /** The error step k + 1 reports when it runs on StateAfter(k). */
  function StepError(w: WriteRun, k: nat): Option<Error>
    requires k < StepCount
  {
    var s := StateAfter(w.files, w.filename, w.data, k);
    var tmp := TempName(w.filename);
    if k == 0 then FlushResult(s, w.platform, Options(DirName(w.filename), true), w.faults.dirBefore)
    else if k == 1 then
      (if w.filename in s then FlushResult(s, w.platform, FileName(w.filename), w.faults.target) else None)
    else if k == 2 then IoResult(FaultError(tmp, w.faults.writeTemp))
    else if k == 3 then FlushResult(s, w.platform, FileName(tmp), w.faults.temp)
    else if k == 4 then IoResult(MissingOrFault(s, tmp, w.faults.rename))
    else FlushResult(s, w.platform, Options(DirName(w.filename), true), w.faults.dirAfter)
  }

  /** The primitive calls step k + 1 makes when it runs on StateAfter(k). */
  function StepCalls(w: WriteRun, k: nat): seq<Call>
    requires k < StepCount
  {
    var s := StateAfter(w.files, w.filename, w.data, k);
    var tmp := TempName(w.filename);
    if k == 0 then FlushCalls(s, w.platform, Options(DirName(w.filename), true), w.faults.dirBefore)
    else if k == 1 then
      [ExistsCall(w.filename)] +
      (if w.filename in s then FlushCalls(s, w.platform, FileName(w.filename), w.faults.target) else [])
    else if k == 2 then [WriteFileCall(tmp, w.data)]
    else if k == 3 then FlushCalls(s, w.platform, FileName(tmp), w.faults.temp)
    else if k == 4 then [RenameCall(tmp, w.filename)]
    else FlushCalls(s, w.platform, Options(DirName(w.filename), true), w.faults.dirAfter)
  }

  /** The calls of the first n steps, in order. */
  function CallsThrough(w: WriteRun, n: nat): seq<Call>
    requires n <= StepCount
  {
    if n == 0 then [] else CallsThrough(w, n - 1) + StepCalls(w, n - 1)
  }

  /** The state of fs once the first k steps of w have completed, none of
      them with an error; log0 and fds0 are the log and the open descriptors
      when the write began. */
  ghost predicate Reached(fs: FileSystem, w: WriteRun, log0: seq<Call>, fds0: map<Fd, Path>, k: nat)
    requires k <= StepCount
    reads fs
  {
    && fs.Valid() && fs.platform == w.platform && fs.fds == fds0
    && fs.files == StateAfter(w.files, w.filename, w.data, k)
    && fs.log == log0 + CallsThrough(w, k)
    && forall j :: 0 <= j < k ==> StepError(w, j).None?
  }

  /** Step k + 1 of w has run from Reached(k): it reported StepError(w, k),
      and either all of its effect is there or, on an error, the files are
      as the first k steps left them. */
  ghost predicate StepDone(fs: FileSystem, w: WriteRun, log0: seq<Call>, fds0: map<Fd, Path>, k: nat, err: Option<Error>)
    requires k < StepCount
    reads fs
  {
    && err == StepError(w, k)
    && if err.None? then Reached(fs, w, log0, fds0, k + 1)
       else
         && fs.Valid() && fs.platform == w.platform && fs.fds == fds0
         && fs.files == StateAfter(w.files, w.filename, w.data, k)
              && fs.log == log0 + CallsThrough(w, k + 1)
  }

  /** Steps 1 and 6: flush the directory that holds the datafile. */
  method FlushDirectoryStep(fs: FileSystem, filename: Path, faults: FlushFaults, ghost k: nat,
                            ghost w: WriteRun, ghost log0: seq<Call>, ghost fds0: map<Fd, Path>)
    returns (err: Option<Error>)
    requires w.filename == filename
    requires (k == 0 && faults == w.faults.dirBefore) || (k == 5 && faults == w.faults.dirAfter)
    requires Reached(fs, w, log0, fds0, k)
    modifies fs`fds, fs`nextFd, fs`log
    ensures StepDone(fs, w, log0, fds0, k, err)
  {
    err := FlushToStorage(fs, Options(DirName(filename), true), faults);
  }

  /** Step 2: flush the target, if it exists. */
  method FlushTargetStep(fs: FileSystem, filename: Path, faults: FlushFaults,
                         ghost w: WriteRun, ghost log0: seq<Call>, ghost fds0: map<Fd, Path>)
    returns (err: Option<Error>)
    requires w.filename == filename && faults == w.faults.target
    requires Reached(fs, w, log0, fds0, 1)
    modifies fs`fds, fs`nextFd, fs`log
    ensures StepDone(fs, w, log0, fds0, 1, err)
  {
    ghost var log1 := fs.log;
    assert fs.files == w.files;
    var targetExists := fs.Exists(filename);
    if targetExists {
      err := FlushToStorage(fs, FileName(filename), faults);
    } else {
      err := None;
    }
    assert fs.log == log1 + StepCalls(w, 1);
  }

  /** Step 3: write the data to the temp file. */
  method WriteTempStep(fs: FileSystem, filename: Path, data: string, fault: Fault,
                       ghost w: WriteRun, ghost log0: seq<Call>, ghost fds0: map<Fd, Path>)
    returns (err: Option<Error>)
    requires w.filename == filename && w.data == data && fault == w.faults.writeTemp
    requires Reached(fs, w, log0, fds0, 2)
    modifies fs`files, fs`log
    ensures StepDone(fs, w, log0, fds0, 2, err)
  {
    var e := fs.WriteFile(TempName(filename), data, fault);
    err := IoResult(e);
  }

  /** Step 4: flush the temp file. */
  method FlushTempStep(fs: FileSystem, filename: Path, faults: FlushFaults,
                       ghost w: WriteRun, ghost log0: seq<Call>, ghost fds0: map<Fd, Path>)
    returns (err: Option<Error>)
    requires w.filename == filename && faults == w.faults.temp
    requires Reached(fs, w, log0, fds0, 3)
    modifies fs`fds, fs`nextFd, fs`log
    ensures StepDone(fs, w, log0, fds0, 3, err)
  {
    err := FlushToStorage(fs, FileName(TempName(filename)), faults);
  }

  /** Step 5: rename the temp file over the target. */
  method RenameStep(fs: FileSystem, filename: Path, fault: Fault,
                    ghost w: WriteRun, ghost log0: seq<Call>, ghost fds0: map<Fd, Path>)
    returns (err: Option<Error>)
    requires w.filename == filename && fault == w.faults.rename
    requires Reached(fs, w, log0, fds0, 4)
    modifies fs`files, fs`log
    ensures StepDone(fs, w, log0, fds0, 4, err)
  {
    var e := fs.Rename(TempName(filename), filename, fault);
    err := IoResult(e);
  }

  /** crashSafeWriteFile(filename, data, callback): the six steps run in
      order and the first failing one ends the write with its error.  `done`
      is the number of steps that completed. */
  method CrashSafeWriteFile(fs: FileSystem, filename: Path, data: string, faults: WriteFaults)
    returns (err: Option<Error>, ghost done: nat)
    requires fs.Valid()
    modifies fs`files, fs`fds, fs`nextFd, fs`log
    ensures fs.Valid() && fs.fds == old(fs.fds)
    ensures done <= StepCount
    ensures forall k :: 0 <= k < done ==>
      StepError(WriteRun(old(fs.files), fs.platform, filename, data, faults), k).None?
    ensures done < StepCount ==>
      err.Some? && err == StepError(WriteRun(old(fs.files), fs.platform, filename, data, faults), done)
    ensures done == StepCount ==> err.None?
    ensures fs.files == StateAfter(old(fs.files), filename, data, done)
    ensures TargetAfter(old(fs.files), fs.files, filename, data, done)
    ensures fs.log == old(fs.log) +
      CallsThrough(WriteRun(old(fs.files), fs.platform, filename, data, faults),
                   if done < StepCount then done + 1 else StepCount)
  {
    ghost var w := WriteRun(fs.files, fs.platform, filename, data, faults);
    ghost var log0, fds0 := fs.log, fs.fds;
    assert Reached(fs, w, log0, fds0, 0);
    done := 0;

    label steps: {
      // 1. flush the directory
      err := FlushDirectoryStep(fs, filename, faults.dirBefore, 0, w, log0, fds0);
      if err.Some? { break steps; }
      done := 1;

      // 2. flush the target, if it exists
      err := FlushTargetStep(fs, filename, faults.target, w, log0, fds0);
      if err.Some? { break steps; }
      done := 2;

      // 3. write the temp file
      err := WriteTempStep(fs, filename, data, faults.writeTemp, w, log0, fds0);
      if err.Some? { break steps; }
      done := 3;

      // 4. flush the temp file
      err := FlushTempStep(fs, filename, faults.temp, w, log0, fds0);
      if err.Some? { break steps; }
      done := 4;

      // 5. rename the temp file over the target
      err := RenameStep(fs, filename, faults.rename, w, log0, fds0);
      if err.Some? { break steps; }
      done := 5;

      // 6. flush the directory again
      err := FlushDirectoryStep(fs, filename, faults.dirAfter, 5, w, log0, fds0);
      if err.Some? { break steps; }
      done := 6;
    }
    StateAfterKeepsTarget(old(fs.files), filename, data, done);
  }

  /** Call c can change what is stored at path p. */
  predicate Changes(c: Call, p: Path)
  {
    (c.WriteFileCall? && c.path == p) ||
    (c.AppendFileCall? && c.path == p) ||
    (c.UnlinkCall? && c.path == p) ||
    (c.RenameCall? && (c.from == p || c.to == p))
  }

  /** A flush changes no file: it only opens, fsyncs and closes. */
  lemma FlushChangesNothing(files: map<Path, string>, platform: string, o: FlushOptions, f: FlushFaults, p: Path)
    ensures forall c :: c in FlushCalls(files, platform, o, f) ==> !Changes(c, p)
  {
  }

  /** Within one step, the only call that can change the target is the
      rename of the temp file over it. */
  lemma StepChangesTargetOnlyByRename(w: WriteRun, k: nat)
    requires k < StepCount
    ensures forall c :: c in StepCalls(w, k) && Changes(c, w.filename) ==>
      c == RenameCall(TempName(w.filename), w.filename)
  {
    var s := StateAfter(w.files, w.filename, w.data, k);
    var dir := Options(DirName(w.filename), true);
    if k == 0 {
      FlushChangesNothing(s, w.platform, dir, w.faults.dirBefore, w.filename);
    } else if k == 1 {
      FlushChangesNothing(s, w.platform, FileName(w.filename), w.faults.target, w.filename);
    } else if k == 3 {
      FlushChangesNothing(s, w.platform, FileName(TempName(w.filename)), w.faults.temp, w.filename);
    } else if k == 5 {
      FlushChangesNothing(s, w.platform, dir, w.faults.dirAfter, w.filename);
    }
  }

  /** Of all the calls a crash-safe write makes, the only one that can change
      the target is the rename of the temp file over it: the target is never
      written to, truncated or removed. */
  lemma {:induction false} TargetOnlyReplacedByRename(w: WriteRun, n: nat)
    requires n <= StepCount
    ensures forall c :: c in CallsThrough(w, n) && Changes(c, w.filename) ==>
      c == RenameCall(TempName(w.filename), w.filename)
  {
    if n > 0 {
      TargetOnlyReplacedByRename(w, n - 1);
      StepChangesTargetOnlyByRename(w, n - 1);
    }
  }

  // ---------------------------------------------------------------------
  // ensureDatafileIntegrity

  /** The files after a successful ensureDatafileIntegrity: an existing
      datafile is kept; otherwise a temp file is promoted to the datafile;
      otherwise an empty datafile is created. */
  function Recover(files: map<Path, string>, filename: Path): (r: map<Path, string>)
    ensures filename in r
    ensures filename in files ==> r == files
    ensures filename !in files ==>
      r[filename] == (if TempName(filename) in files then files[TempName(filename)] else "") &&
      TempName(filename) !in r
    ensures forall p :: p != filename && p != TempName(filename) ==> (p in r <==> p in files)
    ensures forall p :: p != filename && p != TempName(filename) && p in files ==> r[p] == files[p]
  {
    if filename in files then files
    else if TempName(filename) in files then Moved(files, TempName(filename), filename)
    else files[filename := ""]
  }

  /** ensureDatafileIntegrity(filename, callback). */
  method EnsureDatafileIntegrity(fs: FileSystem, filename: Path, createFault: Fault, promoteFault: Fault)
    returns (err: Option<Error>)
    modifies fs`files, fs`log
    ensures err.None? ==> fs.files == Recover(old(fs.files), filename)
    ensures err.Some? ==> fs.files == old(fs.files)
    ensures filename in old(fs.files) ==> err.None? && fs.log == old(fs.log) + [ExistsCall(filename)]
    ensures filename !in old(fs.files) && TempName(filename) in old(fs.files) ==>
      fs.log == old(fs.log) + [ExistsCall(filename), ExistsCall(TempName(filename)), RenameCall(TempName(filename), filename)] &&
      err == IoResult(FaultError(TempName(filename), promoteFault))
    ensures filename !in old(fs.files) && TempName(filename) !in old(fs.files) ==>
      fs.log == old(fs.log) + [ExistsCall(filename), ExistsCall(TempName(filename)), WriteFileCall(filename, "")] &&
      err == IoResult(FaultError(filename, createFault))
  {
    var tempFilename := TempName(filename);
    var filenameExists := fs.Exists(filename);
    if filenameExists {
      return None;
    }
    var tempExists := fs.Exists(tempFilename);
    if !tempExists {
      var e := fs.WriteFile(filename, "", createFault);
      return IoResult(e);
    }
    var e := fs.Rename(tempFilename, filename, promoteFault);
    err := IoResult(e);
  }

  /** Once ensureDatafileIntegrity has succeeded the datafile exists, so
      running it again changes nothing. */
  lemma RecoverIdempotent(files: map<Path, string>, filename: Path)
    ensures Recover(Recover(files, filename), filename) == Recover(files, filename)
  {
  }
}
