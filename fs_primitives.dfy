/** The filesystem primitives the storage module aliases from Node's `fs`
    (exists, rename, writeFile, unlink, appendFile, readFile) together with
    the descriptor calls open, fsync and close that flushToStorage uses.

    The filesystem is a class whose visible files are a map from path to
    content, updated in place by the primitives.  Whatever the operating
    system answers on its own (a full disk, an I/O error, a missing
    directory) is an explicit `Fault` argument of each call; the answers
    that follow from the state itself (opening, renaming or unlinking a file
    that is not there) are decided by the map. */
module FsPrimitives {

  datatype Option<T> = None | Some(value: T)

  type Path = string
  type Fd = nat

  /** The two open modes used by the storage module: "r" and "r+". */
  datatype OpenFlags = ReadOnly | ReadWrite

  /** An error reported by one primitive. */
  datatype IoError =
    | NoSuchFile(path: Path)              // ENOENT
    | Failed(path: Path, reason: string)  // any failure the system reports on its own

  /** The system's own answer to one call: None is success, Some(reason) a failure. */
  type Fault = Option<string>

  /** One primitive call, as recorded in the call log. */
  datatype Call =
    | ExistsCall(path: Path)
    | OpenCall(path: Path, flags: OpenFlags)
    | FsyncCall(path: Path)
    | CloseCall(path: Path)
    | WriteFileCall(path: Path, data: string)
    | RenameCall(from: Path, to: Path)
    | UnlinkCall(path: Path)
    | AppendFileCall(path: Path, data: string)
    | ReadFileCall(path: Path)

  /** The error a call reports when only the system's own answer can fail it. */
  function FaultError(path: Path, fault: Fault): (e: Option<IoError>)
    ensures e.None? <==> fault.None?
    ensures e.Some? ==> e.value == Failed(path, fault.value)
  {
    if fault.Some? then Some(Failed(path, fault.value)) else None
  }

  /** open(path, flags): a file opened with "r+" must exist.  A directory
      (opened with "r") is not tracked by the model, so only the system's
      answer can fail that open. */
  function OpenError(files: map<Path, string>, path: Path, flags: OpenFlags, fault: Fault): (e: Option<IoError>)
    ensures flags == ReadWrite && path !in files ==> e == Some(NoSuchFile(path))
    ensures e.None? <==> fault.None? && (flags == ReadOnly || path in files)
  {
    match flags
    case ReadWrite => MissingOrFault(files, path, fault)
    case ReadOnly => FaultError(path, fault)
  }

  /** rename(from, to) and unlink(path) fail on a missing source. */
  function MissingOrFault(files: map<Path, string>, path: Path, fault: Fault): (e: Option<IoError>)
    ensures path !in files ==> e == Some(NoSuchFile(path))
    ensures e.None? <==> path in files && fault.None?
  {
    if path !in files then Some(NoSuchFile(path)) else FaultError(path, fault)
  }

  /** The files after `from` has been renamed to `to`: `to` now holds what
      `from` held, `from` is gone, everything else is as it was. */
  function Moved(files: map<Path, string>, from: Path, to: Path): (r: map<Path, string>)
    requires from in files
    ensures to in r && r[to] == files[from]
    ensures from != to ==> from !in r
    ensures forall p :: p != from && p != to ==> (p in r <==> p in files)
    ensures forall p :: p != from && p != to && p in files ==> r[p] == files[p]
  {
    (files - {from})[to := files[from]]
  }

  class FileSystem {
    /** The visible files and their contents. */
    var files: map<Path, string>
    /** The open descriptors and the path each one refers to. */
    var fds: map<Fd, Path>
    /** The next descriptor number open hands out. */
    var nextFd: Fd
    /** Every primitive call made so far, in order. */
    ghost var log: seq<Call>
    /** The value of `process.platform`. */
    const platform: string

    ghost predicate Valid()
      reads this
    {
      forall fd :: fd in fds ==> fd < nextFd
    }

    constructor (platform: string, files: map<Path, string>)
      ensures Valid()
      ensures this.platform == platform && this.files == files
      ensures fds == map[] && log == []
    {
      this.platform := platform;
      this.files := files;
      fds := map[];
      nextFd := 0;
      log := [];
    }

    method Exists(path: Path) returns (b: bool)
      modifies this`log
      ensures b <==> path in files
      ensures log == old(log) + [ExistsCall(path)]
    {
      b := path in files;
      log := log + [ExistsCall(path)];
    }

    method Open(path: Path, flags: OpenFlags, fault: Fault) returns (fd: Fd, err: Option<IoError>)
      requires Valid()
      modifies this`fds, this`nextFd, this`log
      ensures Valid()
      ensures log == old(log) + [OpenCall(path, flags)]
      ensures err == OpenError(files, path, flags, fault)
      ensures err.Some? ==> fds == old(fds)
      ensures err.None? ==> fd !in old(fds) && fds == old(fds)[fd := path]
    {
      log := log + [OpenCall(path, flags)];
      err := OpenError(files, path, flags, fault);
      fd := nextFd;
      if err.None? {
        fds := fds[fd := path];
        nextFd := nextFd + 1;
      }
    }

    method Fsync(fd: Fd, fault: Fault) returns (err: Option<IoError>)
      requires fd in fds
      modifies this`log
      ensures log == old(log) + [FsyncCall(fds[fd])]
      ensures err == FaultError(fds[fd], fault)
    {
      log := log + [FsyncCall(fds[fd])];
      err := FaultError(fds[fd], fault);
    }

    /** The descriptor is released whether or not close reports an error. */
    method Close(fd: Fd, fault: Fault) returns (err: Option<IoError>)
      requires fd in fds
      modifies this`fds, this`log
      ensures log == old(log) + [CloseCall(old(fds)[fd])]
      ensures fds == old(fds) - {fd}
      ensures err == FaultError(old(fds)[fd], fault)
    {
      log := log + [CloseCall(fds[fd])];
      err := FaultError(fds[fd], fault);
      fds := fds - {fd};
    }

    method WriteFile(path: Path, data: string, fault: Fault) returns (err: Option<IoError>)
      modifies this`files, this`log
      ensures log == old(log) + [WriteFileCall(path, data)]
      ensures err == FaultError(path, fault)
      ensures files == if err.None? then old(files)[path := data] else old(files)
    {
      log := log + [WriteFileCall(path, data)];
      err := FaultError(path, fault);
      if err.None? {
        files := files[path := data];
      }
    }

    method Rename(from: Path, to: Path, fault: Fault) returns (err: Option<IoError>)
      modifies this`files, this`log
      ensures log == old(log) + [RenameCall(from, to)]
      ensures err == MissingOrFault(old(files), from, fault)
      ensures files == if err.None? then Moved(old(files), from, to) else old(files)
    {
      log := log + [RenameCall(from, to)];
      err := MissingOrFault(files, from, fault);
      if err.None? {
        files := Moved(files, from, to);
      }
    }

    /** appendFile creates a missing file and adds data at its end. */
    method AppendFile(path: Path, data: string, fault: Fault) returns (err: Option<IoError>)
      modifies this`files, this`log
      ensures log == old(log) + [AppendFileCall(path, data)]
      ensures err == FaultError(path, fault)
      ensures err.None? ==> path in files && files[path] == (if path in old(files) then old(files)[path] else "") + data
      ensures files == if err.None? then old(files)[path := files[path]] else old(files)
    {
      log := log + [AppendFileCall(path, data)];
      err := FaultError(path, fault);
      if err.None? {
        files := files[path := (if path in files then files[path] else "") + data];
      }
    }

    method ReadFile(path: Path, fault: Fault) returns (content: string, err: Option<IoError>)
      modifies this`log
      ensures log == old(log) + [ReadFileCall(path)]
      ensures err == MissingOrFault(files, path, fault)
      ensures err.None? ==> content == files[path]
    {
      log := log + [ReadFileCall(path)];
      err := MissingOrFault(files, path, fault);
      content := if err.None? then files[path] else "";
    }

    method Unlink(path: Path, fault: Fault) returns (err: Option<IoError>)
      modifies this`files, this`log
      ensures log == old(log) + [UnlinkCall(path)]
      ensures err == MissingOrFault(old(files), path, fault)
      ensures files == if err.None? then old(files) - {path} else old(files)
    {
      log := log + [UnlinkCall(path)];
      err := MissingOrFault(files, path, fault);
      if err.None? {
        files := files - {path};
      }
    }
  }
}
