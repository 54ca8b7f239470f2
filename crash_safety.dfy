/** What a crash during crashSafeWriteFile leaves behind, and what
    ensureDatafileIntegrity makes of it at the next start.

    A crash stops the process after some number of completed steps, or while
    step 3 is writing the temp file, in which case only a prefix of the data
    has reached it.  The rename of step 5 is atomic.  The state a crash
    leaves is the visible one: buffering below the filesystem is not part of
    this model. */
module CrashSafety {
  import opened FsPrimitives
  import opened Storage

  /** Where a process running crashSafeWriteFile stopped. */
  datatype Crash =
    | AfterStep(k: nat)              // the first k steps completed (k >= 6: the write finished)
    | DuringTempWrite(written: nat)  // step 3 had written `written` characters of the temp file

  function Min(a: nat, b: nat): nat
  {
    if a < b then a else b
  }

  /** The files a crash leaves behind. */
  function Crashed(files: map<Path, string>, filename: Path, data: string, c: Crash): map<Path, string>
  {
    match c
    case AfterStep(k) => StateAfter(files, filename, data, k)
    case DuringTempWrite(n) => files[TempName(filename) := data[..Min(n, |data|)]]
  }

  /** A write changes no file but the target and its temp file. */
  lemma OnlyTargetAndTempChange(files: map<Path, string>, filename: Path, data: string, c: Crash, p: Path)
    requires p != filename && p != TempName(filename)
    ensures p in Crashed(files, filename, data, c) <==> p in files
    ensures p in files ==> Crashed(files, filename, data, c)[p] == files[p]
  {
    if c.AfterStep? && c.k >= 5 {
      var t := files[TempName(filename) := data];
      assert StateAfter(files, filename, data, c.k) == Moved(t, TempName(filename), filename);
    }
  }

  /** If the datafile existed, a crash at any point followed by
      ensureDatafileIntegrity leaves it holding either its old content
      (crash before the rename) or all of the new data (after it). */
  lemma RecoveredAfterCrash(files: map<Path, string>, filename: Path, data: string, c: Crash)
    requires filename in files
    ensures var r := Recover(Crashed(files, filename, data, c), filename);
      filename in r &&
      r[filename] == (if c.AfterStep? && c.k >= 5 then data else files[filename])
  {
    var s := Crashed(files, filename, data, c);
    assert filename in s;
    assert Recover(s, filename) == s;
  }

  /** The first write of a datafile (neither it nor its temp file exists)
      that stops between steps is recovered to the empty datafile before the
      temp file is written and to all of the data once it has been. */
  lemma FirstWriteRecovered(files: map<Path, string>, filename: Path, data: string, k: nat)
    requires filename !in files && TempName(filename) !in files
    ensures var r := Recover(StateAfter(files, filename, data, k), filename);
      filename in r && r[filename] == (if k < 3 then "" else data)
  {
    var s := StateAfter(files, filename, data, k);
    if k < 3 {
      assert TempName(filename) !in s;
    }
  }

  /** Without an existing datafile, a crash in the middle of writing the
      temp file is "recovered" by promoting the truncated temp file: the
      datafile then holds a strict prefix of the data.  The protocol
      therefore relies on ensureDatafileIntegrity having created the
      datafile before the first crash-safe write. */
  lemma TornTempPromotedWithoutTarget(files: map<Path, string>, filename: Path, data: string, n: nat)
    requires filename !in files && n < |data|
    ensures var r := Recover(Crashed(files, filename, data, DuringTempWrite(n)), filename);
      filename in r && r[filename] == data[..n] && r[filename] != data
  {
    var s := Crashed(files, filename, data, DuringTempWrite(n));
    assert TempName(filename) in s && s[TempName(filename)] == data[..n];
    assert |data[..n]| != |data|;
  }

  /** One crash-safe write of `data` that stopped at `stop`. */
  datatype Attempt = Attempt(data: string, stop: Crash)

  /** A run of writes to one datafile, each stopped somewhere and each
      followed by ensureDatafileIntegrity at the next start. */
  function AfterAttempts(files: map<Path, string>, filename: Path, attempts: seq<Attempt>): map<Path, string>
    decreases |attempts|
  {
    if attempts == [] then files
    else
      var next := Recover(Crashed(files, filename, attempts[0].data, attempts[0].stop), filename);
      AfterAttempts(next, filename, attempts[1..])
  }

  /** The attempt got past its rename, so its data is in the datafile. */
  predicate PastRename(a: Attempt)
  {
    a.stop.AfterStep? && a.stop.k >= 5
  }

  /** The version that should survive a run of attempts: the data of the
      last attempt that got past its rename, or the original content when
      none did. */
  function Survivor(original: string, attempts: seq<Attempt>): string
    decreases |attempts|
  {
    if attempts == [] then original
    else if PastRename(attempts[|attempts| - 1]) then attempts[|attempts| - 1].data
    else Survivor(original, attempts[..|attempts| - 1])
  }

  /** Survivor read from the front: the first attempt either replaces the
      original or leaves it. */
  lemma {:induction false} SurvivorFirst(original: string, a: Attempt, rest: seq<Attempt>)
    ensures Survivor(original, [a] + rest) == Survivor(if PastRename(a) then a.data else original, rest)
    decreases |rest|
  {
    var s := [a] + rest;
    if rest == [] {
      assert s[..|s| - 1] == [];
    } else {
      assert s[|s| - 1] == rest[|rest| - 1];
      assert s[..|s| - 1] == [a] + rest[..|rest| - 1];
      SurvivorFirst(original, a, rest[..|rest| - 1]);
    }
  }

  /** Starting from an existing datafile, whatever sequence of writes and
      crashes happens, the datafile always exists and holds exactly the
      Survivor: the data of the last write that got past its rename, or its
      original content if none did.  So it always holds either its original
      content or the complete data of one of the writes. */
  lemma {:induction false} EveryVersionIsWhole(files: map<Path, string>, filename: Path, attempts: seq<Attempt>)
    requires filename in files
    ensures var r := AfterAttempts(files, filename, attempts);
      filename in r && r[filename] == Survivor(files[filename], attempts)
    ensures var r := AfterAttempts(files, filename, attempts);
      filename in r &&
      (r[filename] == files[filename] || exists i :: 0 <= i < |attempts| && r[filename] == attempts[i].data)
    ensures var r := AfterAttempts(files, filename, attempts);
      attempts != [] && PastRename(attempts[|attempts| - 1]) ==>
        filename in r && r[filename] == attempts[|attempts| - 1].data
    decreases |attempts|
  {
    if attempts != [] {
      var a := attempts[0];
      var next := Recover(Crashed(files, filename, a.data, a.stop), filename);
      RecoveredAfterCrash(files, filename, a.data, a.stop);
      EveryVersionIsWhole(next, filename, attempts[1..]);
      var r := AfterAttempts(files, filename, attempts);
      assert r == AfterAttempts(next, filename, attempts[1..]);
      assert attempts == [a] + attempts[1..];
      SurvivorFirst(files[filename], a, attempts[1..]);
      if r[filename] != next[filename] {
        var i :| 0 <= i < |attempts[1..]| && r[filename] == attempts[1..][i].data;
        assert r[filename] == attempts[i + 1].data;
      } else if next[filename] != files[filename] {
        assert r[filename] == attempts[0].data;
      }
    }
  }

  /** The same from any starting files, once ensureDatafileIntegrity has run
      at load: the datafile holds the Survivor of what recovery found, so it
      holds either that or the complete data of one of the writes, and the
      last write wins once it got past its rename. */
  lemma LoadedThenWritten(files: map<Path, string>, filename: Path, attempts: seq<Attempt>)
    ensures var start := Recover(files, filename);
      var r := AfterAttempts(start, filename, attempts);
      filename in r && r[filename] == Survivor(start[filename], attempts)
    ensures var start := Recover(files, filename);
      var r := AfterAttempts(start, filename, attempts);
      filename in r &&
      (r[filename] == start[filename] || exists i :: 0 <= i < |attempts| && r[filename] == attempts[i].data)
    ensures var start := Recover(files, filename);
      var r := AfterAttempts(start, filename, attempts);
      attempts != [] && PastRename(attempts[|attempts| - 1]) ==>
        filename in r && r[filename] == attempts[|attempts| - 1].data
  {
    EveryVersionIsWhole(Recover(files, filename), filename, attempts);
  }
}
