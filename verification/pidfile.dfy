/**
  The pidfile helpers of src/main.c (built with MIREDO_PIDFILEDIR):
  `safe_fopen_w`, `create_pidfile` and `remove_pidfile`.

  The file system is a map from path to the kind of entry found there.
  Calls are sequential: nothing else touches the path between the
  `unlink` and the exclusive `open`. The outcomes that depend on the
  machine (whether the pidfile directory allows changes, whether `fstat`,
  `fdopen`, `fprintf` and the flush in `fclose` succeed) come from a
  `PidfileOracle`.
*/
module Pidfile {
  import opened Common

  /** What a path names. */
  datatype Entry = Regular(data: string) | Directory | Symlink(target: string) | Fifo | Device

  type FileSystem = map<string, Entry>

  /** `dirWritable`: the directory holding the pidfile lets this process
      create and remove entries; the other fields say whether the named
      call succeeds. */
  datatype PidfileOracle = PidfileOracle(
    dirWritable: bool, fstatOk: bool, fdopenOk: bool, printOk: bool, flushOk: bool)

  /** `unlink(path)`: removes any entry but a directory. */
  function Unlink(fs: FileSystem, path: string, dirWritable: bool): (int, FileSystem) {
    if dirWritable && path in fs && !fs[path].Directory? then (0, fs - {path})
    else (-1, fs)
  }

  /** `open(path, O_WRONLY|O_CREAT|O_EXCL, 0644)`: creates a new, empty
      regular file, and fails with EEXIST when anything is at `path`. */
  function OpenExclusive(fs: FileSystem, path: string, dirWritable: bool): Option<FileSystem> {
    if !dirWritable || path in fs then None else Some(fs[path := Regular("")])
  }

  /** Whether a stream was obtained, and the file system afterwards. */
  datatype Opened = Opened(stream: bool, fs: FileSystem)

  /** `safe_fopen_w(path)`: unlink (result ignored), create exclusively,
      check with `fstat` that the descriptor is a regular file, then wrap
      it in a stream. A descriptor that fails a check is closed, which
      leaves the file it created in place. */
  function SafeFopenW(fs: FileSystem, path: string, o: PidfileOracle): Opened {
    var (_, fs1) := Unlink(fs, path, o.dirWritable);
    match OpenExclusive(fs1, path, o.dirWritable)
    case None => Opened(false, fs1)
    case Some(fs2) =>
      if !o.fstatOk then Opened(false, fs2)
      else if !fs2[path].Regular? then Opened(false, fs2)
      else if !o.fdopenOk then Opened(false, fs2)
      else Opened(true, fs2)
  }

  // ---------------------------------------------------------------------
  // Decimal text of the process id (`fprintf (stream, "%d", pid)`).
  // ---------------------------------------------------------------------

  predicate IsDigit(c: char) {
    '0' <= c <= '9'
  }

  predicate AllDigits(s: string) {
    forall i :: 0 <= i < |s| ==> IsDigit(s[i])
  }

  function DigitChar(d: nat): (c: char)
    requires d < 10
  {
    (48 + d) as char
  }

  function DigitValue(c: char): nat
    requires IsDigit(c)
  {
    c as int - 48
  }

  /** The `%d` conversion of a non-negative number: digits only, no sign,
      no padding and no newline. */
  function Decimal(n: nat): (s: string)
    ensures |s| > 0 && AllDigits(s)
    decreases n
  {
    if n < 10 then [DigitChar(n)] else Decimal(n / 10) + [DigitChar(n % 10)]
  }

  /** Reads a string of digits back as a number. */
  function ParseDecimal(s: string): nat
    requires AllDigits(s)
    decreases |s|
  {
    if |s| == 0 then 0
    else ParseDecimal(s[..|s| - 1]) * 10 + DigitValue(s[|s| - 1])
  }

  /** `Decimal` writes only digits, without leading zeros, and reading them
      back gives the number. */
  lemma {:induction false} DecimalRoundTrip(n: nat)
    ensures ParseDecimal(Decimal(n)) == n
    ensures |Decimal(n)| > 1 ==> Decimal(n)[0] != '0'
    decreases n
  {
    if n >= 10 {
      DecimalRoundTrip(n / 10);
      var s := Decimal(n / 10);
      var t := s + [DigitChar(n % 10)];
      assert t[..|t| - 1] == s;
      assert forall i :: 0 <= i < |s| ==> t[i] == s[i];
    }
  }

  // ---------------------------------------------------------------------
  // create_pidfile and remove_pidfile.
  // ---------------------------------------------------------------------

  /** The return value of a pidfile helper and the file system after it. */
  datatype FsResult = FsResult(ret: int, fs: FileSystem)

  /** What the stream holds once `fclose` has flushed it: the decimal pid
      when both the buffered `fprintf` and the flush succeeded, nothing
      otherwise. */
  function WrittenFile(fs: FileSystem, path: string, pid: nat, o: PidfileOracle): FileSystem {
    if o.printOk && o.flushOk then fs[path := Regular(Decimal(pid))] else fs
  }

  /**
    `create_pidfile` as written: it returns 0 when `fprintf` reports
    success and ignores the result of `fclose`. On a fully buffered stream
    `fprintf` only fills the buffer; the data reaches the file in the flush
    that `fclose` performs, so a failed flush goes unnoticed.
  */
  function CreatePidfileAsWritten(fs: FileSystem, path: string, pid: nat, o: PidfileOracle): (r: FsResult)
    ensures r.ret == 0 || r.ret == -1
    ensures r.ret == 0 <==>
              o.dirWritable && (path !in fs || !fs[path].Directory?)
              && o.fstatOk && o.fdopenOk && o.printOk
    ensures r.ret == 0 ==> path in r.fs && r.fs[path].Regular?
  {
    var handle := SafeFopenW(fs, path, o);
    if !handle.stream then FsResult(-1, handle.fs)
    else FsResult(if o.printOk then 0 else -1, WrittenFile(handle.fs, path, pid, o))
  }

  /** The flush failure `CreatePidfileAsWritten` misses: success is reported
      but the pidfile is left empty. */
  lemma AsWrittenReportsUnwrittenPidfile(pid: nat)
    ensures var o := PidfileOracle(true, true, true, true, false);
            var r := CreatePidfileAsWritten(map[], "/run/miredo.pid", pid, o);
            && r.ret == 0
            && r.fs["/run/miredo.pid"] == Regular("")
            && r.fs["/run/miredo.pid"] != Regular(Decimal(pid))
  {
    DecimalRoundTrip(pid);
  }

  /**
    `create_pidfile` with the flush checked: 0 only when the pid text
    reached the file. It succeeds exactly when the directory allows it,
    no directory sits at the path, and `fstat`, `fdopen`, `fprintf` and
    the flush all succeed; the path then holds a regular file containing
    the decimal pid and nothing else. Whatever was at the path before (a
    stale pidfile, a symlink, a fifo, a device) is unlinked, never written
    through, and no other path changes. The file system it leaves is the
    same as the code as written leaves; only the return value differs.
  */
  function CreatePidfile(fs: FileSystem, path: string, pid: nat, o: PidfileOracle): (r: FsResult)
    ensures r.ret == 0 || r.ret == -1
    ensures r.ret == 0 <==>
              o.dirWritable && (path !in fs || !fs[path].Directory?)
              && o.fstatOk && o.fdopenOk && o.printOk && o.flushOk
    ensures r.ret == 0 ==>
              path in r.fs && r.fs[path] == Regular(Decimal(pid))
              && ParseDecimal(r.fs[path].data) == pid
    ensures SameElsewhere(fs, r.fs, path)
    ensures r.fs == CreatePidfileAsWritten(fs, path, pid, o).fs
  {
    DecimalRoundTrip(pid);
    var handle := SafeFopenW(fs, path, o);
    if !handle.stream then FsResult(-1, handle.fs)
    else FsResult(if o.printOk && o.flushOk then 0 else -1, WrittenFile(handle.fs, path, pid, o))
  }

  /** `remove_pidfile`: a plain `unlink`. It succeeds exactly when the
      directory allows it and something other than a directory is at
      `path`; on success only that entry is gone, on failure nothing
      changes. */
  function RemovePidfile(fs: FileSystem, path: string, dirWritable: bool): (r: FsResult)
    ensures r.ret == 0 || r.ret == -1
    ensures r.ret == 0 <==> dirWritable && path in fs && !fs[path].Directory?
    ensures r.fs == if r.ret == 0 then fs - {path} else fs
    ensures r.ret == 0 ==> path !in r.fs
  {
    var (ret, fs') := Unlink(fs, path, dirWritable);
    FsResult(ret, fs')
  }

  /** Only `path` is ever affected by creating the pidfile. */
  ghost predicate SameElsewhere(fs: FileSystem, fs': FileSystem, path: string) {
    forall q :: q != path ==> (q in fs' <==> q in fs) && (q in fs ==> fs'[q] == fs[q])
  }

  /** With a directory at the path nothing can be created and the file
      system is unchanged. */
  lemma DirectoryBlocksPidfile(fs: FileSystem, path: string, pid: nat, o: PidfileOracle)
    requires path in fs && fs[path].Directory?
    ensures CreatePidfile(fs, path, pid, o) == FsResult(-1, fs)
  {
  }

  /** The `fstat` check never rejects in a sequential run: what the
      exclusive open created is always a regular file. */
  lemma CreatedEntryIsRegular(fs: FileSystem, path: string, o: PidfileOracle)
    ensures var handle := SafeFopenW(fs, path, o);
            handle.stream <==>
              o.dirWritable && (path !in fs || !fs[path].Directory?) && o.fstatOk && o.fdopenOk
    ensures var handle := SafeFopenW(fs, path, o);
            handle.stream ==> handle.fs[path] == Regular("")
  {
  }

  /** Because the old file is unlinked first, creating the pidfile again on
      the same path replaces it rather than failing. */
  lemma SecondCreateReplaces(fs: FileSystem, path: string, pid1: nat, pid2: nat, o: PidfileOracle)
    requires CreatePidfile(fs, path, pid1, o).ret == 0
    ensures var r := CreatePidfile(CreatePidfile(fs, path, pid1, o).fs, path, pid2, o);
            r.ret == 0 && r.fs[path] == Regular(Decimal(pid2))
  {
  }

  /** Removing a pidfile just created succeeds and leaves the rest of the
      file system as it was before the creation, apart from the stale entry
      that creation unlinked. */
  lemma RemoveAfterCreate(fs: FileSystem, path: string, pid: nat, o: PidfileOracle)
    requires CreatePidfile(fs, path, pid, o).ret == 0
    ensures var r := RemovePidfile(CreatePidfile(fs, path, pid, o).fs, path, o.dirWritable);
            r.ret == 0 && r.fs == fs - {path}
  {
    var fs1 := CreatePidfile(fs, path, pid, o).fs;
    var r := RemovePidfile(fs1, path, o.dirWritable);
    assert r.fs == fs1 - {path};
    assert forall q :: q in r.fs <==> q in fs - {path};
  }

  /** Removing a pidfile that is not there fails and changes nothing. */
  lemma RemoveMissing(fs: FileSystem, path: string, dirWritable: bool)
    requires path !in fs
    ensures RemovePidfile(fs, path, dirWritable) == FsResult(-1, fs)
  {
  }
}
