/** Properties of the Windows shim's positional I/O, dispatch and `ftruncate`,
 *  proved about `UnistdSpec` (and so, through the methods' postconditions,
 *  about the step-by-step program in `Unistd`).
 */
module UnistdProps {
  import opened Native
  import opened UnistdSpec

  function CallbackCall(op: Op, fd: int, at: int): Call {
    match op
    case ReadOp(count) => ReadCall(fd, count, at)
    case WriteOp(data) => WriteCall(fd, data, at)
  }

  // ---------------------------------------------------------------------------
  // wrapPositional: what each failing step leaves behind

  /** A failed first seek ends the call: -1, nothing but that seek was done. */
  lemma SaveSeekFailureStops(s: State, is64Bit: bool, op: Op, fd: int, offset: int)
    requires Seek(s, is64Bit, fd, offset, SeekCur).ret == -1
    ensures var o := WrapPositional(s, is64Bit, op, fd, offset);
      && o.ret == -1 && o.data == []
      && o.os.trace == s.trace + [SeekCall(fd, offset, SeekCur, WidthOf(is64Bit))]
      && o.os.fds == s.fds
      && o.os.errno == Seek(s, is64Bit, fd, offset, SeekCur).os.errno
  {
  }

  /** A failed absolute seek ends the call before the callback runs. Nothing
   *  restores the position: the first seek of line 60 has already moved the
   *  descriptor by `offset`, and it stays there. */
  lemma TargetSeekFailureSkipsCallback(s: State, is64Bit: bool, op: Op, fd: int, offset: int)
    requires var saved := Seek(s, is64Bit, fd, offset, SeekCur);
      saved.ret != -1 && Seek(saved.os, is64Bit, fd, offset, SeekSet).ret == -1
    ensures var o := WrapPositional(s, is64Bit, op, fd, offset);
      && o.ret == -1 && o.data == []
      && o.os.trace == s.trace + [SeekCall(fd, offset, SeekCur, WidthOf(is64Bit)),
                                  SeekCall(fd, offset, SeekSet, WidthOf(is64Bit))]
      && o.os.errno == Seek(Seek(s, is64Bit, fd, offset, SeekCur).os, is64Bit, fd, offset, SeekSet).os.errno
      && fd in s.fds
      && o.os.fds == s.fds[fd := s.fds[fd].(pos := s.fds[fd].pos + offset)]
  {
    var saved := Seek(s, is64Bit, fd, offset, SeekCur);
    var moved := Seek(saved.os, is64Bit, fd, offset, SeekSet);
    assert moved.os.fds == saved.os.fds;
    assert WrapPositional(s, is64Bit, op, fd, offset).os == moved.os;
  }

  /** A negative offset: the relative seek by `offset` of line 60 succeeds
   *  whenever start + offset is not negative, and then the absolute seek to
   *  `offset` fails with `EINVAL`. The call reports -1 and leaves the
   *  descriptor `-offset` bytes before where it started. */
  lemma NegativeOffsetPreadMovesThenFails(s: State, fd: int, count: nat, offset: int)
    requires OffsetFits(Off32, offset) && offset < 0
    requires fd in s.fds && s.replies == [] && 0 <= s.fds[fd].pos + offset && s.fds[fd].pos <= MaxOffset(Off32)
    ensures var o := Pread(s, fd, count, offset);
      && o.ret == -1 && o.os.errno == EINVAL && o.data == []
      && o.os.fds == s.fds[fd := s.fds[fd].(pos := s.fds[fd].pos + offset)]
      && o.os.fds[fd].pos < s.fds[fd].pos
  {
    var saved := Seek(s, false, fd, offset, SeekCur);
    assert saved.ret == s.fds[fd].pos + offset;
    TargetSeekFailureSkipsCallback(s, false, ReadOp(count % UINT_LIMIT), fd, offset);
  }

  /** Whenever the callback runs, it runs exactly once, with the descriptor at `offset`. */
  lemma CallbackRunsAtOffset(s: State, is64Bit: bool, op: Op, fd: int, offset: int)
    requires var saved := Seek(s, is64Bit, fd, offset, SeekCur);
      saved.ret != -1 && Seek(saved.os, is64Bit, fd, offset, SeekSet).ret != -1
    ensures var o := WrapPositional(s, is64Bit, op, fd, offset);
      && 0 <= offset
      && o.os.trace == s.trace + [SeekCall(fd, offset, SeekCur, WidthOf(is64Bit)),
                                  SeekCall(fd, offset, SeekSet, WidthOf(is64Bit)),
                                  CallbackCall(op, fd, offset),
                                  SeekCall(fd, s.fds[fd].pos + offset, SeekSet, WidthOf(is64Bit))]
  {
  }

  /** When the restoring seek succeeds the caller sees the callback's result,
   *  buffer and errno (whatever the seek did to errno is undone), and the
   *  descriptor is back at the value the first seek returned. */
  lemma RestoreSuccessReportsCallback(s: State, is64Bit: bool, op: Op, fd: int, offset: int)
    requires var saved := Seek(s, is64Bit, fd, offset, SeekCur);
      var moved := Seek(saved.os, is64Bit, fd, offset, SeekSet);
      var done := Callback(moved.os, op, fd);
      saved.ret != -1 && moved.ret != -1 && Seek(done.os, is64Bit, fd, saved.ret, SeekSet).ret != -1
    ensures var saved := Seek(s, is64Bit, fd, offset, SeekCur);
      var done := Callback(Seek(saved.os, is64Bit, fd, offset, SeekSet).os, op, fd);
      var o := WrapPositional(s, is64Bit, op, fd, offset);
      && o.ret == done.ret && o.data == done.data
      && o.os.errno == done.os.errno
      && fd in done.os.fds
      && o.os.fds == done.os.fds[fd := done.os.fds[fd].(pos := saved.ret)]
  {
  }

  /** When the restoring seek fails the call reports -1 even if the callback
   *  succeeded; errno is the callback's if the callback failed, else the seek's. */
  lemma RestoreFailureReportsFailure(s: State, is64Bit: bool, op: Op, fd: int, offset: int)
    requires var saved := Seek(s, is64Bit, fd, offset, SeekCur);
      var moved := Seek(saved.os, is64Bit, fd, offset, SeekSet);
      var done := Callback(moved.os, op, fd);
      saved.ret != -1 && moved.ret != -1 && Seek(done.os, is64Bit, fd, saved.ret, SeekSet).ret == -1
    ensures var saved := Seek(s, is64Bit, fd, offset, SeekCur);
      var done := Callback(Seek(saved.os, is64Bit, fd, offset, SeekSet).os, op, fd);
      var back := Seek(done.os, is64Bit, fd, saved.ret, SeekSet);
      var o := WrapPositional(s, is64Bit, op, fd, offset);
      && o.ret == -1 && o.data == done.data
      && o.os.errno == (if done.ret == -1 then done.os.errno else back.os.errno)
      && o.os.fds == done.os.fds
  {
  }

  /** The position after a completed call is start + offset, not start: the
   *  first seek of line 60 moves by `offset`. The two agree exactly when
   *  `offset == 0`. */
  lemma PositionDriftsByOffset(s: State, is64Bit: bool, op: Op, fd: int, offset: int)
    requires var saved := Seek(s, is64Bit, fd, offset, SeekCur);
      var moved := Seek(saved.os, is64Bit, fd, offset, SeekSet);
      var done := Callback(moved.os, op, fd);
      saved.ret != -1 && moved.ret != -1 && Seek(done.os, is64Bit, fd, saved.ret, SeekSet).ret != -1
    ensures var o := WrapPositional(s, is64Bit, op, fd, offset);
      && fd in s.fds && fd in o.os.fds
      && o.os.fds[fd].pos == s.fds[fd].pos + offset
      && (o.os.fds[fd].pos == s.fds[fd].pos <==> offset == 0)
  {
  }

  /** A zero-byte `pread` is not short-circuited: once the first two seeks
   *  succeed, a zero-byte `_read` and the restoring seek follow, and a fully
   *  successful call returns 0: with no failure injected and a valid handle,
   *  the result is 0. */
  lemma ZeroCountRunsFullSequence(s: State, fd: int, offset: int)
    requires OffsetFits(Off32, offset)
    requires var saved := Seek(s, false, fd, offset, SeekCur);
      saved.ret != -1 && Seek(saved.os, false, fd, offset, SeekSet).ret != -1
    ensures var o := Pread(s, fd, 0, offset);
      && |o.os.trace| == |s.trace| + 4
      && o.os.trace[|s.trace| + 2] == ReadCall(fd, 0, offset)
      && o.data == []
      && (o.ret == 0 || o.ret == -1)
      && (s.replies == [] && HandleValid(s, fd) ==> o.ret == 0)
  {
  }

  /** The 32-bit "save" seek can overflow: a `pread` at a valid offset fails
   *  with EINVAL, reading nothing, once start + offset exceeds `LONG_MAX`. */
  lemma NarrowSaveSeekOverflows(s: State, fd: int, count: nat, offset: int)
    requires OffsetFits(Off32, offset)
    requires fd in s.fds && !NextReply(s).Fail?
    requires s.fds[fd].pos + offset > MaxOffset(Off32)
    ensures var o := Pread(s, fd, count, offset);
      && o.ret == -1 && o.os.errno == EINVAL && o.data == []
      && o.os.trace == s.trace + [SeekCall(fd, offset, SeekCur, Off32)]
  {
  }

  // ---------------------------------------------------------------------------
  // pread over a quiet oracle: the drift as written, and the intended behaviour

  /** The state after `k` successive `pread(fd, _, count, offset)` calls. */
  function PreadRepeated(s: State, fd: int, count: nat, offset: int, k: nat): State
    requires OffsetFits(Off32, offset)
    decreases k
  {
    if k == 0 then s else PreadRepeated(Pread(s, fd, count, offset).os, fd, count, offset, k - 1)
  }

  /** The state after `k` successive calls of the corrected emulation. */
  function IntendedPreadRepeated(s: State, fd: int, count: nat, offset: int, k: nat): State
    requires OffsetFits(Off32, offset)
    decreases k
  {
    if k == 0 then s
    else IntendedPreadRepeated(WrapPositionalIntended(s, false, ReadOp(count % UINT_LIMIT), fd, offset).os,
                               fd, count, offset, k - 1)
  }

  /** With no failure injected, one `pread` moves the descriptor by `offset`. */
  lemma PreadShiftsByOffset(s: State, fd: int, count: nat, offset: int)
    requires OffsetFits(Off32, offset) && 0 <= offset
    requires s.replies == [] && HandleValid(s, fd)
    requires s.fds[fd].pos + offset <= MaxOffset(Off32)
    ensures var t := Pread(s, fd, count, offset).os;
      && t.replies == [] && HandleValid(t, fd)
      && t.fds[fd].pos == s.fds[fd].pos + offset
      && t.fds[fd].bytes == s.fds[fd].bytes && t.fds[fd].kind == s.fds[fd].kind
  {
  }

  /** The drift accumulates: `k` calls leave the descriptor `k * offset` further on. */
  lemma {:induction false} PreadDriftAccumulates(s: State, fd: int, count: nat, offset: int, k: nat)
    requires OffsetFits(Off32, offset) && 0 <= offset
    requires s.replies == [] && HandleValid(s, fd)
    requires s.fds[fd].pos + k * offset <= MaxOffset(Off32)
    ensures var t := PreadRepeated(s, fd, count, offset, k);
      && HandleValid(t, fd) && t.fds[fd].pos == s.fds[fd].pos + k * offset
      && t.fds[fd].bytes == s.fds[fd].bytes
    decreases k
  {
    if k > 0 {
      assert k * offset == offset + (k - 1) * offset;
      PreadShiftsByOffset(s, fd, count, offset);
      PreadDriftAccumulates(Pread(s, fd, count, offset).os, fd, count, offset, k - 1);
    }
  }

  /** The corrected emulation restores the position whenever its restoring seek succeeds. */
  lemma IntendedRestoresPosition(s: State, is64Bit: bool, op: Op, fd: int, offset: int)
    requires var saved := Seek(s, is64Bit, fd, 0, SeekCur);
      var moved := Seek(saved.os, is64Bit, fd, offset, SeekSet);
      var done := Callback(moved.os, op, fd);
      saved.ret != -1 && moved.ret != -1 && Seek(done.os, is64Bit, fd, saved.ret, SeekSet).ret != -1
    ensures var o := WrapPositionalIntended(s, is64Bit, op, fd, offset);
      && fd in s.fds && fd in o.os.fds
      && o.os.fds[fd].pos == s.fds[fd].pos
  {
  }

  /** With no failure injected, `k` calls of the corrected emulation leave the position where it was. */
  lemma {:induction false} IntendedKeepsPositionAcrossCalls(s: State, fd: int, count: nat, offset: int, k: nat)
    requires OffsetFits(Off32, offset) && 0 <= offset
    requires s.replies == [] && HandleValid(s, fd)
    ensures var t := IntendedPreadRepeated(s, fd, count, offset, k);
      && HandleValid(t, fd) && t.fds[fd].pos == s.fds[fd].pos && t.fds[fd].bytes == s.fds[fd].bytes
    decreases k
  {
    if k > 0 {
      var t := WrapPositionalIntended(s, false, ReadOp(count % UINT_LIMIT), fd, offset).os;
      assert t.replies == [] && HandleValid(t, fd) && t.fds[fd].pos == s.fds[fd].pos && t.fds[fd].bytes == s.fds[fd].bytes;
      IntendedKeepsPositionAcrossCalls(t, fd, count, offset, k - 1);
    }
  }

  /** A `pread` at offset 0 behaves as POSIX promises: it returns the first
   *  bytes of the file and the next plain `read` gets the byte at the old position. */
  lemma PreadAtZeroThenRead(s: State, fd: int, count: nat)
    requires s.replies == [] && HandleValid(s, fd) && s.fds[fd].kind == FileKind
    requires count <= |s.fds[fd].bytes| && s.fds[fd].pos < |s.fds[fd].bytes|
    requires s.fds[fd].pos <= MaxOffset(Off32) && count <= INT_MAX
    ensures var o := Pread(s, fd, count, 0);
      && o.ret == count && o.data == s.fds[fd].bytes[..count]
      && Read(o.os, fd, 1).data == [s.fds[fd].bytes[s.fds[fd].pos]]
  {
  }

  /** As written, a `pread` at a positive offset makes the next plain `read`
   *  get the byte `offset` past the old position. */
  lemma PreadAtOffsetShiftsNextRead(s: State, fd: int, count: nat, offset: int)
    requires 0 < offset && OffsetFits(Off32, offset)
    requires s.replies == [] && HandleValid(s, fd) && s.fds[fd].kind == FileKind
    requires s.fds[fd].pos + offset < |s.fds[fd].bytes| && s.fds[fd].pos + offset <= MaxOffset(Off32)
    ensures var o := Pread(s, fd, count, offset);
      && o.os.fds[fd].pos != s.fds[fd].pos
      && Read(o.os, fd, 1).data == [s.fds[fd].bytes[s.fds[fd].pos + offset]]
  {
  }

  /** With the corrected emulation, the next plain `read` gets the byte at the old position. */
  lemma IntendedPreadThenRead(s: State, fd: int, count: nat, offset: int)
    requires 0 <= offset && OffsetFits(Off32, offset)
    requires s.replies == [] && HandleValid(s, fd) && s.fds[fd].kind == FileKind
    requires s.fds[fd].pos < |s.fds[fd].bytes|
    ensures var o := WrapPositionalIntended(s, false, ReadOp(count % UINT_LIMIT), fd, offset);
      && o.os.fds[fd].pos == s.fds[fd].pos
      && Read(o.os, fd, 1).data == [s.fds[fd].bytes[s.fds[fd].pos]]
  {
  }

  // ---------------------------------------------------------------------------
  // close, read, write: routing and error translation

  /** `close` removes the descriptor exactly when the native close for its kind succeeds. */
  lemma CloseRouting(s: State, fd: int)
    ensures var o := Close(s, fd);
      && (IsSocket(s, fd) ==> o == SocketClose(s, fd))
      && (!IsSocket(s, fd) ==> o == FileClose(s, fd))
      && o.os.fds == (if o.ret == 0 then s.fds - {fd} else s.fds)
  {
  }

  /** `read` on a socket with a valid handle: only `recv` runs; "would block" becomes EAGAIN. */
  lemma ReadSocketTranslation(s: State, fd: int, count: nat)
    requires IsSocket(s, fd) && HandleValid(s, fd)
    ensures var r := Recv(s, fd, count);
      var o := Read(s, fd, count);
      && o.ret == r.ret && o.data == r.data && o.os.fds == r.os.fds
      && o.os.trace == s.trace + [RecvCall(fd, count)]
      && o.os.wsaError == r.os.wsaError && o.os.lastError == r.os.lastError
      && o.os.errno == (if r.ret == -1 && r.os.wsaError == WSAEWOULDBLOCK then EAGAIN else r.os.errno)
  {
  }

  /** `read` on a file, or on a socket whose handle is invalid: only `_read`
   *  runs; -1 with ERROR_NO_DATA becomes EAGAIN, any other outcome passes through. */
  lemma ReadFileTranslation(s: State, fd: int, count: nat)
    requires !(IsSocket(s, fd) && HandleValid(s, fd))
    ensures var r := CrtRead(s, fd, count % UINT_LIMIT);
      var o := Read(s, fd, count);
      && o.ret == r.ret && o.data == r.data && o.os.fds == r.os.fds
      && o.os.trace == s.trace + [ReadCall(fd, count % UINT_LIMIT, PositionOf(s, fd))]
      && o.os.lastError == r.os.lastError && o.os.wsaError == r.os.wsaError
      && o.os.errno == (if r.ret == -1 && r.os.lastError == ERROR_NO_DATA then EAGAIN else r.os.errno)
  {
  }

  /** `write` on a socket with a valid handle: only `send` runs, with all
   *  `count` bytes; "would block" becomes EAGAIN. */
  lemma WriteSocketTranslation(s: State, fd: int, buf: seq<byte>, count: nat)
    requires count <= |buf| && IsSocket(s, fd) && HandleValid(s, fd)
    ensures var r := Send(s, fd, buf[..count]);
      var o := Write(s, fd, buf, count);
      && o.ret == r.ret && o.os.fds == r.os.fds
      && o.os.errno == (if r.ret == -1 && r.os.wsaError == WSAEWOULDBLOCK then EAGAIN else r.os.errno)
  {
  }

  /** A write on the file path that is short and positive, or fails with
   *  ENOSPC, on a pipe whose state query succeeds with PIPE_NOWAIT set.
   *  (`r` is the `_write` result.) */
  predicate PipeFull(r: Step, fd: int, count: nat) {
    && ShortOrNoSpace(r, count)
    && IsPipeHandle(r.os, fd)
    && PipeState(r.os, fd).ok
    && PipeState(r.os, fd).state & PIPE_NOWAIT == PIPE_NOWAIT
  }

  /** `write` on the file path reports -1/EAGAIN exactly for a full
   *  non-blocking pipe; in every other case (zero bytes written, a non-pipe, a
   *  blocking pipe, a failed state query) it returns `_write`'s result with
   *  errno as `_write` left it. The file contents are `_write`'s either way. */
  lemma WriteFileTranslation(s: State, fd: int, buf: seq<byte>, count: nat)
    requires count <= |buf| && !(IsSocket(s, fd) && HandleValid(s, fd))
    ensures var r := CrtWrite(s, fd, buf[..count % UINT_LIMIT]);
      var o := Write(s, fd, buf, count);
      && o.os.fds == r.os.fds
      && (PipeFull(r, fd, count) ==> o.ret == -1 && o.os.errno == EAGAIN)
      && (!PipeFull(r, fd, count) ==> o.ret == r.ret && o.os.errno == r.os.errno)
  {
  }

  /** On a non-blocking pipe a partial `_write` is reported as -1/EAGAIN
   *  although the bytes it moved are in the pipe. */
  lemma PartialPipeWriteReportedAsFailure(s: State, fd: int, buf: seq<byte>, count: nat, k: nat)
    requires count <= |buf| && count <= INT_MAX && 0 < k < count
    requires !IsSocket(s, fd) && HandleValid(s, fd)
    requires s.fds[fd].pipe == Pipe(PIPE_NOWAIT)
    requires s.replies == [Partial(k)]
    ensures var o := Write(s, fd, buf, count);
      && o.ret == -1 && o.os.errno == EAGAIN
      && o.os.fds[fd].bytes == Overwrite(s.fds[fd].bytes, s.fds[fd].pos, buf[..k])
      && o.os.fds[fd].pos == s.fds[fd].pos + k
  {
  }

  // ---------------------------------------------------------------------------
  // ftruncate

  /** When every step succeeds, `ftruncate` returns 0, the file ends at `len`
   *  and the position is the one queried by the zero-offset first seek. */
  lemma FtruncateSucceeds(s: State, fd: int, len: int)
    requires OffsetFits(Off32, len)
    requires var saved := LSeek(s, fd, 0, SeekCur, Off32);
      var moved := LSeek(saved.os, fd, len, SeekSet, Off32);
      var eof := SetEndOfFile(moved.os, fd);
      && saved.ret != -1 && moved.ret != -1 && eof.ret == 1
      && LSeek(eof.os, fd, saved.ret, SeekSet, Off32).ret != -1
    ensures var o := Ftruncate(s, fd, len);
      && o.ret == 0
      && o.os.trace == s.trace + [SeekCall(fd, 0, SeekCur, Off32), SeekCall(fd, len, SeekSet, Off32),
                                  SetEndOfFileCall(fd), SeekCall(fd, s.fds[fd].pos, SeekSet, Off32)]
      && o.os.fds[fd].pos == s.fds[fd].pos
      && o.os.fds[fd].bytes == Resize(s.fds[fd].bytes, len)
  {
  }

  /** An invalid handle or a failed `SetEndOfFile` returns -1 without the
   *  restoring seek: the descriptor stays at `len`, its bytes untouched. */
  lemma FtruncateEarlyExitLeavesPositionAtLen(s: State, fd: int, len: int)
    requires OffsetFits(Off32, len)
    requires var saved := LSeek(s, fd, 0, SeekCur, Off32);
      var moved := LSeek(saved.os, fd, len, SeekSet, Off32);
      && saved.ret != -1 && moved.ret != -1
      && (!HandleValid(moved.os, fd) || SetEndOfFile(moved.os, fd).ret == 0)
    ensures var o := Ftruncate(s, fd, len);
      && o.ret == -1
      && fd in o.os.fds && o.os.fds[fd].pos == len
      && o.os.fds[fd].bytes == s.fds[fd].bytes
      && o.os.trace == s.trace + [SeekCall(fd, 0, SeekCur, Off32), SeekCall(fd, len, SeekSet, Off32)]
                              + (if HandleValid(s, fd) then [SetEndOfFileCall(fd)] else [])
  {
  }
}
