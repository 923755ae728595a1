/** What the Windows branch of folly's `Unistd.cpp` computes, as functions of
 *  the native state: the positional-I/O emulation behind `pread`, `pread64`
 *  and `pwrite`, the socket/file dispatch of `close`, `read` and `write` with
 *  their translation of native "would block" conditions to `EAGAIN`, and the
 *  save/seek/restore of `ftruncate`.
 */
module UnistdSpec {
  import opened Native

  /** The callback `wrapPositional` is instantiated with: `_read` or `_write`,
   *  with the count already cast to `unsigned int`. */
  datatype Op = ReadOp(count: nat) | WriteOp(data: seq<byte>)

  function WidthOf(is64Bit: bool): Width {
    if is64Bit then Off64 else Off32
  }

  /** `seek<is64Bit>`: `lseek64` (that is `_lseeki64`) or `lseek` (that is `_lseek`). */
  function Seek(s: State, is64Bit: bool, fd: int, offset: int, whence: Whence): (o: Step)
    ensures o.os.trace == s.trace + [SeekCall(fd, offset, whence, if is64Bit then Off64 else Off32)]
    ensures o.ret == -1 || 0 <= o.ret <= MaxOffset(WidthOf(is64Bit))
  {
    LSeek(s, fd, offset, whence, WidthOf(is64Bit))
  }

  function Callback(s: State, op: Op, fd: int): Step {
    match op
    case ReadOp(count) => CrtRead(s, fd, count)
    case WriteOp(data) => CrtWrite(s, fd, data)
  }

  /** `wrapPositional<is64Bit>(f, fd, offset, ...)` exactly as written: the
   *  position is "saved" by a relative seek by `offset`, not by 0. */
  function WrapPositional(s: State, is64Bit: bool, op: Op, fd: int, offset: int): (o: Step)
    ensures o.ret == -1 || 0 <= o.ret <= INT_MAX
    ensures |s.trace| < |o.os.trace| <= |s.trace| + 4 && o.os.trace[..|s.trace|] == s.trace
    ensures o.ret != -1 ==> |o.os.trace| == |s.trace| + 4
  {
    var saved := Seek(s, is64Bit, fd, offset, SeekCur);
    if saved.ret == -1 then Step(-1, [], saved.os)
    else
      var moved := Seek(saved.os, is64Bit, fd, offset, SeekSet);
      if moved.ret == -1 then Step(-1, [], moved.os)
      else
        var done := Callback(moved.os, op, fd);
        var curErrNo := done.os.errno;
        var back := Seek(done.os, is64Bit, fd, saved.ret, SeekSet);
        if back.ret == -1 then
          Step(-1, done.data, if done.ret == -1 then back.os.(errno := curErrNo) else back.os)
        else
          Step(done.ret, done.data, back.os.(errno := curErrNo))
  }

  /** The emulation as evidently intended: the position is queried by a
   *  relative seek by 0, as `ftruncate` does. */
  function WrapPositionalIntended(s: State, is64Bit: bool, op: Op, fd: int, offset: int): (o: Step)
    ensures o.ret == -1 || 0 <= o.ret <= INT_MAX
    ensures o.ret != -1 ==> |o.os.trace| == |s.trace| + 4
  {
    var saved := Seek(s, is64Bit, fd, 0, SeekCur);
    if saved.ret == -1 then Step(-1, [], saved.os)
    else
      var moved := Seek(saved.os, is64Bit, fd, offset, SeekSet);
      if moved.ret == -1 then Step(-1, [], moved.os)
      else
        var done := Callback(moved.os, op, fd);
        var curErrNo := done.os.errno;
        var back := Seek(done.os, is64Bit, fd, saved.ret, SeekSet);
        if back.ret == -1 then
          Step(-1, done.data, if done.ret == -1 then back.os.(errno := curErrNo) else back.os)
        else
          Step(done.ret, done.data, back.os.(errno := curErrNo))
  }

  /** `pread(fd, buf, count, offset)` with a 32-bit `off_t`. */
  function Pread(s: State, fd: int, count: nat, offset: int): (o: Step)
    requires OffsetFits(Off32, offset)
    ensures |o.data| <= count % UINT_LIMIT
    ensures o.ret != -1 ==> o.ret == |o.data|
    ensures |o.os.trace| > |s.trace| && o.os.trace[|s.trace|] == SeekCall(fd, offset, SeekCur, Off32)
  {
    WrapPositional(s, false, ReadOp(count % UINT_LIMIT), fd, offset)
  }

  /** `pread64(fd, buf, count, offset)` with a 64-bit `off64_t`. */
  function Pread64(s: State, fd: int, count: nat, offset: int): (o: Step)
    requires OffsetFits(Off64, offset)
    ensures |o.data| <= count % UINT_LIMIT
    ensures o.ret != -1 ==> o.ret == |o.data|
    ensures |o.os.trace| > |s.trace| && o.os.trace[|s.trace|] == SeekCall(fd, offset, SeekCur, Off64)
  {
    WrapPositional(s, true, ReadOp(count % UINT_LIMIT), fd, offset)
  }

  /** `pwrite(fd, buf, count, offset)`: `buf` holds at least `count` bytes. */
  function Pwrite(s: State, fd: int, buf: seq<byte>, count: nat, offset: int): (o: Step)
    requires count <= |buf| && OffsetFits(Off32, offset)
    ensures o.ret == -1 || o.ret <= count % UINT_LIMIT
    ensures |o.os.trace| > |s.trace| && o.os.trace[|s.trace|] == SeekCall(fd, offset, SeekCur, Off32)
  {
    WrapPositional(s, false, WriteOp(buf[..count % UINT_LIMIT]), fd, offset)
  }

  /** `close(fh)`. */
  function Close(s: State, fd: int): (o: Step)
    ensures o.os.trace == s.trace + [if IsSocket(s, fd) then SocketCloseCall(fd) else FileCloseCall(fd)]
    ensures o.ret == 0 <==> fd in s.fds && !NextReply(s).Fail?
    ensures o.ret == 0 || o.ret == -1
  {
    if IsSocket(s, fd) then SocketClose(s, fd) else FileClose(s, fd)
  }

  /** `read(fh, buf, count)`. */
  function Read(s: State, fd: int, count: nat): (o: Step)
    ensures IsSocket(s, fd) && HandleValid(s, fd) ==> o.os.trace == s.trace + [RecvCall(fd, count)]
    ensures !(IsSocket(s, fd) && HandleValid(s, fd)) ==>
      o.os.trace == s.trace + [ReadCall(fd, count % UINT_LIMIT, PositionOf(s, fd))]
    ensures o.ret != -1 ==> o.ret == |o.data| <= count
  {
    if IsSocket(s, fd) && HandleValid(s, fd) then
      var r := Recv(s, fd, count);
      if r.ret == -1 && r.os.wsaError == WSAEWOULDBLOCK then r.(os := r.os.(errno := EAGAIN)) else r
    else
      var r := CrtRead(s, fd, count % UINT_LIMIT);
      if r.ret == -1 && r.os.lastError == ERROR_NO_DATA then r.(os := r.os.(errno := EAGAIN)) else r
  }

  /** The condition of line 312 on `_write`'s result `r`. */
  predicate ShortOrNoSpace(r: Step, count: nat) {
    (r.ret > 0 && r.ret != count) || (r.ret == -1 && r.os.errno == ENOSPC)
  }

  /** `write(fh, buf, count)`: `buf` holds at least `count` bytes. */
  function Write(s: State, fd: int, buf: seq<byte>, count: nat): (o: Step)
    requires count <= |buf|
    ensures IsSocket(s, fd) && HandleValid(s, fd) ==> o.os.trace == s.trace + [SendCall(fd, buf[..count])]
    ensures !(IsSocket(s, fd) && HandleValid(s, fd)) ==>
      && |s.trace| < |o.os.trace| <= |s.trace| + 2
      && o.os.trace[..|s.trace| + 1] == s.trace + [WriteCall(fd, buf[..count % UINT_LIMIT], PositionOf(s, fd))]
    ensures o.ret == -1 || 0 <= o.ret <= count
  {
    if IsSocket(s, fd) && HandleValid(s, fd) then
      var r := Send(s, fd, buf[..count]);
      if r.ret == -1 && r.os.wsaError == WSAEWOULDBLOCK then r.(os := r.os.(errno := EAGAIN)) else r
    else
      var r := CrtWrite(s, fd, buf[..count % UINT_LIMIT]);
      if ShortOrNoSpace(r, count) && IsPipeHandle(r.os, fd) then
        var q := PipeState(r.os, fd);
        if q.ok && q.state & PIPE_NOWAIT == PIPE_NOWAIT then Step(-1, [], q.os.(errno := EAGAIN))
        else Step(r.ret, [], q.os)
      else r
  }

  /** `ftruncate(fd, len)` with a 32-bit `off_t`. */
  function Ftruncate(s: State, fd: int, len: int): (o: Step)
    requires OffsetFits(Off32, len)
    ensures o.ret == 0 || o.ret == -1
    ensures o.ret == 0 ==>
      && fd in s.fds && fd in o.os.fds && 0 <= len
      && o.os.fds[fd] == s.fds[fd].(bytes := Resize(s.fds[fd].bytes, len))
  {
    var saved := LSeek(s, fd, 0, SeekCur, Off32);
    if saved.ret == -1 then Step(-1, [], saved.os)
    else
      var moved := LSeek(saved.os, fd, len, SeekSet, Off32);
      if moved.ret == -1 then Step(-1, [], moved.os)
      else if !HandleValid(moved.os, fd) then Step(-1, [], moved.os)
      else
        var eof := SetEndOfFile(moved.os, fd);
        if eof.ret == 0 then Step(-1, [], eof.os)
        else
          var back := LSeek(eof.os, fd, saved.ret, SeekSet, Off32);
          if back.ret == -1 then Step(-1, [], back.os) else Step(0, [], back.os)
  }
}
