/** The Windows branch of folly's `Unistd.cpp` as the step-by-step program it
 *  is: every entry point drives the native primitives of one `Os` object in
 *  the order the source calls them and saves or reassigns `errno` where the
 *  source does. Each method is proved to end in exactly the result and the
 *  state that `UnistdSpec` gives, so every property proved about `UnistdSpec`
 *  holds of these methods.
 */
module Unistd {
  import opened Native
  import opened WinOs
  import UnistdSpec

  /** `seek<is64Bit>(fd, offset, whence)`. */
  method Seek(os: Os, is64Bit: bool, fd: int, offset: int, whence: Whence) returns (r: int)
    modifies os
    ensures r == UnistdSpec.Seek(old(os.Snapshot()), is64Bit, fd, offset, whence).ret
    ensures os.Snapshot() == UnistdSpec.Seek(old(os.Snapshot()), is64Bit, fd, offset, whence).os
  {
    if is64Bit {
      r := os.LSeek(fd, offset, whence, Off64);
    } else {
      r := os.LSeek(fd, offset, whence, Off32);
    }
  }

  /** Runs the callback `_read` or `_write` on the descriptor's current position. */
  method Callback(os: Os, op: UnistdSpec.Op, fd: int) returns (r: int, got: seq<byte>)
    modifies os
    ensures r == UnistdSpec.Callback(old(os.Snapshot()), op, fd).ret
    ensures got == UnistdSpec.Callback(old(os.Snapshot()), op, fd).data
    ensures os.Snapshot() == UnistdSpec.Callback(old(os.Snapshot()), op, fd).os
  {
    match op
    case ReadOp(count) =>
      r, got := os.CrtRead(fd, count);
    case WriteOp(data) =>
      r := os.CrtWrite(fd, data);
      got := [];
  }

  /** `wrapPositional<is64Bit>(f, fd, offset, args...)`; `got` is what the
   *  callback left in the caller's buffer. */
  method WrapPositional(os: Os, is64Bit: bool, op: UnistdSpec.Op, fd: int, offset: int) returns (r: int, got: seq<byte>)
    modifies os
    ensures r == UnistdSpec.WrapPositional(old(os.Snapshot()), is64Bit, op, fd, offset).ret
    ensures got == UnistdSpec.WrapPositional(old(os.Snapshot()), is64Bit, op, fd, offset).data
    ensures os.Snapshot() == UnistdSpec.WrapPositional(old(os.Snapshot()), is64Bit, op, fd, offset).os
  {
    got := [];
    var origLoc := Seek(os, is64Bit, fd, offset, SeekCur);
    if origLoc == -1 {
      return -1, got;
    }
    var moved := Seek(os, is64Bit, fd, offset, SeekSet);
    if moved == -1 {
      return -1, got;
    }
    var res;
    res, got := Callback(os, op, fd);
    var curErrNo := os.errno;
    var afterOperation := Seek(os, is64Bit, fd, origLoc, SeekSet);
    if afterOperation == -1 {
      if res == -1 {
        os.errno := curErrNo;
      }
      return -1, got;
    }
    os.errno := curErrNo;
    r := res;
  }

  /** `pread`. */
  method Pread(os: Os, fd: int, count: nat, offset: int) returns (r: int, got: seq<byte>)
    requires OffsetFits(Off32, offset)
    modifies os
    ensures r == UnistdSpec.Pread(old(os.Snapshot()), fd, count, offset).ret
    ensures got == UnistdSpec.Pread(old(os.Snapshot()), fd, count, offset).data
    ensures os.Snapshot() == UnistdSpec.Pread(old(os.Snapshot()), fd, count, offset).os
  {
    r, got := WrapPositional(os, false, UnistdSpec.ReadOp(count % UINT_LIMIT), fd, offset);
  }

  /** `pread64`. */
  method Pread64(os: Os, fd: int, count: nat, offset: int) returns (r: int, got: seq<byte>)
    requires OffsetFits(Off64, offset)
    modifies os
    ensures r == UnistdSpec.Pread64(old(os.Snapshot()), fd, count, offset).ret
    ensures got == UnistdSpec.Pread64(old(os.Snapshot()), fd, count, offset).data
    ensures os.Snapshot() == UnistdSpec.Pread64(old(os.Snapshot()), fd, count, offset).os
  {
    r, got := WrapPositional(os, true, UnistdSpec.ReadOp(count % UINT_LIMIT), fd, offset);
  }

  /** `pwrite`. */
  method Pwrite(os: Os, fd: int, buf: seq<byte>, count: nat, offset: int) returns (r: int)
    requires count <= |buf| && OffsetFits(Off32, offset)
    modifies os
    ensures r == UnistdSpec.Pwrite(old(os.Snapshot()), fd, buf, count, offset).ret
    ensures os.Snapshot() == UnistdSpec.Pwrite(old(os.Snapshot()), fd, buf, count, offset).os
  {
    var unused;
    r, unused := WrapPositional(os, false, UnistdSpec.WriteOp(buf[..count % UINT_LIMIT]), fd, offset);
  }

  /** `close`. */
  method Close(os: Os, fd: int) returns (r: int)
    modifies os
    ensures r == UnistdSpec.Close(old(os.Snapshot()), fd).ret
    ensures os.Snapshot() == UnistdSpec.Close(old(os.Snapshot()), fd).os
  {
    if IsSocket(os.Snapshot(), fd) {
      r := os.SocketClose(fd);
      return;
    }
    r := os.FileClose(fd);
  }

  /** `read`. */
  method Read(os: Os, fd: int, count: nat) returns (r: int, got: seq<byte>)
    modifies os
    ensures r == UnistdSpec.Read(old(os.Snapshot()), fd, count).ret
    ensures got == UnistdSpec.Read(old(os.Snapshot()), fd, count).data
    ensures os.Snapshot() == UnistdSpec.Read(old(os.Snapshot()), fd, count).os
  {
    if IsSocket(os.Snapshot(), fd) {
      if HandleValid(os.Snapshot(), fd) {
        r, got := os.Recv(fd, count);
        if r == -1 && os.wsaError == WSAEWOULDBLOCK {
          os.errno := EAGAIN;
        }
        return;
      }
    }
    r, got := os.CrtRead(fd, count % UINT_LIMIT);
    if r == -1 && os.lastError == ERROR_NO_DATA {
      os.errno := EAGAIN;
    }
  }

  /** `write`. */
  method Write(os: Os, fd: int, buf: seq<byte>, count: nat) returns (r: int)
    requires count <= |buf|
    modifies os
    ensures r == UnistdSpec.Write(old(os.Snapshot()), fd, buf, count).ret
    ensures os.Snapshot() == UnistdSpec.Write(old(os.Snapshot()), fd, buf, count).os
  {
    if IsSocket(os.Snapshot(), fd) {
      if HandleValid(os.Snapshot(), fd) {
        r := os.Send(fd, buf[..count]);
        if r == -1 && os.wsaError == WSAEWOULDBLOCK {
          os.errno := EAGAIN;
        }
        return;
      }
    }
    r := os.CrtWrite(fd, buf[..count % UINT_LIMIT]);
    if (r > 0 && r != count) || (r == -1 && os.errno == ENOSPC) {
      if IsPipeHandle(os.Snapshot(), fd) {
        var ok, state := os.PipeState(fd);
        if ok {
          if state & PIPE_NOWAIT == PIPE_NOWAIT {
            os.errno := EAGAIN;
            return -1;
          }
        }
      }
    }
  }

  /** `ftruncate`. */
  method Ftruncate(os: Os, fd: int, len: int) returns (r: int)
    requires OffsetFits(Off32, len)
    modifies os
    ensures r == UnistdSpec.Ftruncate(old(os.Snapshot()), fd, len).ret
    ensures os.Snapshot() == UnistdSpec.Ftruncate(old(os.Snapshot()), fd, len).os
  {
    var origLoc := os.LSeek(fd, 0, SeekCur, Off32);
    if origLoc == -1 {
      return -1;
    }
    var moved := os.LSeek(fd, len, SeekSet, Off32);
    if moved == -1 {
      return -1;
    }
    if !HandleValid(os.Snapshot(), fd) {
      return -1;
    }
    var ok := os.SetEndOfFile(fd);
    if !ok {
      return -1;
    }
    var back := os.LSeek(fd, origLoc, SeekSet, Off32);
    if back == -1 {
      return -1;
    }
    r := 0;
  }
}
