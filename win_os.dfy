/** The operating system the shim runs on, as one mutable object.
 *
 *  `Os` holds the descriptor table, the three error registers and the oracle's
 *  queue of replies; each native primitive is a method that consumes one reply,
 *  logs itself and updates the fields step by step. `Snapshot()` gives the
 *  state as a `Native.State` value, and every method is proved to move the
 *  snapshot exactly as the corresponding `Native` function says.
 */
module WinOs {
  import opened Native

  class Os {
    var fds: map<int, Descriptor>
    var errno: int
    var lastError: int
    var wsaError: int
    var replies: seq<Reply>
    var trace: seq<Call>

    function Snapshot(): State
      reads this
    {
      State(fds, errno, lastError, wsaError, replies, trace)
    }

    /** A system with the given open descriptors and oracle, all error registers clear. */
    constructor (table: map<int, Descriptor>, oracle: seq<Reply>)
      ensures Snapshot() == State(table, 0, 0, 0, oracle, [])
    {
      fds, errno, lastError, wsaError := table, 0, 0, 0;
      replies, trace := oracle, [];
    }

    /** Takes the oracle's reply for the call about to be made and logs the call. */
    method Begin(c: Call) returns (r: Reply)
      modifies this
      ensures r == NextReply(old(Snapshot()))
      ensures Snapshot() == Native.Begin(old(Snapshot()), c)
    {
      if replies == [] {
        r := Ok;
      } else {
        r := replies[0];
        replies := replies[1..];
      }
      trace := trace + [c];
    }

    /** `_lseek` / `_lseeki64`. */
    method LSeek(fd: int, offset: int, whence: Whence, w: Width) returns (r: int)
      modifies this
      ensures r == Native.LSeek(old(Snapshot()), fd, offset, whence, w).ret
      ensures Snapshot() == Native.LSeek(old(Snapshot()), fd, offset, whence, w).os
    {
      var reply := Begin(SeekCall(fd, offset, whence, w));
      if reply.Fail? {
        errno, lastError := reply.errno, reply.code;
        return -1;
      }
      if fd !in fds {
        errno := EBADF;
        return -1;
      }
      var target := SeekBase(fds[fd], whence) + offset;
      if target < 0 || target > MaxOffset(w) {
        errno := EINVAL;
        return -1;
      }
      fds := fds[fd := fds[fd].(pos := target)];
      errno := ErrnoAfterSuccess(reply, errno);
      r := target;
    }

    /** `_read`; `got` is what lands in the caller's buffer. */
    method CrtRead(fd: int, count: nat) returns (r: int, got: seq<byte>)
      modifies this
      ensures r == Native.CrtRead(old(Snapshot()), fd, count).ret
      ensures got == Native.CrtRead(old(Snapshot()), fd, count).data
      ensures Snapshot() == Native.CrtRead(old(Snapshot()), fd, count).os
    {
      var reply := Begin(ReadCall(fd, count, PositionOf(Snapshot(), fd)));
      got := [];
      if reply.Fail? {
        errno, lastError := reply.errno, reply.code;
        return -1, got;
      }
      if !HandleValid(Snapshot(), fd) {
        errno := EBADF;
        return -1, got;
      }
      if count > INT_MAX {
        errno := EINVAL;
        return -1, got;
      }
      var d := fds[fd];
      var avail: nat := if d.pos < |d.bytes| then |d.bytes| - d.pos else 0;
      var n := Limit(reply, if count < avail then count else avail);
      if n != 0 {
        got := d.bytes[d.pos .. d.pos + n];
      }
      fds := fds[fd := d.(pos := d.pos + n)];
      errno := ErrnoAfterSuccess(reply, errno);
      r := n;
    }

    /** `_write`. */
    method CrtWrite(fd: int, data: seq<byte>) returns (r: int)
      modifies this
      ensures r == Native.CrtWrite(old(Snapshot()), fd, data).ret
      ensures Snapshot() == Native.CrtWrite(old(Snapshot()), fd, data).os
    {
      var reply := Begin(WriteCall(fd, data, PositionOf(Snapshot(), fd)));
      if reply.Fail? {
        errno, lastError := reply.errno, reply.code;
        return -1;
      }
      if !HandleValid(Snapshot(), fd) {
        errno := EBADF;
        return -1;
      }
      if |data| > INT_MAX {
        errno := EINVAL;
        return -1;
      }
      var d := fds[fd];
      var n := Limit(reply, |data|);
      fds := fds[fd := d.(pos := d.pos + n, bytes := Overwrite(d.bytes, d.pos, data[..n]))];
      errno := ErrnoAfterSuccess(reply, errno);
      r := n;
    }

    /** The socket layer's `recv`. */
    method Recv(fd: int, count: nat) returns (r: int, got: seq<byte>)
      modifies this
      ensures r == Native.Recv(old(Snapshot()), fd, count).ret
      ensures got == Native.Recv(old(Snapshot()), fd, count).data
      ensures Snapshot() == Native.Recv(old(Snapshot()), fd, count).os
    {
      var reply := Begin(RecvCall(fd, count));
      got := [];
      if reply.Fail? {
        errno, wsaError := reply.errno, reply.code;
        return -1, got;
      }
      if fd !in fds {
        errno, wsaError := EBADF, WSAENOTSOCK;
        return -1, got;
      }
      var d := fds[fd];
      var n := Limit(reply, if count < |d.bytes| then count else |d.bytes|);
      got := d.bytes[..n];
      fds := fds[fd := d.(bytes := d.bytes[n..])];
      errno := ErrnoAfterSuccess(reply, errno);
      r := n;
    }

    /** The socket layer's `send`. */
    method Send(fd: int, data: seq<byte>) returns (r: int)
      modifies this
      ensures r == Native.Send(old(Snapshot()), fd, data).ret
      ensures Snapshot() == Native.Send(old(Snapshot()), fd, data).os
    {
      var reply := Begin(SendCall(fd, data));
      if reply.Fail? {
        errno, wsaError := reply.errno, reply.code;
        return -1;
      }
      if fd !in fds {
        errno, wsaError := EBADF, WSAENOTSOCK;
        return -1;
      }
      errno := ErrnoAfterSuccess(reply, errno);
      r := Limit(reply, |data|);
    }

    /** `SocketFileDescriptorMap::close`. */
    method SocketClose(fd: int) returns (r: int)
      modifies this
      ensures r == Native.SocketClose(old(Snapshot()), fd).ret
      ensures Snapshot() == Native.SocketClose(old(Snapshot()), fd).os
    {
      var reply := Begin(SocketCloseCall(fd));
      if reply.Fail? {
        errno, wsaError := reply.errno, reply.code;
        return -1;
      }
      if fd !in fds {
        errno, wsaError := EBADF, WSAENOTSOCK;
        return -1;
      }
      fds := fds - {fd};
      errno := ErrnoAfterSuccess(reply, errno);
      r := 0;
    }

    /** `_close`. */
    method FileClose(fd: int) returns (r: int)
      modifies this
      ensures r == Native.FileClose(old(Snapshot()), fd).ret
      ensures Snapshot() == Native.FileClose(old(Snapshot()), fd).os
    {
      var reply := Begin(FileCloseCall(fd));
      if reply.Fail? {
        errno, lastError := reply.errno, reply.code;
        return -1;
      }
      if fd !in fds {
        errno := EBADF;
        return -1;
      }
      fds := fds - {fd};
      errno := ErrnoAfterSuccess(reply, errno);
      r := 0;
    }

    /** `SetEndOfFile`; `ok` is the Win32 BOOL. */
    method SetEndOfFile(fd: int) returns (ok: bool)
      modifies this
      ensures ok <==> Native.SetEndOfFile(old(Snapshot()), fd).ret == 1
      ensures Snapshot() == Native.SetEndOfFile(old(Snapshot()), fd).os
    {
      var reply := Begin(SetEndOfFileCall(fd));
      if reply.Fail? {
        lastError := reply.code;
        return false;
      }
      if !HandleValid(Snapshot(), fd) {
        lastError := ERROR_INVALID_HANDLE;
        return false;
      }
      var d := fds[fd];
      fds := fds[fd := d.(bytes := Resize(d.bytes, d.pos))];
      ok := true;
    }

    /** `GetNamedPipeHandleState`; `state` is meaningful only when `ok`. */
    method PipeState(fd: int) returns (ok: bool, state: bv32)
      modifies this
      ensures ok == Native.PipeState(old(Snapshot()), fd).ok
      ensures state == Native.PipeState(old(Snapshot()), fd).state
      ensures Snapshot() == Native.PipeState(old(Snapshot()), fd).os
    {
      var reply := Begin(PipeStateCall(fd));
      if reply.Fail? {
        lastError := reply.code;
        return false, 0;
      }
      if !IsPipeHandle(Snapshot(), fd) {
        lastError := ERROR_INVALID_HANDLE;
        return false, 0;
      }
      ok, state := true, fds[fd].pipe.state;
    }
  }
}
