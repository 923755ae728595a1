/** The Windows primitives underneath the POSIX shim, as values.
 *
 *  A `State` is everything the shim can observe or disturb: the descriptor
 *  table (kind, native handle validity, position, bytes, pipe mode), the three
 *  error registers (`errno`, `GetLastError`, `WSAGetLastError`), the queue of
 *  replies an oracle has chosen for the next native calls, and the log of the
 *  native calls made so far. Each primitive is a function from a state to a
 *  `Step`: its return value, the bytes it delivered, and the new state.
 */
module Native {

  type byte = b: int | 0 <= b < 0x100

  // errno values of the Microsoft C runtime
  const EBADF := 9
  const EAGAIN := 11
  const EINVAL := 22
  const ENOSPC := 28

  // Win32 and Winsock error codes
  const ERROR_INVALID_HANDLE := 6
  const ERROR_NO_DATA := 232
  const WSAEWOULDBLOCK := 10035
  const WSAENOTSOCK := 10038

  /** The non-blocking bit of a named pipe's state word. */
  const PIPE_NOWAIT: bv32 := 1

  const INT_MAX := 0x7FFF_FFFF
  /** `(unsigned int)x` keeps `x` modulo this. */
  const UINT_LIMIT := 0x1_0000_0000

  /** `_lseek` works on a 32-bit `long`, `_lseeki64` on a 64-bit offset. */
  datatype Width = Off32 | Off64

  function MaxOffset(w: Width): int {
    if w == Off32 then 0x7FFF_FFFF else 0x7FFF_FFFF_FFFF_FFFF
  }

  /** The values of the signed offset type of width `w`. */
  predicate OffsetFits(w: Width, offset: int) {
    -(MaxOffset(w) + 1) <= offset <= MaxOffset(w)
  }

  datatype Whence = SeekSet | SeekCur | SeekEnd

  datatype Kind = FileKind | SocketKind

  /** `Pipe(state)` carries the word `GetNamedPipeHandleState` reports. */
  datatype PipeMode = NotPipe | Pipe(state: bv32)

  /** One open descriptor. For a socket, `bytes` is the data waiting to be received. */
  datatype Descriptor = Descriptor(kind: Kind, handleValid: bool, pos: nat, bytes: seq<byte>, pipe: PipeMode)

  /** What the oracle decides for one native call.
   *  `Ok`: the call does what it naturally does.
   *  `Partial(limit)`: a transfer moves at most `limit` bytes.
   *  `Clobber(errno)`: the call succeeds but leaves `errno` overwritten.
   *  `Fail(errno, code)`: the call fails, setting `errno` and the native error
   *  register (`GetLastError`, or `WSAGetLastError` for socket calls) to `code`.
   */
  datatype Reply = Ok | Partial(limit: nat) | Clobber(errno: int) | Fail(errno: int, code: int)

  /** A native call as it appears in the log. `at` is the position the
   *  descriptor had when the transfer started (-1 for an unknown descriptor). */
  datatype Call =
    | SeekCall(fd: int, offset: int, whence: Whence, width: Width)
    | ReadCall(fd: int, count: nat, at: int)
    | WriteCall(fd: int, data: seq<byte>, at: int)
    | RecvCall(fd: int, count: nat)
    | SendCall(fd: int, data: seq<byte>)
    | SocketCloseCall(fd: int)
    | FileCloseCall(fd: int)
    | SetEndOfFileCall(fd: int)
    | PipeStateCall(fd: int)

  datatype State = State(
    fds: map<int, Descriptor>,
    errno: int,
    lastError: int,
    wsaError: int,
    replies: seq<Reply>,
    trace: seq<Call>)

  datatype Step = Step(ret: int, data: seq<byte>, os: State)

  datatype PipeQuery = PipeQuery(ok: bool, state: bv32, os: State)

  // ---------------------------------------------------------------------------
  // Helpers

  function NextReply(s: State): Reply {
    if s.replies == [] then Ok else s.replies[0]
  }

  function Rest(replies: seq<Reply>): seq<Reply> {
    if replies == [] then [] else replies[1..]
  }

  /** The state once call `c` is logged and its reply consumed. */
  function Begin(s: State, c: Call): State {
    s.(replies := Rest(s.replies), trace := s.trace + [c])
  }

  function ErrnoAfterSuccess(r: Reply, errno: int): int {
    if r.Clobber? then r.errno else errno
  }

  function Limit(r: Reply, n: nat): nat {
    if r.Partial? && r.limit < n then r.limit else n
  }

  function PositionOf(s: State, fd: int): int {
    if fd in s.fds then s.fds[fd].pos else -1
  }

  function Zeros(n: nat): (z: seq<byte>)
    ensures |z| == n && forall i | 0 <= i < n :: z[i] == 0
  {
    seq(n, _ => 0)
  }

  /** The contents of a file after `x` is written at `at`; a gap past the old end reads as zeros. */
  function Overwrite(b: seq<byte>, at: nat, x: seq<byte>): (r: seq<byte>)
    ensures |r| == if at + |x| <= |b| then |b| else at + |x|
    ensures forall i | 0 <= i < |x| :: r[at + i] == x[i]
    ensures forall i | 0 <= i < |r| && (i < at || at + |x| <= i) :: r[i] == if i < |b| then b[i] else 0
  {
    var padded := if at <= |b| then b else b + Zeros(at - |b|);
    padded[..at] + x + (if at + |x| <= |padded| then padded[at + |x|..] else [])
  }

  /** The contents of a file whose end is moved to `n`. */
  function Resize(b: seq<byte>, n: nat): (r: seq<byte>)
    ensures |r| == n
    ensures forall i | 0 <= i < n :: r[i] == if i < |b| then b[i] else 0
  {
    if n <= |b| then b[..n] else b + Zeros(n - |b|)
  }

  // ---------------------------------------------------------------------------
  // Queries that change nothing

  /** `is_fh_socket(fd)`: the registry says the descriptor wraps a socket. */
  predicate IsSocket(s: State, fd: int) {
    fd in s.fds && s.fds[fd].kind == SocketKind
  }

  /** `_get_osfhandle(fd)` is not `INVALID_HANDLE_VALUE` / `INVALID_SOCKET`. */
  predicate HandleValid(s: State, fd: int) {
    fd in s.fds && s.fds[fd].handleValid
  }

  /** `GetFileType(_get_osfhandle(fd)) == FILE_TYPE_PIPE`. */
  predicate IsPipeHandle(s: State, fd: int) {
    HandleValid(s, fd) && s.fds[fd].pipe.Pipe?
  }

  // ---------------------------------------------------------------------------
  // Native calls

  function SeekBase(d: Descriptor, whence: Whence): int {
    match whence
    case SeekSet => 0
    case SeekCur => d.pos
    case SeekEnd => |d.bytes|
  }

  /** `_lseek` (width `Off32`) and `_lseeki64` (width `Off64`). */
  function LSeek(s: State, fd: int, offset: int, whence: Whence, w: Width): (o: Step)
    ensures o.os.trace == s.trace + [SeekCall(fd, offset, whence, w)]
    ensures o.os.replies == Rest(s.replies) && o.data == [] && o.os.wsaError == s.wsaError
    ensures o.ret == -1 || (fd in s.fds && o.ret == SeekBase(s.fds[fd], whence) + offset)
    ensures o.ret != -1 ==> 0 <= o.ret <= MaxOffset(w) && !NextReply(s).Fail?
    ensures o.ret != -1 ==> o.os.fds == s.fds[fd := s.fds[fd].(pos := o.ret)] && o.os.lastError == s.lastError
    ensures o.ret != -1 && !NextReply(s).Clobber? ==> o.os.errno == s.errno
    ensures o.ret == -1 ==> o.os.fds == s.fds
    ensures NextReply(s).Fail? ==> o.ret == -1 && o.os.errno == NextReply(s).errno
  {
    var reply := NextReply(s);
    var t := Begin(s, SeekCall(fd, offset, whence, w));
    if reply.Fail? then Step(-1, [], t.(errno := reply.errno, lastError := reply.code))
    else if fd !in s.fds then Step(-1, [], t.(errno := EBADF))
    else
      var target := SeekBase(s.fds[fd], whence) + offset;
      if target < 0 || target > MaxOffset(w) then Step(-1, [], t.(errno := EINVAL))
      else Step(target, [], t.(fds := s.fds[fd := s.fds[fd].(pos := target)],
                               errno := ErrnoAfterSuccess(reply, s.errno)))
  }

  /** `_read(fd, buf, count)` with `count` already an `unsigned int`. */
  function CrtRead(s: State, fd: int, count: nat): (o: Step)
    ensures o.os.trace == s.trace + [ReadCall(fd, count, PositionOf(s, fd))]
    ensures o.os.replies == Rest(s.replies) && o.os.wsaError == s.wsaError
    ensures o.ret == -1 ==> o.data == [] && o.os.fds == s.fds
    ensures o.ret != -1 ==>
      && HandleValid(s, fd) && 0 <= o.ret <= count <= INT_MAX
      && (o.ret > 0 ==> s.fds[fd].pos + o.ret <= |s.fds[fd].bytes|)
      && o.data == (if o.ret == 0 then [] else s.fds[fd].bytes[s.fds[fd].pos .. s.fds[fd].pos + o.ret])
      && o.os.fds == s.fds[fd := s.fds[fd].(pos := s.fds[fd].pos + o.ret)]
      && o.os.lastError == s.lastError
    ensures o.ret != -1 && !NextReply(s).Partial? ==>
      o.ret == if s.fds[fd].pos < |s.fds[fd].bytes| then Min(count, |s.fds[fd].bytes| - s.fds[fd].pos) else 0
    ensures NextReply(s).Fail? ==> o.ret == -1 && o.os.errno == NextReply(s).errno && o.os.lastError == NextReply(s).code
  {
    var reply := NextReply(s);
    var t := Begin(s, ReadCall(fd, count, PositionOf(s, fd)));
    if reply.Fail? then Step(-1, [], t.(errno := reply.errno, lastError := reply.code))
    else if !HandleValid(s, fd) then Step(-1, [], t.(errno := EBADF))
    else if count > INT_MAX then Step(-1, [], t.(errno := EINVAL))
    else
      var d := s.fds[fd];
      var avail: nat := if d.pos < |d.bytes| then |d.bytes| - d.pos else 0;
      var n := Limit(reply, if count < avail then count else avail);
      Step(n, if n == 0 then [] else d.bytes[d.pos .. d.pos + n],
           t.(fds := s.fds[fd := d.(pos := d.pos + n)], errno := ErrnoAfterSuccess(reply, s.errno)))
  }

  /** `_write(fd, data, |data|)` with the count already an `unsigned int`. */
  function CrtWrite(s: State, fd: int, data: seq<byte>): (o: Step)
    ensures o.os.trace == s.trace + [WriteCall(fd, data, PositionOf(s, fd))]
    ensures o.os.replies == Rest(s.replies) && o.os.wsaError == s.wsaError && o.data == []
    ensures o.ret == -1 ==> o.os.fds == s.fds
    ensures o.ret != -1 ==>
      && HandleValid(s, fd) && 0 <= o.ret <= |data| <= INT_MAX
      && o.os.fds == s.fds[fd := s.fds[fd].(pos := s.fds[fd].pos + o.ret,
                                            bytes := Overwrite(s.fds[fd].bytes, s.fds[fd].pos, data[..o.ret]))]
      && o.os.lastError == s.lastError
    ensures o.ret != -1 && !NextReply(s).Partial? ==> o.ret == |data|
    ensures NextReply(s).Fail? ==> o.ret == -1 && o.os.errno == NextReply(s).errno && o.os.lastError == NextReply(s).code
  {
    var reply := NextReply(s);
    var t := Begin(s, WriteCall(fd, data, PositionOf(s, fd)));
    if reply.Fail? then Step(-1, [], t.(errno := reply.errno, lastError := reply.code))
    else if !HandleValid(s, fd) then Step(-1, [], t.(errno := EBADF))
    else if |data| > INT_MAX then Step(-1, [], t.(errno := EINVAL))
    else
      var d := s.fds[fd];
      var n := Limit(reply, |data|);
      Step(n, [], t.(fds := s.fds[fd := d.(pos := d.pos + n, bytes := Overwrite(d.bytes, d.pos, data[..n]))],
                     errno := ErrnoAfterSuccess(reply, s.errno)))
  }

  /** The socket layer's `recv(fd, buf, count, 0)`: takes from the waiting data. */
  function Recv(s: State, fd: int, count: nat): (o: Step)
    ensures o.os.trace == s.trace + [RecvCall(fd, count)]
    ensures o.os.replies == Rest(s.replies) && o.os.lastError == s.lastError
    ensures o.ret == -1 ==> o.data == [] && o.os.fds == s.fds
    ensures o.ret != -1 ==>
      && fd in s.fds && 0 <= o.ret <= count && o.ret <= |s.fds[fd].bytes|
      && o.data == s.fds[fd].bytes[..o.ret]
      && o.os.fds == s.fds[fd := s.fds[fd].(bytes := s.fds[fd].bytes[o.ret..])]
      && o.os.wsaError == s.wsaError
    ensures NextReply(s).Fail? ==> o.ret == -1 && o.os.errno == NextReply(s).errno && o.os.wsaError == NextReply(s).code
  {
    var reply := NextReply(s);
    var t := Begin(s, RecvCall(fd, count));
    if reply.Fail? then Step(-1, [], t.(errno := reply.errno, wsaError := reply.code))
    else if fd !in s.fds then Step(-1, [], t.(errno := EBADF, wsaError := WSAENOTSOCK))
    else
      var d := s.fds[fd];
      var n := Limit(reply, if count < |d.bytes| then count else |d.bytes|);
      Step(n, d.bytes[..n], t.(fds := s.fds[fd := d.(bytes := d.bytes[n..])], errno := ErrnoAfterSuccess(reply, s.errno)))
  }

  /** The socket layer's `send(fd, buf, count, 0)`: the bytes leave for the peer. */
  function Send(s: State, fd: int, data: seq<byte>): (o: Step)
    ensures o.os.trace == s.trace + [SendCall(fd, data)]
    ensures o.os.replies == Rest(s.replies) && o.os.lastError == s.lastError
    ensures o.os.fds == s.fds && o.data == []
    ensures o.ret == -1 || (fd in s.fds && 0 <= o.ret <= |data| && o.os.wsaError == s.wsaError)
    ensures NextReply(s).Fail? ==> o.ret == -1 && o.os.errno == NextReply(s).errno && o.os.wsaError == NextReply(s).code
  {
    var reply := NextReply(s);
    var t := Begin(s, SendCall(fd, data));
    if reply.Fail? then Step(-1, [], t.(errno := reply.errno, wsaError := reply.code))
    else if fd !in s.fds then Step(-1, [], t.(errno := EBADF, wsaError := WSAENOTSOCK))
    else Step(Limit(reply, |data|), [], t.(errno := ErrnoAfterSuccess(reply, s.errno)))
  }

  /** `SocketFileDescriptorMap::close(fd)`: closes the socket and drops it from the registry. */
  function SocketClose(s: State, fd: int): (o: Step)
    ensures o.os.trace == s.trace + [SocketCloseCall(fd)]
    ensures o.os.replies == Rest(s.replies) && o.data == []
    ensures o.ret == 0 || o.ret == -1
    ensures o.ret == 0 <==> fd in s.fds && !NextReply(s).Fail?
    ensures o.os.fds == if o.ret == 0 then s.fds - {fd} else s.fds
  {
    var reply := NextReply(s);
    var t := Begin(s, SocketCloseCall(fd));
    if reply.Fail? then Step(-1, [], t.(errno := reply.errno, wsaError := reply.code))
    else if fd !in s.fds then Step(-1, [], t.(errno := EBADF, wsaError := WSAENOTSOCK))
    else Step(0, [], t.(fds := s.fds - {fd}, errno := ErrnoAfterSuccess(reply, s.errno)))
  }

  /** `_close(fd)`. */
  function FileClose(s: State, fd: int): (o: Step)
    ensures o.os.trace == s.trace + [FileCloseCall(fd)]
    ensures o.os.replies == Rest(s.replies) && o.data == []
    ensures o.ret == 0 || o.ret == -1
    ensures o.ret == 0 <==> fd in s.fds && !NextReply(s).Fail?
    ensures o.os.fds == if o.ret == 0 then s.fds - {fd} else s.fds
  {
    var reply := NextReply(s);
    var t := Begin(s, FileCloseCall(fd));
    if reply.Fail? then Step(-1, [], t.(errno := reply.errno, lastError := reply.code))
    else if fd !in s.fds then Step(-1, [], t.(errno := EBADF))
    else Step(0, [], t.(fds := s.fds - {fd}, errno := ErrnoAfterSuccess(reply, s.errno)))
  }

  /** `SetEndOfFile(h)`: a Win32 BOOL (1 or 0); the file ends at the current position. */
  function SetEndOfFile(s: State, fd: int): (o: Step)
    ensures o.os.trace == s.trace + [SetEndOfFileCall(fd)]
    ensures o.os.replies == Rest(s.replies) && o.data == []
    ensures o.os.errno == s.errno && o.os.wsaError == s.wsaError
    ensures o.ret == 1 || o.ret == 0
    ensures o.ret == 1 <==> HandleValid(s, fd) && !NextReply(s).Fail?
    ensures o.ret == 1 ==> o.os.fds == s.fds[fd := s.fds[fd].(bytes := Resize(s.fds[fd].bytes, s.fds[fd].pos))]
    ensures o.ret == 0 ==> o.os.fds == s.fds
  {
    var reply := NextReply(s);
    var t := Begin(s, SetEndOfFileCall(fd));
    if reply.Fail? then Step(0, [], t.(lastError := reply.code))
    else if !HandleValid(s, fd) then Step(0, [], t.(lastError := ERROR_INVALID_HANDLE))
    else
      var d := s.fds[fd];
      Step(1, [], t.(fds := s.fds[fd := d.(bytes := Resize(d.bytes, d.pos))]))
  }

  /** `GetNamedPipeHandleState(h, &state, ...)`. */
  function PipeState(s: State, fd: int): (o: PipeQuery)
    ensures o.os.trace == s.trace + [PipeStateCall(fd)]
    ensures o.os.replies == Rest(s.replies)
    ensures o.os.fds == s.fds && o.os.errno == s.errno && o.os.wsaError == s.wsaError
    ensures o.ok <==> IsPipeHandle(s, fd) && !NextReply(s).Fail?
    ensures o.ok ==> o.state == s.fds[fd].pipe.state && o.os.lastError == s.lastError
  {
    var reply := NextReply(s);
    var t := Begin(s, PipeStateCall(fd));
    if reply.Fail? then PipeQuery(false, 0, t.(lastError := reply.code))
    else if !IsPipeHandle(s, fd) then PipeQuery(false, 0, t.(lastError := ERROR_INVALID_HANDLE))
    else PipeQuery(true, s.fds[fd].pipe.state, t)
  }

  function Min(a: int, b: int): int {
    if a <= b then a else b
  }
}
