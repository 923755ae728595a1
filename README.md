# folly `Unistd.cpp` (Windows branch) in Dafny

On Windows, folly's `Unistd.cpp` provides POSIX descriptor calls by hand. This
project models three parts of it:

- **Positional I/O.** `pread`, `pread64` and `pwrite` go through
  `wrapPositional`. It saves the position with one seek, seeks to the
  requested offset, runs a plain `_read` or `_write`, and seeks back. It keeps
  the callback's `errno` when the seek back succeeds. When the seek back
  fails, it reports -1.
- **Kind dispatch.** `close`, `read` and `write` ask the socket registry
  whether the descriptor is a socket. They then use either the socket layer
  (`recv`, `send`, the registry's close) or the C runtime (`_read`, `_write`,
  `_close`). Native "would block", "no data" and "non-blocking pipe full"
  conditions are turned into `EAGAIN`.
- **`ftruncate`.** It saves the position, seeks to `len`, calls
  `SetEndOfFile`, and seeks back.

The operating system is modelled in two forms:

- `Native.State` is a value. It holds the descriptor table (kind, handle
  validity, position, bytes, pipe mode), `errno`, `GetLastError` and
  `WSAGetLastError`. It also holds a queue of oracle replies and a log of the
  native calls made.
- `WinOs.Os` is a class with those same fields.

Each native primitive takes the oracle's next reply: `Ok`, `Partial(n)`,
`Clobber(errno)` or `Fail(errno, code)`. An empty queue means `Ok`. The reply
decides whether the call fails, so a caller can steer every failure path.

There are four layers:

- `Native` defines one function per primitive.
- `WinOs.Os` defines one method per primitive. Each method updates the fields
  step by step and is proved to match its `Native` function.
- `UnistdSpec` gives each entry point of the source as a function of the
  native state.
- `Unistd` gives each entry point as an imperative method over an `Os`. Each
  method makes the native calls in the source's order and is proved to end
  in exactly the result and state that `UnistdSpec` gives.

The lemmas in `UnistdProps` state the behaviour of the source: which call
each failure stops at, which `errno` survives, where the position ends up,
and the routing and error-translation tables.

The model follows the code as written, line 60 included. That line saves the
position with `seek(fd, offset, SEEK_CUR)`, so the "saved" position is
start + offset. After a successful `pread`/`pwrite` the descriptor is
therefore `offset` bytes further on than before, as `PositionDriftsByOffset`
and `PreadDriftAccumulates` show. The design intent is that the position is
unchanged. The corrected emulation, which seeks by 0 as `ftruncate` does, is
`UnistdSpec.WrapPositionalIntended`, and its own lemmas prove the intended
property. `pread`, `pread64` and `pwrite` themselves stay as written.

Modelling choices for the native layer (the source does not contain these
primitives):

- An unknown descriptor fails with `EBADF`.
- A seek whose target is negative, or beyond the offset type (`long` for
  `_lseek`, 64-bit for `_lseeki64`), fails with `EINVAL`.
- `_read` and `_write` refuse a count above `INT_MAX` with `EINVAL`, so their
  `int` result always fits.
- Writing past the end fills the gap with zero bytes.
- `SetEndOfFile` cuts or zero-extends the file at the current position.
- `_lseek` and `_lseeki64` do not check handle validity: they succeed on a
  known descriptor whose `_get_osfhandle` is `INVALID_HANDLE_VALUE`, while
  `_read`, `_write` and `SetEndOfFile` fail on it. This keeps the early exit of
  `ftruncate` at line 132 reachable, after its two seeks have succeeded.
- Socket receive takes from the socket's waiting bytes. Sent bytes appear
  only in the call log.

## Model

| member | source | states |
|---|---|---|
| `Native.LSeek` | folly/portability/Unistd.cpp:174-180 | `lseek`/`lseek64` (`_lseek`/`_lseeki64`): returns -1, or the new position `base + offset` within the width's range; only on success is the descriptor's position set to it; an injected failure sets `errno`; exactly one seek is logged |
| `Native.CrtRead` | folly/portability/Unistd.cpp:218 | `_read`: -1 leaves the table unchanged and delivers nothing; otherwise it returns `n <= count <= INT_MAX`, delivers the `n` bytes at the position, and advances the position by `n`; without a partial reply, `n` is the smaller of `count` and the bytes left |
| `Native.CrtWrite` | folly/portability/Unistd.cpp:311 | `_write`: -1 leaves the table unchanged; otherwise it returns `n <= count`, writes the first `n` bytes at the position and advances it by `n`; without a partial reply, `n == count` |
| `Native.Recv` | folly/portability/Unistd.cpp:211 | socket `recv`: -1, or `n <= count` bytes taken from the front of the waiting data; an injected failure sets `errno` and `WSAGetLastError` |
| `Native.Send` | folly/portability/Unistd.cpp:304 | socket `send`: -1, or `n <= count`; the descriptor table is unchanged |
| `Native.SocketClose` | folly/portability/Unistd.cpp:98 | registry close: 0 exactly when the descriptor is known and no failure was injected; then it is removed from the table |
| `Native.FileClose` | folly/portability/Unistd.cpp:100 | `_close`: 0 exactly when the descriptor is known and no failure was injected; then it is removed from the table |
| `Native.SetEndOfFile` | folly/portability/Unistd.cpp:135 | `SetEndOfFile`: TRUE exactly when the handle is valid and no failure was injected; then the file is resized to the current position; `errno` is never touched |
| `Native.PipeState` | folly/portability/Unistd.cpp:320-321 | `GetNamedPipeHandleState`: succeeds exactly for a valid pipe handle without an injected failure, reporting that pipe's state word; the table and `errno` are unchanged |
| `WinOs.Os.LSeek` | folly/portability/Unistd.cpp:174-180 | the object's fields move exactly as `Native.LSeek` says |
| `WinOs.Os.CrtRead` | folly/portability/Unistd.cpp:218 | the result, the delivered bytes and the fields are those of `Native.CrtRead` |
| `WinOs.Os.CrtWrite` | folly/portability/Unistd.cpp:311 | the result and the fields are those of `Native.CrtWrite` |
| `WinOs.Os.Recv` | folly/portability/Unistd.cpp:211 | the result, the delivered bytes and the fields are those of `Native.Recv` |
| `WinOs.Os.Send` | folly/portability/Unistd.cpp:304 | the result and the fields are those of `Native.Send` |
| `WinOs.Os.SocketClose` | folly/portability/Unistd.cpp:98 | the result and the fields are those of `Native.SocketClose` |
| `WinOs.Os.FileClose` | folly/portability/Unistd.cpp:100 | the result and the fields are those of `Native.FileClose` |
| `WinOs.Os.SetEndOfFile` | folly/portability/Unistd.cpp:135 | the BOOL and the fields are those of `Native.SetEndOfFile` |
| `WinOs.Os.PipeState` | folly/portability/Unistd.cpp:320-321 | the success flag, the state word and the fields are those of `Native.PipeState` |
| `UnistdSpec.Seek` | folly/portability/Unistd.cpp:46-55 | `seek<is64Bit>` calls the 64-bit seek exactly when `is64Bit`; it returns -1 or a position within that width |
| `UnistdSpec.WrapPositional` | folly/portability/Unistd.cpp:57-83 | the result is -1 or fits in `int`; the call makes one to four native calls and only appends to the log; every call that does not return -1 makes all four |
| `UnistdSpec.WrapPositionalIntended` | folly/portability/Unistd.cpp:59-83 | the corrected emulation, saving the position with a seek by 0: the result is -1 or fits in `int`, and every call that does not return -1 makes all four native calls |
| `UnistdSpec.Pread` | folly/portability/Unistd.cpp:192-195 | at most `count mod 2^32` bytes are delivered (the `unsigned int` cast); a non-failing result is the number delivered; the first call is a 32-bit relative seek by `offset` |
| `UnistdSpec.Pread64` | folly/portability/Unistd.cpp:197-200 | like `Pread`, but the first call is a 64-bit seek |
| `UnistdSpec.Pwrite` | folly/portability/Unistd.cpp:202-205 | the result is -1 or at most `count mod 2^32`; the first call is a 32-bit relative seek by `offset` |
| `UnistdSpec.Close` | folly/portability/Unistd.cpp:96-101 | exactly one close runs: the registry close for a socket-kind descriptor, `_close` otherwise; the result is 0 or -1 |
| `UnistdSpec.Read` | folly/portability/Unistd.cpp:207-226 | a socket with a valid handle makes exactly one `recv` of `count`; anything else makes exactly one `_read` of `count mod 2^32`; a non-failing result is the number of bytes delivered, at most `count` |
| `UnistdSpec.Write` | folly/portability/Unistd.cpp:300-330 | a socket with a valid handle makes exactly one `send` of all `count` bytes; anything else makes one `_write` of `count mod 2^32` bytes, possibly followed by one pipe-state query; the result is -1 or at most `count` |
| `UnistdSpec.Ftruncate` | folly/portability/Unistd.cpp:122-142 | the result is 0 or -1; on 0 the descriptor is as before except that its bytes are resized to `len`, its position included |
| `Unistd.Seek` | folly/portability/Unistd.cpp:46-55 | result and new OS state equal `UnistdSpec.Seek` |
| `Unistd.Callback` | folly/portability/Unistd.cpp:70 | running `_read` or `_write`: result, bytes and new OS state equal `UnistdSpec.Callback` |
| `Unistd.WrapPositional` | folly/portability/Unistd.cpp:57-83 | result, bytes delivered and new OS state equal `UnistdSpec.WrapPositional` |
| `Unistd.Pread` | folly/portability/Unistd.cpp:192-195 | result, bytes and new OS state equal `UnistdSpec.Pread` |
| `Unistd.Pread64` | folly/portability/Unistd.cpp:197-200 | result, bytes and new OS state equal `UnistdSpec.Pread64` |
| `Unistd.Pwrite` | folly/portability/Unistd.cpp:202-205 | result and new OS state equal `UnistdSpec.Pwrite` |
| `Unistd.Close` | folly/portability/Unistd.cpp:96-101 | result and new OS state equal `UnistdSpec.Close` |
| `Unistd.Read` | folly/portability/Unistd.cpp:207-226 | result, bytes and new OS state equal `UnistdSpec.Read` |
| `Unistd.Write` | folly/portability/Unistd.cpp:300-330 | result and new OS state equal `UnistdSpec.Write` |
| `Unistd.Ftruncate` | folly/portability/Unistd.cpp:122-142 | result and new OS state equal `UnistdSpec.Ftruncate` |
| `UnistdProps.SaveSeekFailureStops` | folly/portability/Unistd.cpp:60-63 | if the first seek returns -1, the call returns -1 and only that seek was made; the table is unchanged and `errno` is the seek's |
| `UnistdProps.TargetSeekFailureSkipsCallback` | folly/portability/Unistd.cpp:65-68 | if the absolute seek returns -1, the call returns -1 after exactly the two seeks; the callback never runs, `errno` is the second seek's, and the descriptor is left at start + `offset`, where the first seek put it |
| `UnistdProps.NegativeOffsetPreadMovesThenFails` | folly/portability/Unistd.cpp:60-68 | `pread` with a negative `offset` whose sum with the start position is not negative, no injected failure: -1 with `EINVAL`, no bytes, and the descriptor moved back by `-offset` |
| `UnistdProps.CallbackRunsAtOffset` | folly/portability/Unistd.cpp:65-73 | once both seeks succeed, the log is exactly: relative seek by `offset`, absolute seek to `offset`, the callback at position `offset`, absolute seek to start + offset |
| `UnistdProps.RestoreSuccessReportsCallback` | folly/portability/Unistd.cpp:70-82 | if the restoring seek succeeds, the result and bytes are the callback's; `errno` is its value right after the callback, even when the seek overwrote it; the table is the callback's, with the position set to the first seek's result |
| `UnistdProps.RestoreFailureReportsFailure` | folly/portability/Unistd.cpp:72-79 | if the restoring seek fails, the result is -1 even after a successful callback; `errno` is the callback's when it returned -1, else the failed seek's; the position stays where the callback left it |
| `UnistdProps.PositionDriftsByOffset` | folly/portability/Unistd.cpp:59-83 | after a completed call the position is start + offset, and it equals start exactly when `offset == 0` |
| `UnistdProps.ZeroCountRunsFullSequence` | folly/portability/Unistd.cpp:59-83 | `pread` of 0 bytes is not short-circuited: after the two seeks, a 0-byte `_read` at `offset` and the restoring seek still run; the result is 0 or -1 and no bytes arrive; with no injected failure and a valid handle it is 0 |
| `UnistdProps.NarrowSaveSeekOverflows` | folly/portability/Unistd.cpp:60 | with 32-bit `off_t`, `pread` at a valid offset fails with `EINVAL` after one seek, reading nothing, whenever start + offset exceeds `LONG_MAX` |
| `UnistdProps.PreadShiftsByOffset` | folly/portability/Unistd.cpp:192-195 | with no failure injected, one `pread` leaves the descriptor `offset` further on, with its bytes unchanged |
| `UnistdProps.PreadDriftAccumulates` | folly/portability/Unistd.cpp:192-195 | `k` successive `pread`s at `offset` leave the descriptor `k * offset` further on |
| `UnistdProps.IntendedRestoresPosition` | folly/portability/Unistd.cpp:59-83 | the corrected emulation leaves the position where it was whenever its restoring seek succeeds |
| `UnistdProps.IntendedKeepsPositionAcrossCalls` | folly/portability/Unistd.cpp:59-83 | with no failure injected, any number of corrected calls leave the position and the bytes unchanged |
| `UnistdProps.PreadAtZeroThenRead` | folly/portability/Unistd.cpp:192-195 | `pread` at offset 0 returns the first `count` bytes of the file, and the next `read` gets the byte at the old position |
| `UnistdProps.PreadAtOffsetShiftsNextRead` | folly/portability/Unistd.cpp:60 | as written, after `pread` at a positive offset the position has moved, and the next `read` gets the byte `offset` past the old position |
| `UnistdProps.IntendedPreadThenRead` | folly/portability/Unistd.cpp:59-83 | with the corrected emulation, the next `read` after a positional read gets the byte at the old position |
| `UnistdProps.CloseRouting` | folly/portability/Unistd.cpp:96-101 | `close` is the registry close for a socket-kind descriptor and `_close` otherwise; the descriptor leaves the table exactly when close returns 0 |
| `UnistdProps.ReadSocketTranslation` | folly/portability/Unistd.cpp:208-216 | a socket with a valid handle: only `recv` runs; its result, bytes and table are returned; `errno` becomes `EAGAIN` exactly on -1 with `WSAEWOULDBLOCK`, else it is `recv`'s |
| `UnistdProps.ReadFileTranslation` | folly/portability/Unistd.cpp:218-225 | a file descriptor, or a socket with `INVALID_SOCKET`: only `_read` runs; `errno` becomes `EAGAIN` exactly on -1 with `ERROR_NO_DATA`; every other outcome is returned unchanged |
| `UnistdProps.WriteSocketTranslation` | folly/portability/Unistd.cpp:301-309 | a socket with a valid handle: `send`'s result and table are returned; `errno` becomes `EAGAIN` exactly on -1 with `WSAEWOULDBLOCK` |
| `UnistdProps.WriteFileTranslation` | folly/portability/Unistd.cpp:311-329 | file path: -1 with `EAGAIN` when the write was short and positive or failed with `ENOSPC`, on a pipe whose state query succeeds with `PIPE_NOWAIT`; in every other case (0 bytes, a non-pipe, a blocking pipe, a failed query) `_write`'s result and `errno` are returned |
| `UnistdProps.PartialPipeWriteReportedAsFailure` | folly/portability/Unistd.cpp:311-325 | a partial `_write` to a non-blocking pipe is reported as -1/`EAGAIN` although its bytes were written and the position advanced |
| `UnistdProps.FtruncateSucceeds` | folly/portability/Unistd.cpp:122-141 | when all steps succeed: the result is 0; the log is a zero-offset position query, a seek to `len`, `SetEndOfFile`, and a seek back to the old position; the position is restored and the file is resized to `len` |
| `UnistdProps.FtruncateEarlyExitLeavesPositionAtLen` | folly/portability/Unistd.cpp:131-137 | an invalid handle or a failed `SetEndOfFile` returns -1 with no seek back; the position stays at `len` and the bytes are untouched |

## Left out

- The `__APPLE__` branch (lines 23-34) just forwards `lseek64` and `pread64`.
- These are 1:1 renamings or constants: `access`, `chdir`, `dup`, `dup2`,
  `getcwd`, `getdtablesize`, `getgid`, `getppid`, `getuid`, `isatty`,
  `lockf`, `rmdir`, `sbrk`. `lseek` and `lseek64` (174-180) only forward to
  `_lseek`/`_lseeki64`, so they are folded into `Native.LSeek` with its width
  parameter.
- `fsync`, `pipe`, `sleep`, `usleep` and `sysconf` are thin calls to
  `FlushFileBuffers`, `socketpair`, `Sleep` and `GetSystemInfo`.
- `readlink` and `truncate` are mostly `CreateFileA`,
  `GetFinalPathNameByHandleA` and `_open` plumbing. Note that `truncate`
  tests `!fd` rather than `fd == -1`.
- The descriptor registry (`is_fh_socket`, `SocketFileDescriptorMap`) and the
  socket layer's `recv`/`send` are foreign services. They are modelled only
  as queries of the descriptor table and as oracle-driven calls.
- `_get_osfhandle` is a pure query of handle validity. The model does not
  let it set `errno`.
- `GetFileType` is a pure query: "is this a valid pipe handle".
- Threads are not modelled. Only single-threaded call sequences are; the
  emulation is not atomic, and interleaved seeks on one descriptor are out
  of scope.
- Caller buffers are values. A read returns the bytes it delivered instead
  of writing them into caller memory. A write takes the caller's bytes as a
  sequence and requires at least `count` of them, as the C contract does.
- Positional I/O on sockets is not modelled meaningfully. `wrapPositional`
  does not check the descriptor's kind, so a `pread` on a socket-kind
  descriptor seeks it and reads its `bytes` at `pos` without consuming them,
  whereas `recv` takes the same `bytes` from the front.
- The `size_t` range of `count` is not enforced. Any natural number is
  accepted; the `(unsigned int)` casts are modelled as reduction mod 2^32,
  and the `size_t` comparison on line 312 is modelled exactly.

## Findings

| source | as written | input that shows it | evidently intended | confidence | as-written member | corrected member |
|---|---|---|---|---|---|---|
| folly/portability/Unistd.cpp:60 | `wrapPositional` saves the position with `seek(fd, offset, SEEK_CUR)`, which moves the descriptor by `offset` and returns start + offset, and later restores to that value | a file positioned at 100, `pread(fd, buf, 10, 5)`: the descriptor ends at 105, and the next `read` returns the byte at 105 instead of 100; at position 100, `pread(fd, buf, 10, -5)` returns -1 with `EINVAL` and leaves the descriptor at 95 (`NegativeOffsetPreadMovesThenFails`); with 32-bit `off_t`, a descriptor near `LONG_MAX` makes any positive-offset `pread` fail with `EINVAL` | query the position with `seek(fd, 0, SEEK_CUR)`, as `ftruncate` does on line 123, so that the position after the call equals the position before it | high; not executed | `UnistdProps.PreadAtOffsetShiftsNextRead` | `UnistdSpec.WrapPositionalIntended` |

The corrected emulation's intended property is proved by
`UnistdProps.IntendedRestoresPosition`, `UnistdProps.IntendedKeepsPositionAcrossCalls`
and `UnistdProps.IntendedPreadThenRead`. `pread`, `pread64` and `pwrite` are
still modelled with the code as written, so that every property above
describes the shipped behaviour.
