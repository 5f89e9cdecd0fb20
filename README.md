# compio-openssl: the retry loops of `SslStream`, in Dafny

compio-openssl adapts OpenSSL's blocking-style `ssl::SslStream` to compio's
completion-based I/O. The OpenSSL engine never touches the socket itself. It
reads and writes two in-memory buffers of a `SyncStream`. When the engine
asks for I/O, the adapter moves bytes between those buffers and the real
transport (`flush_write_buf`, `fill_read_buf`) and calls the engine again;
which signals count as such a request differs per loop (`read` treats
WANT_WRITE as fatal, `write` treats WANT_READ as fatal). This model covers the
five loops in `src/lib.rs` that do this:

- `ssl_async_do`, which drives `accept`, `connect`, `peek` and the two
  early-data calls;
- `AsyncRead::read`;
- `AsyncWrite::write`, `flush` and `shutdown`;
- `ssl_err_into_io`, the mapping of an engine error to an `io::Error`.

## How the model is built

- **The engine and the transport are oracles** (`oracles.dfy`). An `Oracle`
  holds one queue of answers for each foreign entry point: the `ssl_*` call,
  the engine stream's `flush`, the engine's `shutdown`, `flush_write_buf`,
  `fill_read_buf` and the transport's own `shutdown`. Each call takes the next
  answer from its queue. The call and its answer are recorded as an `Event`.
  When a queue is empty the operation stops there and is `Pending`. For the
  awaited transport calls (`flush_write_buf`, `fill_read_buf`, the transport's
  `shutdown`) this is a future that never completes. The engine calls are
  synchronous and always return; an empty engine queue only means the oracle
  supplies no further answers, so the run is cut off at that call.
- **Each loop is also written as a decision table** (`policies.dfy`). A
  `...Next` function maps the events of the current operation so far to a
  `Step`: do one more action, or return a result. `Driver.Drive` runs such a
  table against an oracle.
  - `Driver.DriveConforms` and `Driver.ConformingRunIsDriven` characterise
    `Drive` completely, in both directions, with the predicate `Conforms`.
  - `Driver.StepAt` turns that into the per-position statement `DoesAt`: after
    the first `i` events, the run returns the step's result, makes the step's
    call (recorded as event `i`), or stops at it for want of an answer.
- **`Stream.SslStream` is the adapter object** (`stream.dfy`). Its fields are
  the `oracle` still to be consumed and the `log` of the current operation.
  - Its primitive methods (`SslCall`, `FlushWriteBuf`, ...) are the foreign
    calls.
  - Each of the five loops is a `while` loop that mirrors the Rust `match`
    arms. Its postcondition says the loop's result, remaining oracle and log
    are exactly the run of its decision table.
- **`properties.dfy` states what each loop does, event by event.** This is
  the behaviour the source's match arms promise: what comes after each kind
  of answer, which calls happen only after which answers, and which calls a
  loop never makes.
- **The read path's retry on SYSCALL without an I/O error is kept as
  written.** `Properties.ReadSpinsOnSyscall` shows what it implies: for every
  finite run of such answers, `read` calls the engine again at once after each
  one, consumes them all, makes no transport call, and has not returned when
  they run out.

## Model

| member | source | states |
|---|---|---|
| Errors.SslErrIntoIo | src/lib.rs:155-158 | an engine error that carries an `io::Error` becomes exactly that error; any other is kept whole, wrapped with kind `Other` |
| Driver.DriveConforms | src/lib.rs:133-145 | about `Drive`, the `loop` all five operations share: the run of a loop extends the events so far; each new event answers the action the loop chose at that point; the answers consumed are exactly those recorded, in order; a returned result is the loop's decision after the last event; a pending run stopped at an action whose queue is empty |
| Driver.ConformingRunIsDriven | src/lib.rs:133-145 | conversely, any run that conforms to a loop's decisions is the run `Drive` produces: the decisions and the answers fix the whole run |
| Driver.StepAt | src/lib.rs:133-145 | at every point of a run, the loop returns, calls, or stops for want of an answer exactly as its decision after the events so far says |
| Driver.StepAround | src/lib.rs:133-145 | each recorded event answers the action chosen before it, and the run then does what the decision after it says |
| Policies.AsyncDoNext | src/lib.rs:133-145 | the `ssl_async_do` table: start with `f`; `Ok(n)` → return `Ok(n)`; WANT_READ/WANT_WRITE → flush the write buffer; flush `Ok(0)` → fill the read buffer; flush `Ok(k>0)` or a fill → call `f` again; other code → mapped error; transport error → that error. Its contract: the only calls are `f` and the two transfers, a success is exactly the engine's `Ok(n)`, and a fill follows only a flush that sent nothing |
| Policies.ReadNext | src/lib.rs:163-183 | the `read` table: read into the whole buffer; `Ok(n)` → return `n` with initialised length `n`; ZERO_RETURN → return 0; WANT_READ → fill, then read again; SYSCALL without I/O error → read again at once; other code → mapped error; fill error → that error. Its contract: the only calls are whole-buffer reads and fills, and every exit hands back the buffer, changed only in its initialised length and only by a successful read of that length |
| Policies.WriteNext | src/lib.rs:193-208 | the `write` table: write the slice; `Ok(n)` → flush once, then return `n` or the flush error; WANT_WRITE → flush, then write the same slice again; other code → mapped error. Its contract: the only calls are writes of the same slice and write-buffer flushes, the slice is handed back on every exit, and a count is returned only when the engine accepted it and the flush right after succeeded |
| Policies.FlushNext | src/lib.rs:214-225 | the `flush` table: flush the engine; `Ok` → flush the write buffer, then return `Ok(())`; `WouldBlock` → flush the write buffer, then loop; other error → returned unchanged; transport error → that error. Its contract: the only calls are the two flushes, and success comes only after an engine flush followed by a successful write-buffer flush |
| Policies.ShutdownNext | src/lib.rs:229-250 | the `shutdown` table: shut the engine down; `Sent`/WANT_WRITE → flush; WANT_READ → fill; each then loops; `Received`/SYSCALL without I/O error → shut the transport down and return its answer; other code → mapped error. Its contract: no engine read, write or flush is made, the transport is shut down only after `Received` or SYSCALL without I/O error, and success is exactly the transport's own successful answer |
| Stream.SslStream.SslCall | src/lib.rs:134 | one engine call takes the next engine answer, records it, and advances the run by one event; the engine call itself always returns, so with no answer left the run is only cut off there |
| Stream.SslStream.EngineFlush | src/lib.rs:215 | the engine stream's `flush` takes the next flush answer, records it, and advances the run by one event |
| Stream.SslStream.EngineShutdown | src/lib.rs:230 | the engine's `shutdown` takes the next shutdown answer, records it, and advances the run by one event |
| Stream.SslStream.FlushWriteBuf | src/lib.rs:138 | `flush_write_buf` takes the next answer (bytes sent or an error), records it, and advances the run by one event |
| Stream.SslStream.FillReadBuf | src/lib.rs:139 | `fill_read_buf` takes the next answer, records it, and advances the run by one event |
| Stream.SslStream.TransportShutdown | src/lib.rs:250 | the transport's `shutdown` takes the next answer, records it, and advances the run by one event |
| Stream.SslStream.AsyncDo | src/lib.rs:129-146 | the loop's result, the answers left and the calls made are exactly the run of the `ssl_async_do` decision table |
| Stream.SslStream.Accept | src/lib.rs:59-61 | `accept` is `ssl_async_do` over the accept call, with the count dropped from a success |
| Stream.SslStream.Connect | src/lib.rs:66-68 | `connect` is `ssl_async_do` over the connect call, with the count dropped from a success |
| Stream.SslStream.ReadEarlyData | src/lib.rs:78-80 | reading early data is `ssl_async_do` over the early-data read |
| Stream.SslStream.WriteEarlyData | src/lib.rs:88-90 | writing early data is `ssl_async_do` over the early-data write |
| Stream.SslStream.Peek | src/lib.rs:95-97 | `peek` is `ssl_async_do` over the peek call |
| Stream.SslStream.Read | src/lib.rs:160-184 | the loop's result, buffer, answers left and calls made are exactly the run of the `read` decision table |
| Stream.SslStream.Write | src/lib.rs:191-209 | the loop's result, the slice handed back, the answers left and the calls made are exactly the run of the `write` decision table |
| Stream.SslStream.Flush | src/lib.rs:213-226 | the loop's result, answers left and calls made are exactly the run of the `flush` decision table |
| Stream.SslStream.Shutdown | src/lib.rs:228-251 | the loop and the transport shutdown after it give exactly the run of the `shutdown` decision table |
| Properties.AsyncDoStarts | src/lib.rs:133-134 | `ssl_async_do` first calls `f` |
| Properties.AsyncDoAfterCall | src/lib.rs:134-142 | every engine call is `f`; `Ok(n)` returns `Ok(n)` at once; WANT_READ and WANT_WRITE lead to a flush of the write buffer first; any other code returns the mapped error with no retry |
| Properties.AsyncDoAfterFlush | src/lib.rs:137-140 | the write buffer is flushed only right after a WANT signal; a flush that sent 0 bytes leads to a fill; one that sent bytes leads to calling `f` again; a flush error is returned |
| Properties.AsyncDoAfterFill | src/lib.rs:138-140 | the read buffer is filled only after a WANT signal whose flush sent 0 bytes; a fill leads to calling `f` again, or its error is returned |
| Properties.AsyncDoEvents | src/lib.rs:133-145 | `ssl_async_do` makes no calls other than `f`, `flush_write_buf` and `fill_read_buf` |
| Properties.ReadStarts | src/lib.rs:162-164 | `read` first reads into the whole buffer |
| Properties.ReadAfterCall | src/lib.rs:164-181 | every engine read uses the whole buffer; `Ok(n)` returns `n` and sets the buffer's initialised length to `n`; ZERO_RETURN returns 0; WANT_READ leads to one fill; SYSCALL with no I/O error leads straight to another read; WANT_WRITE and every other code return the mapped error; the buffer comes back in every case |
| Properties.ReadAfterFill | src/lib.rs:174-178 | a fill happens only right after WANT_READ; it leads to another read, or returns its error with the buffer |
| Properties.ReadEvents | src/lib.rs:162-183 | `read` never flushes the write buffer |
| Properties.ReadHandsBackBuffer | src/lib.rs:166-181 | whenever `read` returns, it hands back the caller's buffer; only the initialised length may differ, and only when the last read returned `Ok` of that length |
| Properties.ReadSpinsFrom | src/lib.rs:180 | from any point of `read` where the engine answers only SYSCALL with no I/O error, the run consumes all those answers as reads of the whole buffer, with no transport action, and has not returned when they run out |
| Properties.ReadSpinsOnSyscall | src/lib.rs:180 | the SYSCALL retry makes no transport call: against such answers `read` consumes all of them, makes no other call, and has not returned when they run out |
| Properties.WriteStarts | src/lib.rs:193-194 | `write` first writes the caller's slice |
| Properties.WriteAfterCall | src/lib.rs:194-206 | every retry writes the same slice; `Ok(n)` and WANT_WRITE lead to a flush of the write buffer; any other code returns the mapped error with the slice |
| Properties.WriteAfterFlush | src/lib.rs:196-204 | a flush follows only an accepted write or WANT_WRITE; after `Ok(n)` exactly one flush follows and the result is `n`, or that flush's error; after WANT_WRITE the slice is written again, or the flush error is returned |
| Properties.WriteEvents | src/lib.rs:193-208 | `write` never fills the read buffer |
| Properties.FlushStarts | src/lib.rs:214-215 | `flush` first flushes the engine stream |
| Properties.FlushAfterEngine | src/lib.rs:215-223 | an engine success and `WouldBlock` both lead to a flush of the write buffer; any other engine error is returned unchanged, with no transport action |
| Properties.FlushAfterWriteBuf | src/lib.rs:216-222 | the write buffer is flushed only after an engine success or `WouldBlock`; after a success that flush is the last call and `Ok(())` or its error is returned; after `WouldBlock` the loop flushes the engine again, or returns the error |
| Properties.FlushEvents | src/lib.rs:214-225 | `flush` makes no calls other than the engine flush and `flush_write_buf` |
| Properties.ShutdownStarts | src/lib.rs:229-230 | `shutdown` first calls the engine's shutdown |
| Properties.ShutdownAfterEngine | src/lib.rs:230-247 | `Sent` and WANT_WRITE lead to a flush; WANT_READ leads to a fill; `Received` and SYSCALL with no I/O error lead to the transport's shutdown; any other code returns the mapped error without shutting the transport down |
| Properties.ShutdownAfterTransfer | src/lib.rs:232-243 | a flush follows only `Sent` or WANT_WRITE, and a fill only WANT_READ; each leads to another engine shutdown, or its error is returned |
| Properties.ShutdownAfterTransport | src/lib.rs:235-250 | the transport is shut down only right after `Received` or SYSCALL with no I/O error; that is the last call, and its answer is the result |
| Properties.ShutdownEvents | src/lib.rs:228-251 | `shutdown` never calls the engine's read/write entry points or its flush |

## Left out

- The OpenSSL engine (handshake, records, ciphers, the error stack) and `SyncStream`'s buffering are not modelled. Their answers come from the oracle, so every property holds for every sequence of answers.
- Which bytes the engine writes into the read buffer, and which bytes the flushes and fills move, are not modelled. The engine answers only with a count or an error.
- The async runtime, polling, wakers and cancellation are left out. An awaited transport call either completes with its next queued answer or never completes (`Pending`). An operation dropped mid-await has no counterpart in the model.
- Termination comes from the finite oracle. The Rust loops are unbounded. `Pending` is not a value the source returns: it marks a transport future that never completes, or, when an engine queue is empty, the point where the finite oracle cuts the run off.
- `Stream.SslStream.Read`: the oracle may answer `Ok(n)` with `n` larger than the buffer's capacity, and the model then sets the initialised length to `n`. The source relies on OpenSSL never reading more than the slice it is given; that guarantee belongs to the engine and is not stated or proved here.
- `ErrorKind` holds the kinds the loops look at (`WouldBlock`) and a few transport kinds. Every other kind is `Other`.
- `Stream.SslStream.Accept`, `Stream.SslStream.Connect`: the engine's answer for a completed handshake carries a count that is dropped. In the source that value is `()`.
- `Stream.SslStream.Read`: `IoBufMut::set_buf_init(n)` is modelled as setting the buffer's initialised length to `n`. The implementations of `set_buf_init` belong to compio and are not part of this model; an implementation may keep a longer initialised length, which the model does not capture.
- The constructor `SslStream::new`, the accessors `get_mut`, `get_ref` and `ssl`, `get_shutdown`, `set_shutdown`, the `From` conversion and `stateless` are not modelled. They only delegate to the engine and contain no loop.
- The `cfg` gating of the early-data calls is not modelled. Both calls are always present.
- `src/test.rs` and `build.rs` are not part of this model.
