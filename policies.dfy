/** The decision tables of the five retry loops of `SslStream` (src/lib.rs). Each
    `...Next` function says, from the events of the current operation so far,
    what the loop does next; it is the loop's `match` arms read as a table.
    `...Run` is the whole operation against an oracle. */
module Policies {
  import opened Errors
  import opened Oracles
  import opened Driver

  /** compio's `BufResult`: the outcome together with the buffer handed back. */
  datatype BufResult<+B> = BufResult(res: Result<nat, IoError>, buf: B)

  /** The caller's read buffer: its capacity and how much of it is initialised. */
  datatype IoBufMut = IoBufMut(capacity: nat, init: nat)

  function Last(done: seq<Event>): Event
    requires done != []
  {
    done[|done| - 1]
  }

  /** `ssl_async_do`: return on `Ok(n)`; on WANT_READ or WANT_WRITE flush the
      write buffer, fill the read buffer only if nothing was flushed, and call
      `f` again; fail on any other code and on a transport error. */
  function AsyncDoNext(f: Call, done: seq<Event>): (r: Step<Result<nat, IoError>>)
    // the only calls are `f` and the two buffer transfers
    ensures r.Do? ==> r.action in {InvokeSsl(f), AwaitFlushWriteBuf, AwaitFillReadBuf}
    // a success is exactly the engine's own `Ok(n)`
    ensures r.Finish? && r.result.Ok? ==>
      done != [] && Last(done).SslCalled? && Last(done).reply == Ok(r.result.value)
    // the read buffer is filled only when the flush before sent nothing
    ensures r == Do(AwaitFillReadBuf) ==> done != [] && Last(done) == WriteBufFlushed(Ok(0))
  {
    if done == [] then Do(InvokeSsl(f))
    else match Last(done)
      case SslCalled(_, Ok(n)) => Finish(Ok(n))
      case SslCalled(_, Err(e)) =>
        if e.IsWant() then Do(AwaitFlushWriteBuf) else Finish(Err(SslErrIntoIo(e)))
      case WriteBufFlushed(Ok(k)) => if k == 0 then Do(AwaitFillReadBuf) else Do(InvokeSsl(f))
      case WriteBufFlushed(Err(x)) => Finish(Err(x))
      case ReadBufFilled(Ok(_)) => Do(InvokeSsl(f))
      case ReadBufFilled(Err(x)) => Finish(Err(x))
      // events this loop never produces
      case _ => Do(InvokeSsl(f))
  }

  /** `AsyncRead::read`: on `Ok(n)` the buffer's initialised length becomes `n`;
      ZERO_RETURN is a clean end of stream and reads 0; WANT_READ fills the read
      buffer and retries; SYSCALL without an I/O error retries at once; anything
      else fails. The buffer is handed back on every exit. */
  function ReadNext(buf: IoBufMut, done: seq<Event>): (r: Step<BufResult<IoBufMut>>)
    // every read is into the whole buffer, and the write buffer is never flushed
    ensures r.Do? ==> r.action in {InvokeSsl(Read(buf.capacity)), AwaitFillReadBuf}
    // the buffer is handed back, its initialised length changed only by a successful read
    ensures r.Finish? ==> done != [] && r.result.buf == buf.(init := r.result.buf.init)
    ensures r.Finish? && r.result.buf != buf ==>
      Last(done).SslCalled? && Last(done).reply == Ok(r.result.buf.init) && r.result.res == Ok(r.result.buf.init)
  {
    if done == [] then Do(InvokeSsl(Read(buf.capacity)))
    else match Last(done)
      case SslCalled(_, Ok(n)) => Finish(BufResult(Ok(n), buf.(init := n)))
      case SslCalled(_, Err(e)) =>
        if e.code.ZeroReturn? then Finish(BufResult(Ok(0), buf))
        else if e.code.WantRead? then Do(AwaitFillReadBuf)
        else if e.code.Syscall? && e.NoIoError() then Do(InvokeSsl(Read(buf.capacity)))
        else Finish(BufResult(Err(SslErrIntoIo(e)), buf))
      case ReadBufFilled(Ok(_)) => Do(InvokeSsl(Read(buf.capacity)))
      case ReadBufFilled(Err(x)) => Finish(BufResult(Err(x), buf))
      // events this loop never produces
      case _ => Do(InvokeSsl(Read(buf.capacity)))
  }

  /** Did the event before the last one report that the engine accepted `n` bytes? */
  predicate AfterWriteAccepted(done: seq<Event>)
  {
    |done| >= 2 && done[|done| - 2].SslCalled? && done[|done| - 2].reply.Ok?
  }

  /** `AsyncWrite::write`: on `Ok(n)` flush the write buffer once and return `n`,
      or that flush's error; on WANT_WRITE flush and call again with the same
      slice; fail on any other code and on a transport error. */
  function WriteNext(data: seq<byte>, done: seq<Event>): (r: Step<BufResult<seq<byte>>>)
    // every write is of the same slice, and the read buffer is never filled
    ensures r.Do? ==> r.action in {InvokeSsl(Write(data)), AwaitFlushWriteBuf}
    // the slice is handed back on every exit
    ensures r.Finish? ==> done != [] && r.result.buf == data
    // a count is returned only once the engine accepted it and the flush after it succeeded
    ensures r.Finish? && r.result.res.Ok? ==>
      AfterWriteAccepted(done) && done[|done| - 2].reply == Ok(r.result.res.value)
      && Last(done).WriteBufFlushed? && Last(done).sent.Ok?
  {
    if done == [] then Do(InvokeSsl(Write(data)))
    else match Last(done)
      case SslCalled(_, Ok(_)) => Do(AwaitFlushWriteBuf)
      case SslCalled(_, Err(e)) =>
        if e.code.WantWrite? then Do(AwaitFlushWriteBuf)
        else Finish(BufResult(Err(SslErrIntoIo(e)), data))
      case WriteBufFlushed(r) =>
        if AfterWriteAccepted(done) then
          var n := done[|done| - 2].reply.value;
          Finish(BufResult(if r.Ok? then Ok(n) else Err(r.error), data))
        else if r.Ok? then Do(InvokeSsl(Write(data)))
        else Finish(BufResult(Err(r.error), data))
      // events this loop never produces
      case _ => Do(InvokeSsl(Write(data)))
  }

  /** Did the event before the last one report that the engine flushed? */
  predicate AfterEngineFlushed(done: seq<Event>)
  {
    |done| >= 2 && done[|done| - 2].EngineFlushed? && done[|done| - 2].flushed.Ok?
  }

  /** `AsyncWrite::flush`: when the engine's flush succeeds, flush the write buffer
      once more and return; on `WouldBlock` flush the write buffer and try again;
      return any other engine error unchanged and any transport error. */
  function FlushNext(done: seq<Event>): (r: Step<Result<(), IoError>>)
    // the only calls are the engine flush and the write-buffer flush
    ensures r.Do? ==> r.action in {InvokeFlush, AwaitFlushWriteBuf}
    // success only after the engine flushed and the write buffer was flushed once more
    ensures r.Finish? && r.result.Ok? ==>
      AfterEngineFlushed(done) && Last(done).WriteBufFlushed? && Last(done).sent.Ok?
  {
    if done == [] then Do(InvokeFlush)
    else match Last(done)
      case EngineFlushed(Ok(_)) => Do(AwaitFlushWriteBuf)
      case EngineFlushed(Err(x)) =>
        if Kind(x) == WouldBlock then Do(AwaitFlushWriteBuf) else Finish(Err(x))
      case WriteBufFlushed(Ok(_)) =>
        if AfterEngineFlushed(done) then Finish(Ok(())) else Do(InvokeFlush)
      case WriteBufFlushed(Err(x)) => Finish(Err(x))
      // events this loop never produces
      case _ => Do(InvokeFlush)
  }

  /** `AsyncWrite::shutdown`: `Sent` and WANT_WRITE flush the write buffer and loop;
      WANT_READ fills the read buffer and loops; `Received` and SYSCALL without
      an I/O error leave the loop, after which the transport is shut down and its
      answer returned; any other code fails without shutting the transport down. */
  function ShutdownNext(done: seq<Event>): (r: Step<Result<(), IoError>>)
    // no engine read, write or flush
    ensures r.Do? ==>
      r.action in {InvokeShutdown, AwaitFlushWriteBuf, AwaitFillReadBuf, AwaitTransportShutdown}
    // the transport is shut down only after `Received` or SYSCALL without an I/O error
    ensures r == Do(AwaitTransportShutdown) ==>
      done != [] && Last(done).EngineShutDown?
      && (Last(done).shut == Ok(Received)
          || (Last(done).shut.Err? && Last(done).shut.error.code.Syscall? && Last(done).shut.error.NoIoError()))
    // success is exactly the transport's own successful shutdown
    ensures r.Finish? && r.result.Ok? ==> done != [] && Last(done) == TransportShutDown(r.result)
  {
    if done == [] then Do(InvokeShutdown)
    else match Last(done)
      case EngineShutDown(Ok(Sent)) => Do(AwaitFlushWriteBuf)
      case EngineShutDown(Ok(Received)) => Do(AwaitTransportShutdown)
      case EngineShutDown(Err(e)) =>
        if e.code.WantWrite? then Do(AwaitFlushWriteBuf)
        else if e.code.WantRead? then Do(AwaitFillReadBuf)
        else if e.code.Syscall? && e.NoIoError() then Do(AwaitTransportShutdown)
        else Finish(Err(SslErrIntoIo(e)))
      case WriteBufFlushed(Ok(_)) => Do(InvokeShutdown)
      case WriteBufFlushed(Err(x)) => Finish(Err(x))
      case ReadBufFilled(Ok(_)) => Do(InvokeShutdown)
      case ReadBufFilled(Err(x)) => Finish(Err(x))
      case TransportShutDown(r) => Finish(r)
      // events this loop never produces
      case _ => Do(InvokeShutdown)
  }

  /** The handshake calls return `io::Result<()>`: the count is dropped. */
  function NoValue(p: Poll<Result<nat, IoError>>): Poll<Result<(), IoError>>
  {
    match p
    case Pending => Pending
    case Ready(Ok(_)) => Ready(Ok(()))
    case Ready(Err(x)) => Ready(Err(x))
  }

  function AsyncDoPolicy(f: Call): seq<Event> -> Step<Result<nat, IoError>>
  {
    done => AsyncDoNext(f, done)
  }

  function ReadPolicy(buf: IoBufMut): seq<Event> -> Step<BufResult<IoBufMut>>
  {
    done => ReadNext(buf, done)
  }

  function WritePolicy(data: seq<byte>): seq<Event> -> Step<BufResult<seq<byte>>>
  {
    done => WriteNext(data, done)
  }

  function FlushPolicy(): seq<Event> -> Step<Result<(), IoError>>
  {
    done => FlushNext(done)
  }

  function ShutdownPolicy(): seq<Event> -> Step<Result<(), IoError>>
  {
    done => ShutdownNext(done)
  }

  function AsyncDoRun(f: Call, o: Oracle): Run<Result<nat, IoError>>
  {
    Drive(AsyncDoPolicy(f), [], o)
  }

  function ReadRun(buf: IoBufMut, o: Oracle): Run<BufResult<IoBufMut>>
  {
    Drive(ReadPolicy(buf), [], o)
  }

  function WriteRun(data: seq<byte>, o: Oracle): Run<BufResult<seq<byte>>>
  {
    Drive(WritePolicy(data), [], o)
  }

  function FlushRun(o: Oracle): Run<Result<(), IoError>>
  {
    Drive(FlushPolicy(), [], o)
  }

  function ShutdownRun(o: Oracle): Run<Result<(), IoError>>
  {
    Drive(ShutdownPolicy(), [], o)
  }
}
