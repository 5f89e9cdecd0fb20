/** The foreign parts of the system as oracles. The OpenSSL engine and the
    `SyncStream` buffer bridge over the transport are not modelled; what each
    call into them answers next is read from a queue, and every call made is
    recorded, with its answer, as an `Event`. */
module Oracles {
  import opened Errors

  /** Which `ssl::SslStream` entry point a loop invokes: the closure handed to
      `ssl_async_do`, or the call that `read` and `write` make themselves.
      Lengths are those of the buffer the engine is given; data is the slice. */
  datatype Call =
    | Accept
    | Connect
    | Peek(len: nat)
    | ReadEarlyData(len: nat)
    | WriteEarlyData(data: seq<byte>)
    | Read(len: nat)
    | Write(data: seq<byte>)

  /** One call into the engine or the transport bridge and what it answered. */
  datatype Event =
    | SslCalled(call: Call, reply: Result<nat, SslError>)               // ssl_* call
    | EngineFlushed(flushed: Result<(), IoError>)                       // io::Write::flush of the engine stream
    | EngineShutDown(shut: Result<ShutdownResult, SslError>)            // SslStream::shutdown
    | WriteBufFlushed(sent: Result<nat, IoError>)                       // SyncStream::flush_write_buf
    | ReadBufFilled(filled: Result<(), IoError>)                        // SyncStream::fill_read_buf
    | TransportShutDown(closed: Result<(), IoError>)                    // shutdown of the transport itself

  /** One thing a loop can do besides returning. */
  datatype Action =
    | InvokeSsl(call: Call)
    | InvokeFlush
    | InvokeShutdown
    | AwaitFlushWriteBuf
    | AwaitFillReadBuf
    | AwaitTransportShutdown

  /** The answers the engine and the transport will give, one queue per entry point.
      Handshake calls (accept, connect) also take an `Ok(n)` from `ssl`; their
      result carries no value, so `n` is dropped. An empty queue for
      `writeBuf`, `readBuf` or `transport` is an awaited future that never
      completes. The engine calls (`ssl`, `flush`, `shutdown`) are synchronous
      and always return; an empty queue for one of them only means the run is
      cut off at that call. */
  datatype Oracle = Oracle(
    ssl: seq<Result<nat, SslError>>,
    flush: seq<Result<(), IoError>>,
    shutdown: seq<Result<ShutdownResult, SslError>>,
    writeBuf: seq<Result<nat, IoError>>,
    readBuf: seq<Result<(), IoError>>,
    transport: seq<Result<(), IoError>>)

  /** The number of answers left, in all queues together. */
  function Size(o: Oracle): nat
  {
    |o.ssl| + |o.flush| + |o.shutdown| + |o.writeBuf| + |o.readBuf| + |o.transport|
  }

  /** An event is what action `a` produces. */
  predicate Fits(a: Action, ev: Event)
  {
    match a
    case InvokeSsl(c) => ev.SslCalled? && ev.call == c
    case InvokeFlush => ev.EngineFlushed?
    case InvokeShutdown => ev.EngineShutDown?
    case AwaitFlushWriteBuf => ev.WriteBufFlushed?
    case AwaitFillReadBuf => ev.ReadBufFilled?
    case AwaitTransportShutdown => ev.TransportShutDown?
  }

  /** Put the answer recorded in `ev` back at the front of its queue. */
  function Give(ev: Event, o: Oracle): Oracle
  {
    match ev
    case SslCalled(_, r) => o.(ssl := [r] + o.ssl)
    case EngineFlushed(r) => o.(flush := [r] + o.flush)
    case EngineShutDown(r) => o.(shutdown := [r] + o.shutdown)
    case WriteBufFlushed(r) => o.(writeBuf := [r] + o.writeBuf)
    case ReadBufFilled(r) => o.(readBuf := [r] + o.readBuf)
    case TransportShutDown(r) => o.(transport := [r] + o.transport)
  }

  /** Perform action `a`: take the next answer from its queue, if there is one. */
  function Take(a: Action, o: Oracle): Option<(Event, Oracle)>
  {
    match a
    case InvokeSsl(c) =>
      if o.ssl == [] then None else Some((SslCalled(c, o.ssl[0]), o.(ssl := o.ssl[1..])))
    case InvokeFlush =>
      if o.flush == [] then None else Some((EngineFlushed(o.flush[0]), o.(flush := o.flush[1..])))
    case InvokeShutdown =>
      if o.shutdown == [] then None else Some((EngineShutDown(o.shutdown[0]), o.(shutdown := o.shutdown[1..])))
    case AwaitFlushWriteBuf =>
      if o.writeBuf == [] then None else Some((WriteBufFlushed(o.writeBuf[0]), o.(writeBuf := o.writeBuf[1..])))
    case AwaitFillReadBuf =>
      if o.readBuf == [] then None else Some((ReadBufFilled(o.readBuf[0]), o.(readBuf := o.readBuf[1..])))
    case AwaitTransportShutdown =>
      if o.transport == [] then None else Some((TransportShutDown(o.transport[0]), o.(transport := o.transport[1..])))
  }

  /** How many answers are left for action `a`. */
  function Queue(a: Action, o: Oracle): nat
  {
    match a
    case InvokeSsl(_) => |o.ssl|
    case InvokeFlush => |o.flush|
    case InvokeShutdown => |o.shutdown|
    case AwaitFlushWriteBuf => |o.writeBuf|
    case AwaitFillReadBuf => |o.readBuf|
    case AwaitTransportShutdown => |o.transport|
  }

  /** Taking fails only on an empty queue; the event taken fits the action;
      taking shrinks the oracle by one answer; giving the answer back restores it. */
  lemma TakeGiven(a: Action, o: Oracle)
    ensures Take(a, o).None? <==> Queue(a, o) == 0
    ensures Take(a, o).Some? ==> Fits(a, Take(a, o).value.0) && Give(Take(a, o).value.0, Take(a, o).value.1) == o
    ensures Take(a, o).Some? ==> Size(Take(a, o).value.1) == Size(o) - 1
  {
  }

  /** Taking back an answer that was given: the inverse of `Give`. */
  lemma TakeGive(a: Action, ev: Event, o: Oracle)
    requires Fits(a, ev)
    ensures Take(a, Give(ev, o)) == Some((ev, o))
  {
  }

  /** Give back the answers recorded in `log`, last one first, so that the
      first event's answer ends up at the front of its queue. */
  function Feed(log: seq<Event>, o: Oracle): Oracle
    decreases |log|
  {
    if log == [] then o else Give(log[0], Feed(log[1..], o))
  }
}
