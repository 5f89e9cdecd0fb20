/** `SslStream` (src/lib.rs): the adapter object and its retry loops. Its state is
    what the engine and the transport will still answer (`oracle`) and the record
    of every call made into them (`log`). Each loop is proved to do what the
    matching decision table in `Policies` prescribes. */
module Stream {
  import opened Errors
  import opened Oracles
  import opened Driver
  import opened Policies

  class SslStream {
    /** The answers the engine and the transport bridge will give next. */
    var oracle: Oracle
    /** Every call the current (or last) operation made into the engine or the
        transport, with its answer. Each operation starts a fresh log. */
    var log: seq<Event>

    constructor (o: Oracle)
      ensures oracle == o && log == []
    {
      oracle := o;
      log := [];
    }

    // ---- The foreign calls: each takes the next answer from its queue. ----
    // Each is called where `policy`, after the events `done`, asks for it; each
    // then advances the run of `policy` by the one event it records.

    /** One `ssl_*` call into the engine. */
    method SslCall<R>(c: Call, ghost policy: seq<Event> -> Step<R>)
      returns (ret: Option<Result<nat, SslError>>)
      requires policy(log) == Do(InvokeSsl(c))
      modifies this
      ensures ret.None? <==> old(oracle.ssl) == []
      ensures ret.Some? ==> ret.value == old(oracle.ssl)[0] && oracle == old(oracle).(ssl := old(oracle.ssl)[1..])
      ensures ret.None? ==> (oracle == old(oracle) && log == old(log)
        && Drive(policy, old(log), old(oracle)) == Run(Pending, oracle, log))
      ensures ret.Some? ==> (log == old(log) + [SslCalled(c, ret.value)]
        && Drive(policy, old(log), old(oracle)) == Drive(policy, log, oracle)
        && Size(oracle) == Size(old(oracle)) - 1)
    {
      if oracle.ssl == [] {
        return None;
      }
      ret := Some(oracle.ssl[0]);
      log := log + [SslCalled(c, oracle.ssl[0])];
      oracle := oracle.(ssl := oracle.ssl[1..]);
    }

    /** `io::Write::flush` of the engine stream. */
    method EngineFlush<R>(ghost policy: seq<Event> -> Step<R>)
      returns (ret: Option<Result<(), IoError>>)
      requires policy(log) == Do(InvokeFlush)
      modifies this
      ensures ret.None? <==> old(oracle.flush) == []
      ensures ret.Some? ==> ret.value == old(oracle.flush)[0] && oracle == old(oracle).(flush := old(oracle.flush)[1..])
      ensures ret.None? ==> (oracle == old(oracle) && log == old(log)
        && Drive(policy, old(log), old(oracle)) == Run(Pending, oracle, log))
      ensures ret.Some? ==> (log == old(log) + [EngineFlushed(ret.value)]
        && Drive(policy, old(log), old(oracle)) == Drive(policy, log, oracle)
        && Size(oracle) == Size(old(oracle)) - 1)
    {
      if oracle.flush == [] {
        return None;
      }
      ret := Some(oracle.flush[0]);
      log := log + [EngineFlushed(oracle.flush[0])];
      oracle := oracle.(flush := oracle.flush[1..]);
    }

    /** `SslStream::shutdown` of the engine. */
    method EngineShutdown<R>(ghost policy: seq<Event> -> Step<R>)
      returns (ret: Option<Result<ShutdownResult, SslError>>)
      requires policy(log) == Do(InvokeShutdown)
      modifies this
      ensures ret.None? <==> old(oracle.shutdown) == []
      ensures ret.Some? ==> ret.value == old(oracle.shutdown)[0] && oracle == old(oracle).(shutdown := old(oracle.shutdown)[1..])
      ensures ret.None? ==> (oracle == old(oracle) && log == old(log)
        && Drive(policy, old(log), old(oracle)) == Run(Pending, oracle, log))
      ensures ret.Some? ==> (log == old(log) + [EngineShutDown(ret.value)]
        && Drive(policy, old(log), old(oracle)) == Drive(policy, log, oracle)
        && Size(oracle) == Size(old(oracle)) - 1)
    {
      if oracle.shutdown == [] {
        return None;
      }
      ret := Some(oracle.shutdown[0]);
      log := log + [EngineShutDown(oracle.shutdown[0])];
      oracle := oracle.(shutdown := oracle.shutdown[1..]);
    }

    /** `SyncStream::flush_write_buf`: send what the engine queued; answers the count sent. */
    method FlushWriteBuf<R>(ghost policy: seq<Event> -> Step<R>)
      returns (ret: Option<Result<nat, IoError>>)
      requires policy(log) == Do(AwaitFlushWriteBuf)
      modifies this
      ensures ret.None? <==> old(oracle.writeBuf) == []
      ensures ret.Some? ==> ret.value == old(oracle.writeBuf)[0] && oracle == old(oracle).(writeBuf := old(oracle.writeBuf)[1..])
      ensures ret.None? ==> (oracle == old(oracle) && log == old(log)
        && Drive(policy, old(log), old(oracle)) == Run(Pending, oracle, log))
      ensures ret.Some? ==> (log == old(log) + [WriteBufFlushed(ret.value)]
        && Drive(policy, old(log), old(oracle)) == Drive(policy, log, oracle)
        && Size(oracle) == Size(old(oracle)) - 1)
    {
      if oracle.writeBuf == [] {
        return None;
      }
      ret := Some(oracle.writeBuf[0]);
      log := log + [WriteBufFlushed(oracle.writeBuf[0])];
      oracle := oracle.(writeBuf := oracle.writeBuf[1..]);
    }

    /** `SyncStream::fill_read_buf`: receive bytes from the transport for the engine. */
    method FillReadBuf<R>(ghost policy: seq<Event> -> Step<R>)
      returns (ret: Option<Result<(), IoError>>)
      requires policy(log) == Do(AwaitFillReadBuf)
      modifies this
      ensures ret.None? <==> old(oracle.readBuf) == []
      ensures ret.Some? ==> ret.value == old(oracle.readBuf)[0] && oracle == old(oracle).(readBuf := old(oracle.readBuf)[1..])
      ensures ret.None? ==> (oracle == old(oracle) && log == old(log)
        && Drive(policy, old(log), old(oracle)) == Run(Pending, oracle, log))
      ensures ret.Some? ==> (log == old(log) + [ReadBufFilled(ret.value)]
        && Drive(policy, old(log), old(oracle)) == Drive(policy, log, oracle)
        && Size(oracle) == Size(old(oracle)) - 1)
    {
      if oracle.readBuf == [] {
        return None;
      }
      ret := Some(oracle.readBuf[0]);
      log := log + [ReadBufFilled(oracle.readBuf[0])];
      oracle := oracle.(readBuf := oracle.readBuf[1..]);
    }

    /** `AsyncWrite::shutdown` of the transport itself. */
    method TransportShutdown<R>(ghost policy: seq<Event> -> Step<R>)
      returns (ret: Option<Result<(), IoError>>)
      requires policy(log) == Do(AwaitTransportShutdown)
      modifies this
      ensures ret.None? <==> old(oracle.transport) == []
      ensures ret.Some? ==> ret.value == old(oracle.transport)[0] && oracle == old(oracle).(transport := old(oracle.transport)[1..])
      ensures ret.None? ==> (oracle == old(oracle) && log == old(log)
        && Drive(policy, old(log), old(oracle)) == Run(Pending, oracle, log))
      ensures ret.Some? ==> (log == old(log) + [TransportShutDown(ret.value)]
        && Drive(policy, old(log), old(oracle)) == Drive(policy, log, oracle)
        && Size(oracle) == Size(old(oracle)) - 1)
    {
      if oracle.transport == [] {
        return None;
      }
      ret := Some(oracle.transport[0]);
      log := log + [TransportShutDown(oracle.transport[0])];
      oracle := oracle.(transport := oracle.transport[1..]);
    }

    // ---- The retry loops. ----

    /** `ssl_async_do`: drive the engine call `f` until it completes or fails. */
    method AsyncDo(f: Call) returns (r: Poll<Result<nat, IoError>>)
      modifies this
      ensures AsyncDoRun(f, old(oracle)) == Run(r, oracle, log)
    {
      ghost var policy := AsyncDoPolicy(f);
      ghost var run := AsyncDoRun(f, oracle);
      log := [];
      while true
        invariant policy(log) == Do(InvokeSsl(f))
        invariant run == Drive(policy, log, oracle)
        decreases Size(oracle)
      {
        var ret := SslCall(f, policy);
        if ret.None? {
          return Pending;
        }
        match ret.value {
          case Ok(n) =>
            return Ready(Ok(n));
          case Err(e) =>
            if !e.IsWant() {
              return Ready(Err(SslErrIntoIo(e)));
            }
            var sent := FlushWriteBuf(policy);
            if sent.None? {
              return Pending;
            }
            if sent.value.Err? {
              return Ready(Err(sent.value.error));
            }
            if sent.value.value == 0 {
              var got := FillReadBuf(policy);
              if got.None? {
                return Pending;
              }
              if got.value.Err? {
                return Ready(Err(got.value.error));
              }
            }
        }
      }
    }

    /** `accept`: the server-side handshake, driven by `ssl_async_do`. */
    method Accept() returns (r: Poll<Result<(), IoError>>)
      modifies this
      ensures var run := AsyncDoRun(Call.Accept, old(oracle));
        r == NoValue(run.result) && oracle == run.rest && log == run.log
    {
      var p := AsyncDo(Call.Accept);
      r := NoValue(p);
    }

    /** `connect`: the client-side handshake, driven by `ssl_async_do`. */
    method Connect() returns (r: Poll<Result<(), IoError>>)
      modifies this
      ensures var run := AsyncDoRun(Call.Connect, old(oracle));
        r == NoValue(run.result) && oracle == run.rest && log == run.log
    {
      var p := AsyncDo(Call.Connect);
      r := NoValue(p);
    }

    /** `peek` into a buffer of `len` bytes, driven by `ssl_async_do`. */
    method Peek(len: nat) returns (r: Poll<Result<nat, IoError>>)
      modifies this
      ensures AsyncDoRun(Call.Peek(len), old(oracle)) == Run(r, oracle, log)
    {
      r := AsyncDo(Call.Peek(len));
    }

    /** `read_realy_data` (sic) into a buffer of `len` bytes, driven by `ssl_async_do`. */
    method ReadEarlyData(len: nat) returns (r: Poll<Result<nat, IoError>>)
      modifies this
      ensures AsyncDoRun(Call.ReadEarlyData(len), old(oracle)) == Run(r, oracle, log)
    {
      r := AsyncDo(Call.ReadEarlyData(len));
    }

    /** `write_realy_data` (sic) of `data`, driven by `ssl_async_do`. */
    method WriteEarlyData(data: seq<byte>) returns (r: Poll<Result<nat, IoError>>)
      modifies this
      ensures AsyncDoRun(Call.WriteEarlyData(data), old(oracle)) == Run(r, oracle, log)
    {
      r := AsyncDo(Call.WriteEarlyData(data));
    }

    /** `AsyncRead::read` into `buf`, which is handed back with the result. */
    method Read(buf: IoBufMut) returns (r: Poll<BufResult<IoBufMut>>)
      modifies this
      ensures ReadRun(buf, old(oracle)) == Run(r, oracle, log)
    {
      ghost var policy := ReadPolicy(buf);
      ghost var run := ReadRun(buf, oracle);
      log := [];
      while true
        invariant policy(log) == Do(InvokeSsl(Call.Read(buf.capacity)))
        invariant run == Drive(policy, log, oracle)
        decreases Size(oracle)
      {
        var ret := SslCall(Call.Read(buf.capacity), policy);
        if ret.None? {
          return Pending;
        }
        match ret.value {
          case Ok(n) =>
            return Ready(BufResult(Ok(n), buf.(init := n)));
          case Err(e) =>
            if e.code.ZeroReturn? {
              return Ready(BufResult(Ok(0), buf));
            } else if e.code.WantRead? {
              var got := FillReadBuf(policy);
              if got.None? {
                return Pending;
              }
              if got.value.Err? {
                return Ready(BufResult(Err(got.value.error), buf));
              }
            } else if e.code.Syscall? && e.NoIoError() {
              // retried at once, with no transport action
            } else {
              return Ready(BufResult(Err(SslErrIntoIo(e)), buf));
            }
        }
      }
    }

    /** `AsyncWrite::write` of `data`, which is handed back with the result. */
    method Write(data: seq<byte>) returns (r: Poll<BufResult<seq<byte>>>)
      modifies this
      ensures WriteRun(data, old(oracle)) == Run(r, oracle, log)
    {
      ghost var policy := WritePolicy(data);
      ghost var run := WriteRun(data, oracle);
      log := [];
      while true
        invariant policy(log) == Do(InvokeSsl(Call.Write(data)))
        invariant run == Drive(policy, log, oracle)
        decreases Size(oracle)
      {
        var ret := SslCall(Call.Write(data), policy);
        if ret.None? {
          return Pending;
        }
        match ret.value {
          case Ok(n) =>
            var sent := FlushWriteBuf(policy);
            if sent.None? {
              return Pending;
            }
            return Ready(BufResult(if sent.value.Ok? then Ok(n) else Err(sent.value.error), data));
          case Err(e) =>
            if !e.code.WantWrite? {
              return Ready(BufResult(Err(SslErrIntoIo(e)), data));
            }
            var sent := FlushWriteBuf(policy);
            if sent.None? {
              return Pending;
            }
            if sent.value.Err? {
              return Ready(BufResult(Err(sent.value.error), data));
            }
        }
      }
    }

    /** `AsyncWrite::flush`. */
    method Flush() returns (r: Poll<Result<(), IoError>>)
      modifies this
      ensures FlushRun(old(oracle)) == Run(r, oracle, log)
    {
      ghost var policy := FlushPolicy();
      ghost var run := FlushRun(oracle);
      log := [];
      while true
        invariant policy(log) == Do(InvokeFlush)
        invariant run == Drive(policy, log, oracle)
        decreases Size(oracle)
      {
        var ret := EngineFlush(policy);
        if ret.None? {
          return Pending;
        }
        match ret.value {
          case Ok(_) =>
            var sent := FlushWriteBuf(policy);
            if sent.None? {
              return Pending;
            }
            if sent.value.Err? {
              return Ready(Err(sent.value.error));
            }
            return Ready(Ok(()));
          case Err(x) =>
            if Kind(x) != WouldBlock {
              return Ready(Err(x));
            }
            var sent := FlushWriteBuf(policy);
            if sent.None? {
              return Pending;
            }
            if sent.value.Err? {
              return Ready(Err(sent.value.error));
            }
        }
      }
    }

    /** `AsyncWrite::shutdown`: the close_notify exchange, then the transport's shutdown. */
    method Shutdown() returns (r: Poll<Result<(), IoError>>)
      modifies this
      ensures ShutdownRun(old(oracle)) == Run(r, oracle, log)
    {
      ghost var policy := ShutdownPolicy();
      ghost var run := ShutdownRun(oracle);
      log := [];
      while true
        invariant policy(log) == Do(InvokeShutdown)
        invariant run == Drive(policy, log, oracle)
        decreases Size(oracle)
      {
        var ret := EngineShutdown(policy);
        if ret.None? {
          return Pending;
        }
        match ret.value {
          case Ok(Sent) =>
            var sent := FlushWriteBuf(policy);
            if sent.None? {
              return Pending;
            }
            if sent.value.Err? {
              return Ready(Err(sent.value.error));
            }
          case Ok(Received) =>
            break;
          case Err(e) =>
            if e.code.WantWrite? {
              var sent := FlushWriteBuf(policy);
              if sent.None? {
                return Pending;
              }
              if sent.value.Err? {
                return Ready(Err(sent.value.error));
              }
            } else if e.code.WantRead? {
              var got := FillReadBuf(policy);
              if got.None? {
                return Pending;
              }
              if got.value.Err? {
                return Ready(Err(got.value.error));
              }
            } else if e.code.Syscall? && e.NoIoError() {
              break;
            } else {
              return Ready(Err(SslErrIntoIo(e)));
            }
        }
      }
      var closed := TransportShutdown(policy);
      if closed.None? {
        return Pending;
      }
      return Ready(closed.value);
    }
  }
}
