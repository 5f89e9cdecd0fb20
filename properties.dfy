/** What each retry loop of `SslStream` (src/lib.rs) does, stated event by event
    over the run of the loop against any oracle: which call it makes first,
    what follows each answer, and which calls it never makes. Event `i` of a
    run is `run.log[i]`; `DoesAt(run, i + 1, s)` says what happens right after it. */
module Properties {
  import opened Errors
  import opened Oracles
  import opened Driver
  import opened Policies

  // ---- ssl_async_do ----

  /** `ssl_async_do` begins by calling `f`. */
  lemma AsyncDoStarts(f: Call, o: Oracle)
    ensures DoesAt(AsyncDoRun(f, o), 0, Do(InvokeSsl(f)))
  {
    StepAt(AsyncDoPolicy(f), o, 0);
  }

  /** Each engine call is `f` itself. `Ok(n)` is returned at once; WANT_READ and
      WANT_WRITE are followed by a flush of the write buffer; any other code
      ends the loop with the mapped error, with no retry. */
  lemma AsyncDoAfterCall(f: Call, o: Oracle, i: nat)
    requires i < |AsyncDoRun(f, o).log| && AsyncDoRun(f, o).log[i].SslCalled?
    ensures var run := AsyncDoRun(f, o); var ev := run.log[i];
      && ev.call == f
      && (ev.reply.Ok? ==> DoesAt(run, i + 1, Finish(Ok(ev.reply.value))))
      && (ev.reply.Err? && ev.reply.error.IsWant() ==> DoesAt(run, i + 1, Do(AwaitFlushWriteBuf)))
      && (ev.reply.Err? && !ev.reply.error.IsWant() ==>
            DoesAt(run, i + 1, Finish(Err(SslErrIntoIo(ev.reply.error)))))
  {
    StepAround(AsyncDoPolicy(f), o, i);
  }

  /** The write buffer is flushed only right after a WANT signal. A flush that
      sent nothing is followed by a fill of the read buffer; one that sent
      something by a new call of `f`; a failed flush returns its error. */
  lemma AsyncDoAfterFlush(f: Call, o: Oracle, i: nat)
    requires i < |AsyncDoRun(f, o).log| && AsyncDoRun(f, o).log[i].WriteBufFlushed?
    ensures var run := AsyncDoRun(f, o); var ev := run.log[i];
      && i > 0 && run.log[i - 1].SslCalled? && run.log[i - 1].reply.Err?
      && run.log[i - 1].reply.error.IsWant()
      && (ev.sent == Ok(0) ==> DoesAt(run, i + 1, Do(AwaitFillReadBuf)))
      && (ev.sent.Ok? && ev.sent.value > 0 ==> DoesAt(run, i + 1, Do(InvokeSsl(f))))
      && (ev.sent.Err? ==> DoesAt(run, i + 1, Finish(Err(ev.sent.error))))
  {
    StepAround(AsyncDoPolicy(f), o, i);
  }

  /** The read buffer is filled only after a WANT signal whose flush sent
      nothing. A fill is followed by a new call of `f`, or returns its error. */
  lemma AsyncDoAfterFill(f: Call, o: Oracle, i: nat)
    requires i < |AsyncDoRun(f, o).log| && AsyncDoRun(f, o).log[i].ReadBufFilled?
    ensures var run := AsyncDoRun(f, o); var ev := run.log[i];
      && i > 1 && run.log[i - 1] == WriteBufFlushed(Ok(0))
      && run.log[i - 2].SslCalled? && run.log[i - 2].reply.Err? && run.log[i - 2].reply.error.IsWant()
      && (ev.filled.Ok? ==> DoesAt(run, i + 1, Do(InvokeSsl(f))))
      && (ev.filled.Err? ==> DoesAt(run, i + 1, Finish(Err(ev.filled.error))))
  {
    StepAround(AsyncDoPolicy(f), o, i);
    StepAround(AsyncDoPolicy(f), o, i - 1);
  }

  /** `ssl_async_do` calls the engine and the two buffer transfers, nothing else. */
  lemma AsyncDoEvents(f: Call, o: Oracle, i: nat)
    requires i < |AsyncDoRun(f, o).log|
    ensures var ev := AsyncDoRun(f, o).log[i];
      ev.SslCalled? || ev.WriteBufFlushed? || ev.ReadBufFilled?
  {
    StepAround(AsyncDoPolicy(f), o, i);
  }

  // ---- read ----

  /** `read` begins by reading into the whole buffer. */
  lemma ReadStarts(buf: IoBufMut, o: Oracle)
    ensures DoesAt(ReadRun(buf, o), 0, Do(InvokeSsl(Call.Read(buf.capacity))))
  {
    StepAt(ReadPolicy(buf), o, 0);
  }

  /** Each engine call reads into the whole buffer. `Ok(n)` returns `n` with
      the buffer's initialised length set to `n`; ZERO_RETURN returns 0;
      WANT_READ is followed by a fill of the read buffer; SYSCALL without an
      I/O error by another read at once; anything else (WANT_WRITE included)
      returns the mapped error. The buffer is handed back in every case. */
  lemma ReadAfterCall(buf: IoBufMut, o: Oracle, i: nat)
    requires i < |ReadRun(buf, o).log| && ReadRun(buf, o).log[i].SslCalled?
    ensures var run := ReadRun(buf, o); var ev := run.log[i];
      && ev.call == Call.Read(buf.capacity)
      && (ev.reply.Ok? ==>
            DoesAt(run, i + 1, Finish(BufResult(Ok(ev.reply.value), buf.(init := ev.reply.value)))))
      && (ev.reply.Err? && ev.reply.error.code.ZeroReturn? ==> DoesAt(run, i + 1, Finish(BufResult(Ok(0), buf))))
      && (ev.reply.Err? && ev.reply.error.code.WantRead? ==> DoesAt(run, i + 1, Do(AwaitFillReadBuf)))
      && (ev.reply.Err? && ev.reply.error.code.Syscall? && ev.reply.error.NoIoError() ==>
            DoesAt(run, i + 1, Do(InvokeSsl(Call.Read(buf.capacity)))))
      && (ev.reply.Err? && !ev.reply.error.code.ZeroReturn? && !ev.reply.error.code.WantRead?
          && !(ev.reply.error.code.Syscall? && ev.reply.error.NoIoError()) ==>
            DoesAt(run, i + 1, Finish(BufResult(Err(SslErrIntoIo(ev.reply.error)), buf))))
  {
    StepAround(ReadPolicy(buf), o, i);
  }

  /** The read buffer is filled only right after WANT_READ; a fill is followed
      by another read, or returns its error with the buffer. */
  lemma ReadAfterFill(buf: IoBufMut, o: Oracle, i: nat)
    requires i < |ReadRun(buf, o).log| && ReadRun(buf, o).log[i].ReadBufFilled?
    ensures var run := ReadRun(buf, o); var ev := run.log[i];
      && i > 0 && run.log[i - 1].SslCalled? && run.log[i - 1].reply.Err?
      && run.log[i - 1].reply.error.code.WantRead?
      && (ev.filled.Ok? ==> DoesAt(run, i + 1, Do(InvokeSsl(Call.Read(buf.capacity)))))
      && (ev.filled.Err? ==> DoesAt(run, i + 1, Finish(BufResult(Err(ev.filled.error), buf))))
  {
    StepAround(ReadPolicy(buf), o, i);
  }

  /** `read` never flushes the write buffer: it only reads and fills. */
  lemma ReadEvents(buf: IoBufMut, o: Oracle, i: nat)
    requires i < |ReadRun(buf, o).log|
    ensures var ev := ReadRun(buf, o).log[i];
      ev.SslCalled? || ev.ReadBufFilled?
  {
    StepAround(ReadPolicy(buf), o, i);
  }

  /** Whenever `read` returns, it hands back the caller's buffer, changed only
      when the last read succeeded, and then only in its initialised length. */
  lemma ReadHandsBackBuffer(buf: IoBufMut, o: Oracle)
    requires ReadRun(buf, o).result.Ready?
    ensures var run := ReadRun(buf, o); var out := run.result.value;
      && |run.log| > 0
      && out.buf == buf.(init := out.buf.init)
      && (out.buf != buf ==>
            run.log[|run.log| - 1].SslCalled? && run.log[|run.log| - 1].reply == Ok(out.buf.init)
            && out.res == Ok(out.buf.init))
  {
    var run := ReadRun(buf, o);
    StepAt(ReadPolicy(buf), o, |run.log|);
    assert run.log[..|run.log|] == run.log;
  }

  /** All of `o.ssl` answers SYSCALL without an I/O error. */
  ghost predicate AllSyscall(replies: seq<Result<nat, SslError>>)
  {
    forall k :: 0 <= k < |replies| ==>
      replies[k].Err? && replies[k].error.code.Syscall? && replies[k].error.NoIoError()
  }

  lemma {:induction false} ReadSpinsFrom(buf: IoBufMut, done: seq<Event>, o: Oracle)
    requires ReadNext(buf, done) == Do(InvokeSsl(Call.Read(buf.capacity)))
    requires AllSyscall(o.ssl)
    ensures var run := Drive(ReadPolicy(buf), done, o);
      && run.result.Pending? && run.rest == o.(ssl := [])
      && |run.log| == |done| + |o.ssl| && run.log[..|done|] == done
      && (forall k :: |done| <= k < |run.log| ==>
            run.log[k] == SslCalled(Call.Read(buf.capacity), o.ssl[k - |done|]))
    decreases |o.ssl|
  {
    var policy := ReadPolicy(buf);
    if o.ssl != [] {
      var ev := SslCalled(Call.Read(buf.capacity), o.ssl[0]);
      var rest := o.(ssl := o.ssl[1..]);
      DriveStep(policy, done, o, ev, rest);
      assert AllSyscall(rest.ssl) by {
        forall k | 0 <= k < |rest.ssl| ensures rest.ssl[k] == o.ssl[k + 1] { }
      }
      ReadSpinsFrom(buf, done + [ev], rest);
      var run := Drive(policy, done + [ev], rest);
      assert run.log[..|done|] == (done + [ev])[..|done|] by {
        assert run.log[..|done|] == run.log[..|done| + 1][..|done|];
      }
      assert rest.(ssl := []) == o.(ssl := []);
    }
  }

  /** The SYSCALL-without-error retry of `read` touches no transport: while the
      engine keeps giving that answer, `read` calls it again and again, consumes
      every answer, makes no other call, and has not returned when they run out. */
  lemma ReadSpinsOnSyscall(buf: IoBufMut, o: Oracle)
    requires AllSyscall(o.ssl)
    ensures var run := ReadRun(buf, o);
      && run.result.Pending? && run.rest == o.(ssl := [])
      && |run.log| == |o.ssl|
      && (forall k :: 0 <= k < |run.log| ==> run.log[k] == SslCalled(Call.Read(buf.capacity), o.ssl[k]))
  {
    ReadSpinsFrom(buf, [], o);
  }

  // ---- write ----

  /** `write` begins by writing the caller's slice. */
  lemma WriteStarts(data: seq<byte>, o: Oracle)
    ensures DoesAt(WriteRun(data, o), 0, Do(InvokeSsl(Call.Write(data))))
  {
    StepAt(WritePolicy(data), o, 0);
  }

  /** Every engine call writes the same slice. `Ok(n)` and WANT_WRITE are both
      followed by a flush of the write buffer; any other code returns the
      mapped error with the slice. */
  lemma WriteAfterCall(data: seq<byte>, o: Oracle, i: nat)
    requires i < |WriteRun(data, o).log| && WriteRun(data, o).log[i].SslCalled?
    ensures var run := WriteRun(data, o); var ev := run.log[i];
      && ev.call == Call.Write(data)
      && (ev.reply.Ok? ==> DoesAt(run, i + 1, Do(AwaitFlushWriteBuf)))
      && (ev.reply.Err? && ev.reply.error.code.WantWrite? ==> DoesAt(run, i + 1, Do(AwaitFlushWriteBuf)))
      && (ev.reply.Err? && !ev.reply.error.code.WantWrite? ==>
            DoesAt(run, i + 1, Finish(BufResult(Err(SslErrIntoIo(ev.reply.error)), data))))
  {
    StepAround(WritePolicy(data), o, i);
  }

  /** A flush follows either an accepted write of `n` bytes, after which `write`
      returns `n` or the flush's error and does nothing more, or a WANT_WRITE,
      after which it writes the slice again or returns the flush's error. */
  lemma WriteAfterFlush(data: seq<byte>, o: Oracle, i: nat)
    requires i < |WriteRun(data, o).log| && WriteRun(data, o).log[i].WriteBufFlushed?
    ensures var run := WriteRun(data, o); var ev := run.log[i];
      && i > 0 && run.log[i - 1].SslCalled?
      && (run.log[i - 1].reply.Ok? || run.log[i - 1].reply.error.code.WantWrite?)
      && (run.log[i - 1].reply.Ok? && ev.sent.Ok? ==>
            DoesAt(run, i + 1, Finish(BufResult(Ok(run.log[i - 1].reply.value), data))))
      && (run.log[i - 1].reply.Err? && ev.sent.Ok? ==>
            DoesAt(run, i + 1, Do(InvokeSsl(Call.Write(data)))))
      && (ev.sent.Err? ==> DoesAt(run, i + 1, Finish(BufResult(Err(ev.sent.error), data))))
  {
    StepAround(WritePolicy(data), o, i);
  }

  /** `write` never fills the read buffer: it only writes and flushes. */
  lemma WriteEvents(data: seq<byte>, o: Oracle, i: nat)
    requires i < |WriteRun(data, o).log|
    ensures var ev := WriteRun(data, o).log[i];
      ev.SslCalled? || ev.WriteBufFlushed?
  {
    StepAround(WritePolicy(data), o, i);
  }

  // ---- flush ----

  /** `flush` begins by flushing the engine stream. */
  lemma FlushStarts(o: Oracle)
    ensures DoesAt(FlushRun(o), 0, Do(InvokeFlush))
  {
    StepAt(FlushPolicy(), o, 0);
  }

  /** A successful engine flush and a `WouldBlock` are both followed by a flush
      of the write buffer; any other error is returned unchanged, with no
      transport action. */
  lemma FlushAfterEngine(o: Oracle, i: nat)
    requires i < |FlushRun(o).log| && FlushRun(o).log[i].EngineFlushed?
    ensures var run := FlushRun(o); var ev := run.log[i];
      && (ev.flushed.Ok? ==> DoesAt(run, i + 1, Do(AwaitFlushWriteBuf)))
      && (ev.flushed.Err? && Kind(ev.flushed.error) == WouldBlock ==> DoesAt(run, i + 1, Do(AwaitFlushWriteBuf)))
      && (ev.flushed.Err? && Kind(ev.flushed.error) != WouldBlock ==> DoesAt(run, i + 1, Finish(ev.flushed)))
  {
    StepAround(FlushPolicy(), o, i);
  }

  /** The write buffer is flushed only after the engine flushed or would block.
      After a successful engine flush that is the last call: `flush` returns
      `Ok(())` or the transport's error. After `WouldBlock` it flushes the
      engine again, or returns the transport's error. */
  lemma FlushAfterWriteBuf(o: Oracle, i: nat)
    requires i < |FlushRun(o).log| && FlushRun(o).log[i].WriteBufFlushed?
    ensures var run := FlushRun(o); var ev := run.log[i];
      && i > 0 && run.log[i - 1].EngineFlushed?
      && (run.log[i - 1].flushed.Ok? || Kind(run.log[i - 1].flushed.error) == WouldBlock)
      && (run.log[i - 1].flushed.Ok? && ev.sent.Ok? ==> DoesAt(run, i + 1, Finish(Ok(()))))
      && (run.log[i - 1].flushed.Err? && ev.sent.Ok? ==> DoesAt(run, i + 1, Do(InvokeFlush)))
      && (ev.sent.Err? ==> DoesAt(run, i + 1, Finish(Err(ev.sent.error))))
  {
    StepAround(FlushPolicy(), o, i);
  }

  /** `flush` only flushes the engine and the write buffer. */
  lemma FlushEvents(o: Oracle, i: nat)
    requires i < |FlushRun(o).log|
    ensures var ev := FlushRun(o).log[i];
      ev.EngineFlushed? || ev.WriteBufFlushed?
  {
    StepAround(FlushPolicy(), o, i);
  }

  // ---- shutdown ----

  /** `shutdown` begins with the engine's shutdown. */
  lemma ShutdownStarts(o: Oracle)
    ensures DoesAt(ShutdownRun(o), 0, Do(InvokeShutdown))
  {
    StepAt(ShutdownPolicy(), o, 0);
  }

  /** `Sent` and WANT_WRITE are followed by a flush of the write buffer,
      WANT_READ by a fill of the read buffer; `Received` and SYSCALL without an
      I/O error by the transport's shutdown; any other code returns the mapped
      error, and the transport is not shut down. */
  lemma ShutdownAfterEngine(o: Oracle, i: nat)
    requires i < |ShutdownRun(o).log| && ShutdownRun(o).log[i].EngineShutDown?
    ensures var run := ShutdownRun(o); var ev := run.log[i];
      && (ev.shut == Ok(Sent) ==> DoesAt(run, i + 1, Do(AwaitFlushWriteBuf)))
      && (ev.shut == Ok(Received) ==> DoesAt(run, i + 1, Do(AwaitTransportShutdown)))
      && (ev.shut.Err? && ev.shut.error.code.WantWrite? ==> DoesAt(run, i + 1, Do(AwaitFlushWriteBuf)))
      && (ev.shut.Err? && ev.shut.error.code.WantRead? ==> DoesAt(run, i + 1, Do(AwaitFillReadBuf)))
      && (ev.shut.Err? && ev.shut.error.code.Syscall? && ev.shut.error.NoIoError() ==>
            DoesAt(run, i + 1, Do(AwaitTransportShutdown)))
      && (ev.shut.Err? && !ev.shut.error.IsWant()
          && !(ev.shut.error.code.Syscall? && ev.shut.error.NoIoError()) ==>
            DoesAt(run, i + 1, Finish(Err(SslErrIntoIo(ev.shut.error)))))
  {
    StepAround(ShutdownPolicy(), o, i);
  }

  /** Buffer transfers happen only after the engine asked for them; each is
      followed by another engine shutdown, or returns the transport's error. */
  lemma ShutdownAfterTransfer(o: Oracle, i: nat)
    requires i < |ShutdownRun(o).log|
    requires ShutdownRun(o).log[i].WriteBufFlushed? || ShutdownRun(o).log[i].ReadBufFilled?
    ensures var run := ShutdownRun(o); var ev := run.log[i];
      && i > 0 && run.log[i - 1].EngineShutDown?
      && (ev.WriteBufFlushed? ==>
            run.log[i - 1].shut == Ok(Sent) || (run.log[i - 1].shut.Err? && run.log[i - 1].shut.error.code.WantWrite?))
      && (ev.ReadBufFilled? ==> run.log[i - 1].shut.Err? && run.log[i - 1].shut.error.code.WantRead?)
      && (ev.WriteBufFlushed? && ev.sent.Ok? ==> DoesAt(run, i + 1, Do(InvokeShutdown)))
      && (ev.WriteBufFlushed? && ev.sent.Err? ==> DoesAt(run, i + 1, Finish(Err(ev.sent.error))))
      && (ev.ReadBufFilled? && ev.filled.Ok? ==> DoesAt(run, i + 1, Do(InvokeShutdown)))
      && (ev.ReadBufFilled? && ev.filled.Err? ==> DoesAt(run, i + 1, Finish(Err(ev.filled.error))))
  {
    StepAround(ShutdownPolicy(), o, i);
  }

  /** The transport is shut down only after `Received` or SYSCALL without an
      I/O error; it is the last call, and its answer is the result. */
  lemma ShutdownAfterTransport(o: Oracle, i: nat)
    requires i < |ShutdownRun(o).log| && ShutdownRun(o).log[i].TransportShutDown?
    ensures var run := ShutdownRun(o); var ev := run.log[i];
      && i > 0 && run.log[i - 1].EngineShutDown?
      && (run.log[i - 1].shut == Ok(Received)
          || (run.log[i - 1].shut.Err? && run.log[i - 1].shut.error.code.Syscall?
              && run.log[i - 1].shut.error.NoIoError()))
      && i == |run.log| - 1 && run.result == Ready(ev.closed)
  {
    StepAround(ShutdownPolicy(), o, i);
  }

  /** `shutdown` never flushes the engine stream. */
  lemma ShutdownEvents(o: Oracle, i: nat)
    requires i < |ShutdownRun(o).log|
    ensures !ShutdownRun(o).log[i].EngineFlushed? && !ShutdownRun(o).log[i].SslCalled?
  {
    StepAround(ShutdownPolicy(), o, i);
  }
}
