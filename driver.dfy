/** The shape every retry loop of the adapter shares. A loop calls the engine,
    looks at the answer, and then returns, or performs one more call into the
    engine or the transport. A `policy` says which, given the events of the
    current operation so far; `Drive` runs a policy against an oracle. */
module Driver {
  import opened Errors
  import opened Oracles

  /** What a loop does next: one action, or return `result`. */
  datatype Step<+R> = Do(action: Action) | Finish(result: R)

  /** An operation either returned, or stopped at a call whose oracle queue is
      empty: an awaited transport future that never completes, or an engine
      call beyond the answers the oracle supplies (the run is cut off there). */
  datatype Poll<+R> = Pending | Ready(value: R)

  /** The outcome of running an operation: its result, the answers left, and
      every event of the operation, in order. */
  datatype Run<+R> = Run(result: Poll<R>, rest: Oracle, log: seq<Event>)

  /** Run `policy` from the events `done` so far, answering each action from `o`. */
  function Drive<R>(policy: seq<Event> -> Step<R>, done: seq<Event>, o: Oracle): Run<R>
    decreases Size(o), 1
  {
    match policy(done)
    case Finish(r) => Run(Ready(r), o, done)
    case Do(a) =>
      match Take(a, o)
      case None => Run(Pending, o, done)
      case Some((ev, rest)) =>
        TakeGiven(a, o);
        Resume(policy, done + [ev], rest)
  }

  /** Go on with a run once an action has been answered. This indirection
      models nothing: it is there for the solver, so that each use of `Drive`
      unfolds one step of the run rather than two. */
  function Resume<R>(policy: seq<Event> -> Step<R>, done: seq<Event>, o: Oracle): Run<R>
    decreases Size(o), 2
  {
    Drive(policy, done, o)
  }

  /** Unfolding one action of a run. */
  lemma DriveStep<R>(policy: seq<Event> -> Step<R>, done: seq<Event>, o: Oracle, ev: Event, rest: Oracle)
    requires policy(done).Do? && Take(policy(done).action, o) == Some((ev, rest))
    ensures Drive(policy, done, o) == Drive(policy, done + [ev], rest)
  {
  }

  /** The log and rest of an oracle run agree with the policy: the log extends
      `done`; each new event is the answer to the action the policy chose at that
      point; the answers recorded are exactly those taken from the oracle, in order;
      a finished run returns what the policy says after the last event; a pending
      run stopped at an action whose queue is empty. */
  ghost predicate Conforms<R>(policy: seq<Event> -> Step<R>, done: seq<Event>, o: Oracle, run: Run<R>)
  {
    |done| <= |run.log| && run.log[..|done|] == done
    && (forall i :: |done| <= i < |run.log| ==>
          policy(run.log[..i]).Do? && Fits(policy(run.log[..i]).action, run.log[i]))
    && Feed(run.log[|done|..], run.rest) == o
    && (run.result.Ready? ==> policy(run.log) == Finish(run.result.value))
    && (run.result.Pending? ==> policy(run.log).Do? && Queue(policy(run.log).action, run.rest) == 0)
  }

  /** `Drive` produces a run that conforms to the policy. */
  lemma {:induction false} DriveConforms<R>(policy: seq<Event> -> Step<R>, done: seq<Event>, o: Oracle)
    ensures Conforms(policy, done, o, Drive(policy, done, o))
    decreases Size(o)
  {
    match policy(done)
    case Finish(r) =>
    case Do(a) =>
      TakeGiven(a, o);
      match Take(a, o)
      case None =>
      case Some((ev, rest)) =>
        var run := Drive(policy, done + [ev], rest);
        DriveConforms(policy, done + [ev], rest);
        assert run.log[..|done| + 1] == done + [ev];
        assert run.log[..|done|] == done by {
          assert run.log[..|done|] == run.log[..|done| + 1][..|done|];
        }
        assert run.log[|done|..] == [ev] + run.log[|done| + 1..] by {
          assert run.log[|done|] == ev;
        }
        forall i | |done| <= i < |run.log|
          ensures policy(run.log[..i]).Do? && Fits(policy(run.log[..i]).action, run.log[i])
        {
          if i == |done| {
            assert run.log[i] == ev;
          }
        }
  }

  /** Conversely, a run that conforms to the policy is the one `Drive` produces:
      the policy and the oracle decide the whole run. */
  lemma {:induction false} ConformingRunIsDriven<R>(policy: seq<Event> -> Step<R>, done: seq<Event>, o: Oracle, run: Run<R>)
    requires Conforms(policy, done, o, run)
    ensures Drive(policy, done, o) == run
    decreases |run.log| - |done|
  {
    if |run.log| == |done| {
      assert run.log == done;
      assert run.log[|done|..] == [];
    } else {
      var ev := run.log[|done|];
      assert run.log[..|done|] == done;
      var a := policy(done).action;
      assert Fits(a, ev);
      TakeGiven(a, o);
      var rest := Feed(run.log[|done| + 1..], run.rest);
      assert run.log[|done|..][1..] == run.log[|done| + 1..];
      assert o == Give(ev, rest);
      TakeGive(a, ev, rest);
      var done' := done + [ev];
      assert run.log[..|done'|] == done';
      forall i | |done'| <= i < |run.log|
        ensures policy(run.log[..i]).Do? && Fits(policy(run.log[..i]).action, run.log[i])
      {
      }
      ConformingRunIsDriven(policy, done', rest, run);
    }
  }

  /** After the first `i` events of `run`, the run does `s`: it returns the
      result `s` names and nothing follows, or it performs `s`'s action, which
      is recorded as event `i`, or it stopped at that action, whose queue is empty. */
  ghost predicate DoesAt<R>(run: Run<R>, i: nat, s: Step<R>)
  {
    i <= |run.log| &&
    match s
    case Finish(r) => i == |run.log| && run.result == Ready(r)
    case Do(a) =>
      if i < |run.log| then Fits(a, run.log[i])
      else run.result.Pending? && Queue(a, run.rest) == 0
  }

  /** At every point of a run from the start, the run does what the policy
      says after the events so far. */
  lemma StepAt<R>(policy: seq<Event> -> Step<R>, o: Oracle, i: nat)
    requires i <= |Drive(policy, [], o).log|
    ensures var run := Drive(policy, [], o);
      DoesAt(run, i, policy(run.log[..i]))
  {
    var run := Drive(policy, [], o);
    DriveConforms(policy, [], o);
    if i == |run.log| {
      assert run.log[..i] == run.log;
    }
  }

  /** Around the event at `i`: the policy asked for the action that event
      answers, and afterwards the run does what the policy says next. */
  lemma StepAround<R>(policy: seq<Event> -> Step<R>, o: Oracle, i: nat)
    requires i < |Drive(policy, [], o).log|
    ensures var log := Drive(policy, [], o).log;
      policy(log[..i]).Do? && Fits(policy(log[..i]).action, log[i])
      && DoesAt(Drive(policy, [], o), i + 1, policy(log[..i + 1]))
  {
    StepAt(policy, o, i);
    StepAt(policy, o, i + 1);
  }
}
