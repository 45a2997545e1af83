/** The deadline interceptor as a step system: the goroutine that runs the handler, its two one-slot
    channels, the deadline of the context, and the select that returns. */
module Deadline {
  import opened Runs
  import opened Wrappers
  import opened Errors
  import opened Recovery

  datatype WorkerPc = InHandler | SendingValue(resp: Resp) | SendingError(err: Err) | Ended

  datatype MainPc = Selecting | Returned(resp: Resp, err: Option<Err>)

  /** `outcome` is how the handler ends if it is let finish, `guarded` whether the recovery interceptor
      runs inside the goroutine, and `trace` the trace ID of its context. */
  datatype State = State(
    outcome: Outcome, guarded: bool, trace: Option<string>,
    worker: WorkerPc, main: MainPc, values: Option<Resp>, errors: Option<Err>,
    expired: bool, crashed: bool)

  const TIMEOUT := Status(DeadlineExceeded)

  function Called(outcome: Outcome, guarded: bool, trace: Option<string>): State {
    State(outcome, guarded, trace, InHandler, Selecting, None, None, false, false)
  }

  datatype Action = Finish | SendValue | SendError | Expire | TakeValue | TakeError | GiveUp

  function ExitOf(s: State): Exit
    requires s.outcome != Never
  {
    if s.guarded then RecoveredExit(s.trace, s.outcome) else BareExit(s.outcome)
  }

  predicate Enabled(s: State, a: Action) {
    && !s.crashed
    && match a
       case Finish => s.worker == InHandler && s.outcome != Never
       case SendValue => s.worker.SendingValue? && s.values.None?
       case SendError => s.worker.SendingError? && s.errors.None?
       case Expire => !s.expired
       case TakeValue => s.main == Selecting && s.values.Some?
       case TakeError => s.main == Selecting && s.errors.Some?
       case GiveUp => s.main == Selecting && s.expired
  }

  function Do(s: State, a: Action): State
    requires Enabled(s, a)
  {
    match a
    case Finish =>
      (match ExitOf(s)
       case Returns(resp, None) => s.(worker := SendingValue(resp))
       case Returns(_, Some(err)) => s.(worker := SendingError(err))
       case Unwinds => s.(worker := Ended)
       case Crashes => s.(worker := Ended, crashed := true))
    case SendValue => s.(worker := Ended, values := Some(s.worker.resp))
    case SendError => s.(worker := Ended, errors := Some(s.worker.err))
    case Expire => s.(expired := true)
    case TakeValue => s.(main := Returned(s.values.value, None), values := None)
    case TakeError => s.(main := Returned(NoResp, Some(s.errors.value)), errors := None)
    case GiveUp => s.(main := Returned(NoResp, Some(TIMEOUT)))
  }

  ghost predicate Next(s: State, t: State) {
    exists a :: Enabled(s, a) && t == Do(s, a)
  }

  ghost predicate Run(r: seq<State>) {
    IsRun(Next, r)
  }

  ghost predicate Stuck(s: State) {
    forall a :: !Enabled(s, a)
  }

  // ---- Safety ----

  /** Both channels are empty until the worker has ended. */
  predicate Invariant(s: State) {
    && (s.worker != Ended ==> s.values.None? && s.errors.None?)
    && (s.worker != InHandler || s.values.Some? || s.errors.Some? || s.crashed ==> s.outcome != Never)
    && (s.worker.SendingValue? ==> ExitOf(s) == Returns(s.worker.resp, None))
    && (s.worker.SendingError? ==> ExitOf(s).Returns? && ExitOf(s).err == Some(s.worker.err))
    && (s.values.Some? ==> ExitOf(s) == Returns(s.values.value, None))
    && (s.errors.Some? ==> ExitOf(s).Returns? && ExitOf(s).err == s.errors)
    && (s.crashed ==> ExitOf(s) == Crashes)
    && (s.main.Returned? ==> Allowed(s, s.main.resp, s.main.err))
  }

  /** What a call may return: that the deadline was exceeded, or, if the handler ends by returning, its
      value, or its error without a response. */
  predicate Allowed(s: State, resp: Resp, err: Option<Err>) {
    if err == Some(TIMEOUT) && resp == NoResp then true
    else
      && s.outcome != Never && ExitOf(s).Returns?
      && err == ExitOf(s).err && resp == if err.None? then ExitOf(s).resp else NoResp
  }

  lemma InvariantStep(s: State, a: Action)
    requires Invariant(s) && Enabled(s, a)
    ensures Invariant(Do(s, a))
    ensures s.main.Returned? ==> Do(s, a).main == s.main
    ensures var t := Do(s, a); t.outcome == s.outcome && t.guarded == s.guarded && t.trace == s.trace
  {
  }

  lemma InvariantNext(s: State, t: State)
    requires Invariant(s) && Next(s, t)
    ensures Invariant(t) && (s.main.Returned? ==> t.main == s.main)
    ensures t.outcome == s.outcome && t.guarded == s.guarded && t.trace == s.trace
  {
    var a :| Enabled(s, a) && t == Do(s, a);
    InvariantStep(s, a);
  }

  lemma InvariantOnRuns(r: seq<State>, i: nat)
    requires Run(r) && Invariant(r[0]) && i < |r|
    ensures Invariant(r[i]) && (r[0].main.Returned? ==> r[i].main == r[0].main)
    ensures r[i].outcome == r[0].outcome && r[i].guarded == r[0].guarded && r[i].trace == r[0].trace
  {
    var kept := (s: State) => Invariant(s) && (r[0].main.Returned? ==> s.main == r[0].main)
                              && s.outcome == r[0].outcome && s.guarded == r[0].guarded && s.trace == r[0].trace;
    forall s, t | kept(s) && Next(s, t) ensures kept(t) {
      InvariantNext(s, t);
    }
    Invariance(Next, kept, r, i);
  }

  /** A call that has returned has done so for good. */
  lemma ReturnsOnce(r: seq<State>, i: nat)
    requires Run(r) && Invariant(r[0]) && r[0].main.Returned? && i < |r|
    ensures r[i].main == r[0].main
  {
    InvariantOnRuns(r, i);
  }

  /** In no interleaving does the worker block: whenever it is about to send, even to a call that has
      been given up, the channel has room. */
  lemma NeverBlocksOnSend(r: seq<State>, outcome: Outcome, guarded: bool, trace: Option<string>, i: nat)
    requires Run(r) && r[0] == Called(outcome, guarded, trace) && i < |r| && !r[i].crashed
    ensures r[i].worker.SendingValue? ==> Enabled(r[i], SendValue)
    ensures r[i].worker.SendingError? ==> Enabled(r[i], SendError)
  {
    InvariantOnRuns(r, i);
  }

  /** The process crashes in some run if and only if the handler panics and recovery does not run inside
      the goroutine. */
  lemma CrashExactly(outcome: Outcome, guarded: bool, trace: Option<string>)
    ensures (exists r: seq<State> :: Run(r) && r[0] == Called(outcome, guarded, trace) && r[|r| - 1].crashed)
            <==> outcome.Panic? && !guarded
  {
    var s := Called(outcome, guarded, trace);
    if outcome.Panic? && !guarded {
      var r := [s, Do(s, Finish)];
      assert Next(s, Do(s, Finish));
      Append(Next, [s], Do(s, Finish));
      assert r == [s] + [Do(s, Finish)];
      assert r[|r| - 1].crashed;
    } else {
      forall r: seq<State> | Run(r) && r[0] == s ensures !r[|r| - 1].crashed {
        InvariantOnRuns(r, |r| - 1);
      }
    }
  }

  // ---- Progress ----

  function Work(s: State): nat {
    (match s.worker { case InHandler => 2 case Ended => 0 case _ => 1 })
    + (if s.expired then 0 else 1) + (if s.main == Selecting then 1 else 0)
  }

  lemma WorkDecreases(s: State, a: Action)
    requires Enabled(s, a)
    ensures Work(Do(s, a)) < Work(s)
  {
  }

  /** Every run is finite, and one that cannot go on has returned, whether or not the handler ever ends. */
  lemma RunsEnd(r: seq<State>, i: nat)
    requires Run(r) && i < |r|
    ensures i + Work(r[i]) <= Work(r[0])
  {
    forall s, t | Next(s, t) ensures Work(t) < Work(s) {
      var a :| Enabled(s, a) && t == Do(s, a);
      WorkDecreases(s, a);
    }
    Bounded(Next, (s: State) => true, Work, r, i);
  }

  lemma StuckHasReturned(s: State)
    requires Stuck(s) && !s.crashed
    ensures s.main.Returned?
  {
    assert !Enabled(s, Expire) && !Enabled(s, GiveUp);
  }

  /** Nor is its goroutine left behind in a send: it has ended, unless the handler never does. */
  lemma StuckWorkerEnded(s: State)
    requires Invariant(s) && Stuck(s) && !s.crashed
    ensures s.worker == Ended || (s.worker == InHandler && s.outcome == Never)
  {
    assert !Enabled(s, Finish) && !Enabled(s, SendValue) && !Enabled(s, SendError);
  }

  // ---- Exactly which results are possible ----

  lemma Extend(r: seq<State>, a: Action) returns (q: seq<State>)
    requires Run(r) && Enabled(Last(r), a)
    ensures Run(q) && q[0] == r[0] && Last(q) == Do(Last(r), a)
  {
    assert Next(Last(r), Do(Last(r), a));
    q := Runs.Extend(Next, r, Do(Last(r), a));
  }

  lemma RunTo(s: State, resp: Resp, err: Option<Err>) returns (r: seq<State>)
    requires s == Called(s.outcome, s.guarded, s.trace) && Allowed(s, resp, err)
    ensures Run(r) && r[0] == s && Last(r).main == Returned(resp, err)
  {
    r := [s];
    if err == Some(TIMEOUT) && resp == NoResp {
      r := Extend(r, Expire);
      r := Extend(r, GiveUp);
    } else {
      r := Extend(r, Finish);
      if err.None? {
        r := Extend(r, SendValue);
        r := Extend(r, TakeValue);
      } else {
        r := Extend(r, SendError);
        r := Extend(r, TakeError);
      }
    }
  }

  /** Over all interleavings a call can return exactly the allowed results. */
  lemma ResultsExactly(outcome: Outcome, guarded: bool, trace: Option<string>, resp: Resp, err: Option<Err>)
    ensures var s := Called(outcome, guarded, trace);
            (exists r: seq<State> :: Run(r) && r[0] == s && Last(r).main == Returned(resp, err)) <==> Allowed(s, resp, err)
  {
    var s := Called(outcome, guarded, trace);
    if Allowed(s, resp, err) {
      var r := RunTo(s, resp, err);
    }
    forall r: seq<State> | Run(r) && r[0] == s && Last(r).main == Returned(resp, err) ensures Allowed(s, resp, err) {
      InvariantOnRuns(r, |r| - 1);
    }
  }

  /** With recovery inside, as the preset has it: a value or the deadline for a handler that returns one,
      its own error without a response or the deadline for one that fails, an unexpected Internal
      ApplicationError carrying the trace ID or the deadline for one that panics, and only the deadline
      for one that unwinds its goroutine or never ends. */
  lemma GuardedResults(outcome: Outcome, trace: Option<string>, resp: Resp, err: Option<Err>)
    ensures (exists r: seq<State> :: Run(r) && r[0] == Called(outcome, true, trace) && Last(r).main == Returned(resp, err))
            <==> || (resp == NoResp && err == Some(Status(DeadlineExceeded)))
                 || match outcome {
                      case Value(v) => resp == v && err == None
                      case Failure(_, e) => resp == NoResp && err == Some(e)
                      case Panic(p) =>
                        && resp == NoResp && err.Some? && err.value.App? && Cause(p, err.value.inner)
                        && err.value == App(if trace.Some? then trace.value else "", err.value.inner, Internal, false)
                      case _ => false
                    }
  {
    ResultsExactly(outcome, true, trace, resp, err);
  }

  /** Without recovery inside the goroutine, the same but for a panic, after which only the deadline can
      still be returned. */
  lemma BareResults(outcome: Outcome, trace: Option<string>, resp: Resp, err: Option<Err>)
    ensures (exists r: seq<State> :: Run(r) && r[0] == Called(outcome, false, trace) && Last(r).main == Returned(resp, err))
            <==> || (resp == NoResp && err == Some(Status(DeadlineExceeded)))
                 || (outcome.Value? && resp == outcome.resp && err == None)
                 || (outcome.Failure? && resp == NoResp && err == Some(outcome.err))
  {
    ResultsExactly(outcome, false, trace, resp, err);
  }
}
