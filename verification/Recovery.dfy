/** The recovery interceptor: a panic becomes an unexpected ApplicationError. */
module Recovery {
  import opened Wrappers
  import opened Errors

  datatype Resp = NoResp | Resp(id: int)

  /** What a handler panics with: an error, with or without a stack trace of its own, or anything else. */
  datatype Payload = ErrorPayload(err: Err, stack: bool) | OtherPayload(text: int)

  /** How a handler ends, if it ends; Goexit unwinds its goroutine without a panic. */
  datatype Outcome = Value(resp: Resp) | Failure(resp: Resp, err: Err) | Panic(payload: Payload) | Goexit | Never

  /** How a call leaves a goroutine: by returning, by unwinding it, or by crashing the process. */
  datatype Exit = Returns(resp: Resp, err: Option<Err>) | Unwinds | Crashes

  function PayloadError(p: Payload): Err {
    match p
    case ErrorPayload(err, stack) => if stack then err else Wrapped(err)
    case OtherPayload(text) => Plain(text)
  }

  /** What is kept of a panic: an error that traces its own stack as it is, any other error inside a
      wrapper that does, and the text of anything else. */
  predicate Cause(p: Payload, cause: Err) {
    && (p.ErrorPayload? && p.stack ==> cause == p.err)
    && (p.ErrorPayload? && !p.stack ==> cause.Wrapped? && cause.inner == p.err)
    && (p.OtherPayload? ==> cause.Plain? && cause.id == p.text)
  }

  /** The error that a recovered panic is reported as. */
  function RecoveredError(trace: Option<string>, p: Payload): Err {
    App(if trace.Some? then trace.value else "", PayloadError(p), Internal, false)
  }

  /** How the interceptor ends for an outcome of the handler that it calls. */
  function RecoveredExit(trace: Option<string>, outcome: Outcome): (exit: Exit)
    requires outcome != Never
    ensures exit != Crashes
  {
    match outcome
    case Value(resp) => Returns(resp, None)
    case Failure(resp, err) => Returns(resp, Some(err))
    case Panic(p) => Returns(NoResp, Some(RecoveredError(trace, p)))
    case Goexit => Unwinds
  }

  /** The same call without the interceptor. */
  function BareExit(outcome: Outcome): Exit
    requires outcome != Never
  {
    match outcome
    case Value(resp) => Returns(resp, None)
    case Failure(resp, err) => Returns(resp, Some(err))
    case Panic(_) => Crashes
    case Goexit => Unwinds
  }

  /** The handler body, then the deferred recover: the flag `panicked` is still set when the body did
      not get to its end, and then the named result is overwritten. */
  method Handler(trace: Option<string>, outcome: Outcome) returns (exit: Exit)
    requires outcome != Never
    ensures exit == RecoveredExit(trace, outcome)
    ensures match outcome {
              case Value(resp) => exit == Returns(resp, None)
              case Failure(resp, err) => exit == Returns(resp, Some(err))
              case Goexit => exit == Unwinds
              case Panic(p) =>
                exists cause :: Cause(p, cause) && exit == Returns(NoResp, Some(App(if trace.Some? then trace.value else "", cause, Internal, false)))
            }
  {
    var panicked := true;
    var resp, err := NoResp, None;
    var recovered: Option<Payload> := None;
    match outcome {
      case Value(r) =>
        resp := r;
        panicked := false;
      case Failure(r, e) =>
        resp, err := r, Some(e);
        panicked := false;
      case Panic(p) =>
        recovered := Some(p);
        assert Cause(p, PayloadError(p));
      case Goexit =>
    }
    if recovered.Some? || panicked {
      var cause := if recovered.Some? then PayloadError(recovered.value) else Plain(0);
      err := Some(App(if trace.Some? then trace.value else "", cause, Internal, false));
    }
    exit := if outcome.Goexit? then Unwinds else Returns(resp, err);
  }
}
