/** The interceptors outside the deadline: the trace ID, and the two that report errors. */
module Reporting {
  import opened Wrappers
  import opened Errors
  import opened Recovery
  import Deadline
  import Runs

  /** Incoming metadata, if the request has any: values by header name. */
  type Metadata = Option<map<string, seq<string>>>

  /** Everything inside an interceptor: its result for the trace ID that it finds in the context. */
  type Next = Option<string> -> (Resp, Option<Err>)

  /** An error noticed by New Relic, with the trace ID attribute of the ApplicationError it carries. */
  datatype Notice = Notice(err: Err, trace: Option<string>)

  function Header(md: Metadata, name: string): Option<string> {
    if md.Some? && name in md.value && md.value[name] != [] then Some(md.value[name][0]) else None
  }

  /** The trace ID of a request: that of the caller if it sent one, else a new one. */
  function ChosenTrace(md: Metadata, uuid: string): string {
    var own, older := Header(md, "x-trace-id"), Header(md, "trace_id");
    if own.Some? then own.value else if older.Some? then older.value else uuid
  }

  /** What the trace ID of a request must be: the first x-trace-id of its metadata, else the first
      trace_id, else the new one. */
  predicate IsTraceOf(md: Metadata, uuid: string, trace: string) {
    if md.Some? && "x-trace-id" in md.value && md.value["x-trace-id"] != [] then trace == md.value["x-trace-id"][0]
    else if md.Some? && "trace_id" in md.value && md.value["trace_id"] != [] then trace == md.value["trace_id"][0]
    else trace == uuid
  }

  /** Errors are reported unless their outermost ApplicationError is an expected one. */
  predicate Reportable(err: Option<Err>) {
    err.Some? && var app := FirstApp(Preorder(err.value)); app.None? || !app.value.expected
  }

  function NoticeOf(err: Err): Notice {
    var app := FirstApp(Preorder(err));
    Notice(err, if app.None? then None else Some(app.value.trace))
  }

  /** One request on its way through the interceptors, with what they leave behind. */
  class Request {
    const md: Metadata
    var header: Option<string>      // the x-trace-id header of the response
    var attribute: Option<string>   // the TraceId attribute of the transaction
    var notices: seq<Notice>        // errors noticed on the New Relic transaction
    var captures: seq<Err>          // exceptions captured by Sentry

    constructor (md: Metadata)
      ensures this.md == md && header == None && attribute == None && notices == [] && captures == []
    {
      this.md := md;
      header, attribute, notices, captures := None, None, [], [];
    }

    /** Sentry: capture what the handler returned, then pass it on. */
    method Sentry(ctx: Option<string>, next: Next) returns (resp: Resp, err: Option<Err>)
      modifies this`captures
      ensures (resp, err) == next(ctx)
      ensures captures == old(captures) + if Reportable(err) then [err.value] else []
      ensures err.None? || (err.value.App? && err.value.expected) ==> captures == old(captures)
      ensures err.Some? && err.value.App? && !err.value.expected ==> captures == old(captures) + [err.value]
    {
      resp, err := next(ctx).0, next(ctx).1;
      if err.Some? {
        AsAppIsOutermost(err.value);
        var app := AsApp(err.value);
        if app.Some? {
          if !app.value.expected {
            captures := captures + [err.value];
          }
        } else {
          captures := captures + [err.value];
        }
      }
    }

    /** New Relic: the trace ID is put back into the context, an empty one if there was none. */
    method Newrelic(ctx: Option<string>, next: Next) returns (resp: Resp, err: Option<Err>)
      modifies this`attribute, this`notices, this`captures
      ensures var trace := if ctx.Some? then ctx.value else "";
              (resp, err) == next(Some(trace)) && attribute == Some(trace)
      ensures err.Some? && err.value.App? && !err.value.expected ==>
                |notices| == |old(notices)| + 1 && notices[|old(notices)|] == Notice(err.value, Some(err.value.trace))
      ensures err.Some? && err.value.App? && err.value.expected ==> notices == old(notices)
      ensures captures == old(captures) + if Reportable(err) then [err.value] else []
      ensures notices == old(notices) + if Reportable(err) then [NoticeOf(err.value)] else []
    {
      var trace := if ctx.Some? then ctx.value else "";
      attribute := Some(trace);
      resp, err := Sentry(Some(trace), next);
      if err.Some? {
        AsAppIsOutermost(err.value);
        var app := AsApp(err.value);
        if app.Some? {
          if !app.value.expected {
            notices := notices + [Notice(err.value, Some(app.value.trace))];
          }
        } else {
          notices := notices + [Notice(err.value, None)];
        }
      }
    }

    /** The outermost interceptor chooses the trace ID; locale and request log pass everything through. */
    method TraceId(uuid: string, next: Next) returns (resp: Resp, err: Option<Err>)
      modifies this
      ensures var trace := ChosenTrace(md, uuid);
              (resp, err) == next(Some(trace)) && header == attribute == Some(trace)
      ensures header.Some? && IsTraceOf(md, uuid, header.value)
      ensures (resp, err) == next(header) && attribute == header
      ensures err.Some? && err.value.App? && !err.value.expected ==>
                |notices| == |old(notices)| + 1 && notices[|old(notices)|] == Notice(err.value, Some(err.value.trace))
      ensures captures == old(captures) + if Reportable(err) then [err.value] else []
      ensures notices == old(notices) + if Reportable(err) then [NoticeOf(err.value)] else []
    {
      var trace := uuid;
      if md.Some? {
        var v := Header(md, "x-trace-id");
        if v.Some? {
          trace := v.value;
        } else {
          v := Header(md, "trace_id");
          if v.Some? {
            trace := v.value;
          }
        }
      }
      header := Some(trace);
      resp, err := Newrelic(Some(trace), next);
    }
  }

  /** The results that the deadline and recovery interceptors can return for a handler, whatever the
      interleaving. */
  ghost predicate Possible(outcome: Outcome, next: Next) {
    forall trace :: exists r: seq<Deadline.State> ::
      Deadline.Run(r) && r[0] == Deadline.Called(outcome, true, trace)
      && Runs.Last(r).main == Deadline.Returned(next(trace).0, next(trace).1)
  }

  /** What the two reporters record for a result. */
  ghost predicate ReportedAlike(err: Option<Err>, notices: seq<Notice>, captures: seq<Err>) {
    && |notices| == |captures| == (if Reportable(err) then 1 else 0)
    && (Reportable(err) ==> notices[0].err == captures[0] == err.value)
  }

  /** A whole call of the preset: it returns what the deadline and recovery allow; New Relic and Sentry
      record the same errors, at most one each; every deadline and every recovered panic is among them,
      the panic with the trace ID that the outermost interceptor chose and sent back to the caller. */
  method Call(md: Metadata, uuid: string, outcome: Outcome, next: Next)
    returns (resp: Resp, err: Option<Err>, request: Request)
    requires Possible(outcome, next)
    ensures Deadline.Allowed(Deadline.Called(outcome, true, Some(ChosenTrace(md, uuid))), resp, err)
    ensures request.header.Some? && IsTraceOf(md, uuid, request.header.value) && request.attribute == request.header
    ensures ReportedAlike(err, request.notices, request.captures)
    ensures err == Some(Status(DeadlineExceeded)) ==> request.captures == [Status(DeadlineExceeded)]
    ensures outcome.Panic? ==> |request.notices| == 1
    ensures outcome.Panic? && err != Some(Deadline.TIMEOUT) ==>
              request.notices[0].trace == request.header == Some(ChosenTrace(md, uuid))
    ensures outcome.Value? && err != Some(Deadline.TIMEOUT) ==> request.notices == [] && request.captures == []
  {
    request := new Request(md);
    resp, err := request.TraceId(uuid, next);
    ghost var trace := Some(ChosenTrace(md, uuid));
    Deadline.ResultsExactly(outcome, true, trace, next(trace).0, next(trace).1);
    Deadline.GuardedResults(outcome, trace, resp, err);
  }

  /** However deep an error is wrapped, or joined with others that carry no ApplicationError, both
      reporters treat it as they would treat it alone, and note the same trace ID. An ApplicationError
      around all of that decides alone. */
  lemma EnclosedReport(layers: seq<Layer>, err: Err, trace: string, code: Code, expected: bool)
    requires forall l <- layers :: l.Join? ==> WithoutApp(l.before) && (WithoutApp(l.after) || AsApp(err).Some?)
    ensures var deep := Enclosed(layers, err);
            && (Reportable(Some(deep)) <==> Reportable(Some(err)))
            && NoticeOf(deep).trace == NoticeOf(err).trace
            && (Reportable(Some(App(trace, deep, code, expected))) <==> !expected)
            && NoticeOf(App(trace, deep, code, expected)) == Notice(App(trace, deep, code, expected), Some(trace))
  {
    EnclosedKeepsApp(layers, err);
    AsAppIsOutermost(err);
    AsAppIsOutermost(Enclosed(layers, err));
  }
}
