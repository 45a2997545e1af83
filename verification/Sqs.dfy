/** The SQS worker as a step system: a producer loop that fetches batches, a bounded queue, a handler loop
    that works on one batch at a time, and Shutdown. */
module Sqs {
  import opened Runs

  /** Messages are numbered as they are received; a batch is a stretch of them. */
  datatype Batch = Batch(first: nat, size: nat)

  datatype ProducerPc = Unstarted | AtCheck | Receiving | Sending(b: Batch) | Exiting | Done

  /** What the goroutine of one message is doing. */
  datatype MessagePc = InEvent | InError | Deleting | Ended

  /** How the user's handler decided: OnEvent succeeded, OnError said to ignore the error or to keep the
      message, or one of them panicked. */
  datatype Verdict = Succeeded | Ignored | Kept | Panicked

  datatype HandlerPc = Asleep | Selecting | Working(b: Batch, pcs: seq<MessagePc>) | Leaving | Gone

  datatype ShutPc = Idle | Disabled | Waiting | Returned

  /** `max` is both the most messages in a batch and the most batches in the queue. `received`,
      `finished`, `next`, `done`, `verdicts` and `deletes` record what has happened. */
  datatype State = State(
    max: nat, enabled: bool, cancelled: bool, wg: int,
    producer: ProducerPc, handler: HandlerPc, queue: seq<Batch>, shut: ShutPc,
    received: seq<Batch>, finished: seq<Batch>, next: nat, done: nat,
    verdicts: map<nat, Verdict>, deletes: multiset<nat>)

  /** After Serve has launched the two goroutines. */
  function Served(max: nat): State {
    State(max, true, false, 0, Unstarted, Asleep, [], Idle, [], [], 0, 0, map[], multiset{})
  }

  datatype Action =
    | StartProducer | Check | ReceiveError | Receive(size: nat) | Send | EndProducer
    | StartHandler | Take | Quit | EndHandler | EndBatch
    | Event(i: nat, ok: bool) | Error(i: nat, ignore: bool) | Panic(i: nat) | Delete(i: nat)
    | Disable | Cancel | Wait

  predicate AtMessage(s: State, i: nat, pc: MessagePc) {
    s.handler.Working? && i < |s.handler.pcs| && s.handler.pcs[i] == pc
  }

  predicate AllEnded(pcs: seq<MessagePc>) {
    forall i :: 0 <= i < |pcs| ==> pcs[i] == Ended
  }

  predicate Enabled(s: State, a: Action) {
    match a
    case StartProducer => s.producer == Unstarted
    case Check => s.producer == AtCheck
    case ReceiveError => s.producer == Receiving
    case Receive(size) => s.producer == Receiving && size <= s.max
    case Send => s.producer.Sending? && |s.queue| < s.max
    case EndProducer => s.producer == Exiting
    case StartHandler => s.handler == Asleep
    case Take => s.handler == Selecting && s.queue != []
    case Quit => s.handler == Selecting && s.cancelled
    case EndHandler => s.handler == Leaving
    case EndBatch => s.handler.Working? && AllEnded(s.handler.pcs)
    case Event(i, _) => AtMessage(s, i, InEvent)
    case Error(i, _) => AtMessage(s, i, InError)
    case Panic(i) => AtMessage(s, i, InEvent) || AtMessage(s, i, InError)
    case Delete(i) => AtMessage(s, i, Deleting)
    case Disable => s.shut == Idle
    case Cancel => s.shut == Disabled
    case Wait => s.shut == Waiting && s.wg == 0
  }

  function SetMessage(s: State, i: nat, pc: MessagePc): State
    requires s.handler.Working? && i < |s.handler.pcs|
  {
    s.(handler := Working(s.handler.b, s.handler.pcs[i := pc]))
  }

  function Decide(s: State, i: nat, v: Verdict): State
    requires s.handler.Working? && i < |s.handler.pcs|
  {
    SetMessage(s, i, if v == Succeeded || v == Ignored then Deleting else Ended)
      .(verdicts := s.verdicts[s.handler.b.first + i := v])
  }

  function Do(s: State, a: Action): State
    requires Enabled(s, a)
  {
    match a
    case StartProducer => s.(producer := AtCheck, wg := s.wg + 1)
    case Check => s.(producer := if s.enabled then Receiving else Exiting)
    case ReceiveError => s.(producer := AtCheck)
    case Receive(size) =>
      var b := Batch(s.next, size);
      s.(producer := Sending(b), received := s.received + [b], next := s.next + size)
    case Send => s.(producer := AtCheck, queue := s.queue + [s.producer.b])
    case EndProducer => s.(producer := Done, wg := s.wg - 1)
    case StartHandler => s.(handler := Selecting, wg := s.wg + 1)
    case Take => s.(handler := Working(s.queue[0], seq(s.queue[0].size, _ => InEvent)), queue := s.queue[1..])
    case Quit => s.(handler := Leaving)
    case EndHandler => s.(handler := Gone, wg := s.wg - 1)
    case EndBatch => s.(handler := Selecting, finished := s.finished + [s.handler.b], done := s.done + s.handler.b.size)
    case Event(i, ok) => if ok then Decide(s, i, Succeeded) else SetMessage(s, i, InError)
    case Error(i, ignore) => Decide(s, i, if ignore then Ignored else Kept)
    case Panic(i) => Decide(s, i, Panicked)
    case Delete(i) => SetMessage(s, i, Ended).(deletes := s.deletes + multiset{s.handler.b.first + i})
    case Disable => s.(enabled := false, shut := Disabled)
    case Cancel => s.(cancelled := true, shut := Waiting)
    case Wait => s.(shut := Returned)
  }

  ghost predicate Next(s: State, t: State) {
    exists a :: Enabled(s, a) && t == Do(s, a)
  }

  ghost predicate Run(r: seq<State>) {
    IsRun(Next, r)
  }

  ghost predicate Stuck(s: State) {
    forall a :: !Enabled(s, a)
  }

  // ---- Conservation ----

  function Handled(h: HandlerPc): seq<Batch> {
    if h.Working? then [h.b] else []
  }

  function Held(p: ProducerPc): seq<Batch> {
    if p.Sending? then [p.b] else []
  }

  /** The batches that were received and are not finished, oldest first. */
  function Outstanding(s: State): seq<Batch> {
    Handled(s.handler) + s.queue + Held(s.producer)
  }

  /** Batches that cover the messages from one number up to another without gap or overlap. */
  predicate Chain(bs: seq<Batch>, from: nat, to: nat) {
    if bs == [] then from == to
    else bs[0].first == from && Chain(bs[1..], from + bs[0].size, to)
  }

  predicate Small(bs: seq<Batch>, max: nat) {
    forall i :: 0 <= i < |bs| ==> bs[i].size <= max
  }

  predicate Started(s: State) {
    s.producer != Unstarted && s.producer != Done
  }

  predicate Awake(s: State) {
    s.handler != Asleep && s.handler != Gone
  }

  predicate InPhase(s: State) {
    && (s.enabled <==> s.shut == Idle)
    && (s.cancelled <==> s.shut == Waiting || s.shut == Returned)
    && s.wg == (if Started(s) then 1 else 0) + (if Awake(s) then 1 else 0)
    && ((s.producer == Exiting || s.producer == Done) ==> !s.enabled)
    && ((s.handler == Leaving || s.handler == Gone) ==> s.cancelled)
    && (s.handler.Working? ==> |s.handler.pcs| == s.handler.b.size)
    && (s.shut == Returned ==> s.producer != Receiving && !s.producer.Sending?)
  }

  /** Nothing is lost, duplicated or reordered between the producer and the handler, and neither a batch
      nor the queue exceeds its bound. */
  predicate Conserved(s: State) {
    && s.received == s.finished + Outstanding(s)
    && Chain(s.finished, 0, s.done) && Chain(Outstanding(s), s.done, s.next)
    && |s.queue| <= s.max && Small(Outstanding(s), s.max)
  }

  lemma {:induction false} ChainAppend(bs: seq<Batch>, from: nat, to: nat, b: Batch)
    requires Chain(bs, from, to) && b.first == to
    ensures Chain(bs + [b], from, to + b.size)
  {
    if bs == [] {
      assert bs + [b] == [b] && [b][1..] == [];
    } else {
      ChainAppend(bs[1..], from + bs[0].size, to, b);
      assert (bs + [b])[1..] == bs[1..] + [b];
    }
  }

  /** The number of messages in a chain of small batches. */
  lemma {:induction false} ChainLength(bs: seq<Batch>, from: nat, to: nat, max: nat)
    requires Chain(bs, from, to) && Small(bs, max)
    ensures from <= to <= from + max * |bs|
  {
    if bs != [] {
      ChainLength(bs[1..], from + bs[0].size, to, max);
      assert bs[0].size + max * |bs[1..]| <= max * |bs|;
    }
  }

  lemma SameOutstanding(s: State, t: State)
    requires Conserved(s) && Outstanding(t) == Outstanding(s)
    requires t.received == s.received && t.finished == s.finished && t.next == s.next && t.done == s.done && t.max == s.max
    requires |t.queue| <= t.max
    ensures Conserved(t)
  {
  }

  /** A step of the goroutine of one message. */
  predicate IsMessageStep(a: Action) {
    a.Event? || a.Error? || a.Panic? || a.Delete?
  }

  /** Such a step touches that message's goroutine and the records only. */
  lemma MessageStepShape(s: State, a: Action)
    requires Enabled(s, a) && IsMessageStep(a)
    ensures var t := Do(s, a);
            && s.handler.Working? && a.i < |s.handler.pcs| && t.handler.Working?
            && t.handler == Working(s.handler.b, s.handler.pcs[a.i := t.handler.pcs[a.i]])
            && t == s.(handler := t.handler, verdicts := t.verdicts, deletes := t.deletes)
  {
  }

  lemma ReceiveConserves(s: State, size: nat)
    requires InPhase(s) && Conserved(s) && Enabled(s, Receive(size))
    ensures Conserved(Do(s, Receive(size)))
  {
    var t, b := Do(s, Receive(size)), Batch(s.next, size);
    assert Outstanding(t) == Outstanding(s) + [b];
    ChainAppend(Outstanding(s), s.done, s.next, b);
    assert s.finished + Outstanding(t) == (s.finished + Outstanding(s)) + [b];
  }

  /** The first outstanding batch becomes the last finished one. */
  lemma MoveOver(finished: seq<Batch>, b: Batch, rest: seq<Batch>, done: nat, next: nat, max: nat)
    requires Chain(finished, 0, done) && Chain([b] + rest, done, next) && Small([b] + rest, max)
    ensures Chain(finished + [b], 0, done + b.size) && Chain(rest, done + b.size, next) && Small(rest, max)
    ensures finished + ([b] + rest) == (finished + [b]) + rest
  {
    var all := [b] + rest;
    assert all[0] == b && all[1..] == rest;
    ChainAppend(finished, 0, done, b);
    assert forall i :: 0 <= i < |rest| ==> rest[i] == all[i + 1];
  }

  lemma EndBatchConserves(s: State)
    requires InPhase(s) && Conserved(s) && Enabled(s, EndBatch)
    ensures Conserved(Do(s, EndBatch))
  {
    var rest := s.queue + Held(s.producer);
    assert [s.handler.b] + s.queue + Held(s.producer) == [s.handler.b] + rest;
    assert [] + s.queue + Held(s.producer) == rest;
    MoveOver(s.finished, s.handler.b, rest, s.done, s.next, s.max);
  }

  lemma SendConserves(s: State)
    requires Conserved(s) && Enabled(s, Send)
    ensures Conserved(Do(s, Send))
  {
    var t, h := Do(s, Send), Handled(s.handler);
    assert Outstanding(t) == h + (s.queue + [s.producer.b]) + [] == Outstanding(s);
    SameOutstanding(s, t);
  }

  lemma TakeConserves(s: State)
    requires Conserved(s) && Enabled(s, Take)
    ensures Conserved(Do(s, Take))
  {
    var t := Do(s, Take);
    assert [s.queue[0]] + s.queue[1..] == s.queue;
    assert Outstanding(t) == Outstanding(s);
    SameOutstanding(s, t);
  }

  /** Any other step leaves all batches where they are. */
  lemma QuietConserves(s: State, a: Action)
    requires Conserved(s) && Enabled(s, a) && !a.Receive? && !a.Send? && !a.Take? && !a.EndBatch? && !IsMessageStep(a)
    ensures Conserved(Do(s, a))
  {
    var t := Do(s, a);
    assert Handled(t.handler) == Handled(s.handler) && t.queue == s.queue && Held(t.producer) == Held(s.producer);
    SameOutstanding(s, t);
  }

  lemma ConservedStep(s: State, a: Action)
    requires InPhase(s) && Conserved(s) && Enabled(s, a)
    ensures Conserved(Do(s, a))
  {
    if IsMessageStep(a) {
      MessageStepShape(s, a);
      SameOutstanding(s, Do(s, a));
    } else if a.Receive? {
      ReceiveConserves(s, a.size);
    } else if a.EndBatch? {
      EndBatchConserves(s);
    } else if a.Send? {
      SendConserves(s);
    } else if a.Take? {
      TakeConserves(s);
    } else {
      QuietConserves(s, a);
    }
  }

  predicate IsProducerStep(a: Action) {
    a.StartProducer? || a.Check? || a.ReceiveError? || a.Receive? || a.Send? || a.EndProducer?
  }

  lemma ProducerPhase(s: State, a: Action)
    requires InPhase(s) && Enabled(s, a) && IsProducerStep(a)
    ensures InPhase(Do(s, a))
  {
  }

  lemma OtherPhase(s: State, a: Action)
    requires InPhase(s) && Enabled(s, a) && !IsProducerStep(a) && !IsMessageStep(a)
    ensures InPhase(Do(s, a))
  {
  }

  lemma PhaseStep(s: State, a: Action)
    requires InPhase(s) && Enabled(s, a)
    ensures InPhase(Do(s, a))
  {
    if IsMessageStep(a) {
      MessageStepShape(s, a);
    } else if IsProducerStep(a) {
      ProducerPhase(s, a);
    } else {
      OtherPhase(s, a);
    }
  }

  // ---- Disposition of messages ----

  predicate Deletes(v: Verdict) {
    v == Succeeded || v == Ignored
  }

  /** One delete request if OnEvent succeeded or OnError said to ignore the error, and none otherwise. */
  predicate Settled(s: State, m: nat) {
    m in s.verdicts && s.deletes[m] == if Deletes(s.verdicts[m]) then 1 else 0
  }

  predicate Untouched(s: State, m: nat) {
    m !in s.verdicts && s.deletes[m] == 0
  }

  /** Finished messages are settled; those being worked on are as far as their goroutines are; the
      others have not been touched. */
  predicate Accounted(s: State, m: nat) {
    if m < s.done then Settled(s, m)
    else if s.handler.Working? && m < s.done + |s.handler.pcs| then
      match s.handler.pcs[m - s.done]
      case Ended => Settled(s, m)
      case Deleting => m in s.verdicts && Deletes(s.verdicts[m]) && s.deletes[m] == 0
      case _ => Untouched(s, m)
    else Untouched(s, m)
  }

  lemma CurrentFirst(s: State)
    requires Conserved(s)
    ensures s.handler.Working? ==> s.handler.b.first == s.done
    ensures s.handler == Selecting && s.queue != [] ==> s.queue[0].first == s.done
  {
    if s.handler.Working? {
      assert Outstanding(s)[0] == s.handler.b;
    } else if s.queue != [] {
      assert Outstanding(s)[0] == s.queue[0];
    }
  }

  lemma DecideAccounted(s: State, i: nat, v: Verdict, m: nat)
    requires InPhase(s) && Conserved(s) && (AtMessage(s, i, InEvent) || AtMessage(s, i, InError))
    requires Accounted(s, m) && Accounted(s, s.done + i)
    ensures Accounted(Decide(s, i, v), m)
  {
    CurrentFirst(s);
    if m == s.done + i {
      assert Untouched(s, m);
    }
  }

  lemma DeleteAccounted(s: State, i: nat, m: nat)
    requires InPhase(s) && Conserved(s) && AtMessage(s, i, Deleting)
    requires Accounted(s, m) && Accounted(s, s.done + i)
    ensures Accounted(Do(s, Delete(i)), m)
  {
    CurrentFirst(s);
    var t := Do(s, Delete(i));
    assert m != s.done + i ==> t.deletes[m] == s.deletes[m];
  }

  lemma MessageStepAccounted(s: State, a: Action, m: nat)
    requires InPhase(s) && Conserved(s) && Enabled(s, a) && IsMessageStep(a) && Accounted(s, m) && Accounted(s, s.done + a.i)
    ensures Accounted(Do(s, a), m)
  {
    match a
    case Event(i, ok) => if ok { DecideAccounted(s, i, Succeeded, m); }
    case Error(i, ignore) => DecideAccounted(s, i, if ignore then Ignored else Kept, m);
    case Panic(i) => DecideAccounted(s, i, Panicked, m);
    case Delete(i) => DeleteAccounted(s, i, m);
  }

  lemma AccountedStep(s: State, a: Action, m: nat)
    requires InPhase(s) && Conserved(s) && Enabled(s, a) && (forall k: nat :: Accounted(s, k))
    ensures Accounted(Do(s, a), m)
  {
    assert Accounted(s, m);
    if IsMessageStep(a) {
      MessageStepAccounted(s, a, m);
    } else {
      CurrentFirst(s);
      QuietStepAccounted(s, a, m);
    }
  }

  lemma QuietStepAccounted(s: State, a: Action, m: nat)
    requires InPhase(s) && Enabled(s, a) && !IsMessageStep(a) && Accounted(s, m)
    requires s.handler.Working? ==> s.handler.b.first == s.done
    ensures Accounted(Do(s, a), m)
  {
  }

  ghost predicate Invariant(s: State) {
    InPhase(s) && Conserved(s) && forall m: nat :: Accounted(s, m)
  }

  lemma ServedInvariant(max: nat)
    ensures Invariant(Served(max))
  {
  }

  lemma ActionKeepsInvariant(s: State, a: Action)
    requires Invariant(s) && Enabled(s, a)
    ensures Invariant(Do(s, a))
  {
    PhaseStep(s, a);
    ConservedStep(s, a);
    forall m: nat ensures Accounted(Do(s, a), m) {
      AccountedStep(s, a, m);
    }
  }

  lemma InvariantStep(s: State, t: State)
    requires Invariant(s) && Next(s, t)
    ensures Invariant(t)
  {
    var a :| Enabled(s, a) && t == Do(s, a);
    ActionKeepsInvariant(s, a);
  }

  lemma InvariantOnRuns(r: seq<State>, i: nat)
    requires Run(r) && Invariant(r[0]) && i < |r|
    ensures Invariant(r[i])
  {
    forall s, t | Invariant(s) && Next(s, t) ensures Invariant(t) {
      InvariantStep(s, t);
    }
    Invariance(Next, Invariant, r, i);
  }

  /** In every interleaving from Serve on: the batches received are those finished, the one being handled,
      those queued and the one in the producer's hand, in that order; at most max (max + 2) messages are
      unfinished; and each message gets a delete request once if its handler said so, and otherwise none. */
  lemma Safety(r: seq<State>, max: nat, i: nat, m: nat)
    requires Run(r) && r[0] == Served(max) && i < |r|
    ensures var s := r[i];
            && s.received == s.finished + Handled(s.handler) + s.queue + Held(s.producer)
            && s.done <= s.next <= s.done + s.max * (s.max + 2)
            && Accounted(s, m)
  {
    ServedInvariant(max);
    InvariantOnRuns(r, i);
    var s := r[i];
    ChainLength(Outstanding(s), s.done, s.next, s.max);
    assert |Outstanding(s)| <= s.max + 2;
    Scaled(s.max, |Outstanding(s)|, s.max + 2);
    assert s.finished + Outstanding(s) == s.finished + Handled(s.handler) + s.queue + Held(s.producer);
  }

  lemma Scaled(k: nat, a: nat, b: nat)
    requires a <= b
    ensures k * a <= k * b
  {
  }

  // ---- Draining ----

  /** How many batches have been received and may still be once the worker is disabled. */
  function Allowance(s: State): nat {
    |s.received| + if s.producer == Receiving then 1 else 0
  }

  lemma AllowanceStep(s: State, a: Action)
    requires !s.enabled && Enabled(s, a)
    ensures !Do(s, a).enabled && Allowance(Do(s, a)) <= Allowance(s)
  {
  }

  /** After the worker is disabled at most one more batch is received, and only if it was already being
      fetched. */
  lemma AtMostOneMore(r: seq<State>, i: nat)
    requires Run(r) && !r[0].enabled && i < |r|
    ensures |r[i].received| <= |r[0].received| + if r[0].producer == Receiving then 1 else 0
  {
    var within := (s: State) => !s.enabled && Allowance(s) <= Allowance(r[0]);
    forall s, t | within(s) && Next(s, t) ensures within(t) {
      var a :| Enabled(s, a) && t == Do(s, a);
      AllowanceStep(s, a);
    }
    Invariance(Next, within, r, i);
  }

  // ---- Shutdown ----

  function MessageRank(pc: MessagePc): nat {
    match pc
    case InEvent => 3
    case InError => 2
    case Deleting => 1
    case Ended => 0
  }

  function MessagesRank(pcs: seq<MessagePc>): nat {
    if pcs == [] then 0 else MessagesRank(pcs[..|pcs| - 1]) + MessageRank(pcs[|pcs| - 1])
  }

  lemma {:induction false} MessagesRankUpdate(pcs: seq<MessagePc>, i: nat, pc: MessagePc)
    requires i < |pcs|
    ensures MessagesRank(pcs[i := pc]) == MessagesRank(pcs) - MessageRank(pcs[i]) + MessageRank(pc)
  {
    var k := |pcs| - 1;
    if i == k {
      assert pcs[i := pc][..k] == pcs[..k];
    } else {
      MessagesRankUpdate(pcs[..k], i, pc);
      assert pcs[i := pc][..k] == pcs[..k][i := pc];
    }
  }

  lemma {:induction false} FreshRank(pcs: seq<MessagePc>)
    requires forall i :: 0 <= i < |pcs| ==> pcs[i] == InEvent
    ensures MessagesRank(pcs) == 3 * |pcs|
  {
    if pcs != [] {
      FreshRank(pcs[..|pcs| - 1]);
    }
  }

  function BatchWork(b: Batch): nat {
    3 * b.size + 2
  }

  function QueueWork(q: seq<Batch>): nat {
    if q == [] then 0 else BatchWork(q[0]) + QueueWork(q[1..])
  }

  lemma {:induction false} QueueWorkAppend(q: seq<Batch>, b: Batch)
    ensures QueueWork(q + [b]) == QueueWork(q) + BatchWork(b)
  {
    if q == [] {
      assert q + [b] == [b] && [b][1..] == [];
    } else {
      QueueWorkAppend(q[1..], b);
      assert (q + [b])[1..] == q[1..] + [b];
    }
  }

  function ProducerWork(p: ProducerPc, max: nat): nat {
    match p
    case Unstarted => 3
    case AtCheck => 2
    case Receiving => 3 * max + 6
    case Sending(b) => 3 + BatchWork(b)
    case Exiting => 1
    case Done => 0
  }

  function HandlerWork(h: HandlerPc): nat {
    match h
    case Asleep => 3
    case Selecting => 2
    case Working(_, pcs) => MessagesRank(pcs) + 3
    case Leaving => 1
    case Gone => 0
  }

  /** The steps that can still be taken once the worker is disabled. */
  function Work(s: State): nat {
    ProducerWork(s.producer, s.max) + HandlerWork(s.handler) + QueueWork(s.queue)
    + match s.shut { case Idle => 3 case Disabled => 2 case Waiting => 1 case Returned => 0 }
  }

  lemma SetMessageWork(s: State, i: nat, pc: MessagePc)
    requires s.handler.Working? && i < |s.handler.pcs|
    ensures Work(SetMessage(s, i, pc)) == Work(s) - MessageRank(s.handler.pcs[i]) + MessageRank(pc)
  {
    MessagesRankUpdate(s.handler.pcs, i, pc);
  }

  lemma DecideWork(s: State, i: nat, v: Verdict)
    requires AtMessage(s, i, InEvent) || AtMessage(s, i, InError)
    ensures Work(Decide(s, i, v)) < Work(s)
  {
    var pc := if v == Succeeded || v == Ignored then Deleting else Ended;
    SetMessageWork(s, i, pc);
    assert Work(Decide(s, i, v)) == Work(SetMessage(s, i, pc));
  }

  lemma MessageWorkDecreases(s: State, a: Action)
    requires Enabled(s, a) && IsMessageStep(a)
    ensures Work(Do(s, a)) < Work(s)
  {
    match a
    case Event(i, ok) => if ok { DecideWork(s, i, Succeeded); } else { SetMessageWork(s, i, InError); }
    case Error(i, ignore) => DecideWork(s, i, if ignore then Ignored else Kept);
    case Panic(i) => DecideWork(s, i, Panicked);
    case Delete(i) =>
      SetMessageWork(s, i, Ended);
      assert Work(Do(s, a)) == Work(SetMessage(s, i, Ended));
  }

  lemma QuietWorkDecreases(s: State, a: Action)
    requires InPhase(s) && !s.enabled && Enabled(s, a) && !IsMessageStep(a) && !a.Send? && !a.Take?
    ensures Work(Do(s, a)) < Work(s) && !Do(s, a).enabled
  {
  }

  lemma WorkDecreases(s: State, a: Action)
    requires InPhase(s) && !s.enabled && Enabled(s, a)
    ensures Work(Do(s, a)) < Work(s) && !Do(s, a).enabled
  {
    if IsMessageStep(a) {
      MessageWorkDecreases(s, a);
      MessageStepShape(s, a);
    } else if a.Send? {
      QueueWorkAppend(s.queue, s.producer.b);
    } else if a.Take? {
      FreshRank(seq(s.queue[0].size, _ => InEvent));
    } else {
      QuietWorkDecreases(s, a);
    }
  }

  lemma WorkNext(s: State, t: State)
    requires InPhase(s) && !s.enabled && Next(s, t)
    ensures Work(t) < Work(s) && !t.enabled
  {
    var a :| Enabled(s, a) && t == Do(s, a);
    WorkDecreases(s, a);
  }

  /** Once the worker is disabled, no run is longer than the work that was left. */
  lemma RunsEnd(r: seq<State>, i: nat)
    requires Run(r) && Invariant(r[0]) && !r[0].enabled && i < |r|
    ensures !r[i].enabled && i + Work(r[i]) <= Work(r[0])
  {
    var disabled := (s: State) => Invariant(s) && !s.enabled;
    forall s, t | disabled(s) && Next(s, t) ensures disabled(t) && Work(t) < Work(s) {
      InvariantStep(s, t);
      WorkNext(s, t);
    }
    forall j | 0 <= j <= i ensures disabled(r[j]) {
      Invariance(Next, disabled, r, j);
    }
    Bounded(Next, disabled, Work, r, i);
  }

  /** The handler loop has gone, and the producer holds a batch for a queue that stays full. */
  predicate Deadlocked(s: State) {
    s.shut == Waiting && s.producer.Sending? && |s.queue| == s.max && s.handler == Gone
  }

  function ProducerAction(p: ProducerPc): Action {
    match p
    case Unstarted => StartProducer
    case AtCheck => Check
    case Receiving => ReceiveError
    case Sending(_) => Send
    case _ => EndProducer
  }

  function HandlerAction(h: HandlerPc): Action {
    match h
    case Asleep => StartHandler
    case Selecting => Quit
    case Leaving => EndHandler
    case Working(_, pcs) =>
      if exists i :: 0 <= i < |pcs| && pcs[i] != Ended then
        MessageAction(pcs, BusyMessage(pcs))
      else EndBatch
    case Gone => Wait
  }

  function BusyMessage(pcs: seq<MessagePc>): (i: nat)
    requires exists i :: 0 <= i < |pcs| && pcs[i] != Ended
    ensures i < |pcs| && pcs[i] != Ended
  {
    if pcs[|pcs| - 1] != Ended then |pcs| - 1 else BusyMessage(pcs[..|pcs| - 1])
  }

  function MessageAction(pcs: seq<MessagePc>, i: nat): Action
    requires i < |pcs|
  {
    match pcs[i]
    case InEvent => Event(i, true)
    case InError => Error(i, true)
    case _ => Delete(i)
  }

  /** With the context cancelled, the handler loop can always go on until it is gone. */
  lemma HandlerCanMove(s: State)
    requires InPhase(s) && s.cancelled && s.handler != Gone
    ensures Enabled(s, HandlerAction(s.handler))
  {
  }

  /** Shutdown has returned and both loops are gone. */
  predicate Finished(s: State) {
    s.shut == Returned && s.producer == Done && s.handler == Gone
  }

  /** Once disabled, no step can be taken if and only if the worker is finished or deadlocked that way. */
  lemma StuckExactly(s: State)
    requires Invariant(s) && !s.enabled
    ensures Stuck(s) <==> Finished(s) || Deadlocked(s)
  {
    if Stuck(s) {
      assert !Enabled(s, Cancel) && !Enabled(s, Wait);
      if s.handler != Gone {
        HandlerCanMove(s);
      }
      assert !Enabled(s, ProducerAction(s.producer));
    }
  }

  /** The queue is full and the producer has, or is about to have, one more batch for it. */
  predicate Pressed(s: State) {
    |s.queue| == s.max && (s.producer == Receiving || s.producer.Sending?)
  }

  lemma UnpressedStep(s: State, a: Action)
    requires Invariant(s) && !s.enabled && !Pressed(s) && Enabled(s, a)
    ensures !Pressed(Do(s, a))
  {
  }

  lemma UnpressedNext(s: State, t: State)
    requires Invariant(s) && !s.enabled && !Pressed(s) && Next(s, t)
    ensures !Pressed(t)
  {
    var a :| Enabled(s, a) && t == Do(s, a);
    UnpressedStep(s, a);
  }

  lemma UnpressedOnRuns(r: seq<State>, i: nat)
    requires Run(r) && Invariant(r[0]) && !r[0].enabled && !Pressed(r[0]) && i < |r|
    ensures !Pressed(r[i])
  {
    var unpressed := (s: State) => Invariant(s) && !s.enabled && !Pressed(s);
    forall s, t | unpressed(s) && Next(s, t) ensures unpressed(t) {
      InvariantStep(s, t);
      WorkNext(s, t);
      UnpressedNext(s, t);
    }
    Invariance(Next, unpressed, r, i);
  }

  /** The schedule that hangs a pressed worker: the producer fetches, the handler loop chooses to quit. */
  lemma {:induction false} RunToHang(s: State) returns (r: seq<State>)
    requires Invariant(s) && !s.enabled && Pressed(s)
    ensures Run(r) && r[0] == s && Deadlocked(r[|r| - 1])
    decreases Work(s)
  {
    if Deadlocked(s) {
      return [s];
    }
    var a := if s.shut == Disabled then Cancel else if s.producer == Receiving then Receive(0) else HandlerAction(s.handler);
    if s.cancelled && s.producer.Sending? {
      HandlerCanMove(s);
    }
    var t := Do(s, a);
    assert Next(s, t);
    InvariantStep(s, t);
    WorkDecreases(s, a);
    var rest := RunToHang(t);
    Prepend(Next, s, rest);
    r := [s] + rest;
  }

  /** Once the worker is disabled, Shutdown may hang if and only if the queue is full while the producer
      is fetching or holding another batch. */
  lemma HangExactly(s: State)
    requires Invariant(s) && !s.enabled
    ensures (exists r: seq<State> :: Run(r) && r[0] == s && Deadlocked(r[|r| - 1])) <==> Pressed(s)
  {
    if Pressed(s) {
      var r := RunToHang(s);
    } else {
      forall r: seq<State> | Run(r) && r[0] == s ensures !Deadlocked(r[|r| - 1]) {
        UnpressedOnRuns(r, |r| - 1);
      }
    }
  }

  /** With a free slot in the queue when the worker is disabled, or with nothing to put there, every run
      that goes on as long as it can ends with Shutdown having returned. */
  lemma FreeSlotCompletes(r: seq<State>)
    requires Run(r) && Invariant(r[0]) && !r[0].enabled && !Pressed(r[0])
    requires Stuck(r[|r| - 1])
    ensures Finished(r[|r| - 1])
  {
    var last := |r| - 1;
    InvariantOnRuns(r, last);
    RunsEnd(r, last);
    UnpressedOnRuns(r, last);
    StuckExactly(r[last]);
  }

  /** A scheduler picks a step that can be taken as long as there is one. */
  ghost predicate Schedules(pick: State -> Action) {
    forall s :: Invariant(s) && !s.enabled && !Stuck(s) ==> Enabled(s, pick(s))
  }

  lemma PickedStep(pick: State -> Action, s: State)
    requires Schedules(pick) && Invariant(s) && !s.enabled && !Finished(s) && !Deadlocked(s)
    ensures var a := pick(s);
            && Enabled(s, a) && !Do(s, a).enabled && Work(Do(s, a)) < Work(s)
            && Allowance(Do(s, a)) <= Allowance(s) && (Pressed(Do(s, a)) ==> Pressed(s))
  {
    StuckExactly(s);
    WorkDecreases(s, pick(s));
    AllowanceStep(s, pick(s));
    if !Pressed(s) {
      UnpressedStep(s, pick(s));
    }
  }

  /** When the worker has finished, every batch was handled or is left in the queue, in order of receipt;
      the messages of the former are settled, those of the latter untouched. */
  predicate Complete(s: State) {
    s.received == s.finished + s.queue && Chain(s.finished, 0, s.done) && Chain(s.queue, s.done, s.next)
  }

  lemma FinishedIsComplete(s: State)
    requires Invariant(s) && Finished(s)
    ensures Complete(s) && forall m: nat :: if m < s.done then Settled(s, m) else Untouched(s, m)
  {
    assert Outstanding(s) == s.queue;
    forall m: nat ensures if m < s.done then Settled(s, m) else Untouched(s, m) {
      assert Accounted(s, m);
    }
  }

  // ---- Batches that are left behind ----

  /** A batch is queued, or may still be, and the producer is not shut out by a full queue. */
  predicate MayAbandon(s: State) {
    && (s.queue != [] || s.producer == Receiving || s.producer.Sending?)
    && !(s.producer.Sending? && |s.queue| == s.max && (s.handler == Leaving || s.handler == Gone))
  }

  /** A schedule that leaves a batch behind: the producer fills the queue and ends, and the handler loop
      takes a batch only to make room. */
  function AbandonAction(s: State): Action {
    if s.shut == Disabled then Cancel
    else if s.producer == Receiving && s.queue != [] then ReceiveError
    else if s.producer == Receiving then Receive(0)
    else if s.producer.Sending? && |s.queue| < s.max then Send
    else if s.producer.Sending? && s.handler == Selecting then Take
    else if s.producer.Sending? then HandlerAction(s.handler)
    else if s.producer != Done then ProducerAction(s.producer)
    else HandlerAction(s.handler)
  }

  lemma AbandonStep(s: State)
    requires Invariant(s) && !s.enabled && s.max > 0 && MayAbandon(s) && !Finished(s)
    ensures var a := AbandonAction(s); Enabled(s, a) && MayAbandon(Do(s, a)) && Do(s, a).max == s.max
  {
    if s.cancelled && s.handler != Gone {
      HandlerCanMove(s);
    }
  }

  lemma {:induction false} RunToAbandon(s: State) returns (r: seq<State>)
    requires Invariant(s) && !s.enabled && s.max > 0 && MayAbandon(s)
    ensures Run(r) && r[0] == s && Finished(Last(r)) && Last(r).queue != []
    decreases Work(s)
  {
    if Finished(s) {
      return [s];
    }
    AbandonStep(s);
    var a := AbandonAction(s);
    var t := Do(s, a);
    assert Next(s, t);
    InvariantStep(s, t);
    WorkDecreases(s, a);
    var rest := RunToAbandon(t);
    Prepend(Next, s, rest);
    r := [s] + rest;
  }

  /** Nothing will be left behind: there is nothing to queue any more, or Shutdown hangs. */
  predicate AllOrNothing(s: State) {
    || (s.queue == [] && s.producer != Receiving && !s.producer.Sending?)
    || (s.producer.Sending? && |s.queue| == s.max && (s.handler == Leaving || s.handler == Gone))
  }

  lemma AllOrNothingStep(s: State, a: Action)
    requires Invariant(s) && !s.enabled && AllOrNothing(s) && Enabled(s, a)
    ensures AllOrNothing(Do(s, a)) && !Do(s, a).enabled
  {
  }

  lemma NothingAbandoned(s: State, r: seq<State>)
    requires Invariant(s) && !s.enabled && !MayAbandon(s) && Run(r) && r[0] == s
    ensures Last(r).shut == Returned && Last(r).wg == 0 ==> Outstanding(Last(r)) == []
    ensures Finished(Last(r)) ==> Outstanding(Last(r)) == []
  {
    var through := (u: State) => Invariant(u) && !u.enabled && AllOrNothing(u);
    forall u, t | through(u) && Next(u, t) ensures through(t) {
      InvariantStep(u, t);
      var a :| Enabled(u, a) && t == Do(u, a);
      AllOrNothingStep(u, a);
    }
    Invariance(Next, through, r, |r| - 1);
  }

  predicate LeftBehind(s: State) {
    Finished(s) && Outstanding(s) != []
  }

  predicate ReturnedEarly(s: State) {
    s.shut == Returned && s.wg == 0 && Outstanding(s) != []
  }

  /** Once the worker is disabled, it can end for good with batches that were received and are never
      handled if and only if a batch is queued or may still be and the producer is not shut out. That is
      also when Shutdown can return with batches outstanding and an empty wait group. */
  lemma AbandonExactly(s: State)
    requires Invariant(s) && !s.enabled && s.max > 0
    ensures (exists r: seq<State> :: Run(r) && r[0] == s && LeftBehind(Last(r))) <==> MayAbandon(s)
    ensures (exists r: seq<State> :: Run(r) && r[0] == s && ReturnedEarly(Last(r))) <==> MayAbandon(s)
  {
    if MayAbandon(s) {
      var r := RunToAbandon(s);
      InvariantOnRuns(r, |r| - 1);
      assert Outstanding(Last(r)) == Last(r).queue;
      assert LeftBehind(Last(r)) && ReturnedEarly(Last(r));
    } else {
      forall r: seq<State> | Run(r) && r[0] == s ensures !LeftBehind(Last(r)) && !ReturnedEarly(Last(r)) {
        NothingAbandoned(s, r);
      }
    }
  }

  // ---- After Shutdown ----

  /** Nothing will be handled any more: the handler loop is gone, or the queue is empty for good. */
  predicate Over(s: State) {
    && !s.enabled && !s.handler.Working?
    && (s.handler == Gone || (s.queue == [] && s.producer != Receiving && !s.producer.Sending?))
  }

  lemma OverStep(s: State, a: Action)
    requires Over(s) && Enabled(s, a)
    ensures Over(Do(s, a))
  {
  }

  lemma OverNext(s: State, t: State)
    requires Over(s) && Next(s, t)
    ensures Over(t)
  {
    var a :| Enabled(s, a) && t == Do(s, a);
    OverStep(s, a);
  }

  lemma OverOnRuns(r: seq<State>, i: nat)
    requires Run(r) && Over(r[0]) && i < |r|
    ensures Over(r[i])
  {
    forall s, t | Over(s) && Next(s, t) ensures Over(t) {
      OverNext(s, t);
    }
    Invariance(Next, Over, r, i);
  }

  /** A batch is handled after Shutdown has returned in some run if and only if the handler loop had not
      yet entered the wait group and a batch was queued: its wg.Add comes too late to be waited for. */
  lemma LateHandlingExactly(s: State)
    requires Invariant(s) && s.shut == Returned && s.wg == 0
    ensures (exists r: seq<State> :: Run(r) && r[0] == s && r[|r| - 1].handler.Working?) <==> s.handler == Asleep && s.queue != []
  {
    if s.handler == Asleep && s.queue != [] {
      var t := Do(s, StartHandler);
      var u := Do(t, Take);
      var r := [s, t, u];
      assert Next(s, t) && Next(t, u);
      Append(Next, [s], t);
      Append(Next, [s, t], u);
      assert r == [s] + [t] + [u] == [s, t] + [u];
      assert r[|r| - 1].handler.Working?;
    } else {
      assert Over(s);
      forall r: seq<State> | Run(r) && r[0] == s ensures !r[|r| - 1].handler.Working? {
        OverOnRuns(r, |r| - 1);
      }
    }
  }

  /** Shutdown has returned, and a batch is being handled. */
  predicate HandlingLate(s: State) {
    s.shut == Returned && s.handler.Working?
  }

  /** The handler goroutine has not run yet, and a batch is queued or can still be. */
  predicate MayComeLate(s: State) {
    && s.handler == Asleep
    && (s.queue != [] || s.producer == Receiving || s.producer.Sending?)
    && !(s.producer.Sending? && |s.queue| == s.max)
  }

  /** A schedule in which the handler goroutine runs last. */
  function LateAction(s: State): Action {
    if s.shut == Disabled then Cancel
    else if s.producer == Receiving && s.queue != [] then ReceiveError
    else if s.producer == Receiving then Receive(0)
    else if s.producer != Done then ProducerAction(s.producer)
    else Wait
  }

  lemma LateStep(s: State)
    requires Invariant(s) && !s.enabled && s.shut != Returned && s.max > 0 && MayComeLate(s)
    ensures var a := LateAction(s); Enabled(s, a) && MayComeLate(Do(s, a)) && Do(s, a).max == s.max
  {
  }

  lemma {:induction false} RunToLate(s: State) returns (r: seq<State>)
    requires Invariant(s) && !s.enabled && s.max > 0 && MayComeLate(s)
    ensures Run(r) && r[0] == s && HandlingLate(Last(r))
    decreases Work(s)
  {
    if s.shut == Returned {
      var t := Do(s, StartHandler);
      assert Next(s, t) && Next(t, Do(t, Take));
      Append(Next, [s], t);
      Append(Next, [s] + [t], Do(t, Take));
      return [s] + [t] + [Do(t, Take)];
    }
    LateStep(s);
    var t := Do(s, LateAction(s));
    assert Next(s, t);
    InvariantStep(s, t);
    WorkDecreases(s, LateAction(s));
    var rest := RunToLate(t);
    Prepend(Next, s, rest);
    r := [s] + rest;
  }

  /** The handler loop is waited for, has nothing to handle, or keeps Shutdown waiting. */
  predicate NeverLate(s: State) {
    || (s.handler != Asleep && (s.shut == Returned ==> s.handler == Gone))
    || (s.queue == [] && s.producer != Receiving && !s.producer.Sending? && !s.handler.Working?)
    || (s.handler == Asleep && s.producer.Sending? && |s.queue| == s.max)
  }

  lemma NeverLateStep(s: State, a: Action)
    requires Invariant(s) && !s.enabled && NeverLate(s) && Enabled(s, a)
    ensures NeverLate(Do(s, a)) && !Do(s, a).enabled
  {
  }

  /** Before Shutdown returns, a batch can come to be handled after its return if and only if the handler
      goroutine has not run yet and a batch is queued or can still be. */
  lemma LateHandlingPossible(s: State)
    requires Invariant(s) && !s.enabled && s.shut != Returned && s.max > 0
    ensures (exists r: seq<State> :: Run(r) && r[0] == s && HandlingLate(Last(r))) <==> MayComeLate(s)
  {
    if MayComeLate(s) {
      var r := RunToLate(s);
    } else {
      var timely := (u: State) => Invariant(u) && !u.enabled && NeverLate(u);
      forall u, t | timely(u) && Next(u, t) ensures timely(t) {
        InvariantStep(u, t);
        var a :| Enabled(u, a) && t == Do(u, a);
        NeverLateStep(u, a);
      }
      forall r: seq<State> | Run(r) && r[0] == s ensures !HandlingLate(Last(r)) {
        Invariance(Next, timely, r, |r| - 1);
      }
    }
  }

  // ---- All three happen ----

  lemma Extend(r: seq<State>, a: Action) returns (q: seq<State>)
    requires Run(r) && Enabled(Last(r), a)
    ensures Run(q) && q[0] == r[0] && Last(q) == Do(Last(r), a)
  {
    assert Next(Last(r), Do(Last(r), a));
    q := Runs.Extend(Next, r, Do(Last(r), a));
  }

  /** One one-message batch has been fetched and queued. */
  lemma FirstBatchQueued(asleep: bool) returns (r: seq<State>)
    ensures Run(r) && r[0] == Served(1)
    ensures var b := Batch(0, 1);
            Last(r) == State(1, true, false, if asleep then 1 else 2, AtCheck, if asleep then Asleep else Selecting,
                             [b], Idle, [b], [], 1, 0, map[], multiset{})
  {
    r := [Served(1)];
    if !asleep {
      r := Extend(r, StartHandler);
    }
    r := Extend(r, StartProducer);
    r := Extend(r, Check);
    r := Extend(r, Receive(1));
    r := Extend(r, Send);
  }

  /** A worker with one-message batches hangs if two batches arrive before the handler loop looks at the
      queue and Shutdown comes then. */
  lemma HangHappens() returns (r: seq<State>)
    ensures Run(r) && r[0] == Served(1) && Deadlocked(Last(r))
  {
    r := FirstBatchQueued(false);
    r := Extend(r, Check);
    r := Extend(r, Receive(1));
    r := Extend(r, Disable);
    r := Extend(r, Cancel);
    r := Extend(r, Quit);
    r := Extend(r, EndHandler);
  }

  /** A worker whose handler loop sees the cancel signal first leaves a batch behind. */
  lemma AbandonHappens() returns (r: seq<State>)
    ensures Run(r) && r[0] == Served(1) && LeftBehind(Last(r)) && Outstanding(Last(r)) == [Batch(0, 1)]
  {
    r := FirstBatchQueued(false);
    r := Extend(r, Disable);
    r := Extend(r, Cancel);
    r := Extend(r, Check);
    r := Extend(r, EndProducer);
    r := Extend(r, Quit);
    r := Extend(r, EndHandler);
    r := Extend(r, Wait);
  }

  /** A worker whose handler loop is scheduled last handles a batch after Shutdown has returned. */
  lemma LateHandlingHappens() returns (r: seq<State>)
    ensures Run(r) && r[0] == Served(1) && Last(r).shut == Returned && Last(r).handler.Working?
  {
    r := FirstBatchQueued(true);
    r := Extend(r, Disable);
    r := Extend(r, Cancel);
    r := Extend(r, Check);
    r := Extend(r, EndProducer);
    r := Extend(r, Wait);
    r := Extend(r, StartHandler);
    r := Extend(r, Take);
  }

  // ---- What actions do, along runs ----

  ghost predicate Step(s: State, a: Action, t: State) {
    Enabled(s, a) && t == Do(s, a)
  }

  /** A run with the actions that it takes. */
  ghost predicate Trace(r: seq<State>, acts: seq<Action>) {
    IsTrace(Step, r, acts)
  }

  lemma InvariantOnTraces(r: seq<State>, acts: seq<Action>, i: nat)
    requires Trace(r, acts) && Invariant(r[0]) && i <= |acts|
    ensures Invariant(r[i])
  {
    forall s, a, t | Invariant(s) && Step(s, a, t) ensures Invariant(t) {
      ActionKeepsInvariant(s, a);
    }
    TraceInvariance(Step, Invariant, (a: Action) => true, r, acts, 0, i);
  }

  /** The action is a step of the goroutine of a message. */
  predicate Concerns(s: State, a: Action, m: nat) {
    IsMessageStep(a) && s.handler.Working? && m == s.handler.b.first + a.i
  }

  /** OnEvent returned without an error, or OnError with the word to delete. */
  predicate CallsForDelete(a: Action) {
    (a.Event? && a.ok) || (a.Error? && a.ignore)
  }

  /** OnError returned with the word to keep the message, or one of the two panicked. */
  predicate RulesOutDelete(a: Action) {
    (a.Error? && !a.ignore) || a.Panic?
  }

  lemma RulingStep(s: State, a: Action, m: nat)
    requires Invariant(s) && Enabled(s, a) && Concerns(s, a, m) && (CallsForDelete(a) || RulesOutDelete(a))
    ensures var t := Do(s, a);
            && m !in s.verdicts && m in t.verdicts && (Deletes(t.verdicts[m]) <==> CallsForDelete(a))
  {
    NoVerdictYet(s, a.i);
  }

  lemma VerdictStays(s: State, a: Action, m: nat)
    requires Invariant(s) && Enabled(s, a) && m in s.verdicts
    ensures m in Do(s, a).verdicts && Do(s, a).verdicts[m] == s.verdicts[m]
  {
    if IsMessageStep(a) && !a.Delete? {
      NoVerdictYet(s, a.i);
    }
  }

  lemma VerdictStands(r: seq<State>, acts: seq<Action>, j: nat, i: nat, m: nat)
    requires Trace(r, acts) && Invariant(r[0]) && j <= i <= |acts| && m in r[j].verdicts
    ensures m in r[i].verdicts && r[i].verdicts[m] == r[j].verdicts[m]
  {
    var kept := (s: State) => Invariant(s) && m in s.verdicts && s.verdicts[m] == r[j].verdicts[m];
    InvariantOnTraces(r, acts, j);
    forall s, a, t | kept(s) && Step(s, a, t) ensures kept(t) {
      ActionKeepsInvariant(s, a);
      VerdictStays(s, a, m);
    }
    TraceInvariance(Step, kept, (a: Action) => true, r, acts, j, i);
  }

  /** After the handler has called for a message to be deleted there is at most one delete request for it,
      and one by the time its batch is finished. After it has ruled that out there is none, ever. */
  lemma RulingStands(r: seq<State>, acts: seq<Action>, max: nat, j: nat, i: nat, m: nat)
    requires Trace(r, acts) && r[0] == Served(max) && j < i <= |acts| && Concerns(r[j], acts[j], m)
    ensures CallsForDelete(acts[j]) ==> r[i].deletes[m] <= 1 && (m < r[i].done ==> r[i].deletes[m] == 1)
    ensures RulesOutDelete(acts[j]) ==> r[i].deletes[m] == 0
  {
    if CallsForDelete(acts[j]) || RulesOutDelete(acts[j]) {
      ServedInvariant(max);
      InvariantOnTraces(r, acts, j);
      InvariantOnTraces(r, acts, i);
      assert TakenAt(Step, r, acts, j);
      RulingStep(r[j], acts[j], m);
      VerdictStands(r, acts, j + 1, i, m);
      VerdictDecides(r[i], m);
    }
  }

  lemma VerdictDecides(s: State, m: nat)
    requires Invariant(s) && m in s.verdicts
    ensures if Deletes(s.verdicts[m]) then s.deletes[m] <= 1 && (m < s.done ==> s.deletes[m] == 1) else s.deletes[m] == 0
  {
    assert Accounted(s, m);
  }

  /** A message whose handler is being asked has no verdict yet. */
  lemma NoVerdictYet(s: State, i: nat)
    requires Invariant(s) && (AtMessage(s, i, InEvent) || AtMessage(s, i, InError))
    ensures s.handler.b.first + i !in s.verdicts
  {
    CurrentFirst(s);
    assert Accounted(s, s.handler.b.first + i);
  }

  lemma OnlyRulingsRecord(s: State, a: Action, m: nat)
    requires Enabled(s, a) && m !in s.verdicts && m in Do(s, a).verdicts
    ensures Concerns(s, a, m) && (CallsForDelete(a) || RulesOutDelete(a))
  {
  }

  /** A delete request is made only for a message that the handler has called to be deleted. */
  lemma DeleteHasCause(r: seq<State>, acts: seq<Action>, max: nat, i: nat, m: nat) returns (j: nat)
    requires Trace(r, acts) && r[0] == Served(max) && i <= |acts| && r[i].deletes[m] > 0
    ensures j < i && Concerns(r[j], acts[j], m) && CallsForDelete(acts[j])
  {
    ServedInvariant(max);
    InvariantOnTraces(r, acts, i);
    assert Accounted(r[i], m);
    j := Onset(r, (s: State) => m in s.verdicts, i);
    assert TakenAt(Step, r, acts, j);
    OnlyRulingsRecord(r[j], acts[j], m);
    InvariantOnTraces(r, acts, j);
    RulingStep(r[j], acts[j], m);
    VerdictStands(r, acts, j + 1, i, m);
  }

  /** OnError is being asked about the message. */
  predicate AskedAbout(s: State, m: nat) {
    s.handler.Working? && s.handler.b.first <= m && AtMessage(s, m - s.handler.b.first, InError)
  }

  lemma FailedEventAsks(s: State, a: Action, m: nat)
    requires Invariant(s) && Enabled(s, a)
    ensures Concerns(s, a, m) && a.Event? && !a.ok ==> AskedAbout(Do(s, a), m) && m !in Do(s, a).verdicts
    ensures !AskedAbout(s, m) && AskedAbout(Do(s, a), m) ==> Concerns(s, a, m) && a.Event? && !a.ok
  {
    if IsMessageStep(a) {
      if !a.Delete? {
        NoVerdictYet(s, a.i);
      }
    } else {
      OthersDoNotAsk(s, a, m);
    }
  }

  lemma OthersDoNotAsk(s: State, a: Action, m: nat)
    requires Enabled(s, a) && !IsMessageStep(a)
    ensures AskedAbout(Do(s, a), m) ==> AskedAbout(s, m)
  {
  }

  /** OnError is asked about a message only after OnEvent has returned an error for it. */
  lemma AskedAfterFailure(r: seq<State>, acts: seq<Action>, max: nat, i: nat, m: nat) returns (j: nat)
    requires Trace(r, acts) && r[0] == Served(max) && i <= |acts| && AskedAbout(r[i], m)
    ensures j < i && Concerns(r[j], acts[j], m) && acts[j].Event? && !acts[j].ok
  {
    ServedInvariant(max);
    j := Onset(r, (s: State) => AskedAbout(s, m), i);
    assert TakenAt(Step, r, acts, j);
    InvariantOnTraces(r, acts, j);
    FailedEventAsks(r[j], acts[j], m);
  }
}
