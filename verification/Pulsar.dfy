/** The Pulsar consumer manager as a step system: one loop per consumer, the goroutines that call Start,
    Shutdown and AddConsumer, the mutex they share, the wait group, the stop flag and the cancel signal. */
module Pulsar {
  import opened Runs

  type Label = string

  datatype Outcome = Ok | Failed | Panicked

  /** Where the loop of a consumer is. A consumer that was added after Start has no loop. Deliveries are
      numbered as they are received. */
  datatype Pc =
    | NoLoop
    | AtCheck
    | Selecting
    | Handling(m: nat)
    | Blocked(m: nat)              // inside the handler, waiting for the manager's mutex
    | Answering(m: nat, ok: bool)  // about to acknowledge, positively or negatively
    | Exiting
    | Finished

  datatype Loop = Loop(pc: Pc, taken: nat)

  datatype StartPc = NotStarted | Spawning(rest: set<nat>) | Started

  datatype ShutPc = Idle | Locked | Stopping | Waiting | Closing(rest: set<Label>) | Returned

  datatype Mutex = Free | HeldByStart | HeldByShutdown

  /** Consumers are numbered as they are created; `loops` holds the loop of each. `owner`, `returned`,
      `acks`, `nacks` and `closed` record what happened to deliveries and consumers. */
  datatype State = State(
    mutex: Mutex, start: StartPc, shut: ShutPc,
    stopped: bool, cancelled: bool, wg: int,
    consumers: map<Label, nat>, loops: seq<Loop>,
    owner: seq<nat>, returned: map<nat, Outcome>,
    acks: multiset<nat>, nacks: multiset<nat>, closed: multiset<nat>)

  const INIT := State(Free, NotStarted, Idle, false, false, 0, map[], [], [], map[], multiset{}, multiset{}, multiset{})

  datatype Action =
    | Add(name: Label)                        // AddConsumer from outside
    | BeginStart | Spawn(c: nat) | EndStart
    | Check(c: nat) | Receive(c: nat) | Quit(c: nat) | Leave(c: nat)
    | Return(c: nat, outcome: Outcome) | Answer(c: nat)
    | CallAdd(c: nat)                          // a handler calls AddConsumer
    | AddInside(c: nat, added: bool, name: Label)
    | Lock | Stop | Cancel | Wait | Close(name: Label) | Unlock

  predicate At(s: State, c: nat, pc: Pc) {
    c < |s.loops| && s.loops[c].pc == pc
  }

  predicate InHandler(s: State, c: nat) {
    c < |s.loops| && s.loops[c].pc.Handling?
  }

  predicate Enabled(s: State, a: Action) {
    match a
    case Add(_) => s.mutex == Free
    case BeginStart => s.mutex == Free && s.start == NotStarted
    case Spawn(c) => s.start.Spawning? && c in s.start.rest && c < |s.loops|
    case EndStart => s.start == Spawning({})
    case Check(c) => At(s, c, AtCheck)
    case Receive(c) => At(s, c, Selecting)
    case Quit(c) => At(s, c, Selecting) && s.cancelled
    case Leave(c) => At(s, c, Exiting)
    case Return(c, _) => InHandler(s, c)
    case Answer(c) => c < |s.loops| && s.loops[c].pc.Answering?
    case CallAdd(c) => InHandler(s, c)
    case AddInside(c, _, _) => c < |s.loops| && s.loops[c].pc.Blocked? && s.mutex == Free
    case Lock => s.mutex == Free && s.start == Started && s.shut == Idle
    case Stop => s.shut == Locked
    case Cancel => s.shut == Stopping
    case Wait => s.shut == Waiting && s.wg == 0
    case Close(l) => s.shut.Closing? && l in s.shut.rest && l in s.consumers
    case Unlock => s.shut == Closing({})
  }

  function GoTo(s: State, c: nat, pc: Pc): State
    requires c < |s.loops|
  {
    s.(loops := s.loops[c := s.loops[c].(pc := pc)])
  }

  function NewConsumer(s: State, name: Label): State {
    s.(consumers := s.consumers[name := |s.loops|], loops := s.loops + [Loop(NoLoop, 0)])
  }

  function Do(s: State, a: Action): State
    requires Enabled(s, a)
  {
    match a
    case Add(name) => NewConsumer(s, name)
    case BeginStart => s.(mutex := HeldByStart, start := Spawning(s.consumers.Values))
    case Spawn(c) => GoTo(s, c, AtCheck).(wg := s.wg + 1, start := Spawning(s.start.rest - {c}))
    case EndStart => s.(mutex := Free, start := Started)
    case Check(c) => GoTo(s, c, if s.stopped then Exiting else Selecting)
    case Receive(c) =>
      var m := |s.owner|;
      GoTo(s, c, Handling(m)).(owner := s.owner + [c], loops := s.loops[c := Loop(Handling(m), s.loops[c].taken + 1)])
    case Quit(c) => GoTo(s, c, Exiting)
    case Leave(c) => GoTo(s, c, Finished).(wg := s.wg - 1)
    case Return(c, outcome) =>
      var m := s.loops[c].pc.m;
      var pc := match outcome { case Ok => Answering(m, true) case Failed => Answering(m, false) case Panicked => AtCheck };
      GoTo(s, c, pc).(returned := s.returned[m := outcome])
    case Answer(c) =>
      var pc := s.loops[c].pc;
      if pc.ok then GoTo(s, c, AtCheck).(acks := s.acks + multiset{pc.m})
      else GoTo(s, c, AtCheck).(nacks := s.nacks + multiset{pc.m})
    case CallAdd(c) => GoTo(s, c, Blocked(s.loops[c].pc.m))
    case AddInside(c, added, name) =>
      var back := GoTo(s, c, Handling(s.loops[c].pc.m));
      if added then NewConsumer(back, name) else back
    case Lock => s.(mutex := HeldByShutdown, shut := Locked)
    case Stop => s.(stopped := true, shut := Stopping)
    case Cancel => s.(cancelled := true, shut := Waiting)
    case Wait => s.(shut := Closing(s.consumers.Keys))
    case Close(l) => s.(closed := s.closed + multiset{s.consumers[l]}, shut := Closing(s.shut.rest - {l}))
    case Unlock => s.(mutex := Free, shut := Returned)
  }

  ghost predicate Next(s: State, t: State) {
    exists a :: Enabled(s, a) && t == Do(s, a)
  }

  ghost predicate Run(r: seq<State>) {
    IsRun(Next, r)
  }

  /** No step can be taken, unless a message arrives. */
  ghost predicate Stuck(s: State) {
    forall a: Action :: !a.Receive? ==> !Enabled(s, a)
  }

  // ---- Safety ----

  predicate Active(pc: Pc) {
    pc != NoLoop && pc != Finished
  }

  /** The number of loops that are running. */
  function Unfinished(loops: seq<Loop>): nat {
    if loops == [] then 0
    else Unfinished(loops[..|loops| - 1]) + if Active(loops[|loops| - 1].pc) then 1 else 0
  }

  lemma {:induction false} UnfinishedUpdate(loops: seq<Loop>, c: nat, l: Loop)
    requires c < |loops|
    ensures Unfinished(loops[c := l])
         == Unfinished(loops) - (if Active(loops[c].pc) then 1 else 0) + (if Active(l.pc) then 1 else 0)
  {
    var k := |loops| - 1;
    if c == k {
      assert loops[c := l][..k] == loops[..k];
    } else {
      UnfinishedUpdate(loops[..k], c, l);
      assert loops[c := l][..k] == loops[..k][c := l];
    }
  }

  lemma {:induction false} NoneUnfinished(loops: seq<Loop>)
    requires Unfinished(loops) == 0
    ensures forall c :: 0 <= c < |loops| ==> !Active(loops[c].pc)
  {
    if loops != [] {
      NoneUnfinished(loops[..|loops| - 1]);
    }
  }

  /** Every label refers to a consumer of its own. */
  ghost predicate Registered(consumers: map<Label, nat>, n: nat) {
    && (forall l <- consumers :: consumers[l] < n)
    && forall k, l :: k in consumers && l in consumers && consumers[k] == consumers[l] ==> k == l
  }

  /** Loops that Start has not spawned yet do not run. */
  ghost predicate Unspawned(start: StartPc, loops: seq<Loop>) {
    match start
    case NotStarted => forall c :: 0 <= c < |loops| ==> loops[c].pc == NoLoop
    case Spawning(rest) => forall c <- rest :: c < |loops| && loops[c].pc == NoLoop
    case Started => true
  }

  /** The mutex and the flags agree with the program counters of Start and Shutdown. */
  predicate InPhase(s: State) {
    && (s.mutex == HeldByStart <==> s.start.Spawning?)
    && (s.mutex == HeldByShutdown <==> s.shut != Idle && s.shut != Returned)
    && (s.shut != Idle ==> s.start == Started)
    && (s.stopped <==> s.shut != Idle && s.shut != Locked)
    && (s.cancelled <==> s.shut != Idle && s.shut != Locked && s.shut != Stopping)
    && (s.shut.Closing? || s.shut == Returned ==> s.wg == 0)
  }

  /** The wait group counts the running loops in every state. */
  ghost predicate Consistent(s: State) {
    && s.wg == Unfinished(s.loops)
    && InPhase(s)
    && Unspawned(s.start, s.loops)
    && Registered(s.consumers, |s.loops|)
  }

  /** A step of a single loop. */
  predicate IsLoopStep(a: Action) {
    a.Check? || a.Receive? || a.Quit? || a.Leave? || a.Return? || a.Answer? || a.CallAdd?
  }

  /** Such a step touches its own loop, the wait group and the records only. */
  ghost predicate OneLoopMoved(s: State, t: State, c: nat) {
    && c < |s.loops| && |t.loops| == |s.loops| && t.loops == s.loops[c := t.loops[c]]
    && Active(s.loops[c].pc)
    && t == s.(loops := t.loops, wg := t.wg, owner := t.owner, returned := t.returned, acks := t.acks, nacks := t.nacks)
    && t.wg == s.wg - (if Active(t.loops[c].pc) then 0 else 1)
  }

  lemma HandlerStepShape(s: State, a: Action)
    requires (a.Return? || a.Answer? || a.CallAdd?) && Enabled(s, a)
    ensures OneLoopMoved(s, Do(s, a), a.c)
  {
  }

  lemma LoopStepShape(s: State, a: Action)
    requires IsLoopStep(a) && Enabled(s, a)
    ensures OneLoopMoved(s, Do(s, a), a.c)
  {
    if a.Return? || a.Answer? || a.CallAdd? {
      HandlerStepShape(s, a);
    }
  }

  lemma LoopStepConsistent(s: State, a: Action)
    requires Consistent(s) && IsLoopStep(a) && Enabled(s, a)
    ensures Consistent(Do(s, a))
  {
    LoopStepShape(s, a);
    var t := Do(s, a);
    UnfinishedUpdate(s.loops, a.c, t.loops[a.c]);
    if s.wg == 0 {
      NoneUnfinished(s.loops);
    }
    assert s.start.Spawning? ==> a.c !in s.start.rest;
  }

  lemma NewConsumerConsistent(s: State, name: Label)
    requires Consistent(s) && s.mutex == Free
    ensures Consistent(NewConsumer(s, name))
  {
    var t := NewConsumer(s, name);
    assert t.loops[..|s.loops|] == s.loops;
  }

  lemma UnblockConsistent(s: State, c: nat)
    requires Consistent(s) && s.mutex == Free && c < |s.loops| && s.loops[c].pc.Blocked?
    ensures Consistent(GoTo(s, c, Handling(s.loops[c].pc.m)))
  {
    UnfinishedUpdate(s.loops, c, Loop(Handling(s.loops[c].pc.m), s.loops[c].taken));
  }

  lemma SpawnConsistent(s: State, c: nat)
    requires Consistent(s) && Enabled(s, Spawn(c))
    ensures Consistent(Do(s, Spawn(c)))
  {
    UnfinishedUpdate(s.loops, c, Loop(AtCheck, s.loops[c].taken));
  }

  lemma ConsistentStep(s: State, a: Action)
    requires Consistent(s) && Enabled(s, a)
    ensures Consistent(Do(s, a))
  {
    if IsLoopStep(a) {
      LoopStepConsistent(s, a);
    } else {
      match a
      case Add(name) => NewConsumerConsistent(s, name);
      case AddInside(c, added, name) =>
        UnblockConsistent(s, c);
        if added {
          NewConsumerConsistent(GoTo(s, c, Handling(s.loops[c].pc.m)), name);
        }
      case Spawn(c) => SpawnConsistent(s, c);
      case BeginStart =>
        forall c <- s.consumers.Values ensures c < |s.loops| {
          var l :| l in s.consumers && s.consumers[l] == c;
        }
      case _ =>
    }
  }

  /** The delivery a loop is busy with. */
  predicate Holds(pc: Pc, m: nat) {
    pc == Handling(m) || pc == Blocked(m) || pc == Answering(m, true) || pc == Answering(m, false)
  }

  predicate Busy(pc: Pc) {
    pc.Handling? || pc.Blocked? || pc.Answering?
  }

  /** What has become of one delivery: it is with its loop, which has not answered it yet, or it was
      acknowledged, negatively acknowledged or dropped, each once, as its handler returned. */
  ghost predicate Disposed(s: State, m: nat) {
    if m >= |s.owner| then m !in s.returned && s.acks[m] == 0 && s.nacks[m] == 0
    else
      && s.owner[m] < |s.loops|
      && var pc := s.loops[s.owner[m]].pc;
         if Holds(pc, m) then
           && s.acks[m] == 0 && s.nacks[m] == 0
           && (if pc.Answering? then m in s.returned && s.returned[m] == (if pc.ok then Ok else Failed) else m !in s.returned)
         else
           && m in s.returned
           && s.acks[m] == (if s.returned[m] == Ok then 1 else 0)
           && s.nacks[m] == (if s.returned[m] == Failed then 1 else 0)
  }

  /** Every delivery is disposed of properly, and a busy loop is busy with a delivery of its own. */
  ghost predicate Accounted(s: State) {
    && (forall m: nat :: Disposed(s, m))
    && forall c :: 0 <= c < |s.loops| && Busy(s.loops[c].pc) ==>
         s.loops[c].pc.m < |s.owner| && s.owner[s.loops[c].pc.m] == c
  }

  /** Going in and out of a call to AddConsumer, with the delivery in hand. */
  predicate SameDelivery(p: Pc, q: Pc) {
    (p.Blocked? && q == Handling(p.m)) || (p.Handling? && q == Blocked(p.m))
  }

  /** Nothing is disposed of when the loops and the records stay, or a consumer without a delivery comes in. */
  lemma QuietAccounted(s: State, t: State)
    requires Accounted(s)
    requires t.owner == s.owner && t.returned == s.returned && t.acks == s.acks && t.nacks == s.nacks
    requires |s.loops| <= |t.loops|
    requires forall c :: 0 <= c < |s.loops| ==> t.loops[c] == s.loops[c] || (!Busy(s.loops[c].pc) && !Busy(t.loops[c].pc))
                                                || SameDelivery(s.loops[c].pc, t.loops[c].pc)
    requires forall c :: |s.loops| <= c < |t.loops| ==> !Busy(t.loops[c].pc)
    ensures Accounted(t)
  {
    forall m: nat ensures Disposed(t, m) {
      assert Disposed(s, m);
    }
  }

  lemma AccountedStep(s: State, a: Action)
    requires Consistent(s) && Accounted(s) && Enabled(s, a)
    ensures Accounted(Do(s, a))
  {
    match a
    case Receive(c) => ReceiveAccounted(s, c);
    case Return(c, outcome) => ReturnAccounted(s, c, outcome);
    case Answer(c) => AnswerAccounted(s, c);
    case _ => if IsLoopStep(a) { QuietLoopAccounted(s, a); } else { OthersAccounted(s, a); }
  }

  lemma QuietLoopAccounted(s: State, a: Action)
    requires Accounted(s) && Enabled(s, a) && IsLoopStep(a) && !a.Receive? && !a.Return? && !a.Answer?
    ensures Accounted(Do(s, a))
  {
    QuietAccounted(s, Do(s, a));
  }

  lemma OthersAccounted(s: State, a: Action)
    requires Consistent(s) && Accounted(s) && Enabled(s, a) && !IsLoopStep(a)
    ensures Accounted(Do(s, a))
  {
    QuietAccounted(s, Do(s, a));
  }

  lemma ReceiveAccounted(s: State, c: nat)
    requires Accounted(s) && Enabled(s, Receive(c))
    ensures Accounted(Do(s, Receive(c)))
  {
    var t := Do(s, Receive(c));
    forall m: nat ensures Disposed(t, m) {
      assert Disposed(s, m);
    }
  }

  lemma ReturnAccounted(s: State, c: nat, outcome: Outcome)
    requires Accounted(s) && Enabled(s, Return(c, outcome))
    ensures Accounted(Do(s, Return(c, outcome)))
  {
    var t := Do(s, Return(c, outcome));
    assert s.owner[s.loops[c].pc.m] == c;
    forall m: nat ensures Disposed(t, m) {
      assert Disposed(s, m);
    }
  }

  lemma AnswerAccounted(s: State, c: nat)
    requires Accounted(s) && Enabled(s, Answer(c))
    ensures Accounted(Do(s, Answer(c)))
  {
    var t, d := Do(s, Answer(c)), s.loops[c].pc.m;
    assert s.owner[d] == c;
    AnswerRecorded(s, c);
    forall m: nat ensures Disposed(t, m) {
      assert Disposed(s, m);
      assert m != d ==> t.acks[m] == s.acks[m] && t.nacks[m] == s.nacks[m];
    }
  }

  lemma AnswerRecorded(s: State, c: nat)
    requires Accounted(s) && Enabled(s, Answer(c))
    ensures Disposed(Do(s, Answer(c)), s.loops[c].pc.m)
  {
    assert Disposed(s, s.loops[c].pc.m);
  }

  /** While Shutdown is closing, the consumers already closed are exactly those of the map that are no
      longer to be closed, each closed once. */
  ghost predicate Closings(s: State) {
    match s.shut
    case Closing(rest) => rest <= s.consumers.Keys && ClosedBut(s.consumers, rest, s.closed)
    case Returned => forall c: nat :: s.closed[c] <= 1
    case _ => s.closed == multiset{}
  }

  ghost predicate ClosedBut(consumers: map<Label, nat>, rest: set<Label>, closed: multiset<nat>) {
    && (forall l <- consumers :: closed[consumers[l]] == if l in rest then 0 else 1)
    && (forall c: nat :: c !in consumers.Values ==> closed[c] == 0)
  }

  lemma CloseOne(consumers: map<Label, nat>, rest: set<Label>, closed: multiset<nat>, n: nat, name: Label)
    requires Registered(consumers, n) && ClosedBut(consumers, rest, closed) && name in rest && name in consumers
    ensures ClosedBut(consumers, rest - {name}, closed + multiset{consumers[name]})
  {
    forall l <- consumers ensures (closed + multiset{consumers[name]})[consumers[l]] == if l in rest - {name} then 0 else 1 {
      assert consumers[l] == consumers[name] ==> l == name;
    }
  }

  lemma ClosedAtMostOnce(consumers: map<Label, nat>, closed: multiset<nat>, c: nat)
    requires ClosedBut(consumers, {}, closed)
    ensures closed[c] <= 1
  {
    if c in consumers.Values {
      var l :| l in consumers && consumers[l] == c;
    }
  }

  lemma ClosingsStep(s: State, a: Action)
    requires Consistent(s) && Closings(s) && Enabled(s, a)
    ensures Closings(Do(s, a))
  {
    if IsLoopStep(a) {
      LoopStepShape(s, a);
      QuietClosings(s, Do(s, a));
    } else {
      match a
      case Close(name) => CloseOne(s.consumers, s.shut.rest, s.closed, |s.loops|, name);
      case Unlock => forall c: nat ensures s.closed[c] <= 1 { ClosedAtMostOnce(s.consumers, s.closed, c); }
      case Wait => assert ClosedBut(s.consumers, s.consumers.Keys, multiset{});
      case _ => QuietClosings(s, Do(s, a));
    }
  }

  lemma QuietClosings(s: State, t: State)
    requires Closings(s) && t.closed == s.closed
    requires if s.shut.Closing? || s.shut == Returned then t.shut == s.shut else !t.shut.Closing? && t.shut != Returned
    requires s.shut.Closing? ==> t.consumers == s.consumers
    ensures Closings(t)
  {
  }

  /** How many deliveries went to a consumer. */
  function Deliveries(owner: seq<nat>, c: nat): nat {
    if owner == [] then 0
    else Deliveries(owner[..|owner| - 1], c) + if owner[|owner| - 1] == c then 1 else 0
  }

  /** Each loop has taken as many messages as were delivered to its consumer. */
  ghost predicate Counted(s: State) {
    && (forall c :: 0 <= c < |s.loops| ==> s.loops[c].taken == Deliveries(s.owner, c))
    && forall c: nat :: c >= |s.loops| ==> Deliveries(s.owner, c) == 0
  }

  lemma CountedStep(s: State, a: Action)
    requires Counted(s) && Enabled(s, a)
    ensures Counted(Do(s, a))
  {
    if a.Receive? {
      assert Do(s, a).owner[..|s.owner|] == s.owner;
    } else if IsLoopStep(a) {
      LoopStepShape(s, a);
      LoopStepTakes(s, a);
    } else {
      OthersTake(s, a);
    }
  }

  lemma LoopStepTakes(s: State, a: Action)
    requires IsLoopStep(a) && !a.Receive? && Enabled(s, a)
    ensures Do(s, a).owner == s.owner && Do(s, a).loops[a.c].taken == s.loops[a.c].taken
  {
  }

  lemma OthersTake(s: State, a: Action)
    requires !IsLoopStep(a) && Enabled(s, a)
    ensures var t := Do(s, a);
            && t.owner == s.owner && |s.loops| <= |t.loops|
            && (forall c :: 0 <= c < |s.loops| ==> t.loops[c].taken == s.loops[c].taken)
            && forall c :: |s.loops| <= c < |t.loops| ==> t.loops[c].taken == 0
  {
  }

  ghost predicate Invariant(s: State) {
    Consistent(s) && Accounted(s) && Closings(s) && Counted(s)
  }

  lemma InitInvariant()
    ensures Invariant(INIT)
  {
  }

  lemma ActionKeepsInvariant(s: State, a: Action)
    requires Invariant(s) && Enabled(s, a)
    ensures Invariant(Do(s, a))
  {
    ConsistentStep(s, a);
    AccountedStep(s, a);
    ClosingsStep(s, a);
    CountedStep(s, a);
  }

  lemma InvariantStep(s: State, t: State)
    requires Invariant(s) && Next(s, t)
    ensures Invariant(t)
  {
    var a :| Enabled(s, a) && t == Do(s, a);
    ActionKeepsInvariant(s, a);
  }

  /** Whatever the interleaving, every state of a run from the start satisfies the invariant. */
  lemma InvariantOnRuns(r: seq<State>, i: nat)
    requires Run(r) && Invariant(r[0]) && i < |r|
    ensures Invariant(r[i])
  {
    forall s, t | Invariant(s) && Next(s, t) ensures Invariant(t) {
      InvariantStep(s, t);
    }
    Invariance(Next, Invariant, r, i);
  }

  // ---- What the invariant says about whole runs ----

  /** From the start, in every interleaving: the wait group counts the unfinished loops; a consumer is
      being or has been closed only when no loop is running; and each delivery is in the hands of its
      loop or has been answered exactly as its handler returned, once. */
  lemma Safety(r: seq<State>, i: nat, m: nat)
    requires Run(r) && r[0] == INIT && i < |r|
    ensures var s := r[i];
            && s.wg == Unfinished(s.loops)
            && (s.closed != multiset{} ==> forall c :: 0 <= c < |s.loops| ==> !Active(s.loops[c].pc))
            && Disposed(s, m)
  {
    InitInvariant();
    InvariantOnRuns(r, i);
    if r[i].closed != multiset{} {
      NoneUnfinished(r[i].loops);
    }
  }

  /** A consumer has at most one delivery that its handler has not returned from. */
  lemma OneInFlight(r: seq<State>, i: nat, m: nat, k: nat)
    requires Run(r) && r[0] == INIT && i < |r|
    requires m < |r[i].owner| && k < |r[i].owner| && r[i].owner[m] == r[i].owner[k]
    requires m !in r[i].returned && k !in r[i].returned
    ensures m == k
  {
    Safety(r, i, m);
    Safety(r, i, k);
  }

  predicate Closed(s: State) {
    s.shut.Closing? || s.shut == Returned
  }

  lemma QuietAfterClose(s: State, a: Action)
    requires Consistent(s) && Closed(s) && Enabled(s, a)
    ensures var t := Do(s, a);
            Closed(t) && t.owner == s.owner && t.returned == s.returned && t.acks == s.acks && t.nacks == s.nacks
  {
    NoneUnfinished(s.loops);
    if IsLoopStep(a) {
      LoopStepShape(s, a);
    }
  }

  lemma QuietNext(s: State, t: State)
    requires Consistent(s) && Closed(s) && Next(s, t)
    ensures Closed(t) && t.owner == s.owner && t.returned == s.returned && t.acks == s.acks && t.nacks == s.nacks
  {
    var a :| Enabled(s, a) && t == Do(s, a);
    QuietAfterClose(s, a);
  }

  /** Once a consumer has been closed, nothing is received, acknowledged or negatively acknowledged any
      more, however long the run goes on. */
  lemma NothingAfterClose(r: seq<State>, i: nat)
    requires Run(r) && Invariant(r[0]) && r[0].closed != multiset{} && i < |r|
    ensures Closed(r[i]) && r[i].owner == r[0].owner && r[i].returned == r[0].returned
            && r[i].acks == r[0].acks && r[i].nacks == r[0].nacks
  {
    var quiet := (s: State) => Invariant(s) && Closed(s) && s.owner == r[0].owner && s.returned == r[0].returned
                               && s.acks == r[0].acks && s.nacks == r[0].nacks;
    forall s, t | quiet(s) && Next(s, t) ensures quiet(t) {
      InvariantStep(s, t);
      QuietNext(s, t);
    }
    Invariance(Next, quiet, r, i);
  }

  /** When Shutdown has nothing left to close, it has closed every consumer of the map once, and no
      other; and that stays so after it has returned, whatever is added then. */
  lemma ClosedExactlyOnce(r: seq<State>, i: nat, c: nat)
    requires Run(r) && Invariant(r[0]) && r[0].shut == Closing({}) && i < |r|
    ensures r[i].closed[c] == if c in r[0].consumers.Values then 1 else 0
  {
    var settled := (s: State) => Invariant(s) && (s.shut == Closing({}) || s.shut == Returned) && s.closed == r[0].closed;
    forall s, t | settled(s) && Next(s, t) ensures settled(t) {
      InvariantStep(s, t);
      SettledNext(s, t);
    }
    Invariance(Next, settled, r, i);
    var s := r[0];
    if c in s.consumers.Values {
      var l :| l in s.consumers && s.consumers[l] == c;
    }
  }

  lemma SettledNext(s: State, t: State)
    requires Consistent(s) && (s.shut == Closing({}) || s.shut == Returned) && Next(s, t)
    ensures (t.shut == Closing({}) || t.shut == Returned) && t.closed == s.closed
  {
    var a :| Enabled(s, a) && t == Do(s, a);
    if IsLoopStep(a) {
      LoopStepShape(s, a);
    }
  }

  /** The handler has returned, and the delivery was acknowledged, negatively acknowledged or dropped. */
  predicate Answered(s: State, m: nat) {
    && m in s.returned
    && s.acks[m] == (if s.returned[m] == Ok then 1 else 0)
    && s.nacks[m] == (if s.returned[m] == Failed then 1 else 0)
  }

  /** When a message arrives, the handler has returned from all that its consumer was given before. */
  lemma ReceiveAfterReturn(s: State, c: nat, m: nat)
    requires Accounted(s) && Enabled(s, Receive(c))
    requires var t := Do(s, Receive(c)); m < |t.owner| && t.owner[m] == c
    ensures m in s.returned <==> m < |s.owner|
  {
    assert Disposed(s, m);
  }

  lemma AnsweredOnce(s: State, c: nat)
    requires Accounted(s) && Enabled(s, Answer(c))
    ensures Answered(Do(s, Answer(c)), s.loops[c].pc.m)
  {
    assert Disposed(s, s.loops[c].pc.m);
  }

  // ---- Draining ----

  /** How many messages a loop has taken and may still take once the manager is stopped. */
  function Allowance(s: State, c: nat): nat
    requires c < |s.loops|
  {
    s.loops[c].taken + if s.loops[c].pc == Selecting then 1 else 0
  }

  lemma AllowanceStep(s: State, a: Action, c: nat)
    requires Consistent(s) && s.stopped && Enabled(s, a) && c < |s.loops|
    ensures var t := Do(s, a); t.stopped && c < |t.loops| && Allowance(t, c) <= Allowance(s, c)
  {
    if IsLoopStep(a) {
      LoopStepShape(s, a);
    }
  }

  lemma AllowanceNext(s: State, t: State, c: nat)
    requires Consistent(s) && s.stopped && Next(s, t) && c < |s.loops|
    ensures t.stopped && c < |t.loops| && Allowance(t, c) <= Allowance(s, c)
  {
    var a :| Enabled(s, a) && t == Do(s, a);
    AllowanceStep(s, a, c);
  }

  /** After the stop flag is set a loop takes at most one more message, and only if it was already
      waiting for one. */
  lemma AtMostOneMore(r: seq<State>, i: nat, c: nat)
    requires Run(r) && Invariant(r[0]) && r[0].stopped && i < |r| && c < |r[0].loops|
    ensures Deliveries(r[i].owner, c) <= Deliveries(r[0].owner, c) + if r[0].loops[c].pc == Selecting then 1 else 0
  {
    var within := (s: State) => Invariant(s) && s.stopped && c < |s.loops| && Allowance(s, c) <= Allowance(r[0], c);
    forall s, t | within(s) && Next(s, t) ensures within(t) {
      InvariantStep(s, t);
      AllowanceNext(s, t, c);
    }
    Invariance(Next, within, r, i);
  }

  // ---- Termination of Shutdown ----

  /** How far a loop is from its end, once stopped. */
  function Rank(pc: Pc): nat {
    match pc
    case NoLoop => 0
    case Finished => 0
    case Exiting => 1
    case AtCheck => 2
    case Answering(_, _) => 3
    case Blocked(_) => 4
    case Handling(_) => 5
    case Selecting => 6
  }

  function TotalRank(loops: seq<Loop>): nat {
    if loops == [] then 0 else TotalRank(loops[..|loops| - 1]) + Rank(loops[|loops| - 1].pc)
  }

  lemma {:induction false} TotalRankUpdate(loops: seq<Loop>, c: nat, l: Loop)
    requires c < |loops|
    ensures TotalRank(loops[c := l]) == TotalRank(loops) - Rank(loops[c].pc) + Rank(l.pc)
  {
    var k := |loops| - 1;
    if c == k {
      assert loops[c := l][..k] == loops[..k];
    } else {
      TotalRankUpdate(loops[..k], c, l);
      assert loops[c := l][..k] == loops[..k][c := l];
    }
  }

  /** The steps that can still be taken before Shutdown returns. */
  function Work(s: State): nat {
    TotalRank(s.loops) + match s.shut {
      case Stopping => |s.consumers.Keys| + 3
      case Waiting => |s.consumers.Keys| + 2
      case Closing(rest) => |rest| + 1
      case _ => 0
    }
  }

  predicate ShuttingDown(s: State) {
    s.shut == Stopping || s.shut == Waiting || s.shut.Closing?
  }

  lemma WorkDecreases(s: State, a: Action)
    requires Consistent(s) && ShuttingDown(s) && Enabled(s, a)
    ensures Work(Do(s, a)) < Work(s)
    ensures ShuttingDown(Do(s, a)) || Do(s, a).shut == Returned
  {
    var t := Do(s, a);
    if IsLoopStep(a) {
      LoopStepShape(s, a);
      TotalRankUpdate(s.loops, a.c, t.loops[a.c]);
      LoopRankFalls(s, a);
    }
  }

  lemma LoopRankFalls(s: State, a: Action)
    requires s.stopped && IsLoopStep(a) && Enabled(s, a)
    ensures Rank(Do(s, a).loops[a.c].pc) < Rank(s.loops[a.c].pc)
  {
  }

  lemma WorkNext(s: State, t: State)
    requires Consistent(s) && ShuttingDown(s) && Next(s, t)
    ensures Work(t) < Work(s)
  {
    var a :| Enabled(s, a) && t == Do(s, a);
    WorkDecreases(s, a);
  }

  /** While Shutdown is under way, a run cannot be longer than the work that was left. */
  lemma RunsEnd(r: seq<State>, i: nat)
    requires Run(r) && Invariant(r[0]) && i < |r|
    requires forall j :: 0 <= j < i ==> ShuttingDown(r[j])
    ensures i + Work(r[i]) <= Work(r[0])
  {
    var moving := (s: State) => Invariant(s) && ShuttingDown(s);
    forall s, t | moving(s) && Next(s, t) ensures Work(t) < Work(s) {
      WorkNext(s, t);
    }
    forall j | 0 <= j < i ensures moving(r[j]) {
      InvariantOnRuns(r, j);
    }
    Bounded(Next, moving, Work, r, i);
  }

  /** A handler that called AddConsumer waits for the mutex, and every loop still running is such. */
  predicate Deadlocked(s: State) {
    && s.shut == Waiting
    && (exists c :: 0 <= c < |s.loops| && s.loops[c].pc.Blocked?)
    && forall c :: 0 <= c < |s.loops| && Active(s.loops[c].pc) ==> s.loops[c].pc.Blocked?
  }

  function LoopAction(pc: Pc, c: nat): Action {
    match pc
    case AtCheck => Check(c)
    case Selecting => Quit(c)
    case Handling(_) => Return(c, Ok)
    case Answering(_, _) => Answer(c)
    case _ => Leave(c)
  }

  /** Before Shutdown returns, no step can be taken without a new message if and only if the manager is
      deadlocked that way; and then none can be taken at all. */
  lemma StuckExactly(s: State)
    requires Invariant(s) && ShuttingDown(s)
    ensures Stuck(s) <==> Deadlocked(s)
    ensures Deadlocked(s) ==> forall a :: !Enabled(s, a)
  {
    if Stuck(s) {
      StuckShutdown(s);
      forall c | 0 <= c < |s.loops| && Active(s.loops[c].pc) ensures s.loops[c].pc.Blocked? {
        assert !Enabled(s, LoopAction(s.loops[c].pc, c));
      }
    }
    if Deadlocked(s) {
      forall a ensures !Enabled(s, a) {
        DeadlockIsFinal(s, a);
      }
    }
  }

  lemma StuckShutdown(s: State)
    requires Invariant(s) && ShuttingDown(s) && Stuck(s)
    ensures s.shut == Waiting && exists c :: 0 <= c < |s.loops| && Active(s.loops[c].pc)
  {
    assert !Enabled(s, Cancel) && !Enabled(s, Wait) && !Enabled(s, Unlock);
    if s.shut.Closing? {
      var l :| l in s.shut.rest;
      assert Enabled(s, Close(l));
    }
    SomeUnfinished(s.loops);
  }

  lemma {:induction false} SomeUnfinished(loops: seq<Loop>)
    ensures Unfinished(loops) > 0 ==> exists c :: 0 <= c < |loops| && Active(loops[c].pc)
  {
    if loops != [] {
      SomeUnfinished(loops[..|loops| - 1]);
      if Unfinished(loops[..|loops| - 1]) > 0 {
        var c :| 0 <= c < |loops| - 1 && Active(loops[..|loops| - 1][c].pc);
        assert Active(loops[c].pc);
      } else if Unfinished(loops) > 0 {
        assert Active(loops[|loops| - 1].pc);
      }
    }
  }

  predicate StopFlagSet(s: State) {
    ShuttingDown(s) || s.shut == Returned
  }

  lemma StopFlagStays(s: State, t: State)
    requires Consistent(s) && StopFlagSet(s) && Next(s, t)
    ensures StopFlagSet(t)
  {
    var a :| Enabled(s, a) && t == Do(s, a);
    if IsLoopStep(a) {
      LoopStepShape(s, a);
    }
  }

  lemma StillShuttingDown(r: seq<State>, i: nat)
    requires Run(r) && Invariant(r[0]) && ShuttingDown(r[0]) && i < |r| && r[i].shut != Returned
    ensures ShuttingDown(r[i])
  {
    var down := (s: State) => Invariant(s) && StopFlagSet(s);
    forall s, t | down(s) && Next(s, t) ensures down(t) {
      InvariantStep(s, t);
      StopFlagStays(s, t);
    }
    Invariance(Next, down, r, i);
  }

  predicate NoneBlocked(s: State) {
    forall c :: 0 <= c < |s.loops| ==> !s.loops[c].pc.Blocked?
  }

  lemma LoopStepFrame(s: State, a: Action)
    requires IsLoopStep(a) && Enabled(s, a)
    ensures Do(s, a).shut == s.shut && Do(s, a).consumers == s.consumers
  {
    LoopStepShape(s, a);
  }

  lemma NoneBlockedStep(s: State, a: Action)
    requires NoneBlocked(s) && IsLoopStep(a) && Enabled(s, a) && !a.CallAdd?
    ensures NoneBlocked(Do(s, a))
  {
    LoopStepShape(s, a);
  }

  /** Once the stop flag is set, every run that goes on as long as it can without new messages, or that
      is longer than the work that was left, has passed the return of Shutdown or ends deadlocked. Where
      no handler is waiting for the mutex at its end, Shutdown has returned. */
  lemma ShutdownReturns(r: seq<State>)
    requires Run(r) && Invariant(r[0]) && ShuttingDown(r[0])
    requires Stuck(Last(r)) || |r| > Work(r[0]) + 1
    ensures Deadlocked(Last(r)) || exists i :: 0 <= i < |r| && r[i].shut == Returned
    ensures NoneBlocked(Last(r)) ==> exists i :: 0 <= i < |r| && r[i].shut == Returned
  {
    if forall i :: 0 <= i < |r| ==> r[i].shut != Returned {
      forall i | 0 <= i < |r| ensures ShuttingDown(r[i]) {
        StillShuttingDown(r, i);
      }
      RunsEnd(r, |r| - 1);
      InvariantOnRuns(r, |r| - 1);
      StuckExactly(Last(r));
    }
  }

  /** A scheduler picks a step that can be taken as long as there is one. */
  ghost predicate Schedules(pick: State -> Action) {
    forall s :: Invariant(s) && ShuttingDown(s) && !Stuck(s) ==> Enabled(s, pick(s))
  }

  lemma PickedStep(pick: State -> Action, s: State)
    requires Schedules(pick) && Invariant(s) && !Deadlocked(s)
    requires s.shut == Stopping || (s.shut == Waiting && s.wg != 0)
    ensures Enabled(s, pick(s)) && Work(Do(s, pick(s))) < Work(s)
    ensures IsLoopStep(pick(s)) || (pick(s) == Cancel && s.shut == Stopping)
  {
    StuckExactly(s);
    WorkDecreases(s, pick(s));
  }

  lemma AllAnswered(s: State)
    requires Invariant(s) && s.wg == 0
    ensures forall m :: 0 <= m < |s.owner| ==> Answered(s, m)
  {
    NoneUnfinished(s.loops);
    forall m | 0 <= m < |s.owner| ensures Answered(s, m) {
      assert Disposed(s, m);
    }
  }

  // ---- When the deadlock can happen ----

  /** A loop that is in its handler, or may still get there. */
  predicate MayBlock(pc: Pc) {
    pc == Selecting || pc.Handling? || pc.Blocked?
  }

  ghost predicate SomeMayBlock(s: State) {
    exists c :: 0 <= c < |s.loops| && MayBlock(s.loops[c].pc)
  }

  /** A step towards the deadlock: handlers are entered, and call AddConsumer; the other loops go on. */
  lemma TowardsDeadlock(s: State) returns (a: Action)
    requires Invariant(s) && (s.shut == Stopping || s.shut == Waiting) && SomeMayBlock(s) && !Deadlocked(s)
    ensures Enabled(s, a)
    ensures var t := Do(s, a); (t.shut == Stopping || t.shut == Waiting) && SomeMayBlock(t)
  {
    var c :| 0 <= c < |s.loops| && MayBlock(s.loops[c].pc);
    if s.shut == Stopping {
      a := Cancel;
      assert Do(s, a).loops == s.loops;
    } else if s.loops[c].pc == Selecting {
      a := Receive(c);
      assert MayBlock(Do(s, a).loops[c].pc);
    } else if s.loops[c].pc.Handling? {
      a := CallAdd(c);
      assert MayBlock(Do(s, a).loops[c].pc);
    } else {
      var d :| 0 <= d < |s.loops| && Active(s.loops[d].pc) && !s.loops[d].pc.Blocked?;
      a := LoopAction(s.loops[d].pc, d);
      LoopStepShape(s, a);
      assert Do(s, a).loops[c] == s.loops[c];
    }
  }

  lemma {:induction false} RunToDeadlock(s: State) returns (r: seq<State>)
    requires Invariant(s) && (s.shut == Stopping || s.shut == Waiting) && SomeMayBlock(s)
    ensures Run(r) && r[0] == s && Deadlocked(Last(r))
    decreases Work(s)
  {
    if Deadlocked(s) {
      return [s];
    }
    var a := TowardsDeadlock(s);
    var t := Do(s, a);
    assert Next(s, t);
    InvariantStep(s, t);
    WorkDecreases(s, a);
    var rest := RunToDeadlock(t);
    Prepend(Next, s, rest);
    r := [s] + rest;
  }

  lemma NoneMayBlockStep(s: State, a: Action)
    requires Consistent(s) && s.stopped && !SomeMayBlock(s) && Enabled(s, a)
    ensures Do(s, a).stopped && !SomeMayBlock(Do(s, a))
  {
    if IsLoopStep(a) {
      LoopStepShape(s, a);
    }
  }

  /** From the stop flag on, Shutdown can end in the deadlock if and only if some loop is in its handler
      or in the select that may take it there. */
  lemma DeadlockExactly(s: State)
    requires Invariant(s) && (s.shut == Stopping || s.shut == Waiting)
    ensures (exists r: seq<State> :: Run(r) && r[0] == s && Deadlocked(Last(r))) <==> SomeMayBlock(s)
  {
    if SomeMayBlock(s) {
      var r := RunToDeadlock(s);
    } else {
      var free := (u: State) => Invariant(u) && u.stopped && !SomeMayBlock(u);
      forall u, t | free(u) && Next(u, t) ensures free(t) {
        InvariantStep(u, t);
        var a :| Enabled(u, a) && t == Do(u, a);
        NoneMayBlockStep(u, a);
      }
      forall r: seq<State> | Run(r) && r[0] == s ensures !Deadlocked(Last(r)) {
        Invariance(Next, free, r, |r| - 1);
      }
    }
  }

  /** Shutdown has not set the stop flag yet: it has the mutex, or can take it. */
  predicate BeforeStop(s: State) {
    s.shut == Locked || (s.shut == Idle && s.mutex == Free && s.start == Started)
  }

  /** A loop that is not on its way out. */
  predicate Running(pc: Pc) {
    Active(pc) && pc != Exiting
  }

  ghost predicate SomeRunning(s: State) {
    exists c :: 0 <= c < |s.loops| && Running(s.loops[c].pc)
  }

  /** A step that takes a running loop towards its select or its handler, and then Shutdown to the stop flag. */
  function TowardsStop(s: State, c: nat): Action
    requires c < |s.loops|
  {
    if s.loops[c].pc == AtCheck then Check(c)
    else if s.loops[c].pc.Answering? then Answer(c)
    else if s.shut == Idle then Lock
    else Stop
  }

  /** How many such steps are left. */
  function StopRank(s: State, c: nat): nat
    requires c < |s.loops|
  {
    (if s.loops[c].pc == AtCheck then 1 else if s.loops[c].pc.Answering? then 2 else 0) + (if s.shut == Idle then 1 else 0)
  }

  lemma TowardsStopStep(s: State, c: nat)
    requires Invariant(s) && BeforeStop(s) && c < |s.loops| && Running(s.loops[c].pc)
    ensures var a := TowardsStop(s, c);
            && Enabled(s, a) && c < |Do(s, a).loops| && Running(Do(s, a).loops[c].pc)
            && (if a == Stop then Do(s, a).shut == Stopping && MayBlock(Do(s, a).loops[c].pc)
                else BeforeStop(Do(s, a)) && StopRank(Do(s, a), c) < StopRank(s, c))
  {
  }

  lemma {:induction false} RunFromCall(s: State, c: nat) returns (r: seq<State>)
    requires Invariant(s) && BeforeStop(s) && c < |s.loops| && Running(s.loops[c].pc)
    ensures Run(r) && r[0] == s && Deadlocked(Last(r))
    decreases StopRank(s, c)
  {
    var a := TowardsStop(s, c);
    TowardsStopStep(s, c);
    var t := Do(s, a);
    assert Next(s, t);
    InvariantStep(s, t);
    var rest;
    if a == Stop {
      rest := RunToDeadlock(t);
    } else {
      rest := RunFromCall(t, c);
    }
    Prepend(Next, s, rest);
    r := [s] + rest;
  }

  lemma NoneRunningStep(s: State, a: Action)
    requires Consistent(s) && s.start == Started && !SomeRunning(s) && Enabled(s, a)
    ensures Do(s, a).start == Started && !SomeRunning(Do(s, a))
  {
    if IsLoopStep(a) {
      LoopStepShape(s, a);
    }
  }

  /** When Shutdown is called, it can end in the deadlock if and only if some loop is running and not
      already on its way out: whatever it is doing, its handler may yet call AddConsumer. */
  lemma DeadlockFromCall(s: State)
    requires Invariant(s) && BeforeStop(s)
    ensures (exists r: seq<State> :: Run(r) && r[0] == s && Deadlocked(Last(r))) <==> SomeRunning(s)
  {
    if SomeRunning(s) {
      var c :| 0 <= c < |s.loops| && Running(s.loops[c].pc);
      var r := RunFromCall(s, c);
    } else {
      var idle := (u: State) => Invariant(u) && u.start == Started && !SomeRunning(u);
      forall u, t | idle(u) && Next(u, t) ensures idle(t) {
        InvariantStep(u, t);
        var a :| Enabled(u, a) && t == Do(u, a);
        NoneRunningStep(u, a);
      }
      forall r: seq<State> | Run(r) && r[0] == s ensures !Deadlocked(Last(r)) {
        Invariance(Next, idle, r, |r| - 1);
      }
    }
  }

  lemma DeadlockIsFinal(s: State, a: Action)
    requires Consistent(s) && Deadlocked(s)
    ensures !Enabled(s, a)
  {
    var c :| 0 <= c < |s.loops| && s.loops[c].pc.Blocked?;
    if s.wg == 0 {
      NoneUnfinished(s.loops);
    }
  }

  lemma StillBlocked(s: State, a: Action, c: nat)
    requires Consistent(s) && (s.shut == Locked || s.shut == Stopping || s.shut == Waiting)
    requires c < |s.loops| && s.loops[c].pc.Blocked? && Enabled(s, a)
    ensures var t := Do(s, a);
            && (t.shut == Locked || t.shut == Stopping || t.shut == Waiting)
            && c < |t.loops| && t.loops[c] == s.loops[c]
  {
    if s.wg == 0 {
      NoneUnfinished(s.loops);
    }
    if IsLoopStep(a) {
      LoopStepShape(s, a);
    }
  }

  lemma StillBlockedNext(s: State, t: State, c: nat)
    requires Consistent(s) && (s.shut == Locked || s.shut == Stopping || s.shut == Waiting)
    requires c < |s.loops| && s.loops[c].pc.Blocked? && Next(s, t)
    ensures (t.shut == Locked || t.shut == Stopping || t.shut == Waiting) && c < |t.loops| && t.loops[c] == s.loops[c]
  {
    var a :| Enabled(s, a) && t == Do(s, a);
    StillBlocked(s, a, c);
  }

  /** A handler that is waiting for the mutex when Shutdown has taken it is never let in, and Shutdown
      never returns, in any run. */
  lemma BlockedForever(r: seq<State>, i: nat, c: nat)
    requires Run(r) && Invariant(r[0]) && i < |r|
    requires r[0].shut == Locked || r[0].shut == Stopping || r[0].shut == Waiting
    requires c < |r[0].loops| && r[0].loops[c].pc.Blocked?
    ensures (r[i].shut == Locked || r[i].shut == Stopping || r[i].shut == Waiting)
            && c < |r[i].loops| && r[i].loops[c] == r[0].loops[c]
  {
    var waiting := (s: State) => Invariant(s) && (s.shut == Locked || s.shut == Stopping || s.shut == Waiting)
                                 && c < |s.loops| && s.loops[c] == r[0].loops[c];
    forall s, t | waiting(s) && Next(s, t) ensures waiting(t) {
      InvariantStep(s, t);
      StillBlockedNext(s, t, c);
    }
    Invariance(Next, waiting, r, i);
  }

  // ---- The deadlock happens ----

  lemma Extend(r: seq<State>, a: Action) returns (q: seq<State>)
    requires Run(r) && Enabled(Last(r), a)
    ensures Run(q) && q[0] == r[0] && Last(q) == Do(Last(r), a)
  {
    assert Next(Last(r), Do(Last(r), a));
    q := Runs.Extend(Next, r, Do(Last(r), a));
  }

  /** One consumer has been added and started, and its handler is at work. */
  lemma HandlerAtWork() returns (r: seq<State>)
    ensures Run(r) && r[0] == INIT
    ensures Last(r) == State(Free, Started, Idle, false, false, 1, map["a" := 0], [Loop(Handling(0), 1)], [0],
                             map[], multiset{}, multiset{}, multiset{})
  {
    r := [INIT];
    r := Extend(r, Add("a"));
    r := Extend(r, BeginStart);
    assert Last(r).start.rest == {0} by {
      assert Last(r).consumers == map["a" := 0];
      assert Last(r).consumers["a"] == 0;
    }
    r := Extend(r, Spawn(0));
    assert Last(r).start.rest == {};
    r := Extend(r, EndStart);
    r := Extend(r, Check(0));
    r := Extend(r, Receive(0));
  }

  /** One consumer whose handler adds another consumer while Shutdown takes the mutex is enough. */
  lemma DeadlockHappens() returns (r: seq<State>)
    ensures Run(r) && r[0] == INIT && Deadlocked(Last(r))
  {
    r := HandlerAtWork();
    r := Extend(r, CallAdd(0));
    r := Extend(r, Lock);
    r := Extend(r, Stop);
    r := Extend(r, Cancel);
    assert Last(r).loops[0].pc.Blocked?;
  }

  // ---- What actions do, along runs ----

  ghost predicate Step(s: State, a: Action, t: State) {
    Enabled(s, a) && t == Do(s, a)
  }

  /** A run with the actions that it takes. */
  ghost predicate Trace(r: seq<State>, acts: seq<Action>) {
    IsTrace(Step, r, acts)
  }

  lemma InvariantOnTraces(r: seq<State>, acts: seq<Action>, i: nat)
    requires Trace(r, acts) && Invariant(r[0]) && i <= |acts|
    ensures Invariant(r[i])
  {
    forall s, a, t | Invariant(s) && Step(s, a, t) ensures Invariant(t) {
      ActionKeepsInvariant(s, a);
    }
    TraceInvariance(Step, Invariant, (a: Action) => true, r, acts, 0, i);
  }

  /** The handler of a consumer returns from a delivery. */
  predicate ReturnsFrom(s: State, a: Action, m: nat, outcome: Outcome) {
    a.Return? && a.outcome == outcome && a.c < |s.loops| && s.loops[a.c].pc == Handling(m)
  }

  lemma ReturnRecorded(s: State, a: Action, m: nat, outcome: Outcome)
    requires Accounted(s) && Enabled(s, a) && ReturnsFrom(s, a, m, outcome)
    ensures var t := Do(s, a); m in t.returned && t.returned[m] == outcome && m !in s.returned
  {
    assert Disposed(s, m);
  }

  /** Recorded returns stay. */
  lemma ReturnedStays(s: State, a: Action, m: nat)
    requires Accounted(s) && Enabled(s, a) && m in s.returned
    ensures m in Do(s, a).returned && Do(s, a).returned[m] == s.returned[m]
  {
    if a.Return? {
      assert Disposed(s, s.loops[a.c].pc.m);
    }
  }

  lemma OutcomeStays(r: seq<State>, acts: seq<Action>, j: nat, i: nat, m: nat)
    requires Trace(r, acts) && Invariant(r[0]) && j <= i <= |acts| && m in r[j].returned
    ensures m in r[i].returned && r[i].returned[m] == r[j].returned[m]
  {
    var kept := (s: State) => Invariant(s) && m in s.returned && s.returned[m] == r[j].returned[m];
    InvariantOnTraces(r, acts, j);
    forall s, a, t | kept(s) && Step(s, a, t) ensures kept(t) {
      ActionKeepsInvariant(s, a);
      ReturnedStays(s, a, m);
    }
    TraceInvariance(Step, kept, (a: Action) => true, r, acts, j, i);
  }

  /** After a handler has returned, its delivery is acknowledged at most once and only if there was no
      error, negatively acknowledged at most once and only if there was one, and neither after a panic;
      and it has been as soon as its loop does not hold it any more. */
  lemma ReturnDecides(r: seq<State>, acts: seq<Action>, j: nat, i: nat, m: nat, outcome: Outcome)
    requires Trace(r, acts) && r[0] == INIT && j < i <= |acts| && ReturnsFrom(r[j], acts[j], m, outcome)
    ensures var s := r[i];
            && s.acks[m] <= (if outcome == Ok then 1 else 0) && s.nacks[m] <= (if outcome == Failed then 1 else 0)
            && ((forall c :: 0 <= c < |s.loops| ==> !Holds(s.loops[c].pc, m)) ==>
                  s.acks[m] == (if outcome == Ok then 1 else 0) && s.nacks[m] == (if outcome == Failed then 1 else 0))
  {
    InitInvariant();
    InvariantOnTraces(r, acts, j);
    InvariantOnTraces(r, acts, i);
    assert TakenAt(Step, r, acts, j);
    ReturnRecorded(r[j], acts[j], m, outcome);
    OutcomeStays(r, acts, j + 1, i, m);
    assert Disposed(r[i], m);
  }

  lemma OnlyReturnsRecord(s: State, a: Action, m: nat)
    requires Enabled(s, a) && m !in s.returned && m in Do(s, a).returned
    ensures ReturnsFrom(s, a, m, Do(s, a).returned[m])
  {
  }

  /** Nothing is acknowledged, or negatively acknowledged, but what its handler has returned from without,
      or with, an error. */
  lemma AnswerHasReturn(r: seq<State>, acts: seq<Action>, i: nat, m: nat) returns (j: nat)
    requires Trace(r, acts) && r[0] == INIT && i <= |acts| && (r[i].acks[m] > 0 || r[i].nacks[m] > 0)
    ensures j < i && (r[i].acks[m] > 0 ==> ReturnsFrom(r[j], acts[j], m, Ok))
    ensures r[i].nacks[m] > 0 ==> ReturnsFrom(r[j], acts[j], m, Failed)
  {
    InitInvariant();
    InvariantOnTraces(r, acts, i);
    assert Disposed(r[i], m);
    j := Onset(r, (s: State) => m in s.returned, i);
    assert TakenAt(Step, r, acts, j);
    OnlyReturnsRecord(r[j], acts[j], m);
    OutcomeStays(r, acts, j + 1, i, m);
  }

  // ---- Labels ----

  /** The action adds a consumer under the label. */
  predicate Adds(a: Action, l: Label) {
    (a.Add? && a.name == l) || (a.AddInside? && a.added && a.name == l)
  }

  /** Adding a consumer gives its label, and no other, a consumer that is new; nothing else changes the map. */
  lemma AddingStep(s: State, a: Action, l: Label)
    requires Enabled(s, a)
    ensures var t := Do(s, a);
            && (Adds(a, l) ==> l in t.consumers && t.consumers[l] == |s.loops| < |t.loops| && t.loops[|s.loops|].pc == NoLoop)
            && (!Adds(a, l) ==> (l in t.consumers <==> l in s.consumers) && (l in s.consumers ==> t.consumers[l] == s.consumers[l]))
            && (a.AddInside? ==> a.c < |t.loops| && s.loops[a.c].pc.Blocked? && t.loops[a.c].pc == Handling(s.loops[a.c].pc.m))
  {
  }

  /** No label is dropped or given another consumer but by adding one under it. */
  lemma LabelStays(r: seq<State>, acts: seq<Action>, j: nat, i: nat, l: Label)
    requires Trace(r, acts) && j <= i <= |acts| && l in r[j].consumers
    requires forall k :: j <= k < i ==> !Adds(acts[k], l)
    ensures l in r[i].consumers && r[i].consumers[l] == r[j].consumers[l]
  {
    var kept := (s: State) => l in s.consumers && s.consumers[l] == r[j].consumers[l];
    forall s, a, t | kept(s) && !Adds(a, l) && Step(s, a, t) ensures kept(t) {
      AddingStep(s, a, l);
    }
    TraceInvariance(Step, kept, (a: Action) => !Adds(a, l), r, acts, j, i);
  }

  /** Start is going to launch the loop of a consumer, or has. */
  predicate Launched(s: State, c: nat) {
    s.start != NotStarted && c < |s.loops| && ((s.start.Spawning? && c in s.start.rest) || s.loops[c].pc != NoLoop)
  }

  lemma LaunchedStays(s: State, a: Action, c: nat)
    requires Enabled(s, a) && Launched(s, c)
    ensures Launched(Do(s, a), c)
  {
    if IsLoopStep(a) {
      LoopStepShape(s, a);
      LoopStepKeepsLoop(s, a);
    }
  }

  lemma LoopStepKeepsLoop(s: State, a: Action)
    requires IsLoopStep(a) && Enabled(s, a)
    ensures Do(s, a).loops[a.c].pc != NoLoop && Do(s, a).start == s.start
  {
  }

  /** When Start has returned, every consumer that was under a label when it began has a loop. */
  lemma StartedHasLoop(r: seq<State>, acts: seq<Action>, k: nat, i: nat, l: Label)
    requires Trace(r, acts) && r[0] == INIT && k < i <= |acts| && acts[k] == BeginStart
    requires l in r[k].consumers && r[i].start == Started
    ensures var c := r[k].consumers[l]; c < |r[i].loops| && r[i].loops[c].pc != NoLoop
  {
    var c := r[k].consumers[l];
    InitInvariant();
    InvariantOnTraces(r, acts, k);
    assert TakenAt(Step, r, acts, k) && c in r[k].consumers.Values;
    forall s, a, t | Launched(s, c) && Step(s, a, t) ensures Launched(t, c) {
      LaunchedStays(s, a, c);
    }
    TraceInvariance(Step, (s: State) => Launched(s, c), (a: Action) => true, r, acts, k + 1, i);
  }

  lemma OnlyUnlockReturns(s: State, a: Action)
    requires Enabled(s, a) && s.shut != Returned && Do(s, a).shut == Returned
    ensures a == Unlock && s.shut == Closing({})
  {
    if IsLoopStep(a) {
      LoopStepShape(s, a);
    }
  }

  /** When Shutdown has returned, every consumer that is still under its label has been closed, once. */
  lemma ShutdownClosesAdded(r: seq<State>, acts: seq<Action>, j: nat, i: nat, l: Label) returns (q: nat)
    requires Trace(r, acts) && r[0] == INIT && j < i <= |acts| && Adds(acts[j], l) && r[i].shut == Returned
    requires forall k :: j < k < i ==> !Adds(acts[k], l)
    ensures q < i && acts[q] == Unlock
    ensures j < q ==> r[i].closed[|r[j].loops|] == 1
  {
    InitInvariant();
    q := Onset(r, (s: State) => s.shut == Returned, i);
    assert TakenAt(Step, r, acts, q) && TakenAt(Step, r, acts, j);
    OnlyUnlockReturns(r[q], acts[q]);
    InvariantOnTraces(r, acts, q);
    AddingStep(r[j], acts[j], l);
    if j < q {
      LabelStays(r, acts, j + 1, q, l);
      SettledOnTrace(r, acts, q, i, l);
    }
  }

  lemma SettledOnTrace(r: seq<State>, acts: seq<Action>, q: nat, i: nat, l: Label)
    requires Trace(r, acts) && q <= i <= |acts| && Invariant(r[q]) && r[q].shut == Closing({}) && l in r[q].consumers
    ensures r[i].closed[r[q].consumers[l]] == 1
  {
    var settled := (s: State) => Consistent(s) && (s.shut == Closing({}) || s.shut == Returned) && s.closed == r[q].closed;
    forall s, a, t | settled(s) && Step(s, a, t) ensures settled(t) {
      ConsistentStep(s, a);
      assert Next(s, t);
      SettledNext(s, t);
    }
    TraceInvariance(Step, settled, (a: Action) => true, r, acts, q, i);
  }

  /** No loop leaves before the stop flag is set. */
  lemma LoopsStay(r: seq<State>, i: nat, c: nat)
    requires Run(r) && r[0] == INIT && i < |r| && !r[i].stopped && c < |r[i].loops|
    ensures r[i].loops[c].pc != Exiting && r[i].loops[c].pc != Finished
  {
    InitInvariant();
    var staying := (s: State) => Invariant(s) && NoneLeft(s);
    forall s, t | staying(s) && Next(s, t) ensures staying(t) {
      InvariantStep(s, t);
      var a :| Enabled(s, a) && t == Do(s, a);
      NoneLeftStep(s, a);
    }
    Invariance(Next, staying, r, i);
  }

  predicate NoneLeft(s: State) {
    !s.stopped ==> forall c :: 0 <= c < |s.loops| ==> s.loops[c].pc != Exiting && s.loops[c].pc != Finished
  }

  lemma NoneLeftStep(s: State, a: Action)
    requires Consistent(s) && NoneLeft(s) && Enabled(s, a)
    ensures NoneLeft(Do(s, a))
  {
    if IsLoopStep(a) {
      LoopStepShape(s, a);
    }
  }
}
