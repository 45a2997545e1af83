/** The consumer manager object: its consumers, stop flag and wait group, updated in place by its
    goroutines, and a whole Shutdown under an arbitrary scheduler. */
module PulsarManager {
  import opened Pulsar

  class PulsarConsumerManager {
    var consumers: map<Label, nat>
    var isStopped: bool
    var cancelled: bool
    var wg: int
    var mutex: Mutex
    var start: StartPc
    var shut: ShutPc
    var loops: seq<Loop>
    var owner: seq<nat>
    var returned: map<nat, Outcome>
    var acks: multiset<nat>
    var nacks: multiset<nat>
    var closed: multiset<nat>

    function Now(): State
      reads this
    {
      State(mutex, start, shut, isStopped, cancelled, wg, consumers, loops, owner, returned, acks, nacks, closed)
    }

    constructor ()
      ensures Now() == INIT && Invariant(Now())
    {
      mutex, start, shut := Free, NotStarted, Idle;
      isStopped, cancelled, wg := false, false, 0;
      consumers, loops, owner, returned := map[], [], [], map[];
      acks, nacks, closed := multiset{}, multiset{}, multiset{};
    }

    /** The label now stands for a new consumer, whose loop does not run and that nothing was delivered to. */
    method AddConsumer(name: Label)
      requires Invariant(Now()) && mutex == Free
      modifies this
      ensures Invariant(Now()) && Now() == Do(old(Now()), Add(name))
      ensures consumers.Keys == old(consumers.Keys) + {name}
      ensures forall l <- old(consumers) :: l != name ==> consumers[l] == old(consumers[l])
      ensures forall l <- old(consumers) :: old(consumers[l]) != consumers[name]
      ensures loops == old(loops) + [Loop(NoLoop, 0)] && consumers[name] == |old(loops)|
      ensures Deliveries(owner, consumers[name]) == 0
    {
      ActionKeepsInvariant(Now(), Add(name));
      consumers := consumers[name := |loops|];
      loops := loops + [Loop(NoLoop, 0)];
    }

    /** Start, from taking the mutex to releasing it, while the loops that it has launched wait. */
    method Start()
      requires Invariant(Now()) && mutex == Free && start == NotStarted
      modifies this
      ensures Invariant(Now()) && mutex == Free && start == Started && shut == old(shut)
      ensures consumers == old(consumers) && |loops| == |old(loops)| && wg == Unfinished(loops)
      ensures forall c :: 0 <= c < |loops| ==> loops[c].pc == if c in consumers.Values then AtCheck else NoLoop
    {
      LockForStart();
      LaunchAll();
      UnlockAfterStart();
    }

    method LaunchAll()
      requires Invariant(Now()) && start == Spawning(consumers.Values) && (forall l <- loops :: l.pc == NoLoop)
      modifies this
      ensures Invariant(Now()) && start == Spawning({})
      ensures consumers == old(consumers) && shut == old(shut) && |loops| == |old(loops)|
      ensures forall c :: 0 <= c < |loops| ==> loops[c].pc == if c in consumers.Values then AtCheck else NoLoop
    {
      while start.rest != {}
        invariant start.Spawning? && start.rest <= consumers.Values
        invariant consumers == old(consumers) && shut == old(shut) && |loops| == |old(loops)|
        invariant forall c :: 0 <= c < |loops| ==>
                    loops[c].pc == if c in consumers.Values - start.rest then AtCheck else NoLoop
        invariant Invariant(Now())
        decreases start.rest
      {
        var c :| c in start.rest;
        Launch(c);
      }
    }

    method LockForStart()
      requires Invariant(Now()) && mutex == Free && start == NotStarted
      modifies this
      ensures Now() == old(Now()).(mutex := HeldByStart, start := Spawning(consumers.Values)) && Invariant(Now())
      ensures forall l <- loops :: l.pc == NoLoop
    {
      ActionKeepsInvariant(Now(), BeginStart);
      mutex, start := HeldByStart, Spawning(consumers.Values);
    }

    method Launch(c: nat)
      requires Invariant(Now()) && start.Spawning? && c in start.rest
      modifies this
      ensures c < |loops| == |old(loops)| && Invariant(Now())
      ensures Now() == old(Now()).(wg := old(wg) + 1, start := Spawning(old(start.rest) - {c}),
                                   loops := old(loops)[c := Loop(AtCheck, old(loops)[c].taken)])
    {
      ActionKeepsInvariant(Now(), Spawn(c));
      wg := wg + 1;
      loops := loops[c := loops[c].(pc := AtCheck)];
      start := Spawning(start.rest - {c});
    }

    method UnlockAfterStart()
      requires Invariant(Now()) && start == Spawning({})
      modifies this
      ensures Now() == old(Now()).(mutex := Free, start := Started) && Invariant(Now())
    {
      ActionKeepsInvariant(Now(), EndStart);
      mutex, start := Free, Started;
    }

    // ---- The loop of one consumer ----

    /** The loop itself, from one point where others may run to the next. */
    method ConsumerLoop(a: Action)
      requires Invariant(Now()) && Enabled(Now(), a) && (a.Check? || a.Quit? || a.Leave?)
      modifies this
      ensures Invariant(Now()) && Now() == Do(old(Now()), a)
      ensures a.c < |loops| == |old(loops)|
      ensures loops[a.c].pc == if a.Check? then (if isStopped then Exiting else Selecting) else if a.Quit? then Exiting else Finished
      ensures wg == old(wg) - if a.Leave? then 1 else 0
    {
      ActionKeepsInvariant(Now(), a);
      match a
      case Check(c) => loops := loops[c := loops[c].(pc := if isStopped then Exiting else Selecting)];
      case Quit(c) => loops := loops[c := loops[c].(pc := Exiting)];
      case Leave(c) =>
        wg := wg - 1;
        loops := loops[c := loops[c].(pc := Finished)];
    }

    /** A message arrives. Whatever the consumer was given before has been returned from. */
    method ReceiveMessage(c: nat)
      requires Invariant(Now()) && Enabled(Now(), Receive(c))
      modifies this
      ensures Invariant(Now()) && Now() == Do(old(Now()), Receive(c))
      ensures owner == old(owner) + [c] && c < |loops| && loops[c].pc == Handling(|old(owner)|)
      ensures forall m :: 0 <= m < |owner| && owner[m] == c ==> (m in returned <==> m < |owner| - 1)
    {
      ActionKeepsInvariant(Now(), Receive(c));
      forall m: nat | m <= |owner| && (owner + [c])[m] == c ensures m in returned <==> m < |owner| {
        ReceiveAfterReturn(Now(), c, m);
      }
      loops := loops[c := Loop(Handling(|owner|), loops[c].taken + 1)];
      owner := owner + [c];
    }

    /** The handler is over: after a panic, which is recovered, there is nothing to answer. */
    method HandlerReturns(c: nat, outcome: Outcome)
      requires Invariant(Now()) && Enabled(Now(), Return(c, outcome))
      modifies this
      ensures Invariant(Now()) && Now() == Do(old(Now()), Return(c, outcome))
      ensures returned == old(returned)[old(loops[c].pc.m) := outcome] && acks == old(acks) && nacks == old(nacks)
      ensures var m := old(loops[c].pc.m);
              c < |loops| && match outcome {
                case Panicked => loops[c].pc == AtCheck
                case Ok => loops[c].pc == Answering(m, true)
                case Failed => loops[c].pc == Answering(m, false)
              }
    {
      ActionKeepsInvariant(Now(), Return(c, outcome));
      var m := loops[c].pc.m;
      returned := returned[m := outcome];
      if outcome == Panicked {
        loops := loops[c := loops[c].(pc := AtCheck)];
      } else {
        loops := loops[c := loops[c].(pc := Answering(m, outcome == Ok))];
      }
    }

    /** Nack after an error, Ack after success: the delivery has now had exactly one answer. */
    method AnswerMessage(c: nat)
      requires Invariant(Now()) && Enabled(Now(), Answer(c))
      modifies this
      ensures Invariant(Now()) && Now() == Do(old(Now()), Answer(c))
      ensures Answered(Now(), old(loops[c].pc.m))
      ensures var m := old(loops[c].pc.m);
              if old(loops[c].pc.ok) then acks == old(acks) + multiset{m} && nacks == old(nacks)
              else acks == old(acks) && nacks == old(nacks) + multiset{m}
    {
      ActionKeepsInvariant(Now(), Answer(c));
      AnsweredOnce(Now(), c);
      var pc := loops[c].pc;
      loops := loops[c := loops[c].(pc := AtCheck)];
      if pc.ok {
        acks := acks + multiset{pc.m};
      } else {
        nacks := nacks + multiset{pc.m};
      }
    }

    /** A handler calls AddConsumer and waits for the mutex. */
    method CallAddConsumer(c: nat)
      requires Invariant(Now()) && Enabled(Now(), CallAdd(c))
      modifies this
      ensures Invariant(Now()) && Now() == Do(old(Now()), CallAdd(c))
      ensures c < |loops| && loops[c].pc == Blocked(old(loops[c].pc.m)) && consumers == old(consumers)
    {
      ActionKeepsInvariant(Now(), CallAdd(c));
      loops := loops[c := loops[c].(pc := Blocked(loops[c].pc.m))];
    }

    /** A handler is let into AddConsumer, which may reject its topic; then it goes on with its delivery. */
    method AddConsumerInside(c: nat, added: bool, name: Label)
      requires Invariant(Now()) && Enabled(Now(), AddInside(c, added, name))
      modifies this
      ensures Invariant(Now()) && Now() == Do(old(Now()), AddInside(c, added, name))
      ensures consumers.Keys == old(consumers.Keys) + if added then {name} else {}
      ensures forall l <- old(consumers) :: !added || l != name ==> consumers[l] == old(consumers[l])
      ensures added ==> consumers[name] == |old(loops)| && |loops| == |old(loops)| + 1
      ensures c < |loops| && loops[c].pc == Handling(old(loops[c].pc.m))
    {
      ActionKeepsInvariant(Now(), AddInside(c, added, name));
      loops := loops[c := loops[c].(pc := Handling(loops[c].pc.m))];
      if added {
        consumers := consumers[name := |loops|];
        loops := loops + [Loop(NoLoop, 0)];
      }
    }

    method LoopStep(a: Action)
      requires Invariant(Now()) && IsLoopStep(a) && Enabled(Now(), a)
      modifies this
      ensures Invariant(Now()) && Now() == Do(old(Now()), a)
      ensures shut == old(shut) && consumers == old(consumers)
      ensures !a.CallAdd? && NoneBlocked(old(Now())) ==> NoneBlocked(Now())
    {
      LoopStepFrame(Now(), a);
      if !a.CallAdd? && NoneBlocked(Now()) {
        NoneBlockedStep(Now(), a);
      }
      if a.Check? || a.Quit? || a.Leave? {
        ConsumerLoop(a);
      } else {
        OnMessageReceive(a);
      }
    }

    /** The arrival of a message and what onMessageReceive does with it. */
    method OnMessageReceive(a: Action)
      requires Invariant(Now()) && Enabled(Now(), a) && (a.Receive? || a.Return? || a.Answer? || a.CallAdd?)
      modifies this
      ensures Invariant(Now()) && Now() == Do(old(Now()), a)
    {
      match a
      case Receive(c) => ReceiveMessage(c);
      case Return(c, outcome) => HandlerReturns(c, outcome);
      case Answer(c) => AnswerMessage(c);
      case CallAdd(c) => CallAddConsumer(c);
    }

    // ---- Shutdown ----

    /** Shutdown, from taking the mutex to its return. Before the stop flag is set, other goroutines take
        the steps given; then a scheduler picks whose step comes next. The manager ends deadlocked, or
        with every consumer of the map closed once and every delivery answered as its handler returned.
        It cannot end deadlocked if no handler is waiting in AddConsumer or calls it. */
    method Shutdown(meanwhile: seq<Action>, pick: State -> Action)
      requires Invariant(Now()) && mutex == Free && start == Started && shut == Idle && Schedules(pick)
      modifies this
      ensures Invariant(Now()) && (shut == Returned || Deadlocked(Now()))
      ensures consumers == old(consumers)
      ensures shut == Returned ==> ClosedBut(consumers, {}, closed) && forall m :: 0 <= m < |owner| ==> Answered(Now(), m)
      ensures NoneBlocked(old(Now())) && (forall a <- meanwhile :: !a.CallAdd?) && (forall s :: !pick(s).CallAdd?)
              ==> shut == Returned
    {
      ghost var quiet := NoneBlocked(Now()) && (forall a <- meanwhile :: !a.CallAdd?) && forall s :: !pick(s).CallAdd?;
      ShutdownLock();
      for i := 0 to |meanwhile|
        invariant Invariant(Now()) && shut == Locked && consumers == old(consumers)
        invariant quiet ==> NoneBlocked(Now())
      {
        if IsLoopStep(meanwhile[i]) && Enabled(Now(), meanwhile[i]) {
          LoopStep(meanwhile[i]);
        }
      }
      ShutdownStop();
      WaitForLoops(pick);
      if !Deadlocked(Now()) {
        ShutdownClose();
        AllAnswered(Now());
      }
    }

    /** The cancel signal and the wait, until the wait group is empty or nobody can move any more. */
    method WaitForLoops(pick: State -> Action)
      requires Invariant(Now()) && shut == Stopping && Schedules(pick)
      modifies this
      ensures Invariant(Now()) && shut == Waiting && (wg == 0 || Deadlocked(Now())) && consumers == old(consumers)
      ensures NoneBlocked(old(Now())) && (forall s :: !pick(s).CallAdd?) ==> NoneBlocked(Now())
    {
      while (shut == Stopping || wg != 0) && !Deadlocked(Now())
        invariant Invariant(Now()) && (shut == Stopping || shut == Waiting) && consumers == old(consumers)
        invariant NoneBlocked(old(Now())) && (forall s :: !pick(s).CallAdd?) ==> NoneBlocked(Now())
        decreases Work(Now())
      {
        var a := pick(Now());
        PickedStep(pick, Now());
        if IsLoopStep(a) {
          LoopStep(a);
        } else {
          ShutdownCancel();
        }
      }
    }

    method ShutdownLock()
      requires Invariant(Now()) && Enabled(Now(), Lock)
      modifies this
      ensures Invariant(Now()) && Now() == old(Now()).(mutex := HeldByShutdown, shut := Locked)
    {
      ActionKeepsInvariant(Now(), Lock);
      mutex := HeldByShutdown;
      shut := Locked;
    }

    method ShutdownStop()
      requires Invariant(Now()) && shut == Locked
      modifies this
      ensures Invariant(Now()) && Now() == old(Now()).(stopped := true, shut := Stopping)
    {
      ActionKeepsInvariant(Now(), Stop);
      isStopped := true;
      shut := Stopping;
    }

    method ShutdownCancel()
      requires Invariant(Now()) && shut == Stopping
      modifies this
      ensures Invariant(Now()) && Now() == Do(old(Now()), Cancel)
    {
      ActionKeepsInvariant(Now(), Cancel);
      cancelled := true;
      shut := Waiting;
    }

    /** Shutdown from the moment its wait is over: every consumer of the map is closed, once each. */
    method ShutdownClose()
      requires Invariant(Now()) && shut == Waiting && wg == 0
      modifies this
      ensures Invariant(Now()) && shut == Returned && mutex == Free && wg == 0
      ensures consumers == old(consumers) && loops == old(loops) && owner == old(owner)
      ensures acks == old(acks) && nacks == old(nacks) && returned == old(returned)
      ensures ClosedBut(consumers, {}, closed)
    {
      WaitIsOver();
      while shut.rest != {}
        invariant shut.Closing? && Invariant(Now())
        invariant consumers == old(consumers) && loops == old(loops) && owner == old(owner)
        invariant acks == old(acks) && nacks == old(nacks) && returned == old(returned)
        decreases shut.rest
      {
        var name :| name in shut.rest;
        CloseConsumer(name);
      }
      ShutdownUnlock();
    }

    method WaitIsOver()
      requires Invariant(Now()) && shut == Waiting && wg == 0
      modifies this
      ensures Now() == old(Now()).(shut := Closing(consumers.Keys)) && Invariant(Now())
    {
      ActionKeepsInvariant(Now(), Wait);
      shut := Closing(consumers.Keys);
    }

    method CloseConsumer(name: Label)
      requires Invariant(Now()) && shut.Closing? && name in shut.rest
      modifies this
      ensures Invariant(Now()) && name in consumers
      ensures Now() == old(Now()).(closed := old(closed) + multiset{consumers[name]}, shut := Closing(old(shut.rest) - {name}))
    {
      ActionKeepsInvariant(Now(), Close(name));
      closed := closed + multiset{consumers[name]};
      shut := Closing(shut.rest - {name});
    }

    method ShutdownUnlock()
      requires Invariant(Now()) && shut == Closing({})
      modifies this
      ensures Now() == old(Now()).(mutex := Free, shut := Returned) && Invariant(Now())
    {
      ActionKeepsInvariant(Now(), Unlock);
      mutex, shut := Free, Returned;
    }
  }
}
