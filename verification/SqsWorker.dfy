/** The SQS worker object: its flags, wait group and channel, updated in place by its goroutines, and a
    whole Shutdown under an arbitrary scheduler. */
module SqsWorker {
  import opened Sqs

  class AwsSqsWorker {
    const max: nat
    var enabled: bool
    var cancelled: bool
    var wg: int
    var producer: ProducerPc
    var handler: HandlerPc
    var channel: seq<Batch>
    var shut: ShutPc
    var received: seq<Batch>
    var finished: seq<Batch>
    var next: nat
    var done: nat
    var verdicts: map<nat, Verdict>
    var deletes: multiset<nat>

    function Now(): State
      reads this
    {
      State(max, enabled, cancelled, wg, producer, handler, channel, shut, received, finished, next, done, verdicts, deletes)
    }

    /** Serve: a channel as wide as a batch is long, and two goroutines that have not run yet. */
    constructor Serve(max: nat)
      requires max > 0
      ensures this.max == max && Now() == Served(max) && Invariant(Now())
    {
      this.max := max;
      enabled, cancelled, wg := true, false, 0;
      producer, handler, channel, shut := Unstarted, Asleep, [], Idle;
      received, finished, next, done := [], [], 0, 0;
      verdicts, deletes := map[], multiset{};
    }

    /** The goroutine around messageLoop, from one point where others may run to the next. */
    method MessageLoop(a: Action)
      requires Invariant(Now()) && Enabled(Now(), a) && IsProducerStep(a)
      modifies this
      ensures Invariant(Now()) && Now() == Do(old(Now()), a)
      ensures match a {
                case StartProducer => wg == old(wg) + 1 && producer == AtCheck
                case Check => producer == if enabled then Receiving else Exiting
                case ReceiveError => producer == AtCheck && received == old(received)
                case Receive(size) =>
                  producer == Sending(Batch(old(next), size)) && received == old(received) + [Batch(old(next), size)]
                case Send => producer == AtCheck && channel == old(channel) + [old(producer).b]
                case EndProducer => wg == old(wg) - 1 && producer == Done
                case _ => true
              }
    {
      ActionKeepsInvariant(Now(), a);
      match a
      case StartProducer =>
        wg := wg + 1;
        producer := AtCheck;
      case Check => producer := if enabled then Receiving else Exiting;
      case ReceiveError => producer := AtCheck;
      case Receive(size) =>
        var messages := Batch(next, size);
        received, next := received + [messages], next + size;
        producer := Sending(messages);
      case Send =>
        channel := channel + [producer.b];
        producer := AtCheck;
      case EndProducer =>
        wg := wg - 1;
        producer := Done;
    }

    /** The goroutine that selects between the channel and the context, and calls handleMessage. */
    method HandlerLoop(a: Action)
      requires Invariant(Now()) && Enabled(Now(), a)
      requires a.StartHandler? || a.Quit? || a.EndHandler?
      modifies this
      ensures Invariant(Now()) && Now() == Do(old(Now()), a)
      ensures match a {
                case StartHandler => wg == old(wg) + 1 && handler == Selecting
                case Quit => handler == Leaving
                case EndHandler => wg == old(wg) - 1 && handler == Gone
                case _ => true
              }
    {
      ActionKeepsInvariant(Now(), a);
      match a
      case StartHandler =>
        wg := wg + 1;
        handler := Selecting;
      case Quit => handler := Leaving;
      case EndHandler =>
        wg := wg - 1;
        handler := Gone;
    }

    /** The beginning of handleMessage: the first batch leaves the channel, one goroutine per message starts. */
    method TakeBatch()
      requires Invariant(Now()) && Enabled(Now(), Take)
      modifies this
      ensures Invariant(Now()) && Now() == Do(old(Now()), Take)
      ensures handler.Working? && old(channel) == [handler.b] + channel
      ensures |handler.pcs| == handler.b.size && forall i :: 0 <= i < |handler.pcs| ==> handler.pcs[i] == InEvent
    {
      ActionKeepsInvariant(Now(), Take);
      var messages := channel[0];
      channel := channel[1..];
      handler := Working(messages, seq(messages.size, _ => InEvent));
    }

    /** The end of handleMessage: the wait for the goroutines of all messages is over. */
    method WaitForMessages()
      requires Invariant(Now()) && Enabled(Now(), EndBatch)
      modifies this
      ensures Invariant(Now()) && Now() == Do(old(Now()), EndBatch)
      ensures handler == Selecting && finished == old(finished) + [old(handler.b)]
    {
      ActionKeepsInvariant(Now(), EndBatch);
      finished, done := finished + [handler.b], done + handler.b.size;
      handler := Selecting;
    }

    /** OnEvent comes back: with an error, OnError is asked, and otherwise the message is to be deleted. */
    method EventReturns(i: nat, ok: bool)
      requires Invariant(Now()) && Enabled(Now(), Event(i, ok))
      modifies this
      ensures Invariant(Now()) && Now() == Do(old(Now()), Event(i, ok))
      ensures handler.Working? && old(handler.Working?) && handler.b == old(handler.b) && i < |handler.pcs| && deletes == old(deletes)
      ensures handler.b.first + i !in old(verdicts)
      ensures ok ==> handler.pcs[i] == Deleting && verdicts == old(verdicts)[handler.b.first + i := Succeeded]
      ensures !ok ==> handler.pcs[i] == InError && verdicts == old(verdicts)
    {
      ActionKeepsInvariant(Now(), Event(i, ok));
      NoVerdictYet(Now(), i);
      if ok {
        Settle(i, Succeeded);
      } else {
        handler := Working(handler.b, handler.pcs[i := InError]);
      }
    }

    /** OnError comes back, with the word whether to delete the message. */
    method ErrorReturns(i: nat, deleteMessage: bool)
      requires Invariant(Now()) && Enabled(Now(), Error(i, deleteMessage))
      modifies this
      ensures Invariant(Now()) && Now() == Do(old(Now()), Error(i, deleteMessage))
      ensures handler.Working? && old(handler.Working?) && handler.b == old(handler.b) && i < |handler.pcs| && deletes == old(deletes)
      ensures handler.b.first + i !in old(verdicts)
      ensures handler.pcs[i] == if deleteMessage then Deleting else Ended
      ensures verdicts == old(verdicts)[handler.b.first + i := if deleteMessage then Ignored else Kept]
    {
      ActionKeepsInvariant(Now(), Error(i, deleteMessage));
      NoVerdictYet(Now(), i);
      Settle(i, if deleteMessage then Ignored else Kept);
    }

    /** OnEvent or OnError panics, which is recovered and ends the goroutine of the message. */
    method RecoverPanic(i: nat)
      requires Invariant(Now()) && Enabled(Now(), Panic(i))
      modifies this
      ensures Invariant(Now()) && Now() == Do(old(Now()), Panic(i))
      ensures handler.Working? && old(handler.Working?) && handler.b == old(handler.b) && i < |handler.pcs| && deletes == old(deletes)
      ensures handler.b.first + i !in old(verdicts)
      ensures handler.pcs[i] == Ended && verdicts == old(verdicts)[handler.b.first + i := Panicked]
    {
      ActionKeepsInvariant(Now(), Panic(i));
      NoVerdictYet(Now(), i);
      Settle(i, Panicked);
    }

    /** The verdict on a message says whether it is to be deleted. */
    method Settle(i: nat, v: Verdict)
      requires handler.Working? && i < |handler.pcs|
      modifies this
      ensures Now() == Decide(old(Now()), i, v)
      ensures handler == Working(old(handler.b), old(handler.pcs)[i := if v == Succeeded || v == Ignored then Deleting else Ended])
      ensures verdicts == old(verdicts)[old(handler.b).first + i := v]
    {
      var b := handler.b;
      handler := Working(b, handler.pcs[i := if v == Succeeded || v == Ignored then Deleting else Ended]);
      verdicts := verdicts[b.first + i := v];
    }

    method DeleteMessage(i: nat)
      requires Invariant(Now()) && Enabled(Now(), Delete(i))
      modifies this
      ensures Invariant(Now()) && Now() == Do(old(Now()), Delete(i))
      ensures handler == Working(old(handler.b), old(handler.pcs)[i := Ended])
      ensures deletes == old(deletes) + multiset{old(handler.b).first + i}
    {
      ActionKeepsInvariant(Now(), Delete(i));
      var b, pcs := handler.b, handler.pcs;
      deletes := deletes + multiset{b.first + i};
      handler := Working(b, pcs[i := Ended]);
    }

    method ShutdownDisable()
      requires Invariant(Now()) && shut == Idle
      modifies this
      ensures Invariant(Now()) && Now() == Do(old(Now()), Disable)
      ensures Pressed(Now()) == Pressed(old(Now())) && Allowance(Now()) == Allowance(old(Now()))
    {
      ActionKeepsInvariant(Now(), Disable);
      enabled := false;
      shut := Disabled;
    }

    /** Shutdown, while a scheduler picks whose step comes next. The worker ends finished, or deadlocked,
        and that only if the queue was full with another batch on its way; at most one more batch is
        received. When it has finished, every batch was handled or is left in the channel. */
    method Shutdown(pick: State -> Action)
      requires Invariant(Now()) && shut == Idle && Schedules(pick)
      modifies this
      ensures Invariant(Now())
      ensures Finished(Now()) || (Deadlocked(Now()) && Pressed(old(Now())))
      ensures |received| <= |old(received)| + if old(producer) == Receiving then 1 else 0
      ensures Finished(Now()) ==> Complete(Now())
      ensures Finished(Now()) ==> forall m: nat :: if m < done then Settled(Now(), m) else Untouched(Now(), m)
    {
      ShutdownDisable();
      while !Finished(Now()) && !Deadlocked(Now())
        invariant Invariant(Now()) && !enabled
        invariant Pressed(Now()) ==> Pressed(old(Now()))
        invariant Allowance(Now()) <= Allowance(old(Now()))
        decreases Work(Now())
      {
        var a := pick(Now());
        PickedStep(pick, Now());
        Step(a);
      }
      if Finished(Now()) {
        FinishedIsComplete(Now());
      } else {
        assert Pressed(Now());
      }
    }

    /** Whoever's step it is. */
    method Step(a: Action)
      requires Invariant(Now()) && !enabled && Enabled(Now(), a)
      modifies this
      ensures Invariant(Now()) && Now() == Do(old(Now()), a)
    {
      match a
      case Cancel =>
        ActionKeepsInvariant(Now(), a);
        cancelled := true;
        shut := Waiting;
      case Wait =>
        ActionKeepsInvariant(Now(), a);
        shut := Returned;
      case StartHandler | Quit | EndHandler => HandlerLoop(a);
      case Take => TakeBatch();
      case EndBatch => WaitForMessages();
      case Event(i, ok) => EventReturns(i, ok);
      case Error(i, deleteMessage) => ErrorReturns(i, deleteMessage);
      case Panic(i) => RecoverPanic(i);
      case Delete(i) => DeleteMessage(i);
      case StartProducer | Check | ReceiveError | Receive(_) | Send | EndProducer => MessageLoop(a);
      case Disable => assert false;
    }
  }
}
