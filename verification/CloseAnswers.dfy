/** What has been written to a connection by the time it is closed, and a run that gets there. */
module CloseAnswers {
  import opened Wire
  import opened StreamSpec
  import opened Connection
  import opened CloseSequence
  import opened CloseAccounts

  // Every answer is written, in order.

  lemma ToSendMore(events: seq<AppEvent>, e: AppEvent)
    ensures ToSend(events + [e]) == ToSend(events) + Sent(e)
  {
    assert (events + [e])[..|events|] == events;
  }

  lemma ConnectAnswered(setup: Setup, w: World, w': World, id: Id)
    requires Inv(setup, w) && CloseSequence.Next(setup, w, Connect(id), w') && !ServiceAt(w, id)
    ensures Answered(w', id)
  {
    EventsOfConcat(id, w.handled, w.queue);
    assert EventsOf(id, w.handled) == [];
  }

  /** Nothing of a connection is left in the queue behind its CLOSE event. */
  lemma CloseTakenLast(setup: Setup, w: World, id: Id)
    requires Inv(setup, w) && id in w.conns && CloseLast(w.conns[id].queued) && HasClose(EventsOf(id, w.handled))
    ensures EventsOf(id, w.queue) == [] && EventsOf(id, w.handled) == w.conns[id].queued
  {
    EventsOfConcat(id, w.handled, w.queue);
    assert Tallies(w, id);
    var handled, queued := EventsOf(id, w.handled), w.conns[id].queued;
    assert queued[|handled| - 1] == handled[|handled| - 1];
    assert handled + [] == handled;
  }

  /** An event of the connection is taken while it is open. */
  lemma TakenOpen(setup: Setup, w: World, id: Id)
    requires Inv(setup, w) && Answered(w, id) && CloseLast(w.conns[id].queued) && w.queue != [] && w.queue[0].0 == id
    ensures w.conns[id].phase == MESSAGING
  {
    TakenClose(setup, w);
    if w.conns[id].phase == CLOSED {
      CloseTakenLast(setup, w, id);
      assert false;
    }
  }

  lemma HandledMore(w: World, w': World, id: Id)
    requires w.queue != [] && w'.handled == w.handled + [w.queue[0]]
    ensures var (i, e) := w.queue[0];
      EventsOf(id, w'.handled) == if i == id then EventsOf(id, w.handled) + [e] else EventsOf(id, w.handled)
  {
    var (i, e) := w.queue[0];
    EventsOfConcat(id, w.handled, [(i, e)]);
    EventsOfOne(i, id, e);
  }

  lemma TakeAnswered(setup: Setup, w: World, w': World, id: Id)
    requires Inv(setup, w) && Answered(w, id) && CloseSequence.Next(setup, w, Take, w') && CloseLast(w.conns[id].queued)
    ensures Answered(w', id)
  {
    var (i, e) := w.queue[0];
    HandledMore(w, w', id);
    if i == id {
      TakenOpen(setup, w, id);
      TakenAnswered(w, w', id, e, EventsOf(id, w.handled));
    } else {
      assert InHand(w, id) == InHand(w', id) == [];
    }
  }

  /** The frame of an event taken, if it has one, is in hand. */
  lemma TakenAnswered(w: World, w': World, id: Id, e: AppEvent, before: seq<AppEvent>)
    requires Answered(w, id) && w.service == Idling && w.conns[id].phase == MESSAGING && before == EventsOf(id, w.handled)
    requires w'.conns == w.conns && EventsOf(id, w'.handled) == before + [e]
    requires w'.service == if e.op == CLOSE || e.op == PONG then Sending(id, e.message, e.op == CLOSE) else Idling
    ensures Answered(w', id)
  {
    ToSendMore(before, e);
    assert w.conns[id].written + [] == w.conns[id].written;
  }

  /** A step that leaves the service, the events taken and what was written alone. */
  lemma SameAnswered(w: World, w': World, id: Id)
    requires Answered(w, id) && id in w'.conns && w'.handled == w.handled && w'.service == w.service
    requires w'.conns[id].written == w.conns[id].written
    requires w'.conns[id].phase == w.conns[id].phase || (w'.conns[id].phase != CLOSED && !ServiceAt(w, id))
    ensures Answered(w', id)
  {
  }

  lemma StepAnswered(setup: Setup, w: World, step: Step, w': World, id: Id)
    requires Inv(setup, w) && Answered(w, id) && CloseSequence.Next(setup, w, step, w') && !Disturbs(step, id)
    requires CloseLast(w.conns[id].queued)
    ensures Answered(w', id)
  {
    match step
    case Take => TakeAnswered(setup, w, w', id);
    case SendFrame(_) => SendAnswered(setup, w, w', id);
    case Close => CloseAnswered(setup, w, w', id);
    case _ =>
      OtherStep(setup, w, step, w', id);
      SameAnswered(w, w', id);
  }

  /** The other steps. */
  lemma OtherStep(setup: Setup, w: World, step: Step, w': World, id: Id)
    requires CloseSequence.Next(setup, w, step, w') && id in w.conns && !Disturbs(step, id)
    requires !step.Take? && !step.SendFrame? && !step.Close?
    ensures id in w'.conns && w'.handled == w.handled && w'.service == w.service
    ensures w'.conns[id].written == w.conns[id].written
    ensures w'.conns[id].phase == w.conns[id].phase || (w'.conns[id].phase != CLOSED && w.conns[id].phase != MESSAGING)
  {
  }

  lemma SendAnswered(setup: Setup, w: World, w': World, id: Id)
    requires Answered(w, id) && CloseSequence.Next(setup, w, SendFrame(true), w')
    ensures Answered(w', id)
  {
    if w.service.id == id { assert w'.conns[id].written + [] == w'.conns[id].written; }
  }

  lemma CloseAnswered(setup: Setup, w: World, w': World, id: Id)
    requires Answered(w, id) && CloseSequence.Next(setup, w, Close, w')
    ensures Answered(w', id)
  {
  }

  /** The service is only ever at work for connections that are there. */
  lemma {:induction false} ServiceKnown(setup: Setup, run: seq<World>, steps: seq<Step>, i: nat, id: Id)
    requires IsRun(setup, run, steps) && i < |run|
    ensures ServiceAt(run[i], id) ==> id in run[i].conns
  {
    if i > 0 {
      ServiceKnown(setup, run, steps, i - 1, id);
      assert StepAt(setup, run, steps, i - 1);
    }
  }

  lemma {:induction false} RunAnswered(setup: Setup, run: seq<World>, steps: seq<Step>, i: nat, id: Id)
    requires IsRun(setup, run, steps) && i < |run| && id in run[i].conns && Undisturbed(steps, i, id)
    ensures Answered(run[i], id)
    decreases i
  {
    if i > 0 {
      assert StepAt(setup, run, steps, i - 1);
      RunKeepsInv(setup, run, steps, i - 1);
      if id in run[i - 1].conns {
        RunAnswered(setup, run, steps, i - 1, id);
        CloseIsLast(setup, run, steps, i - 1, id);
        StepAnswered(setup, run[i - 1], steps[i - 1], run[i], id);
      } else {
        ServiceKnown(setup, run, steps, i - 1, id);
        ConnectAnswered(setup, run[i - 1], run[i], id);
      }
    }
  }

  /**
   * When the service has dealt with a connection's CLOSE event, and nothing else was sent and no send failed, what has
   * been written to it is exactly the frames of all its PONG events, in order, and then its Close frame.
   */
  lemma AnswersWritten(setup: Setup, run: seq<World>, steps: seq<Step>, i: nat, id: Id)
    requires IsRun(setup, run, steps) && i < |run| && id in run[i].conns && Undisturbed(steps, i, id) && Disposed(run[i], id)
    ensures run[i].conns[id].written == ToSend(run[i].conns[id].queued)
  {
    RunAnswered(setup, run, steps, i, id);
    RunKeepsInv(setup, run, steps, i);
    CloseIsLast(setup, run, steps, i, id);
    CloseTakenLast(setup, run[i], id);
    var c := run[i].conns[id];
    assert c.written + [] == c.written;
  }

  // A run that gets there.

  /** A first byte with reserved bits set is answered with 1002. */
  lemma ReservedBits(setup: Setup)
    ensures ServeChunk(Cfg(setup), Live(First(Idle)), [0x70], setup.stale) == ([CloseEvent(PROTOCOL_VIOLATION)], Stopped)
  {
    assert Scan(Cfg(setup), First(Idle), [0x70], 0) == Violation(PROTOCOL_VIOLATION);
  }

  lemma RunLonger(setup: Setup, run: seq<World>, steps: seq<Step>, step: Step, w: World)
    requires IsRun(setup, run, steps) && CloseSequence.Next(setup, run[|steps|], step, w)
    ensures IsRun(setup, run + [w], steps + [step])
  {
    forall i | 0 <= i < |steps| ensures StepAt(setup, run + [w], steps + [step], i) { assert StepAt(setup, run, steps, i); }
  }

  /** A connection is opened and something out of turn is received. */
  lemma OpeningRun(setup: Setup) returns (run: seq<World>, steps: seq<Step>)
    ensures IsRun(setup, run, steps) && |steps| == 3 && Undisturbed(steps, 3, 0)
    ensures var c := FRESH.(phase := MESSAGING, io := Emitting([CloseEvent(PROTOCOL_VIOLATION)], Stopped), received := [[0x70]]);
      run[3] == World(map[0 := c], [], Idling, [])
  {
    var w0 := World(map[], [], Idling, []);
    var w1 := Put(w0, 0, FRESH);
    var w2 := Put(w1, 0, SetPhase(FRESH, MESSAGING));
    ReservedBits(setup);
    assert [] + [[0x70]] == [[0x70]];
    var c := w2.conns[0].(io := Emitting([CloseEvent(PROTOCOL_VIOLATION)], Stopped), received := [[0x70]]);
    RunLonger(setup, [w0], [], Connect(0), w1);
    RunLonger(setup, [w0] + [w1], [] + [Connect(0)], Advance(0, MESSAGING), w2);
    run, steps := [w0] + [w1] + [w2], [] + [Connect(0)] + [Advance(0, MESSAGING)];
    var w3 := Put(w2, 0, c);
    RunLonger(setup, run, steps, Receive(0, [0x70]), w3);
    run, steps := run + [w3], steps + [Receive(0, [0x70])];
    assert w3.conns == map[0 := c];
  }

  /** The event is queued, taken, answered, and the connection closed: it is disposed of with its frame written. */
  lemma ClosingRun(setup: Setup) returns (run: seq<World>, steps: seq<Step>)
    ensures IsRun(setup, run, steps) && 0 in run[|steps|].conns && Disposed(run[|steps|], 0) && Undisturbed(steps, |steps|, 0)
    ensures run[|steps|].conns[0].written == [CloseEvent(PROTOCOL_VIOLATION).message]
  {
    run, steps := OpeningRun(setup);
    var e := CloseEvent(PROTOCOL_VIOLATION);
    run, steps := QueuedAndTaken(setup, run, steps, e);
    run, steps := SentAndClosed(setup, run, steps, e);
    EventsOfOne(0, 0, e);
  }

  lemma QueuedAndTaken(setup: Setup, run: seq<World>, steps: seq<Step>, e: AppEvent) returns (run': seq<World>, steps': seq<Step>)
    requires IsRun(setup, run, steps) && e.op == CLOSE
    requires var w := run[|steps|]; 0 in w.conns && w.queue == [] && w.handled == [] && w.service == Idling
    requires var c := run[|steps|].conns[0]; c.phase == MESSAGING && c.io == Emitting([e], Stopped) && c.queued == []
    ensures IsRun(setup, run', steps') && steps' == steps + [Enqueue(0), Take]
    ensures var w, w' := run[|steps|], run'[|steps'|];
      && 0 in w'.conns && w'.conns[0].phase == MESSAGING && w'.conns[0].written == w.conns[0].written
      && w'.service == Sending(0, e.message, true) && w'.handled == [(0, e)]
  {
    var w := run[|steps|];
    assert [e][1..] == [] && [] + [e] == [e] && [] + [(0, e)] == [(0, e)] && [(0, e)][1..] == [];
    var w4 := Put(w, 0, w.conns[0].(io := Emitting([], Stopped), queued := [e])).(queue := [(0, e)]);
    RunLonger(setup, run, steps, Enqueue(0), w4);
    run', steps' := run + [w4], steps + [Enqueue(0)];
    var w5 := w4.(queue := [], service := Sending(0, e.message, true), handled := [(0, e)]);
    RunLonger(setup, run', steps', Take, w5);
    run', steps' := run' + [w5], steps' + [Take];
  }

  lemma SentAndClosed(setup: Setup, run: seq<World>, steps: seq<Step>, e: AppEvent) returns (run': seq<World>, steps': seq<Step>)
    requires IsRun(setup, run, steps)
    requires var w := run[|steps|]; 0 in w.conns && w.service == Sending(0, e.message, true)
    requires var c := run[|steps|].conns[0]; c.phase == MESSAGING && c.written == []
    ensures IsRun(setup, run', steps') && steps' == steps + [SendFrame(true), Close]
    ensures var w, w' := run[|steps|], run'[|steps'|];
      0 in w'.conns && w'.conns[0].written == [e.message] && w'.service == Idling && w'.handled == w.handled
  {
    var w := run[|steps|];
    var sent := w.conns[0].(written := [e.message]);
    assert [] + [e.message] == [e.message];
    var w6 := Put(w, 0, sent).(service := Closing(0));
    RunLonger(setup, run, steps, SendFrame(true), w6);
    run', steps' := run + [w6], steps + [SendFrame(true)];
    var w7 := Put(w6, 0, SetPhase(sent, CLOSED)).(service := Idling);
    RunLonger(setup, run', steps', Close, w7);
    run', steps' := run' + [w7], steps' + [Close];
  }
}
