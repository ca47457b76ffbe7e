/**
 * Closing a connection: interleaved steps of the I/O workers, which queue events, and of the service, which
 * takes them in order and closes the connection when it comes to its CLOSE event.
 */
module CloseSequence {
  import opened Wire
  import opened StreamSpec
  import opened Connection

  type Id = nat

  datatype Phase = ACCEPT | HANDSHAKE | MESSAGING | CLOSED

  function Rank(p: Phase): int {
    match p
    case ACCEPT => -1
    case HANDSHAKE => 0
    case MESSAGING => 1
    case CLOSED => 2
  }

  /** The worker's side of a connection: waiting for input, or queueing the events of a chunk one by one. */
  datatype Io = Waiting | Emitting(left: seq<AppEvent>, next: Session)

  /** `received`, `queued` and `written` record what has gone through the connection so far. */
  datatype Conn = Conn(
    phase: Phase, session: Session, noInput: bool, io: Io,
    received: seq<seq<byte>>, queued: seq<AppEvent>, written: seq<seq<byte>>)

  /** The service: idle, about to send a frame, or about to close after sending a Close frame. */
  datatype Service = Idling | Sending(id: Id, frame: seq<byte>, closing: bool) | Closing(id: Id)

  datatype World = World(conns: map<Id, Conn>, queue: seq<(Id, AppEvent)>, service: Service, handled: seq<(Id, AppEvent)>)

  /** The size limit and stale bytes every connection of the service has. */
  datatype Setup = Setup(maxSize: nat, stale: seq<byte>)

  ghost function Cfg(setup: Setup): Config {
    Config(Server, setup.maxSize)
  }

  /** `WebSocket::setState`: moving backwards is an error and changes nothing. */
  function SetPhase(c: Conn, p: Phase): Conn {
    if Rank(p) >= Rank(c.phase) then c.(phase := p) else c
  }

  /** `WebSocket::send`: the result, and the connection with what was written. `accepted` is up to the socket. */
  function Send(c: Conn, frame: seq<byte>, accepted: bool): (int, Conn) {
    if c.phase == CLOSED then (-1, c)
    else if accepted then (|frame|, c.(written := c.written + [frame]))
    else (-1, c)
  }

  const FRESH := Conn(ACCEPT, Live(First(Idle)), false, Waiting, [], [], [])

  datatype Step =
    | Connect(id: Id)
    | Advance(id: Id, p: Phase)
    | Receive(id: Id, chunk: seq<byte>)
    | Enqueue(id: Id)
    | EndInput(id: Id)
    | Take
    | SendFrame(accepted: bool)
    | Close
    | AppSend(id: Id, frame: seq<byte>, accepted: bool)

  function Put(w: World, id: Id, c: Conn): World {
    w.(conns := w.conns[id := c])
  }

  ghost predicate Next(setup: Setup, w: World, step: Step, w': World) {
    match step
    case Connect(id) =>
      id !in w.conns && w' == Put(w, id, FRESH)
    case Advance(id, p) =>
      id in w.conns && w' == Put(w, id, SetPhase(w.conns[id], p))
    case Receive(id, chunk) =>
      && id in w.conns
      && var c := w.conns[id];
      && c.phase == MESSAGING && c.io == Waiting && !c.noInput && chunk != []
      && (c.session.Live? ==> WellFormedEnd(Cfg(setup), Open(c.session.r)))
      && var (events, next) := ServeChunk(Cfg(setup), c.session, chunk, setup.stale);
      && w' == Put(w, id, c.(io := Emitting(events, next), received := c.received + [chunk]))
    case Enqueue(id) =>
      && id in w.conns
      && var c := w.conns[id];
      && c.io.Emitting? && c.io.left != []
      && var e := c.io.left[0];
      && w' == Put(w, id, c.(io := Emitting(c.io.left[1..], c.io.next), queued := c.queued + [e])).(queue := w.queue + [(id, e)])
    case EndInput(id) =>
      && id in w.conns
      && var c := w.conns[id];
      && c.io.Emitting? && c.io.left == []
      && w' == Put(w, id, c.(io := Waiting, session := c.io.next, noInput := c.io.next.Stopped?))
    case Take =>
      && w.service == Idling && w.queue != []
      && var (id, e) := w.queue[0];
      && id in w.conns
      && var service :=
           if (e.op == CLOSE || e.op == PONG) && w.conns[id].phase == MESSAGING then Sending(id, e.message, e.op == CLOSE)
           else Idling;
      && w' == w.(queue := w.queue[1..], service := service, handled := w.handled + [(id, e)])
    case SendFrame(accepted) =>
      && w.service.Sending? && w.service.id in w.conns
      && var id := w.service.id;
      && w' == Put(w, id, Send(w.conns[id], w.service.frame, accepted).1)
               .(service := if w.service.closing then Closing(id) else Idling)
    case Close =>
      && w.service.Closing? && w.service.id in w.conns
      && w' == Put(w, w.service.id, SetPhase(w.conns[w.service.id], CLOSED)).(service := Idling)
    case AppSend(id, frame, accepted) =>
      id in w.conns && w' == Put(w, id, Send(w.conns[id], frame, accepted).1)
  }

  ghost predicate Init(w: World) {
    w == World(map[], [], Idling, [])
  }

  // What every state of every run satisfies.

  function EventsOf(id: Id, events: seq<(Id, AppEvent)>): seq<AppEvent> {
    if events == [] then []
    else if events[0].0 == id then [events[0].1] + EventsOf(id, events[1..])
    else EventsOf(id, events[1..])
  }

  /** No CLOSE event but possibly the last one. */
  predicate CloseLast(events: seq<AppEvent>) {
    forall i :: 0 <= i < |events| - 1 ==> events[i].op != CLOSE
  }

  predicate HasClose(events: seq<AppEvent>) {
    events != [] && events[|events| - 1].op == CLOSE
  }

  /** The session and all events after a list of chunks. */
  ghost function After(cfg: Config, chunks: seq<seq<byte>>, stale: seq<byte>): (result: (seq<AppEvent>, Session))
    ensures result.1.Live? ==> WellFormedEnd(cfg, Open(result.1.r))
    decreases |chunks|
  {
    if chunks == [] then ([], Live(First(Idle)))
    else
      var (events, session) := After(cfg, chunks[..|chunks| - 1], stale);
      var (more, next) := ServeChunk(cfg, session, chunks[|chunks| - 1], stale);
      (events + more, next)
  }

  ghost predicate ConnInv(setup: Setup, c: Conn) {
    var (events, session) := After(Cfg(setup), c.received, setup.stale);
    && (c.received != [] ==> Rank(c.phase) >= Rank(MESSAGING))
    && match c.io
    case Waiting => c.queued == events && c.session == session && (c.noInput <==> session.Stopped?)
    case Emitting(left, next) => c.queued + left == events && next == session && !c.noInput
  }

  /** A connection whose CLOSE event has been taken is closed, unless the service is just about to close it. */
  ghost predicate ClosedWhenHandled(w: World, id: Id)
    requires id in w.conns
  {
    HasClose(EventsOf(id, w.handled)) ==>
      || w.conns[id].phase == CLOSED
      || (w.service.Sending? && w.service.id == id && w.service.closing)
      || (w.service.Closing? && w.service.id == id)
  }

  ghost predicate Inv(setup: Setup, w: World) {
    && (forall id :: id in w.conns ==> ConnInv(setup, w.conns[id]) && Tallies(w, id) && ClosedWhenHandled(w, id))
    && (forall id :: id !in w.conns ==> EventsOf(id, w.handled + w.queue) == [])
  }

  /** The queue and what has been taken from it hold exactly what the connection queued, in order. */
  ghost predicate Tallies(w: World, id: Id)
    requires id in w.conns
  {
    EventsOf(id, w.handled + w.queue) == w.conns[id].queued
  }

  lemma {:induction false} EventsOfConcat(id: Id, a: seq<(Id, AppEvent)>, b: seq<(Id, AppEvent)>)
    ensures EventsOf(id, a + b) == EventsOf(id, a) + EventsOf(id, b)
  {
    if a == [] {
      assert a + b == b;
    } else {
      EventsOfConcat(id, a[1..], b);
      assert (a + b)[1..] == a[1..] + b;
    }
  }

  lemma AfterOneMore(cfg: Config, chunks: seq<seq<byte>>, chunk: seq<byte>, stale: seq<byte>)
    ensures var (events, session) := After(cfg, chunks, stale);
            var (more, next) := ServeChunk(cfg, session, chunk, stale);
            After(cfg, chunks + [chunk], stale) == (events + more, next)
  {
    assert (chunks + [chunk])[..|chunks|] == chunks;
  }

  // One connection.

  lemma PhaseOnly(setup: Setup, c: Conn, c': Conn)
    requires ConnInv(setup, c) && c' == c.(phase := c'.phase, written := c'.written) && Rank(c'.phase) >= Rank(c.phase)
    ensures ConnInv(setup, c')
  {
  }

  lemma ReceiveConn(setup: Setup, c: Conn, chunk: seq<byte>)
    requires ConnInv(setup, c) && c.phase == MESSAGING && c.io == Waiting && !c.noInput
    ensures c.session.Live? ==> WellFormedEnd(Cfg(setup), Open(c.session.r))
    ensures var (events, next) := ServeChunk(Cfg(setup), c.session, chunk, setup.stale);
            ConnInv(setup, c.(io := Emitting(events, next), received := c.received + [chunk]))
  {
    AfterOneMore(Cfg(setup), c.received, chunk, setup.stale);
  }

  lemma EnqueueConn(setup: Setup, c: Conn)
    requires ConnInv(setup, c) && c.io.Emitting? && c.io.left != []
    ensures ConnInv(setup, c.(io := Emitting(c.io.left[1..], c.io.next), queued := c.queued + [c.io.left[0]]))
  {
    assert c.queued + c.io.left == c.queued + [c.io.left[0]] + c.io.left[1..];
  }

  lemma EndInputConn(setup: Setup, c: Conn)
    requires ConnInv(setup, c) && c.io.Emitting? && c.io.left == []
    ensures ConnInv(setup, c.(io := Waiting, session := c.io.next, noInput := c.io.next.Stopped?))
  {
    assert c.queued + [] == c.queued;
  }

  // The whole world.

  /** Steps that touch one connection and neither the queue nor what it has queued. */
  lemma KeepsOne(setup: Setup, w: World, id: Id, w': World)
    requires Inv(setup, w) && id in w.conns && id in w'.conns
    requires w' == Put(w, id, w'.conns[id]).(service := w'.service)
    requires ConnInv(setup, w'.conns[id]) && w'.conns[id].queued == w.conns[id].queued
    requires Rank(w'.conns[id].phase) >= Rank(w.conns[id].phase)
    requires w'.service == w.service ||
             (w.service.Sending? && w.service.id == id && w'.service == if w.service.closing then Closing(id) else Idling) ||
             (w.service == Closing(id) && w'.conns[id].phase == CLOSED && w'.service == Idling)
    ensures Inv(setup, w')
  {
    forall i | i in w'.conns ensures ConnInv(setup, w'.conns[i]) && Tallies(w', i) && ClosedWhenHandled(w', i) {
      assert i in w.conns;
      assert ConnInv(setup, w.conns[i]) && Tallies(w, i) && ClosedWhenHandled(w, i);
    }
  }

  lemma EventsOfOne(id: Id, i: Id, e: AppEvent)
    ensures EventsOf(i, [(id, e)]) == if i == id then [e] else []
  {
    assert [(id, e)][1..] == [];
  }

  lemma KeepsEnqueue(setup: Setup, w: World, id: Id, w': World)
    requires Inv(setup, w) && Next(setup, w, Enqueue(id), w')
    ensures Inv(setup, w')
  {
    var e := w.conns[id].io.left[0];
    EnqueueConn(setup, w.conns[id]);
    assert w'.handled + w'.queue == (w.handled + w.queue) + [(id, e)];
    forall i ensures EventsOf(i, w'.handled + w'.queue) == EventsOf(i, w.handled + w.queue) + (if i == id then [e] else []) {
      EventsOfConcat(i, w.handled + w.queue, [(id, e)]);
      EventsOfOne(id, i, e);
    }
    forall i | i in w'.conns ensures ConnInv(setup, w'.conns[i]) && Tallies(w', i) && ClosedWhenHandled(w', i) {
      assert ConnInv(setup, w.conns[i]) && Tallies(w, i) && ClosedWhenHandled(w, i);
    }
  }

  lemma TakenClose(setup: Setup, w: World)
    requires Inv(setup, w) && w.queue != [] && w.queue[0].0 in w.conns
    ensures Rank(w.conns[w.queue[0].0].phase) >= Rank(MESSAGING)
  {
    var (id, e) := w.queue[0];
    EventsOfConcat(id, w.handled, w.queue);
    assert ConnInv(setup, w.conns[id]) && Tallies(w, id);
    assert w.conns[id].queued != [];
  }

  lemma KeepsTake(setup: Setup, w: World, w': World)
    requires Inv(setup, w) && Next(setup, w, Take, w')
    ensures Inv(setup, w')
  {
    var (id, e) := w.queue[0];
    assert w'.handled + w'.queue == w.handled + w.queue by { assert w.queue == [(id, e)] + w.queue[1..]; }
    forall i | i in w'.conns ensures ConnInv(setup, w'.conns[i]) && Tallies(w', i) && ClosedWhenHandled(w', i) {
      assert ConnInv(setup, w.conns[i]) && Tallies(w, i);
      TakeClosed(setup, w, w', i);
    }
  }

  lemma TakeClosed(setup: Setup, w: World, w': World, i: Id)
    requires Inv(setup, w) && Next(setup, w, Take, w') && i in w.conns
    ensures ClosedWhenHandled(w', i)
  {
    var (id, e) := w.queue[0];
    assert ClosedWhenHandled(w, i);
    EventsOfConcat(i, w.handled, [(id, e)]);
    EventsOfOne(id, i, e);
    if i == id {
      TakenClose(setup, w);
      assert EventsOf(i, w'.handled) == EventsOf(i, w.handled) + [e];
    } else {
      assert EventsOf(i, w'.handled) == EventsOf(i, w.handled);
    }
  }

  lemma KeepsConnect(setup: Setup, w: World, id: Id, w': World)
    requires Inv(setup, w) && Next(setup, w, Connect(id), w')
    ensures Inv(setup, w')
  {
    EventsOfConcat(id, w.handled, w.queue);
    forall i | i in w'.conns ensures ConnInv(setup, w'.conns[i]) && Tallies(w', i) && ClosedWhenHandled(w', i) {
      if i != id {
        assert ConnInv(setup, w.conns[i]) && Tallies(w, i) && ClosedWhenHandled(w, i);
      }
    }
  }

  /** Every step keeps the invariant. */
  lemma InvKept(setup: Setup, w: World, step: Step, w': World)
    requires Inv(setup, w) && Next(setup, w, step, w')
    ensures Inv(setup, w')
  {
    match step
    case Connect(id) => KeepsConnect(setup, w, id, w');
    case Advance(id, p) =>
      PhaseOnly(setup, w.conns[id], w'.conns[id]);
      KeepsOne(setup, w, id, w');
    case Receive(id, chunk) =>
      ReceiveConn(setup, w.conns[id], chunk);
      KeepsOne(setup, w, id, w');
    case Enqueue(id) => KeepsEnqueue(setup, w, id, w');
    case EndInput(id) =>
      EndInputConn(setup, w.conns[id]);
      KeepsOne(setup, w, id, w');
    case Take => KeepsTake(setup, w, w');
    case SendFrame(accepted) =>
      PhaseOnly(setup, w.conns[w.service.id], w'.conns[w.service.id]);
      KeepsOne(setup, w, w.service.id, w');
    case Close =>
      PhaseOnly(setup, w.conns[w.service.id], w'.conns[w.service.id]);
      KeepsOne(setup, w, w.service.id, w');
    case AppSend(id, frame, accepted) =>
      PhaseOnly(setup, w.conns[id], w'.conns[id]);
      KeepsOne(setup, w, id, w');
  }

  // Whole runs.

  ghost predicate IsRun(setup: Setup, run: seq<World>, steps: seq<Step>) {
    && |run| == |steps| + 1 && Init(run[0])
    && forall i :: 0 <= i < |steps| ==> StepAt(setup, run, steps, i)
  }

  ghost predicate StepAt(setup: Setup, run: seq<World>, steps: seq<Step>, i: nat)
    requires |run| == |steps| + 1 && i < |steps|
  {
    Next(setup, run[i], steps[i], run[i + 1])
  }

  lemma {:induction false} RunKeepsInv(setup: Setup, run: seq<World>, steps: seq<Step>, i: nat)
    requires IsRun(setup, run, steps) && i < |run|
    ensures Inv(setup, run[i])
  {
    if i > 0 {
      RunKeepsInv(setup, run, steps, i - 1);
      assert StepAt(setup, run, steps, i - 1);
      InvKept(setup, run[i - 1], steps[i - 1], run[i]);
    }
  }

  /** A connection's state only moves forward. */
  lemma {:induction false} ForwardOnly(setup: Setup, run: seq<World>, steps: seq<Step>, i: nat, j: nat, id: Id)
    requires IsRun(setup, run, steps) && i <= j < |run| && id in run[i].conns
    ensures id in run[j].conns && Rank(run[i].conns[id].phase) <= Rank(run[j].conns[id].phase)
    decreases j
  {
    if i < j {
      ForwardOnly(setup, run, steps, i, j - 1, id);
      assert StepAt(setup, run, steps, j - 1);
    }
  }

  lemma {:induction false} ServeClosesLast(t: Trace, stale: seq<byte>)
    requires AllServable(t)
    ensures CloseLast(Serve(t, stale).events) && (HasClose(Serve(t, stale).events) <==> Serve(t, stale).stopped)
    decreases |t.msgs|
  {
    if t.msgs != [] {
      var rest := Trace(t.msgs[1..], t.end);
      ServeClosesLast(rest, stale);
      var s := Respond(t.msgs[0], stale);
      assert |s.events| <= 1 && (s.stopped <==> HasClose(s.events));
    }
  }

  lemma {:induction false} AfterClosesLast(cfg: Config, chunks: seq<seq<byte>>, stale: seq<byte>)
    ensures var (events, session) := After(cfg, chunks, stale);
            CloseLast(events) && (HasClose(events) <==> session.Stopped?)
    decreases |chunks|
  {
    if chunks != [] {
      var before, chunk := chunks[..|chunks| - 1], chunks[|chunks| - 1];
      AfterClosesLast(cfg, before, stale);
      var (events, session) := After(cfg, before, stale);
      if session.Live? {
        RunServable(cfg, session.r, chunk, 0);
        ServeClosesLast(Run(cfg, session.r, chunk, 0), stale);
        ClosesLastJoin(events, ServeChunk(cfg, session, chunk, stale).0);
      } else {
        assert events + [] == events;
      }
    }
  }

  lemma ClosesLastJoin(a: seq<AppEvent>, b: seq<AppEvent>)
    requires CloseLast(a) && !HasClose(a) && CloseLast(b)
    ensures CloseLast(a + b) && (HasClose(a + b) <==> HasClose(b))
  {
  }

  /** A connection queues at most one CLOSE event, and nothing after it. */
  lemma CloseIsLast(setup: Setup, run: seq<World>, steps: seq<Step>, i: nat, id: Id)
    requires IsRun(setup, run, steps) && i < |run| && id in run[i].conns
    ensures CloseLast(run[i].conns[id].queued)
  {
    RunKeepsInv(setup, run, steps, i);
    var c := run[i].conns[id];
    assert ConnInv(setup, c);
    AfterClosesLast(Cfg(setup), c.received, setup.stale);
    var (events, session) := After(Cfg(setup), c.received, setup.stale);
    var left := if c.io.Waiting? then [] else c.io.left;
    assert events == c.queued + left;
    forall k | 0 <= k < |c.queued| - 1 ensures c.queued[k].op != CLOSE {
      assert events[k] == c.queued[k];
    }
  }

  lemma {:induction false} ConcatOneMore(chunks: seq<seq<byte>>, chunk: seq<byte>)
    ensures Concat(chunks + [chunk]) == Concat(chunks) + chunk
  {
    if chunks == [] {
      assert chunks + [chunk] == [chunk] && [chunk][1..] == [];
      assert chunk + [] == [] + chunk;
    } else {
      ConcatOneMore(chunks[1..], chunk);
      assert (chunks + [chunk])[1..] == chunks[1..] + [chunk];
      assert chunks[0] + (Concat(chunks[1..]) + chunk) == chunks[0] + Concat(chunks[1..]) + chunk;
    }
  }

  lemma {:induction false} AfterIsJoined(cfg: Config, chunks: seq<seq<byte>>, stale: seq<byte>)
    requires cfg.role.Server? && cfg.maxSize >= MAX_CONTROL
    ensures After(cfg, chunks, stale) == ServeChunk(cfg, Live(First(Idle)), Concat(chunks), stale)
    decreases |chunks|
  {
    if chunks == [] {
      assert Scan(cfg, First(Idle), [], 0) == More(First(Idle));
    } else {
      var before, chunk := chunks[..|chunks| - 1], chunks[|chunks| - 1];
      assert chunks == before + [chunk];
      AfterIsJoined(cfg, before, stale);
      ConcatOneMore(before, chunk);
      ServeSplit(cfg, First(Idle), Concat(before), chunk, stale);
    }
  }

  /** What a connection has queued is what the bytes it has received call for, as far as queueing has got. */
  lemma QueuedIsServed(setup: Setup, run: seq<World>, steps: seq<Step>, i: nat, id: Id)
    requires IsRun(setup, run, steps) && i < |run| && id in run[i].conns && setup.maxSize >= MAX_CONTROL
    ensures var c := run[i].conns[id];
            var events := ServeChunk(Cfg(setup), Live(First(Idle)), Concat(c.received), setup.stale).0;
            c.queued <= events && (c.io.Waiting? ==> c.queued == events)
  {
    RunKeepsInv(setup, run, steps, i);
    var c := run[i].conns[id];
    assert ConnInv(setup, c);
    AfterIsJoined(Cfg(setup), c.received, setup.stale);
  }

  /** The service has dealt with the connection's CLOSE event. */
  ghost predicate Disposed(w: World, id: Id) {
    && HasClose(EventsOf(id, w.handled))
    && (w.service.Sending? ==> w.service.id != id)
    && (w.service.Closing? ==> w.service.id != id)
  }

  lemma ClosedStays(setup: Setup, w: World, step: Step, w': World, id: Id)
    requires id in w.conns && w.conns[id].phase == CLOSED && Next(setup, w, step, w')
    ensures id in w'.conns && w'.conns[id].phase == CLOSED && w'.conns[id].written == w.conns[id].written
  {
  }

  /**
   * Once the service has dealt with a connection's CLOSE event, every later send on that connection, by
   * anyone, returns -1, and nothing more is ever written to it.
   */
  lemma {:induction false} NothingAfterClose(setup: Setup, run: seq<World>, steps: seq<Step>, i: nat, j: nat, id: Id)
    requires IsRun(setup, run, steps) && i <= j < |run| && id in run[i].conns && Disposed(run[i], id)
    ensures id in run[j].conns && run[j].conns[id].phase == CLOSED
    ensures run[j].conns[id].written == run[i].conns[id].written
    ensures forall frame, accepted :: Send(run[j].conns[id], frame, accepted) == (-1, run[j].conns[id])
    decreases j
  {
    if i < j {
      NothingAfterClose(setup, run, steps, i, j - 1, id);
      assert StepAt(setup, run, steps, j - 1);
      ClosedStays(setup, run[j - 1], steps[j - 1], run[j], id);
    } else {
      RunKeepsInv(setup, run, steps, i);
      assert ClosedWhenHandled(run[i], id);
    }
  }
}
