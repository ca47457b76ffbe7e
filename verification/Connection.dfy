/** A server connection: the input loop around the stream parser and the events it queues for the service. */
module Connection {
  import opened Wire
  import opened StreamSpec
  import opened Chunking
  import opened StreamTheorems
  import opened Utf8
  import StreamParser
  import P = Printers

  /** An event in the service's queue: the opcode and the message, or for CLOSE and PONG the frame to send. */
  datatype AppEvent = AppEvent(op: byte, message: seq<byte>)

  function CloseEvent(code: CloseCode): AppEvent {
    P.ShortestFormFits(2);
    AppEvent(CLOSE, FrameBytes(P.WholeFrame(CLOSE, [], P.ClosePayload(code))))
  }

  function PongEvent(payload: seq<byte>): AppEvent
    requires |payload| <= MAX_CONTROL
  {
    AppEvent(PONG, FrameBytes(P.WholeFrame(PONG, [], payload)))
  }

  /** The two status bytes of a Close message. */
  function StatusCode(high: byte, low: byte): CloseCode {
    (high as int) * 256 + low
  }

  /**
   * The code answered to a Close message. The validator is given the whole payload length after the two
   * status bytes are skipped, so it also looks at two bytes past the end, `stale`.
   */
  function CloseReply(payload: seq<byte>, stale: seq<byte>): CloseCode {
    if |payload| < 2 then PROTOCOL_VIOLATION
    else if |payload| > 2 && !WellFormedUtf8(payload[2..] + stale) then BAD_DATA
    else
      var code := StatusCode(payload[0], payload[1]);
      if 1000 <= code <= 1003 || 1007 <= code <= 1011 then NORMAL
      else if 2999 < code < 5000 then code
      else PROTOCOL_VIOLATION
  }

  /**
   * What the two bytes too many do: a well-formed reason is refused exactly when they are not well-formed themselves.
   */
  lemma StaleDecides(payload: seq<byte>, stale: seq<byte>)
    requires |payload| > 2 && WellFormedUtf8(payload[2..])
    ensures CloseReply(payload, stale) == BAD_DATA <==> !WellFormedUtf8(stale)
    ensures CloseReply(payload, stale) == if WellFormedUtf8(stale) then CloseReply(payload, []) else BAD_DATA
  {
    WellFormedJoin(payload[2..], stale);
    assert payload[2..] + [] == payload[2..];
  }

  /** They may also complete a reason that is cut short: 0xC3 alone is not text, followed by 0xA9 it is. */
  lemma StaleCompletes()
    ensures CloseReply([3, 232, 0xC3], []) == BAD_DATA && CloseReply([3, 232, 0xC3], [0xA9, 0]) == NORMAL
  {
    var reason := [3, 232, 0xC3][2..];
    assert reason == [0xC3] && reason + [] == [0xC3] && reason + [0xA9, 0] == [0xC3, 0xA9, 0];
    assert [0xC3, 0xA9, 0][2..] == [0] && [0][1..] == [];
    assert WellFormedUtf8([0xC3, 0xA9, 0]);
  }

  /** Events queued, and whether the connection has stopped taking input. */
  datatype Served = Served(events: seq<AppEvent>, stopped: bool)

  function Then(events: seq<AppEvent>, s: Served): Served {
    Served(events + s.events, s.stopped)
  }

  lemma ThenTwice(a: seq<AppEvent>, b: seq<AppEvent>, s: Served)
    ensures Then(a, Then(b, s)) == Then(a + b, s)
  {
    assert a + (b + s.events) == a + b + s.events;
  }

  /** Section 5.5 of RFC 6455: control messages are short. */
  predicate Servable(m: Message) {
    IsControl(m.op) ==> |m.payload| <= MAX_CONTROL
  }

  /** The reaction to one message. */
  function Respond(m: Message, stale: seq<byte>): Served
    requires Servable(m)
  {
    if m.op == TEXT then
      if WellFormedUtf8(m.payload) then Served([AppEvent(TEXT, m.payload)], false)
      else Served([CloseEvent(BAD_DATA)], true)
    else if m.op == BINARY then Served([AppEvent(BINARY, m.payload)], false)
    else if m.op == CLOSE then Served([CloseEvent(CloseReply(m.payload, stale))], true)
    else if m.op == PING then Served([PongEvent(m.payload)], false)
    else if m.op == PONG then Served([], false)
    else Served([CloseEvent(PROTOCOL_VIOLATION)], true)
  }

  predicate AllServable(t: Trace) {
    forall i :: 0 <= i < |t.msgs| ==> Servable(t.msgs[i])
  }

  /** The reaction to what the parser delivers: in order, up to the first message that stops the connection. */
  function Serve(t: Trace, stale: seq<byte>): Served
    requires AllServable(t)
    decreases |t.msgs|
  {
    if t.msgs == [] then
      if t.end.Closed? then Served([CloseEvent(t.end.code)], true) else Served([], false)
    else
      var s := Respond(t.msgs[0], stale);
      if s.stopped then s else Then(s.events, Serve(Trace(t.msgs[1..], t.end), stale))
  }

  // Every run delivers only short control messages, whatever the size limit.

  lemma OutcomeServable(cfg: Config, r: Reading, b: byte, more: bool)
    requires WellFormed(cfg.role, r)
    ensures !Empty(r) && OnByte(cfg, r, b).Deliver? ==> Servable(OnByte(cfg, r, b).msg)
    ensures Empty(r) && OnEmpty(cfg, r, more).Deliver? ==> Servable(OnEmpty(cfg, r, more).msg)
  {
  }

  lemma {:induction false} ScanServable(cfg: Config, r: Reading, stream: seq<byte>, i: nat)
    requires WellFormed(cfg.role, r) && i <= |stream|
    ensures Scan(cfg, r, stream, i).Ready? ==> Servable(Scan(cfg, r, stream, i).msg)
    decreases Measure(r, |stream| - i)
  {
    if Settles(cfg, r, i < |stream|) {
      OutcomeServable(cfg, r, 0, i < |stream|);
      OnEmptyWellFormed(cfg, r, i < |stream|);
      var o := OnEmpty(cfg, r, i < |stream|);
      if o.Next? { ScanServable(cfg, o.r, stream, i); }
    } else if i < |stream| {
      OutcomeServable(cfg, r, stream[i], true);
      OnByteWellFormed(cfg, r, stream[i]);
      var o := OnByte(cfg, r, stream[i]);
      if o.Next? { ScanServable(cfg, o.r, stream, i + 1); }
    }
  }

  lemma {:induction false} RunServable(cfg: Config, r: Reading, stream: seq<byte>, i: nat)
    requires WellFormed(cfg.role, r) && i <= |stream|
    ensures AllServable(Run(cfg, r, stream, i))
    decreases Measure(r, |stream| - i)
  {
    ScanServable(cfg, r, stream, i);
    var res := Scan(cfg, r, stream, i);
    if res.Ready? && res.next < |stream| {
      RunServable(cfg, res.r, stream, res.next);
    }
  }

  // Chunks.

  /** A connection between chunks: the parser's reading, or stopped. */
  datatype Session = Live(r: Reading) | Stopped

  function ServeChunk(cfg: Config, session: Session, chunk: seq<byte>, stale: seq<byte>): (result: (seq<AppEvent>, Session))
    requires session.Live? ==> WellFormedEnd(cfg, Open(session.r))
    ensures result.1.Live? ==> WellFormedEnd(cfg, Open(result.1.r))
  {
    match session
    case Stopped => ([], Stopped)
    case Live(r) =>
      RunServable(cfg, r, chunk, 0);
      var t := Run(cfg, r, chunk, 0);
      var s := Serve(t, stale);
      ServedStops(t, stale);
      (s.events, if s.stopped then Stopped else Live(t.end.r))
  }

  lemma {:induction false} ServedStops(t: Trace, stale: seq<byte>)
    requires AllServable(t)
    ensures t.end.Closed? ==> Serve(t, stale).stopped
    decreases |t.msgs|
  {
    if t.msgs != [] {
      ServedStops(Trace(t.msgs[1..], t.end), stale);
    }
  }

  /** All the events a connection queues over a list of chunks. */
  function ServeChunks(cfg: Config, session: Session, chunks: seq<seq<byte>>, stale: seq<byte>): seq<AppEvent>
    requires session.Live? ==> WellFormedEnd(cfg, Open(session.r))
    decreases chunks
  {
    if chunks == [] then []
    else
      var (events, next) := ServeChunk(cfg, session, chunks[0], stale);
      events + ServeChunks(cfg, next, chunks[1..], stale)
  }

  /** Reacting to two runs one after the other, the second skipped if the first stops the connection. */
  lemma {:induction false} ServeAppend(t: Trace, u: Trace, stale: seq<byte>)
    requires AllServable(t) && AllServable(u)
    requires t.end.Closed? ==> u == Trace([], t.end)
    ensures AllServable(Prepend(t.msgs, u))
    ensures var s := Serve(t, stale);
            Serve(Prepend(t.msgs, u), stale) == if s.stopped then s else Then(s.events, Serve(u, stale))
    decreases |t.msgs|
  {
    if t.msgs == [] {
      assert [] + u.msgs == u.msgs;
      assert [] + Serve(u, stale).events == Serve(u, stale).events;
    } else {
      var t' := Trace(t.msgs[1..], t.end);
      ServeAppend(t', u, stale);
      assert (t.msgs + u.msgs)[1..] == t.msgs[1..] + u.msgs;
      var s := Respond(t.msgs[0], stale);
      var s' := Serve(t', stale);
      assert s.events + (s'.events + Serve(u, stale).events) == (s.events + s'.events) + Serve(u, stale).events;
    }
  }

  predicate SteadySession(cfg: Config, session: Session) {
    session.Live? ==> SteadyEnd(cfg, Open(session.r))
  }

  lemma ServeSplit(cfg: Config, r: Reading, a: seq<byte>, b: seq<byte>, stale: seq<byte>)
    requires cfg.role.Server? && SteadyEnd(cfg, Open(r))
    ensures var (events, next) := ServeChunk(cfg, Live(r), a, stale);
            && SteadySession(cfg, next)
            && ServeChunk(cfg, Live(r), a + b, stale).0 == events + ServeChunk(cfg, next, b, stale).0
            && ServeChunk(cfg, Live(r), a + b, stale).1 == ServeChunk(cfg, next, b, stale).1
  {
    var t := Run(cfg, r, a, 0);
    RunBounded(cfg, r, a, 0);
    RunSplit(cfg, r, a, b, 0);
    RunServable(cfg, r, a, 0);
    ServedStops(t, stale);
    if t.end.Open? { RunServable(cfg, t.end.r, b, 0); }
    ServeAppend(t, Continue(cfg, t.end, b), stale);
  }

  lemma ServeNothing(cfg: Config, session: Session, stale: seq<byte>)
    requires SteadySession(cfg, session)
    ensures ServeChunk(cfg, session, [], stale).0 == []
  {
    if session.Live? {
      assert Scan(cfg, session.r, [], 0) == More(session.r);
    }
  }

  /** However the stream is cut, a connection queues the events of the whole stream in the same order. */
  lemma {:induction false} EventsIndependentOfChunks(cfg: Config, session: Session, chunks: seq<seq<byte>>, stale: seq<byte>)
    requires cfg.role.Server? && SteadySession(cfg, session)
    ensures ServeChunks(cfg, session, chunks, stale) == ServeChunk(cfg, session, Concat(chunks), stale).0
    decreases chunks
  {
    if chunks == [] {
      ServeNothing(cfg, session, stale);
    } else {
      var (events, next) := ServeChunk(cfg, session, chunks[0], stale);
      if session.Live? {
        ServeSplit(cfg, session.r, chunks[0], Concat(chunks[1..]), stale);
      }
      EventsIndependentOfChunks(cfg, next, chunks[1..], stale);
    }
  }

  ghost predicate ChunksUnseen(cfg: Config, stale: seq<byte>) {
    var session := Live(First(Idle));
    forall chunks :: ServeChunks(cfg, session, chunks, stale) == ServeChunk(cfg, session, Concat(chunks), stale).0
  }

  /** The events of a server connection are those of its whole stream, however cut, exactly when its limit is at least 125. */
  lemma EventsIndependentExactly(cfg: Config, stale: seq<byte>)
    requires cfg.role.Server?
    ensures ChunksUnseen(cfg, stale) <==> cfg.maxSize >= MAX_CONTROL
  {
    var session := Live(First(Idle));
    if cfg.maxSize >= MAX_CONTROL {
      forall chunks ensures ServeChunks(cfg, session, chunks, stale) == ServeChunk(cfg, session, Concat(chunks), stale).0 {
        EventsIndependentOfChunks(cfg, session, chunks, stale);
      }
    } else {
      var chunks := [FrameBytes(LongFragment(cfg)) + FrameBytes(EmptyLastFragment(cfg)), [0]];
      SmallLimitQueues(cfg, stale);
      assert ServeChunks(cfg, session, chunks, stale) != ServeChunk(cfg, session, Concat(chunks), stale).0;
    }
  }

  lemma ServeOne(m: Message, end: End, stale: seq<byte>)
    requires Servable(m) && end.Open?
    ensures Serve(Trace([m], end), stale).events == Respond(m, stale).events
  {
    assert [m][1..] == [];
    assert Respond(m, stale).events + [] == Respond(m, stale).events;
  }

  /** With a limit below 125, one division of a stream queues a message and the other the code 1009. */
  lemma SmallLimitQueues(cfg: Config, stale: seq<byte>)
    requires cfg.role.Server? && cfg.maxSize < MAX_CONTROL
    ensures var chunks := [FrameBytes(LongFragment(cfg)) + FrameBytes(EmptyLastFragment(cfg)), [0]];
      var events := ServeChunks(cfg, Live(First(Idle)), chunks, stale);
      && events != [] && events[0] == AppEvent(BINARY, Zeros(125))
      && ServeChunk(cfg, Live(First(Idle)), Concat(chunks), stale).0 == [CloseEvent(MESSAGE_TOO_BIG)]
  {
    SmallLimitShowsChunking(cfg);
    var a := FrameBytes(LongFragment(cfg)) + FrameBytes(EmptyLastFragment(cfg));
    ServeOne(Message(BINARY, Zeros(125)), START, stale);
    assert ServeChunk(cfg, Live(First(Idle)), a, stale).0 == [AppEvent(BINARY, Zeros(125))];
  }

  // The input loop itself.

  lemma ServeDelivered(cfg: Config, r: Reading, input: seq<byte>, i: nat, stale: seq<byte>)
    requires WellFormed(cfg.role, r) && i <= |input| && Scan(cfg, r, input, i).Ready?
    ensures AllServable(Run(cfg, r, input, i))
    ensures var res := Scan(cfg, r, input, i);
            && Servable(res.msg)
            && AllServable(Run(cfg, res.r, input, res.next))
            && var s := Respond(res.msg, stale);
               Serve(Run(cfg, r, input, i), stale) ==
               if s.stopped then s else Then(s.events, Serve(Run(cfg, res.r, input, res.next), stale))
  {
    var res := Scan(cfg, r, input, i);
    RunServable(cfg, r, input, i);
    RunServable(cfg, res.r, input, res.next);
    ScanServable(cfg, r, input, i);
    ReadyRun(cfg, r, input, i);
    var t := Run(cfg, res.r, input, res.next);
    assert ([res.msg] + t.msgs)[1..] == t.msgs;
  }

  class ServerSocket {
    const parser: StreamParser.Parser
    var noInput: bool
    var queue: seq<AppEvent>
    const stale: seq<byte>

    ghost predicate Ready()
      reads this, parser
    {
      parser.role.Server? && parser.Valid() && WellFormedEnd(parser.Cfg(), Open(parser.Abs()))
    }

    /** A connection handed over to a service that accepts messages of up to `maxMsgSize` bytes. */
    constructor (maxMsgSize: nat, stale: seq<byte>)
      ensures Ready() && !noInput && queue == [] && this.stale == stale && fresh(parser)
      ensures parser.Cfg() == Config(Server, maxMsgSize) && parser.Abs() == First(Idle)
    {
      var p := new StreamParser.Parser(Server, 512);
      p.SetMaxMsgSize(maxMsgSize);
      parser := p;
      noInput, queue := false, [];
      this.stale := stale;
    }

    /** Queues the service's copy of a Close frame and stops the input. */
    method CloseSocket(code: CloseCode)
      modifies this`queue, this`noInput
      ensures queue == old(queue) + [CloseEvent(code)] && noInput
    {
      var frame := P.ServerCloseMessage(code, []);
      assert P.ClosePayload(code) + [] == P.ClosePayload(code);
      queue := queue + [AppEvent(CLOSE, frame)];
      noInput := true;
    }

    method OnCloseMessage(payload: seq<byte>)
      modifies this`queue, this`noInput
      ensures queue == old(queue) + [CloseEvent(CloseReply(payload, stale))] && noInput
    {
      if |payload| < 2 {
        CloseSocket(PROTOCOL_VIOLATION);
        return;
      }
      if |payload| > 2 {
        var valid := IsValidUtf8(payload[2..] + stale);
        if !valid {
          CloseSocket(BAD_DATA);
          return;
        }
      }
      var code := StatusCode(payload[0], payload[1]);
      if code in {1000, 1001, 1002, 1003, 1007, 1008, 1009, 1010, 1011} {
        CloseSocket(NORMAL);
      } else if 2999 < code < 5000 {
        CloseSocket(code);
      } else {
        CloseSocket(PROTOCOL_VIOLATION);
      }
    }

    method OnMessage(m: Message) returns (more: bool)
      requires Servable(m)
      modifies this`queue, this`noInput
      ensures queue == old(queue) + Respond(m, stale).events
      ensures more == !Respond(m, stale).stopped && noInput == (old(noInput) || !more)
    {
      if m.op == TEXT {
        var valid := IsValidUtf8(m.payload);
        if valid {
          queue := queue + [AppEvent(TEXT, m.payload)];
          return true;
        }
        CloseSocket(BAD_DATA);
        return false;
      } else if m.op == BINARY {
        queue := queue + [AppEvent(BINARY, m.payload)];
        return true;
      } else if m.op == CLOSE {
        OnCloseMessage(m.payload);
        return false;
      } else if m.op == PING {
        P.ShortestFormFits(|m.payload|);
        var frame := P.ServerMessage(PONG, m.payload);
        queue := queue + [AppEvent(PONG, frame)];
        return true;
      } else if m.op == PONG {
        return true;
      } else {
        CloseSocket(PROTOCOL_VIOLATION);
        return false;
      }
    }

    /** What is left to serve of a chunk from this position on. */
    ghost function Ahead(input: seq<byte>, cursor: nat): Served
      requires Ready() && cursor <= |input|
      reads this, parser
    {
      RunServable(parser.Cfg(), parser.Abs(), input, cursor);
      Serve(Run(parser.Cfg(), parser.Abs(), input, cursor), stale)
    }

    ghost function EndAhead(input: seq<byte>, cursor: nat): End
      requires Ready() && cursor <= |input|
      reads this, parser
    {
      Run(parser.Cfg(), parser.Abs(), input, cursor).end
    }

    /** One turn of the input loop: whether it goes round again, and from where. */
    method Turn(input: seq<byte>, cursor: nat) returns (again: bool, next: nat, ghost added: seq<AppEvent>)
      requires Ready() && !noInput && cursor < |input|
      modifies this`queue, this`noInput, parser
      ensures parser.Cfg() == old(parser.Cfg()) && queue == old(queue) + added
      ensures !again ==>
        && added == old(Ahead(input, cursor)).events
        && noInput == old(Ahead(input, cursor)).stopped
        && (!noInput ==> Ready() && old(EndAhead(input, cursor)) == Open(parser.Abs()))
      ensures again ==>
        && Ready() && !noInput && cursor < next < |input|
        && old(EndAhead(input, cursor)) == EndAhead(input, next)
        && old(Ahead(input, cursor)) == Then(added, Ahead(input, next))
    {
      ghost var cfg, r := parser.Cfg(), parser.Abs();
      RunServable(cfg, r, input, cursor);
      var res := parser.Parse(input, cursor);
      match res.directive
      case MORE =>
        return false, res.cursor, [];
      case CLOSE_WITH_CODE =>
        CloseSocket(res.code);
        return false, res.cursor, [CloseEvent(res.code)];
      case TAKE_READY_MESSAGE =>
        ServeDelivered(cfg, r, input, cursor, stale);
        ReadyRun(cfg, r, input, cursor);
        var m := parser.GetMessage();
        var more := OnMessage(m.value);
        return more && 0 < res.cursor < |input|, res.cursor, Respond(m.value, stale).events;
    }

    /** One received chunk. */
    method ProcessInput(input: seq<byte>)
      requires Ready() && !noInput && input != []
      modifies this`queue, this`noInput, parser
      ensures var (events, next) := old(ServeChunk(parser.Cfg(), Live(parser.Abs()), input, stale));
              && queue == old(queue) + events
              && noInput == next.Stopped?
              && (next.Live? ==> Ready() && parser.Abs() == next.r)
    {
      InputLoop(input);
    }

    method InputLoop(input: seq<byte>)
      requires Ready() && !noInput && input != []
      modifies this`queue, this`noInput, parser
      ensures queue == old(queue) + old(Ahead(input, 0)).events && noInput == old(Ahead(input, 0)).stopped
      ensures !noInput ==> Ready() && old(EndAhead(input, 0)) == Open(parser.Abs())
    {
      ghost var whole, end, done: seq<AppEvent> := Ahead(input, 0), EndAhead(input, 0), [];
      assert Then([], whole) == whole by { assert [] + whole.events == whole.events; }
      var cursor, again := 0, true;
      while again
        invariant queue == old(queue) + done
        invariant if again then Going(input, cursor, whole, end, done) else Finished(whole, end, done)
        decreases again, |input| - cursor
      {
        again, cursor, done := Round(input, cursor, old(queue), whole, end, done);
      }
    }

    /** `done` has been queued of the events a chunk stands for, and the rest of the chunk stands for the others. */
    ghost predicate Going(input: seq<byte>, cursor: nat, whole: Served, end: End, done: seq<AppEvent>)
      reads this, parser
    {
      && Ready() && !noInput && cursor < |input|
      && end == EndAhead(input, cursor) && whole == Then(done, Ahead(input, cursor))
    }

    ghost predicate Finished(whole: Served, end: End, done: seq<AppEvent>)
      reads this, parser
    {
      done == whole.events && noInput == whole.stopped && (!noInput ==> Ready() && end == Open(parser.Abs()))
    }

    method Round(input: seq<byte>, cursor: nat, ghost base: seq<AppEvent>, ghost whole: Served, ghost end: End,
                 ghost done: seq<AppEvent>)
      returns (again: bool, next: nat, ghost done': seq<AppEvent>)
      requires Going(input, cursor, whole, end, done) && queue == base + done
      modifies this`queue, this`noInput, parser
      ensures queue == base + done' && (again ==> cursor < next)
      ensures if again then Going(input, next, whole, end, done') else Finished(whole, end, done')
    {
      ghost var added;
      again, next, added := Turn(input, cursor);
      done' := done + added;
      assert base + done + added == base + done';
      if again { ThenTwice(done, added, Ahead(input, next)); }
    }
  }
}
