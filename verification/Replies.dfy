/** What the service and the peer get to see of a connection's input, said of the messages themselves. */
module Replies {
  import opened Wire
  import opened StreamSpec
  import opened FrameGrammar
  import opened StreamTheorems
  import opened Utf8
  import opened Connection

  /** Whatever its limit and whatever follows, a client that reads these bytes is handed this message and stops behind them. */
  ghost predicate ReadAs(bytes: seq<byte>, m: Message) {
    forall max: nat, rest: seq<byte> :: rest != [] ==>
      Scan(Config(Client, max), First(Idle), bytes + rest, 0) == Ready(First(Idle), m, |bytes|)
  }

  lemma ControlReadAs(op: byte, payload: seq<byte>)
    requires op in {9, 10} || (op == 8 && payload != [])
    requires |payload| <= 125
    ensures ValidFrame(P.WholeFrame(op, [], payload)) && ReadAs(FrameBytes(P.WholeFrame(op, [], payload)), Message(op, payload))
  {
    var f := P.WholeFrame(op, [], payload);
    forall max: nat, rest: seq<byte> | rest != []
      ensures Scan(Config(Client, max), First(Idle), FrameBytes(f) + rest, 0)
           == Ready(First(Idle), Message(op, payload), |FrameBytes(f)|)
    {
      ScanFrame(Config(Client, max), Idle, f, FrameBytes(f) + rest);
    }
  }

  /** An event that tells the service, or the peer through the service, of a message that does not stop the connection. */
  ghost predicate Tells(e: AppEvent, m: Message) {
    if m.op == 9 then e.op == 10 && ReadAs(e.message, Message(10, m.payload)) else e == AppEvent(m.op, m.payload)
  }

  /** An event that has the connection closed with this code. */
  ghost predicate Announces(e: AppEvent, code: CloseCode) {
    e.op == 8 && ReadAs(e.message, Message(8, [code / 256, code % 256]))
  }

  /** A message behind which nothing more is read: a Close message, or text that is none. */
  predicate Final(m: Message) {
    m.op == 8 || (m.op == 1 && !WellFormedUtf8(m.payload))
  }

  /** The messages that are told of: all but PONG messages. */
  function Told(msgs: seq<Message>): seq<Message> {
    if msgs == [] then [] else (if msgs[0].op == 10 then [] else [msgs[0]]) + Told(msgs[1..])
  }

  /** The code a Close message is answered with, by its status number. */
  predicate AnsweredWith(status: nat, code: nat) {
    code == if 1000 <= status <= 1003 || 1007 <= status <= 1011 then 1000
            else if 3000 <= status <= 4999 then status else 1002
  }

  /** The code a final message is answered with; `stale` is what stands behind a Close payload. */
  predicate FinalCode(m: Message, stale: seq<byte>, code: nat) {
    if m.op == 1 || (|m.payload| > 2 && !WellFormedUtf8(m.payload[2..] + stale)) then code == 1007
    else if |m.payload| < 2 then code == 1002
    else AnsweredWith(m.payload[0] as int * 256 + m.payload[1], code)
  }

  /** The messages are told of in order, up to the first final one or the end, and a connection that stops says why. */
  ghost predicate EventsOf(t: Trace, stale: seq<byte>, events: seq<AppEvent>, stopped: bool, n: nat)
    requires n <= |t.msgs|
  {
    var told := Told(t.msgs[..n]);
    && |events| == |told| + (if stopped then 1 else 0)
    && (forall k :: 0 <= k < |told| ==> Tells(events[k], told[k]))
    && (stopped <==> n < |t.msgs| || t.end.Closed?)
    && (n < |t.msgs| ==> exists code: CloseCode :: FinalCode(t.msgs[n], stale, code) && Announces(events[|told|], code))
    && (n == |t.msgs| && t.end.Closed? ==> Announces(events[|told|], t.end.code))
  }

  /** The first final message, or the end. */
  function FirstFinal(msgs: seq<Message>): (n: nat)
    ensures n <= |msgs| && (forall k :: 0 <= k < n ==> !Final(msgs[k])) && (n < |msgs| ==> Final(msgs[n]))
  {
    if msgs == [] || Final(msgs[0]) then 0 else 1 + FirstFinal(msgs[1..])
  }

  predicate Known(m: Message) {
    m.op in {1, 2, 8, 9, 10} && (m.op >= 8 ==> |m.payload| <= 125)
  }

  lemma CloseAnnounces(code: CloseCode)
    ensures Announces(CloseEvent(code), code)
  {
    ControlReadAs(8, [code / 256, code % 256]);
  }

  lemma FinalAnswered(m: Message, stale: seq<byte>)
    requires Known(m) && Servable(m) && Final(m)
    ensures var s := Respond(m, stale);
      s.stopped && |s.events| == 1 && exists code: CloseCode :: FinalCode(m, stale, code) && Announces(s.events[0], code)
  {
    var code: CloseCode := if m.op == 1 then 1007 else CloseReply(m.payload, stale);
    CloseAnnounces(code);
    assert FinalCode(m, stale, code);
  }

  lemma OthersTold(m: Message, stale: seq<byte>)
    requires Known(m) && Servable(m) && !Final(m)
    ensures var s := Respond(m, stale);
      && !s.stopped
      && (if m.op == 10 then s.events == [] else |s.events| == 1 && Tells(s.events[0], m))
  {
    if m.op == 9 { ControlReadAs(10, m.payload); }
  }

  lemma {:induction false} ServedExactly(t: Trace, stale: seq<byte>)
    requires AllServable(t) && forall k :: 0 <= k < |t.msgs| ==> Known(t.msgs[k])
    ensures var s := Serve(t, stale); EventsOf(t, stale, s.events, s.stopped, FirstFinal(t.msgs))
    decreases |t.msgs|
  {
    if t.msgs == [] {
      if t.end.Closed? { CloseAnnounces(t.end.code); }
    } else if Final(t.msgs[0]) {
      FinalAnswered(t.msgs[0], stale);
    } else {
      var t' := Trace(t.msgs[1..], t.end);
      ServedExactly(t', stale);
      OthersTold(t.msgs[0], stale);
      OneMoreTold(t, stale, Respond(t.msgs[0], stale).events, Serve(t', stale));
    }
  }

  lemma OneMoreTold(t: Trace, stale: seq<byte>, first: seq<AppEvent>, s: Served)
    requires t.msgs != [] && !Final(t.msgs[0])
    requires if t.msgs[0].op == 10 then first == [] else |first| == 1 && Tells(first[0], t.msgs[0])
    requires EventsOf(Trace(t.msgs[1..], t.end), stale, s.events, s.stopped, FirstFinal(t.msgs[1..]))
    ensures EventsOf(t, stale, first + s.events, s.stopped, FirstFinal(t.msgs))
  {
    var n := FirstFinal(t.msgs[1..]);
    assert t.msgs[..n + 1][1..] == t.msgs[1..][..n];
    var told, told' := Told(t.msgs[..n + 1]), Told(t.msgs[1..][..n]);
    assert told == (if t.msgs[0].op == 10 then [] else [t.msgs[0]]) + told';
    assert |told| == |first| + |told'|;
    forall k | 0 <= k < |told| ensures Tells((first + s.events)[k], told[k]) {
      if k >= |first| { assert told[k] == told'[k - |first|]; }
    }
  }

  // The parser delivers known messages only.

  lemma OutcomeKnown(cfg: Config, r: Reading, b: byte, more: bool)
    requires WellFormed(cfg.role, r)
    ensures !Empty(r) && OnByte(cfg, r, b).Deliver? ==> Known(OnByte(cfg, r, b).msg)
    ensures Empty(r) && OnEmpty(cfg, r, more).Deliver? ==> Known(OnEmpty(cfg, r, more).msg)
  {
  }

  lemma {:induction false} ScanKnown(cfg: Config, r: Reading, stream: seq<byte>, i: nat)
    requires WellFormed(cfg.role, r) && i <= |stream|
    ensures Scan(cfg, r, stream, i).Ready? ==> Known(Scan(cfg, r, stream, i).msg)
    decreases Measure(r, |stream| - i)
  {
    if Settles(cfg, r, i < |stream|) {
      OutcomeKnown(cfg, r, 0, i < |stream|);
      OnEmptyWellFormed(cfg, r, i < |stream|);
      var o := OnEmpty(cfg, r, i < |stream|);
      if o.Next? { ScanKnown(cfg, o.r, stream, i); }
    } else if i < |stream| {
      OutcomeKnown(cfg, r, stream[i], true);
      OnByteWellFormed(cfg, r, stream[i]);
      var o := OnByte(cfg, r, stream[i]);
      if o.Next? { ScanKnown(cfg, o.r, stream, i + 1); }
    }
  }

  lemma {:induction false} RunKnown(cfg: Config, r: Reading, stream: seq<byte>, i: nat)
    requires WellFormed(cfg.role, r) && i <= |stream|
    ensures forall k :: 0 <= k < |Run(cfg, r, stream, i).msgs| ==> Known(Run(cfg, r, stream, i).msgs[k])
    decreases Measure(r, |stream| - i)
  {
    ScanKnown(cfg, r, stream, i);
    var res := Scan(cfg, r, stream, i);
    if res.Ready? && res.next < |stream| { RunKnown(cfg, res.r, stream, res.next); }
  }

  /**
   * What a connection queues for a whole stream: every data message as it is, for every PING an event that the peer reads
   * as the PONG, nothing for a PONG, all in order and up to the first Close message or text that is none; and when it
   * stops, one last event that the peer reads as a Close message with the code that is due.
   */
  lemma EventsExactly(cfg: Config, stream: seq<byte>, stale: seq<byte>)
    requires cfg.role.Server?
    ensures var t, result := Continue(cfg, START, stream), ServeChunk(cfg, Live(First(Idle)), stream, stale);
      EventsOf(t, stale, result.0, result.1.Stopped?, FirstFinal(t.msgs))
  {
    var t := Continue(cfg, START, stream);
    RunServable(cfg, First(Idle), stream, 0);
    RunKnown(cfg, First(Idle), stream, 0);
    ServedExactly(t, stale);
    ServedStops(t, stale);
  }

  /** The answer to a Close message whose reason and what stands behind it are text, by its status number alone. */
  lemma CloseAnswered(payload: seq<byte>, stale: seq<byte>)
    requires |payload| > 2 ==> WellFormedUtf8(payload[2..] + stale)
    ensures var code, status := CloseReply(payload, stale), if |payload| < 2 then 0 else payload[0] as int * 256 + payload[1];
      && (code == 1000 <==> 1000 <= status <= 1003 || 1007 <= status <= 1011)
      && (3000 <= status <= 4999 <==> code >= 3000) && (code >= 3000 ==> code == status)
      && (code == 1002 <==> |payload| < 2 || !(1000 <= status <= 1003 || 1007 <= status <= 1011 || 3000 <= status <= 4999))
  {
  }
}
