/**
 * What a parser accepts, refuses and delivers, said of whole frames in the words of sections 5.2 to 5.5 of RFC 6455: a
 * reference beside the parser's own classification.
 */
module Refusals {
  import opened Bits
  import opened Wire
  import opened StreamSpec
  import opened Chunking
  import opened FrameGrammar
  import opened StreamTheorems

  // Frames with something behind them, whatever the limit.

  /** As `RunFrames`, for any limit: with a byte behind them even an empty last frame is judged as any other. */
  lemma {:induction false} RunFramesAhead(cfg: Config, asm: Assembly, frames: seq<Frame>, rest: seq<byte>)
    requires (forall f :: f in frames ==> ValidFrame(f)) && WellFormedAssembly(asm) && rest != []
    ensures WellFormedEnd(cfg, Assemble(cfg, asm, frames).end)
    ensures Run(cfg, First(asm), FramesBytes(frames) + rest, 0) == AfterFrames(cfg, Assemble(cfg, asm, frames), rest)
    decreases frames
  {
    if frames == [] {
      assert [] + rest == rest;
      PrependTwice([], [], Run(cfg, First(asm), rest, 0));
    } else {
      var f, fs := frames[0], frames[1..];
      var tail := FramesBytes(fs) + rest;
      assert FramesBytes(frames) + rest == FrameBytes(f) + tail;
      RunFrame(cfg, asm, f, tail);
      var o := FrameOutcome(cfg, asm, f);
      if !o.Fail? {
        RunFramesAhead(cfg, o.r.asm, fs, rest);
        if o.Deliver? {
          var t := Assemble(cfg, o.r.asm, fs);
          PrependTwice([o.msg], t.msgs, Continue(cfg, t.end, rest));
        }
      }
    }
  }

  // What stands before a frame.

  /** The number of payload bytes of the message under reassembly. */
  function Gathered(n: nat, frames: seq<Frame>): nat
    decreases |frames|
  {
    if frames == [] then n
    else Gathered(if frames[0].op >= 8 then n else if frames[0].fin then 0 else n + |frames[0].payload|, frames[1..])
  }

  function Size(asm: Assembly): nat {
    if asm.Idle? then 0 else |asm.data|
  }

  lemma {:induction false} GatheredExactly(cfg: Config, asm: Assembly, frames: seq<Frame>)
    requires forall f :: f in frames ==> ValidFrame(f)
    ensures var end := Assemble(cfg, asm, frames).end;
      end.Open? ==> end.r.First? && Size(end.r.asm) == Gathered(Size(asm), frames)
    decreases frames
  {
    if frames != [] {
      var o := FrameOutcome(cfg, asm, frames[0]);
      if !o.Fail? { GatheredExactly(cfg, o.r.asm, frames[1..]); }
    }
  }

  /** Every one of these frames is accepted. */
  predicate Accepted(cfg: Config, frames: seq<Frame>)
    requires forall f :: f in frames ==> ValidFrame(f)
  {
    Assemble(cfg, Idle, frames).end.Open?
  }

  /** Whatever is behind it, a run over these frames ends at `f` with this code, having delivered what came before. */
  ghost predicate ClosesAt(cfg: Config, frames: seq<Frame>, f: Frame, code: CloseCode)
    requires ValidFrame(f) && forall g :: g in frames ==> ValidFrame(g)
  {
    FramesBytesMore(frames, f);
    forall rest :: rest != [] ==>
      Continue(cfg, START, FramesBytes(frames + [f]) + rest) == Trace(Assemble(cfg, Idle, frames).msgs, Closed(code))
  }

  /** How a run goes on behind one more frame. */
  lemma RunOneMore(cfg: Config, frames: seq<Frame>, f: Frame, rest: seq<byte>)
    requires ValidFrame(f) && (forall g :: g in frames ==> ValidFrame(g)) && Accepted(cfg, frames) && rest != []
    ensures forall g :: g in frames + [f] ==> ValidFrame(g)
    ensures var t := Assemble(cfg, Idle, frames);
      && t.end.r.First?
      && var o := FrameOutcome(cfg, t.end.r.asm, f);
         && (!o.Fail? ==> WellFormed(cfg.role, First(o.r.asm)))
         && Continue(cfg, START, FramesBytes(frames + [f]) + rest) ==
            if o.Fail? then Trace(t.msgs, Closed(o.code))
            else Prepend(t.msgs + (if o.Deliver? then [o.msg] else []), Run(cfg, First(o.r.asm), rest, 0))
  {
    FramesBytesMore(frames, f);
    AssembleMore(cfg, Idle, frames, f);
    RunFramesAhead(cfg, Idle, frames, rest);
    RunFramesAhead(cfg, Idle, frames + [f], rest);
    var t := Assemble(cfg, Idle, frames);
    assert t.msgs + [] == t.msgs;
  }

  /** A run closes at a frame exactly when the frame by itself is refused after those before it. */
  lemma ClosesExactly(cfg: Config, frames: seq<Frame>, f: Frame, code: CloseCode)
    requires ValidFrame(f) && (forall g :: g in frames ==> ValidFrame(g)) && Accepted(cfg, frames)
    ensures var end := Assemble(cfg, Idle, frames).end;
      end.r.First? && (ClosesAt(cfg, frames, f, code) <==> FrameOutcome(cfg, end.r.asm, f) == Fail(code))
  {
    RunOneMore(cfg, frames, f, [0x89]);
    var t := Assemble(cfg, Idle, frames);
    var o := FrameOutcome(cfg, t.end.r.asm, f);
    if o.Fail? {
      forall rest | rest != [] ensures Continue(cfg, START, FramesBytes(frames + [f]) + rest) == Trace(t.msgs, Closed(o.code)) {
        RunOneMore(cfg, frames, f, rest);
      }
    } else {
      PingBegins(cfg, o.r.asm, [0x89]);
    }
    assert [0x89] != [];
  }

  /** A header that no length or opcode test stops: section 5.2 of RFC 6455, and the mask each end must see. */
  predicate Readable(cfg: Config, f: Frame) {
    && f.rsv == 0 && f.op in {0, 1, 2, 8, 9, 10} && (f.key != [] <==> cfg.role.Server?)
    && (f.extended == 0 || |f.payload| <= cfg.maxSize)
  }

  /** Against the protocol, with or without a message under reassembly. */
  predicate Violates(cfg: Config, f: Frame, mid: bool) {
    || f.rsv != 0
    || (f.op in {0, 1, 2, 8, 9, 10} && (f.key != []) != cfg.role.Server?)
    || (Readable(cfg, f) && f.op in {8, 9, 10} && (!f.fin || |f.payload| > 125))
    || (Readable(cfg, f) && f.op == 0 && !mid)
    || (Readable(cfg, f) && f.op in {1, 2} && mid)
  }

  /** Over the limit by itself, or together with the bytes already gathered. */
  predicate TooBig(cfg: Config, f: Frame, mid: bool, gathered: nat) {
    || (f.rsv == 0 && f.op in {0, 1, 2, 8, 9, 10} && (f.key != [] <==> cfg.role.Server?)
        && f.extended != 0 && |f.payload| > cfg.maxSize)
    || (Readable(cfg, f) && f.op == 0 && mid && gathered + |f.payload| > cfg.maxSize)
  }

  lemma OutcomeExactly(cfg: Config, asm: Assembly, f: Frame)
    requires ValidFrame(f)
    ensures var o, mid := FrameOutcome(cfg, asm, f), asm.Fragments?;
      && (o == Fail(1000) <==> Readable(cfg, f) && f.op == 8 && f.fin && f.payload == [])
      && (o == Fail(1003) <==> f.rsv == 0 && f.op !in {0, 1, 2, 8, 9, 10})
      && (o == Fail(1002) <==> Violates(cfg, f, mid))
      && (o == Fail(1009) <==> TooBig(cfg, f, mid, if mid then |asm.data| else 0))
      && (o.Fail? ==> o.code in {1000, 1002, 1003, 1009})
  {
  }

  /**
   * Exactly which frames are refused after accepted ones, and with which code. Earlier tests take precedence: reserved
   * bits, opcode, mask bit, announced length, and then what the frame is.
   */
  lemma RefusedExactly(cfg: Config, frames: seq<Frame>, f: Frame)
    requires ValidFrame(f) && (forall g :: g in frames ==> ValidFrame(g)) && Accepted(cfg, frames)
    ensures ClosesAt(cfg, frames, f, 1000) <==> Readable(cfg, f) && f.op == 8 && f.fin && f.payload == []
    ensures ClosesAt(cfg, frames, f, 1003) <==> f.rsv == 0 && f.op !in {0, 1, 2, 8, 9, 10}
    ensures ClosesAt(cfg, frames, f, 1002) <==> Violates(cfg, f, MidMessage(false, frames))
    ensures ClosesAt(cfg, frames, f, 1009) <==> TooBig(cfg, f, MidMessage(false, frames), Gathered(0, frames))
    ensures forall code :: ClosesAt(cfg, frames, f, code) ==> code in {1000, 1002, 1003, 1009}
  {
    OpenAtFrameBoundary(cfg, Idle, frames);
    GatheredExactly(cfg, Idle, frames);
    var asm := Assemble(cfg, Idle, frames).end.r.asm;
    OutcomeExactly(cfg, asm, f);
    forall code: CloseCode ensures ClosesAt(cfg, frames, f, code) <==> FrameOutcome(cfg, asm, f) == Fail(code) {
      ClosesExactly(cfg, frames, f, code);
    }
  }

  // What accepted frames deliver.

  /**
   * The messages of frames: a control frame is one by itself, and a data frame that is final completes the one its group
   * began; `open` is the group begun before.
   */
  function Meaning(open: seq<Frame>, frames: seq<Frame>): seq<Message>
    decreases |frames|
  {
    if frames == [] then []
    else
      var f, fs := frames[0], frames[1..];
      var group := open + [f];
      if f.op >= 8 then [Message(f.op, f.payload)] + Meaning(open, fs)
      else if f.fin then [Message(group[0].op, Joined(group))] + Meaning([], fs)
      else Meaning(group, fs)
  }

  lemma {:induction false} AcceptedMeaning(cfg: Config, open: seq<Frame>, frames: seq<Frame>)
    requires forall f :: f in frames ==> ValidFrame(f)
    requires Assemble(cfg, UnderReassembly(open), frames).end.Open?
    ensures Assemble(cfg, UnderReassembly(open), frames).msgs == Meaning(open, frames)
    decreases |frames|
  {
    if frames != [] {
      var f, fs := frames[0], frames[1..];
      if f.op >= 8 {
        AcceptedMeaning(cfg, open, fs);
      } else {
        GroupStep(cfg, open, f);
        AcceptedMeaning(cfg, if f.fin then [] else open + [f], fs);
      }
    }
  }

  /**
   * A run over accepted frames delivers their messages, control frames and groups of fragments, in order, before anything
   * else, and nothing else while the frame behind them is incomplete.
   */
  lemma AcceptedDeliver(cfg: Config, frames: seq<Frame>, rest: seq<byte>)
    requires (forall f :: f in frames ==> ValidFrame(f)) && Accepted(cfg, frames) && rest != []
    ensures Meaning([], frames) <= Continue(cfg, START, FramesBytes(frames) + rest).msgs
    ensures (cfg.role.Server? ==> cfg.maxSize >= 125) && Incomplete(rest) ==>
      Continue(cfg, START, FramesBytes(frames) + rest).msgs == Meaning([], frames)
  {
    AcceptedMeaning(cfg, [], frames);
    RunFramesAhead(cfg, Idle, frames, rest);
    if (cfg.role.Server? ==> cfg.maxSize >= 125) && Incomplete(rest) { StreamFollowsGrammar(cfg, frames, rest); }
  }

  // The examples of section 5.7 of RFC 6455.

  const HELLO: seq<byte> := [0x48, 0x65, 0x6C, 0x6C, 0x6F]

  lemma HelloH()
    ensures Xor(0x48, 0x37) == 0x7F
  {
    assert Xor(2, 1) == 3;
    assert Xor(9, 6) == 15;
    assert Xor(36, 27) == 63;
  }

  lemma HelloE()
    ensures Xor(0x65, 0xFA) == 0x9F
  {
    assert Xor(1, 3) == 2;
    assert Xor(6, 15) == 9;
    assert Xor(25, 62) == 39;
  }

  lemma HelloFirstL()
    ensures Xor(0x6C, 0x21) == 0x4D
  {
    assert Xor(3, 1) == 2;
    assert Xor(13, 4) == 9;
    assert Xor(54, 16) == 38;
  }

  lemma HelloSecondL()
    ensures Xor(0x6C, 0x3D) == 0x51
  {
    assert Xor(3, 1) == 2;
    assert Xor(13, 7) == 10;
    assert Xor(54, 30) == 40;
  }

  lemma HelloO()
    ensures Xor(0x6F, 0x37) == 0x58
  {
    assert Xor(3, 1) == 2;
    assert Xor(13, 6) == 11;
    assert Xor(55, 27) == 44;
  }

  lemma XorHello(d: byte, k: byte, m: byte)
    requires (d, k, m) in [(0x48, 0x37, 0x7F), (0x65, 0xFA, 0x9F), (0x6C, 0x21, 0x4D), (0x6C, 0x3D, 0x51), (0x6F, 0x37, 0x58)]
    ensures Xor(d, k) == m
  {
    HelloH();
    HelloE();
    HelloFirstL();
    HelloSecondL();
    HelloO();
  }

  lemma MaskedFive(data: seq<byte>, key: seq<byte>, masked: seq<byte>)
    requires |data| == |masked| == 5 && |key| == 4
    requires Xor(data[0], key[0]) == masked[0] && Xor(data[1], key[1]) == masked[1] && Xor(data[2], key[2]) == masked[2]
    requires Xor(data[3], key[3]) == masked[3] && Xor(data[4], key[0]) == masked[4]
    ensures Masked(data, key) == masked
  {
    assert 4 % 4 == 0;
  }

  lemma MaskedHello(data: seq<byte>, key: seq<byte>, masked: seq<byte>)
    requires data == HELLO && key == [0x37, 0xFA, 0x21, 0x3D] && masked == [0x7F, 0x9F, 0x4D, 0x51, 0x58]
    ensures Masked(data, key) == masked
  {
    XorHello(data[0], key[0], masked[0]);
    XorHello(data[1], key[1], masked[1]);
    XorHello(data[2], key[2], masked[2]);
    XorHello(data[3], key[3], masked[3]);
    XorHello(data[4], key[0], masked[4]);
    MaskedFive(data, key, masked);
  }

  /** A text message in one frame, unmasked and masked, and one in two unmasked frames. */
  lemma StandardExamples(max: nat)
    requires max >= 125
    ensures Continue(Config(Client, max), START, [0x81, 0x05] + HELLO) == Trace([Message(1, HELLO)], START)
    ensures Continue(Config(Server, max), START, [0x81, 0x85, 0x37, 0xFA, 0x21, 0x3D, 0x7F, 0x9F, 0x4D, 0x51, 0x58])
         == Trace([Message(1, HELLO)], START)
    ensures Continue(Config(Client, max), START, [0x01, 0x03, 0x48, 0x65, 0x6C, 0x80, 0x02, 0x6C, 0x6F])
         == Trace([Message(1, HELLO)], START)
  {
    OneFrame(Config(Client, max), Frame(true, 0, 1, 0, [], HELLO));
    assert Masked(HELLO, []) == HELLO;
    assert FrameBytes(Frame(true, 0, 1, 0, [], HELLO)) == [0x81, 0x05] + HELLO;
    var masked := Frame(true, 0, 1, 0, [0x37, 0xFA, 0x21, 0x3D], HELLO);
    OneFrame(Config(Server, max), masked);
    MaskedHello(HELLO, masked.key, [0x7F, 0x9F, 0x4D, 0x51, 0x58]);
    assert FrameBytes(masked) == [0x81, 0x85, 0x37, 0xFA, 0x21, 0x3D, 0x7F, 0x9F, 0x4D, 0x51, 0x58];
    TwoFrames(Config(Client, max));
  }

  lemma OneFrame(cfg: Config, f: Frame)
    requires ValidFrame(f) && f.fin && f.rsv == 0 && f.op == 1 && f.extended == 0 && f.payload != []
    requires cfg.maxSize >= 125 && (f.key != [] <==> cfg.role.Server?)
    ensures Continue(cfg, START, FrameBytes(f)) == Trace([Message(1, f.payload)], START)
  {
    RunFrame(cfg, Idle, f, []);
    assert FrameBytes(f) + [] == FrameBytes(f);
    assert FrameOutcome(cfg, Idle, f) == Deliver(First(Idle), Message(1, f.payload));
    assert [Message(1, f.payload)] + [] == [Message(1, f.payload)];
  }

  lemma TwoFrames(cfg: Config)
    requires cfg.role.Client? && cfg.maxSize >= 125
    ensures Continue(cfg, START, [0x01, 0x03, 0x48, 0x65, 0x6C, 0x80, 0x02, 0x6C, 0x6F]) == Trace([Message(1, HELLO)], START)
  {
    var a, b := Frame(false, 0, 1, 0, [], [0x48, 0x65, 0x6C]), Frame(true, 0, 0, 0, [], [0x6C, 0x6F]);
    assert Masked(a.payload, []) == a.payload && Masked(b.payload, []) == b.payload;
    assert FrameBytes(a) == [0x01, 0x03, 0x48, 0x65, 0x6C] && FrameBytes(b) == [0x80, 0x02, 0x6C, 0x6F];
    var asm := Fragments(1, a.payload);
    assert FrameOutcome(cfg, Idle, a) == Next(First(asm));
    assert a.payload + b.payload == HELLO;
    assert FrameOutcome(cfg, asm, b) == Deliver(First(Idle), Message(1, HELLO));
    RunFrame(cfg, Idle, a, FrameBytes(b));
    RunFrame(cfg, asm, b, []);
    assert FrameBytes(b) + [] == FrameBytes(b);
    assert FrameBytes(a) + FrameBytes(b) == [0x01, 0x03, 0x48, 0x65, 0x6C, 0x80, 0x02, 0x6C, 0x6F];
    assert [Message(1, HELLO)] + [] == [Message(1, HELLO)];
  }
}
