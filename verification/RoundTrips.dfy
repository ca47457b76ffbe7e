/** What one end prints, the other end parses back, however the bytes are cut into chunks. */
module RoundTrips {
  import opened Bits
  import opened Wire
  import opened StreamSpec
  import opened Chunking
  import opened FrameGrammar
  import opened StreamTheorems
  import P = Printers

  // Messages the client masks and the server parses.

  datatype Send = Send(op: byte, payload: seq<byte>, key: seq<byte>)

  /** A message the server's parser has no reason to refuse. */
  predicate Sendable(cfg: Config, s: Send) {
    && |s.key| == 4 && P.Sizeable(s.payload)
    && (IsData(s.op) ==> |s.payload| <= cfg.maxSize)
    && (IsControl(s.op) ==> |s.payload| <= MAX_CONTROL)
    && (IsData(s.op) || IsControl(s.op))
  }

  predicate AllSendable(cfg: Config, sends: seq<Send>) {
    forall i :: 0 <= i < |sends| ==> Sendable(cfg, sends[i])
  }

  function Printed(s: Send): seq<byte>
    requires s.op < 16 && |s.key| == 4 && P.Sizeable(s.payload)
  {
    P.ShortestFormFits(|s.payload|);
    if s.payload == [] then [128 + s.op, 128] else FrameBytes(P.WholeFrame(s.op, s.key, s.payload))
  }

  function PrintedAll(cfg: Config, sends: seq<Send>): seq<byte>
    requires AllSendable(cfg, sends)
  {
    if sends == [] then [] else Printed(sends[0]) + PrintedAll(cfg, sends[1..])
  }

  function Expected(sends: seq<Send>): (msgs: seq<Message>)
    ensures |msgs| == |sends|
  {
    seq(|sends|, i requires 0 <= i < |sends| => Message(sends[i].op, sends[i].payload))
  }

  function Frames(sends: seq<Send>): (frames: seq<Frame>)
    ensures |frames| == |sends|
  {
    seq(|sends|, i requires 0 <= i < |sends| => P.WholeFrame(sends[i].op, sends[i].key, sends[i].payload))
  }

  predicate NoneEmpty(sends: seq<Send>) {
    forall i :: 0 <= i < |sends| ==> sends[i].payload != []
  }

  lemma {:induction false} PrintedIsFrames(cfg: Config, sends: seq<Send>)
    requires AllSendable(cfg, sends)
    requires NoneEmpty(sends)
    ensures forall f :: f in Frames(sends) ==> ValidFrame(f)
    ensures PrintedAll(cfg, sends) == FramesBytes(Frames(sends))
  {
    if sends != [] {
      PrintedIsFrames(cfg, sends[1..]);
      SendIsFrame(cfg, sends[0]);
      FramesFront(sends);
    }
  }

  lemma SendIsFrame(cfg: Config, s: Send)
    requires Sendable(cfg, s) && s.payload != []
    ensures var f := P.WholeFrame(s.op, s.key, s.payload); ValidFrame(f) && Printed(s) == FrameBytes(f)
  {
    P.ShortestFormFits(|s.payload|);
  }

  lemma ExpectedFront(sends: seq<Send>)
    requires sends != []
    ensures Expected(sends) == [Message(sends[0].op, sends[0].payload)] + Expected(sends[1..])
  {
  }

  lemma FramesFront(sends: seq<Send>)
    requires sends != []
    ensures Frames(sends) == [P.WholeFrame(sends[0].op, sends[0].key, sends[0].payload)] + Frames(sends[1..])
  {
  }

  lemma SendDelivers(cfg: Config, s: Send)
    requires cfg.role.Server? && Sendable(cfg, s) && s.payload != []
    ensures var f := P.WholeFrame(s.op, s.key, s.payload);
            ValidFrame(f) && FrameOutcome(cfg, Idle, f) == Deliver(First(Idle), Message(s.op, s.payload))
  {
    P.ShortestFormFits(|s.payload|);
  }

  lemma {:induction false} FramesAssemble(cfg: Config, sends: seq<Send>)
    requires cfg.role.Server? && AllSendable(cfg, sends)
    requires NoneEmpty(sends)
    ensures forall f :: f in Frames(sends) ==> ValidFrame(f)
    ensures Assemble(cfg, Idle, Frames(sends)) == Trace(Expected(sends), Open(First(Idle)))
  {
    PrintedIsFrames(cfg, sends);
    if sends != [] {
      FramesAssemble(cfg, sends[1..]);
      FramesFront(sends);
      SendDelivers(cfg, sends[0]);
      ExpectedFront(sends);
    }
  }

  /** Any list of non-empty masked messages, in any chunks, arrives as those messages and nothing else. */
  lemma MaskedRoundTrip(cfg: Config, sends: seq<Send>, chunks: seq<seq<byte>>)
    requires cfg.role.Server? && cfg.maxSize >= MAX_CONTROL
    requires AllSendable(cfg, sends)
    requires NoneEmpty(sends) && Concat(chunks) == PrintedAll(cfg, sends)
    ensures RunChunks(cfg, START, chunks) == Trace(Expected(sends), Open(First(Idle)))
  {
    ChunksAreTheStream(cfg, START, chunks);
    PrintedIsFrames(cfg, sends);
    FramesAssemble(cfg, sends);
    RunFrames(cfg, Idle, Frames(sends), []);
    assert FramesBytes(Frames(sends)) + [] == Concat(chunks);
    assert Expected(sends) + [] == Expected(sends);
  }

  // Exactly the lists without empty messages survive: an empty one is printed without its masking key, and
  // what is printed is then too short to carry all the messages.

  /** The fewest bytes of a masked frame, or of several, that can carry this message. */
  function Cost(len: nat): nat {
    6 + ShortestForm(len) + len
  }

  function CostAll(msgs: seq<Message>): nat {
    if msgs == [] then 0 else Cost(|msgs[0].payload|) + CostAll(msgs[1..])
  }

  function CostSoFar(asm: Assembly): nat {
    if asm.Idle? then 0 else Cost(|asm.data|)
  }

  lemma {:induction false} FramesCost(cfg: Config, asm: Assembly, frames: seq<Frame>)
    requires cfg.role.Server? && WellFormedAssembly(asm) && forall f :: f in frames ==> ValidFrame(f)
    ensures CostAll(Assemble(cfg, asm, frames).msgs) <= CostSoFar(asm) + |FramesBytes(frames)|
    decreases frames
  {
    if frames != [] {
      var f, fs := frames[0], frames[1..];
      var o := FrameOutcome(cfg, asm, f);
      FrameCost(cfg, asm, f);
      if o.Deliver? {
        FramesCost(cfg, o.r.asm, fs);
        var msgs := Assemble(cfg, o.r.asm, fs).msgs;
        assert ([o.msg] + msgs)[1..] == msgs;
      } else if o.Next? {
        FramesCost(cfg, o.r.asm, fs);
      }
    }
  }

  /** A frame pays for what it delivers and for what it leaves under reassembly. */
  lemma FrameCost(cfg: Config, asm: Assembly, f: Frame)
    requires cfg.role.Server? && WellFormedAssembly(asm) && ValidFrame(f)
    ensures var o := FrameOutcome(cfg, asm, f);
            && (!o.Fail? ==> WellFormedAssembly(o.r.asm))
            && (o.Deliver? ==> Cost(|o.msg.payload|) + CostSoFar(o.r.asm) <= CostSoFar(asm) + |FrameBytes(f)|)
            && (o.Next? ==> CostSoFar(o.r.asm) <= CostSoFar(asm) + |FrameBytes(f)|)
  {
    assert Pow2(16) == 65536 by { Pow2Add(8, 8); assert Pow2(8) == 256; }
    assert f.key != [] ==> Cost(|f.payload|) <= |FrameBytes(f)|;
  }

  lemma PrintedLength(s: Send)
    requires s.op < 16 && |s.key| == 4 && P.Sizeable(s.payload)
    ensures |Printed(s)| == if s.payload == [] then 2 else Cost(|s.payload|)
  {
  }

  lemma {:induction false} CostStep(cfg: Config, sends: seq<Send>)
    requires AllSendable(cfg, sends) && sends != []
    ensures AllSendable(cfg, sends[1..])
    ensures |PrintedAll(cfg, sends)| == |Printed(sends[0])| + |PrintedAll(cfg, sends[1..])|
    ensures CostAll(Expected(sends)) == Cost(|sends[0].payload|) + CostAll(Expected(sends[1..]))
  {
    assert Expected(sends)[1..] == Expected(sends[1..]);
  }

  lemma {:induction false} PrintedCost(cfg: Config, sends: seq<Send>)
    requires AllSendable(cfg, sends)
    ensures |PrintedAll(cfg, sends)| <= CostAll(Expected(sends))
    ensures !NoneEmpty(sends) ==> |PrintedAll(cfg, sends)| < CostAll(Expected(sends))
  {
    if sends != [] {
      CostStep(cfg, sends);
      PrintedCost(cfg, sends[1..]);
      PrintedLength(sends[0]);
    }
  }

  lemma MaskedRoundTripExactly(cfg: Config, sends: seq<Send>)
    requires cfg.role.Server? && cfg.maxSize >= MAX_CONTROL
    requires AllSendable(cfg, sends)
    ensures Continue(cfg, START, PrintedAll(cfg, sends)).msgs == Expected(sends) <==> NoneEmpty(sends)
  {
    var stream := PrintedAll(cfg, sends);
    if NoneEmpty(sends) {
      assert Concat([stream]) == stream + Concat([]) == stream;
      ChunksAreTheStream(cfg, START, [stream]);
      MaskedRoundTrip(cfg, sends, [stream]);
    } else {
      ParserFollowsGrammar(cfg, stream);
      var (fs, rest) := Deframe(stream);
      FramesCost(cfg, Idle, fs);
      PrintedCost(cfg, sends);
    }
  }

  /** One empty message does not arrive. */
  lemma EmptyMessageLost(cfg: Config, key: seq<byte>)
    requires cfg.role.Server? && cfg.maxSize >= MAX_CONTROL && |key| == 4
    ensures var sends := [Send(TEXT, [], key)];
            && AllSendable(cfg, sends)
            && Continue(cfg, START, PrintedAll(cfg, sends)).msgs != [Message(TEXT, [])]
  {
    var sends := [Send(TEXT, [], key)];
    assert P.Sizeable([]) && IsData(TEXT);
    assert sends[0].payload == [] && sends[1..] == [];
    MaskedRoundTripExactly(cfg, sends);
    assert Expected(sends) == [Message(TEXT, [])];
  }

  // Messages the server fragments and the client parses.

  /** What the client makes of a message of this length. */
  function Verdict(cfg: Config, op: byte, payload: seq<byte>): Trace {
    if |payload| <= cfg.maxSize then Trace([Message(op, payload)], Open(First(Idle)))
    else Trace([], Closed(MESSAGE_TOO_BIG))
  }

  lemma MiddleFragment(cfg: Config, op: byte, data: seq<byte>, part: seq<byte>, fin: bool)
    requires cfg.role.Client? && IsData(op) && P.Sizeable(part)
    ensures var f := P.FragmentFrame(fin, CONTINUATION, part);
            && ValidFrame(f)
            && FrameOutcome(cfg, Fragments(op, data), f) ==
               if |data| + |part| > cfg.maxSize then Fail(MESSAGE_TOO_BIG)
               else if fin then Deliver(First(Idle), Message(op, data + part))
               else Next(First(Fragments(op, data + part)))
  {
    P.ShortestFormFits(|part|);
  }

  lemma {:induction false} LaterFragmentsAssemble(cfg: Config, op: byte, data: seq<byte>, left: seq<byte>, count: nat)
    requires cfg.role.Client? && IsData(op) && P.Sizeable(left)
    requires count > 0 && P.FragmentBytes(count - 1) <= |left|
    ensures forall f :: f in P.LaterFragments(left, count) ==> ValidFrame(f)
    ensures Assemble(cfg, Fragments(op, data), P.LaterFragments(left, count)) == Verdict(cfg, op, data + left)
    decreases count
  {
    P.LaterFragmentsValid(left, count);
    var frames := P.LaterFragments(left, count);
    if count == 1 {
      MiddleFragment(cfg, op, data, left, true);
      assert frames[1..] == [];
    } else {
      var part, rest := left[..P.FRAGMENT_SIZE], left[P.FRAGMENT_SIZE..];
      MiddleFragment(cfg, op, data, part, false);
      LaterFragmentsAssemble(cfg, op, data + part, rest, count - 1);
      assert frames[1..] == P.LaterFragments(rest, count - 1);
      assert data + part + rest == data + left;
    }
  }

  lemma FirstFragment(cfg: Config, op: byte, part: seq<byte>)
    requires cfg.role.Client? && IsData(op) && |part| == P.FRAGMENT_SIZE
    ensures var f := P.FragmentFrame(false, op, part);
            && ValidFrame(f)
            && FrameOutcome(cfg, Idle, f) ==
               if |part| > cfg.maxSize then Fail(MESSAGE_TOO_BIG) else Next(First(Fragments(op, part)))
  {
    assert Pow2(16) == 65536 by { Pow2Add(8, 8); assert Pow2(8) == 256; }
  }

  lemma WholeMessage(cfg: Config, op: byte, src: seq<byte>)
    requires cfg.role.Client? && IsData(op) && P.Sizeable(src) && cfg.maxSize >= MAX_CONTROL
    ensures var f := P.WholeFrame(op, [], src);
            && ValidFrame(f)
            && FrameOutcome(cfg, Idle, f) ==
               if |src| > cfg.maxSize then Fail(MESSAGE_TOO_BIG) else Deliver(First(Idle), Message(op, src))
  {
    P.ShortestFormFits(|src|);
  }

  lemma FragmentsAssemble(cfg: Config, op: byte, src: seq<byte>)
    requires cfg.role.Client? && IsData(op) && P.Sizeable(src) && cfg.maxSize >= MAX_CONTROL
    ensures forall f :: f in P.Fragments(op, src) ==> ValidFrame(f)
    ensures Assemble(cfg, Idle, P.Fragments(op, src)) == Verdict(cfg, op, src)
  {
    P.FragmentsValid(op, src);
    var count := Int32(P.FragmentCount(|src|));
    if count > 1 {
      assert P.FragmentBytes(count) <= |src|;
      SplitAssemble(cfg, op, src, count);
    } else {
      WholeMessage(cfg, op, src);
      assert P.Fragments(op, src)[1..] == [];
    }
  }

  lemma SplitAssemble(cfg: Config, op: byte, src: seq<byte>, count: nat)
    requires cfg.role.Client? && IsData(op) && P.Sizeable(src) && count > 1 && P.FragmentBytes(count) <= |src|
    ensures var part, rest := src[..P.FRAGMENT_SIZE], src[P.FRAGMENT_SIZE..];
            var frames := [P.FragmentFrame(false, op, part)] + P.LaterFragments(rest, count - 1);
            && (forall f :: f in frames ==> ValidFrame(f))
            && Assemble(cfg, Idle, frames) == Verdict(cfg, op, src)
  {
    var part, rest := src[..P.FRAGMENT_SIZE], src[P.FRAGMENT_SIZE..];
    var first, later := P.FragmentFrame(false, op, part), P.LaterFragments(rest, count - 1);
    FirstFragment(cfg, op, part);
    LaterFragmentsAssemble(cfg, op, part, rest, count - 1);
    assert ([first] + later)[1..] == later;
    assert part + rest == src;
  }

  lemma {:induction false} LastFragmentNotEmpty(left: seq<byte>, count: nat)
    requires count > 0 && P.FragmentBytes(count) <= |left|
    ensures var frames := P.LaterFragments(left, count);
            frames != [] && frames[|frames| - 1].payload != []
    decreases count
  {
    if count > 1 {
      LastFragmentNotEmpty(left[P.FRAGMENT_SIZE..], count - 1);
    }
  }

  lemma FragmentsSeen(cfg: Config, op: byte, src: seq<byte>, rest: seq<byte>)
    requires src != [] || rest != []
    ensures AllSeen(cfg, P.Fragments(op, src), rest)
  {
    var count := Int32(P.FragmentCount(|src|));
    if count > 1 {
      LastFragmentNotEmpty(src[P.FRAGMENT_SIZE..], count - 1);
    }
  }

  /**
   * The frames of a message, in any chunks, arrive as that message if it is within the client's limit and
   * close the connection with 1009 otherwise. An empty message arrives once something follows it.
   */
  lemma FragmentedRoundTrip(cfg: Config, op: byte, src: seq<byte>, rest: seq<byte>, chunks: seq<seq<byte>>)
    requires cfg.role.Client? && IsData(op) && P.Sizeable(src) && cfg.maxSize >= MAX_CONTROL
    requires src != [] || rest != []
    requires forall f :: f in P.Fragments(op, src) ==> ValidFrame(f)
    requires Concat(chunks) == FramesBytes(P.Fragments(op, src)) + rest
    ensures RunChunks(cfg, START, chunks) == AfterFrames(cfg, Verdict(cfg, op, src), rest)
  {
    ChunksAreTheStream(cfg, START, chunks);
    FragmentsAssemble(cfg, op, src);
    FragmentsSeen(cfg, op, src, rest);
    RunFrames(cfg, Idle, P.Fragments(op, src), rest);
  }

  /** An empty message at the end of everything received is not delivered. */
  lemma EmptyMessageWaits(cfg: Config, op: byte)
    requires cfg.role.Client? && IsData(op)
    ensures var f := P.WholeFrame(op, [], []);
            ValidFrame(f) && Continue(cfg, START, FrameBytes(f)).msgs == []
  {
    var f := P.WholeFrame(op, [], []);
    ScanHeader(cfg, Idle, f, FrameBytes(f));
  }

  lemma {:induction false} LaterFragmentsShape(left: seq<byte>, count: nat)
    requires count > 0 && P.FragmentBytes(count - 1) <= |left|
    ensures var frames := P.LaterFragments(left, count);
            && |frames| == count
            && |frames[count - 1].payload| == |left| - P.FragmentBytes(count - 1)
            && forall i :: 0 <= i < count - 1 ==> |frames[i].payload| == P.FRAGMENT_SIZE
    decreases count
  {
    if count > 1 {
      LaterFragmentsShape(left[P.FRAGMENT_SIZE..], count - 1);
    }
  }

  lemma {:induction false} FragmentsSplit(op: byte, src: seq<byte>)
    requires 2 <= P.FragmentCount(|src|) < 0x8000_0000
    ensures var n, first := P.FragmentCount(|src|), P.FragmentFrame(false, op, src[..P.FRAGMENT_SIZE]);
      P.Fragments(op, src) == [first] + P.LaterFragments(src[P.FRAGMENT_SIZE..], n - 1)
  {
    Int32Same(P.FragmentCount(|src|));
  }

  /** n = len / 1392 frames when n is at least 2: all carry 1392 bytes but the last, which carries the rest. */
  lemma {:induction false} FragmentsShape(op: byte, src: seq<byte>)
    requires 2 <= P.FragmentCount(|src|) < 0x8000_0000
    ensures var n, frames := P.FragmentCount(|src|), P.Fragments(op, src);
      && |frames| == n
      && |frames[n - 1].payload| == P.FRAGMENT_SIZE + |src| % P.FRAGMENT_SIZE
      && forall i :: 0 <= i < n - 1 ==> |frames[i].payload| == P.FRAGMENT_SIZE
  {
    var n, rest := P.FragmentCount(|src|), src[P.FRAGMENT_SIZE..];
    FragmentsSplit(op, src);
    LaterFragmentsShape(rest, n - 1);
    var frames, later := P.Fragments(op, src), P.LaterFragments(rest, n - 1);
    forall i | 0 < i < n ensures frames[i] == later[i - 1] {}
  }
}
