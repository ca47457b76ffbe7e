/** Main results about the stream parser: grammar, interleaving, chunking and size bounds. */
module StreamTheorems {
  import opened Bits
  import opened Wire
  import opened StreamSpec
  import opened Chunking
  import opened FrameGrammar

  const START := Open(First(Idle))

  /** What a list of frames means: the messages it delivers and how it leaves the parser. */
  function Assemble(cfg: Config, asm: Assembly, frames: seq<Frame>): Trace
    requires forall f :: f in frames ==> ValidFrame(f)
    decreases frames
  {
    if frames == [] then Trace([], Open(First(asm)))
    else match FrameOutcome(cfg, asm, frames[0])
      case Fail(code) => Trace([], Closed(code))
      case Deliver(r, msg) => Prepend([msg], Assemble(cfg, r.asm, frames[1..]))
      case Next(r) => Assemble(cfg, r.asm, frames[1..])
  }

  function FramesBytes(frames: seq<Frame>): seq<byte>
    requires forall f :: f in frames ==> ValidFrame(f)
  {
    if frames == [] then [] else FrameBytes(frames[0]) + FramesBytes(frames[1..])
  }

  /** How a run goes on after one frame. */
  function AfterFrame(cfg: Config, o: Outcome, rest: seq<byte>): Trace
    requires !o.Fail? ==> WellFormed(cfg.role, o.r)
  {
    match o
    case Fail(code) => Trace([], Closed(code))
    case Deliver(r, msg) => Prepend([msg], Run(cfg, r, rest, 0))
    case Next(r) => Run(cfg, r, rest, 0)
  }

  /** An empty frame is only seen by a client once another byte has arrived. */
  predicate Seen(cfg: Config, f: Frame, rest: seq<byte>) {
    f.payload != [] || rest != [] || cfg.role.Server?
  }

  /** An empty frame that ends a chunk, at a server. */
  lemma ScanFinalEmptyFrame(cfg: Config, asm: Assembly, f: Frame)
    requires ValidFrame(f) && f.payload == [] && cfg.role.Server?
    requires Bounded(cfg, First(asm))
    ensures var o := FrameOutcome(cfg, asm, f);
            && (!o.Fail? ==> WellFormed(cfg.role, o.r) && o.r.First?)
            && Scan(cfg, First(asm), FrameBytes(f), 0) == After(cfg, o, FrameBytes(f), |FrameBytes(f)|)
  {
    ScanHeader(cfg, asm, f, FrameBytes(f));
    if HeaderPasses(cfg, f) {
      OnEmptyWellFormed(cfg, Headed(f, asm), false);
      OnEmptyBounded(cfg, Headed(f, asm));
    }
  }

  lemma RunFrame(cfg: Config, asm: Assembly, f: Frame, rest: seq<byte>)
    requires ValidFrame(f) && WellFormedAssembly(asm) && Seen(cfg, f, rest)
    requires f.payload == [] && rest == [] ==> Bounded(cfg, First(asm))
    ensures var o := FrameOutcome(cfg, asm, f);
            && (!o.Fail? ==> WellFormed(cfg.role, o.r) && o.r.First?)
            && Run(cfg, First(asm), FrameBytes(f) + rest, 0) == AfterFrame(cfg, o, rest)
  {
    var bytes := FrameBytes(f);
    var stream := bytes + rest;
    if f.payload == [] && rest == [] {
      assert stream == bytes;
      ScanFinalEmptyFrame(cfg, asm, f);
    } else {
      ScanFrame(cfg, asm, f, stream);
    }
    match FrameOutcome(cfg, asm, f)
    case Fail(code) =>
    case Next(r) =>
      SameScan(cfg, First(asm), 0, r, |bytes|, stream);
      RunShift(cfg, r, bytes, rest, 0);
    case Deliver(r, msg) =>
      ReadyRun(cfg, First(asm), stream, 0);
      RunShift(cfg, r, bytes, rest, 0);
  }

  lemma FrameOutcomeBounded(cfg: Config, asm: Assembly, f: Frame)
    requires ValidFrame(f) && Bounded(cfg, First(asm))
    ensures BoundedOutcome(cfg, FrameOutcome(cfg, asm, f))
  {
  }

  /** How a run goes on after a list of frames. */
  function AfterFrames(cfg: Config, t: Trace, rest: seq<byte>): Trace
    requires WellFormedEnd(cfg, t.end)
  {
    Prepend(t.msgs, Continue(cfg, t.end, rest))
  }

  predicate AllSeen(cfg: Config, frames: seq<Frame>, rest: seq<byte>) {
    frames != [] ==> Seen(cfg, frames[|frames| - 1], rest)
  }

  /** Printed frames followed by anything: the run is the frames' meaning, then a run over the rest. */
  lemma {:induction false} RunFrames(cfg: Config, asm: Assembly, frames: seq<Frame>, rest: seq<byte>)
    requires forall f :: f in frames ==> ValidFrame(f)
    requires Steady(cfg, First(asm)) && AllSeen(cfg, frames, rest)
    ensures SteadyEnd(cfg, Assemble(cfg, asm, frames).end)
    ensures Run(cfg, First(asm), FramesBytes(frames) + rest, 0) == AfterFrames(cfg, Assemble(cfg, asm, frames), rest)
    decreases frames
  {
    if frames == [] {
      assert [] + rest == rest;
      PrependTwice([], [], Run(cfg, First(asm), rest, 0));
    } else {
      var f, fs := frames[0], frames[1..];
      var tail := FramesBytes(fs) + rest;
      assert FramesBytes(frames) + rest == FrameBytes(f) + tail;
      RunFrame(cfg, asm, f, tail);
      if cfg.role.Server? { FrameOutcomeBounded(cfg, asm, f); }
      match FrameOutcome(cfg, asm, f)
      case Fail(code) =>
      case Next(r) =>
        RunFrames(cfg, r.asm, fs, rest);
      case Deliver(r, msg) =>
        RunFrames(cfg, r.asm, fs, rest);
        var t := Assemble(cfg, r.asm, fs);
        PrependTwice([msg], t.msgs, Continue(cfg, t.end, rest));
    }
  }

  // Every stream is a list of frames and an incomplete one.

  function ExtendedWidth(b: byte): nat {
    if b % 128 < 126 then 0 else if b % 128 == 126 then 2 else 8
  }

  function HeaderLength(stream: seq<byte>): nat
    requires |stream| >= 2
  {
    2 + ExtendedWidth(stream[1]) + (if stream[1] >= 128 then 4 else 0)
  }

  function PayloadLength(stream: seq<byte>): nat
    requires |stream| >= 2 && |stream| >= 2 + ExtendedWidth(stream[1])
  {
    var width := ExtendedWidth(stream[1]);
    if width == 0 then stream[1] % 128 else FromBigEndian(stream[2..2 + width])
  }

  predicate HasFrame(stream: seq<byte>) {
    && |stream| >= 2
    && |stream| >= HeaderLength(stream)
    && |stream| >= HeaderLength(stream) + PayloadLength(stream)
  }

  /** The first frame of a stream that holds a whole one. */
  function HeadFrame(stream: seq<byte>): (f: Frame)
    requires HasFrame(stream)
  {
    var h := HeaderLength(stream);
    var width := ExtendedWidth(stream[1]);
    var key := stream[2 + width..h];
    Frame(stream[0] >= 128, stream[0] / 16 % 8, stream[0] % 16, width, key,
          Masked(stream[h..h + PayloadLength(stream)], key))
  }

  lemma ByteParts(b: byte)
    ensures b == (if b >= 128 then 128 else 0) + 16 * (b / 16 % 8) + b % 16
    ensures b == (if b >= 128 then 128 else 0) + b % 128
  {
  }

  lemma HeadFrameValid(stream: seq<byte>)
    requires HasFrame(stream)
    ensures var f := HeadFrame(stream);
            && ValidFrame(f)
            && FirstByte(f) == stream[0] && SecondByte(f) == stream[1]
            && BigEndian(|f.payload|, f.extended) == stream[2..2 + f.extended]
  {
    ByteParts(stream[0]);
    ByteParts(stream[1]);
    LengthBytes(stream);
  }

  lemma LengthBytes(stream: seq<byte>)
    requires HasFrame(stream)
    ensures var width := ExtendedWidth(stream[1]);
            && BigEndian(PayloadLength(stream), width) == stream[2..2 + width]
            && PayloadLength(stream) < (if width == 0 then 126 else Pow2(8 * width))
  {
    var width := ExtendedWidth(stream[1]);
    if width != 0 {
      FromBigEndianInverse(stream[2..2 + width]);
    }
  }

  lemma HeadFrameBytes(stream: seq<byte>)
    requires HasFrame(stream)
    ensures ValidFrame(HeadFrame(stream))
    ensures FrameBytes(HeadFrame(stream)) == stream[..HeaderLength(stream) + PayloadLength(stream)]
  {
    HeadFrameValid(stream);
    var f, h := HeadFrame(stream), HeaderLength(stream);
    MaskedTwice(stream[h..h + |f.payload|], f.key);
    FourParts(stream, 2 + f.extended, h, h + |f.payload|);
  }

  lemma FourParts(s: seq<byte>, a: nat, b: nat, c: nat)
    requires 2 <= a <= b <= c <= |s|
    ensures [s[0], s[1]] + s[2..a] + s[a..b] + s[b..c] == s[..c]
  {
  }

  /** A stream that holds no whole frame is the beginning of one. */
  ghost predicate Incomplete(stream: seq<byte>) {
    exists f :: ValidFrame(f) && stream < FrameBytes(f)
  }

  function Zeros(n: nat): (s: seq<byte>)
    ensures |s| == n
  {
    seq(n, _ => 0)
  }

  lemma NoFrameIsIncomplete(stream: seq<byte>)
    requires !HasFrame(stream)
    ensures Incomplete(stream)
  {
    var padded := Padded(stream);
    HeadFrameBytes(padded);
    assert stream < FrameBytes(HeadFrame(padded));
  }

  /** The stream filled up with zeros to the end of its first frame. */
  lemma Padded(stream: seq<byte>) returns (padded: seq<byte>)
    requires !HasFrame(stream)
    ensures HasFrame(padded) && |padded| == HeaderLength(padded) + PayloadLength(padded)
    ensures stream < padded
  {
    var a := stream + Zeros(if |stream| < 2 then 2 - |stream| else 0);
    var b := a + Zeros(if |a| < HeaderLength(a) then HeaderLength(a) - |a| else 0);
    assert b[1] == a[1];
    if |stream| >= 2 && |stream| >= HeaderLength(a) {
      assert b == a == stream;
    }
    padded := b + Zeros(HeaderLength(b) + PayloadLength(b) - |b|);
    var width := ExtendedWidth(b[1]);
    assert padded[2..2 + width] == b[2..2 + width];
  }

  function Deframe(stream: seq<byte>): (r: (seq<Frame>, seq<byte>))
    decreases |stream|
  {
    if !HasFrame(stream) then ([], stream)
    else
      var (fs, rest) := Deframe(DeframeTail(stream));
      ([HeadFrame(stream)] + fs, rest)
  }

  lemma {:induction false} FramesStep(f: Frame, fs: seq<Frame>, rest: seq<byte>)
    requires ValidFrame(f) && forall g :: g in fs ==> ValidFrame(g)
    ensures (forall g :: g in [f] + fs ==> ValidFrame(g))
    ensures FramesBytes([f] + fs) + rest == FrameBytes(f) + (FramesBytes(fs) + rest)
  {
    assert ([f] + fs)[1..] == fs;
  }

  lemma {:induction false} DeframeBytes(stream: seq<byte>)
    ensures var (fs, rest) := Deframe(stream);
            && (forall f :: f in fs ==> ValidFrame(f))
            && FramesBytes(fs) + rest == stream
            && Incomplete(rest)
    decreases |stream|
  {
    if !HasFrame(stream) {
      NoFrameIsIncomplete(stream);
    } else {
      var f, tail := HeadFrame(stream), DeframeTail(stream);
      var (fs, rest) := Deframe(tail);
      DeframeBytes(tail);
      FramesStep(f, fs, rest);
    }
  }

  /** A stream with a whole frame at its front is that frame and what follows. */
  lemma {:induction false} HeadSplit(stream: seq<byte>)
    requires HasFrame(stream)
    ensures ValidFrame(HeadFrame(stream)) && 0 < |FrameBytes(HeadFrame(stream))| <= |stream|
    ensures stream == FrameBytes(HeadFrame(stream)) + stream[|FrameBytes(HeadFrame(stream))|..]
  {
    HeadFrameBytes(stream);
    var n := |FrameBytes(HeadFrame(stream))|;
    assert stream == stream[..n] + stream[n..];
  }

  function DeframeTail(stream: seq<byte>): (tail: seq<byte>)
    requires HasFrame(stream)
    ensures ValidFrame(HeadFrame(stream)) && stream == FrameBytes(HeadFrame(stream)) + tail && |tail| < |stream|
  {
    HeadSplit(stream);
    stream[|FrameBytes(HeadFrame(stream))|..]
  }

  /** A frame at the front of a stream is the one read off it. */
  lemma HeadOfFrame(f: Frame, stream: seq<byte>)
    requires ValidFrame(f) && FrameBytes(f) <= stream
    ensures HasFrame(stream) && HeadFrame(stream) == f
  {
    HeaderOfFrame(f, stream);
    FrameSlices(f, stream);
    MaskedTwice(f.payload, f.key);
  }

  lemma HeaderOfFrame(f: Frame, stream: seq<byte>)
    requires ValidFrame(f) && FrameBytes(f) <= stream
    ensures stream[0] / 16 % 8 == f.rsv && stream[0] % 16 == f.op && (stream[0] >= 128) == f.fin
    ensures ExtendedWidth(stream[1]) == f.extended && HeaderLength(stream) == 2 + f.extended + |f.key|
    ensures PayloadLength(stream) == |f.payload|
  {
    HeaderBits(f, stream);
    FrameSlices(f, stream);
    if f.extended != 0 { BigEndianInverse(|f.payload|, f.extended); }
  }

  lemma IncompleteHasNoFrame(rest: seq<byte>)
    requires Incomplete(rest)
    ensures !HasFrame(rest)
  {
    var f :| ValidFrame(f) && rest < FrameBytes(f);
    if HasFrame(rest) {
      HeadSplit(rest);
      HeadOfFrame(HeadFrame(rest), FrameBytes(f));
      HeadOfFrame(f, FrameBytes(f));
    }
  }

  /** The grammar is unambiguous: frames followed by the beginning of one are taken apart into just these. */
  lemma {:induction false} DeframeFrames(fs: seq<Frame>, rest: seq<byte>)
    requires (forall f :: f in fs ==> ValidFrame(f)) && Incomplete(rest)
    ensures Deframe(FramesBytes(fs) + rest) == (fs, rest)
    decreases fs
  {
    if fs == [] {
      assert [] + rest == rest;
      IncompleteHasNoFrame(rest);
    } else {
      DeframeFrames(fs[1..], rest);
      DeframeFront(fs[0], FramesBytes(fs[1..]) + rest);
      FramesStep(fs[0], fs[1..], rest);
      assert [fs[0]] + fs[1..] == fs;
    }
  }

  lemma DeframeFront(f: Frame, tail: seq<byte>)
    requires ValidFrame(f)
    ensures var (fs, rest) := Deframe(tail); Deframe(FrameBytes(f) + tail) == ([f] + fs, rest)
  {
    var stream := FrameBytes(f) + tail;
    HeadOfFrame(f, stream);
    assert stream[|FrameBytes(f)|..] == tail;
  }

  /** Between frames the first byte of a ping is always taken. */
  lemma PingBegins(cfg: Config, asm: Assembly, stream: seq<byte>)
    requires WellFormed(cfg.role, First(asm)) && stream != [] && stream[|stream| - 1] == 0x89
    ensures Scan(cfg, First(asm), stream, |stream| - 1).More?
  {
    var r := Second(true, PING, asm);
    assert OnByte(cfg, First(asm), 0x89) == Next(r);
    assert Scan(cfg, r, stream, |stream|) == More(r);
  }

  /** A scan that ends within a frame ends the way the whole frame does: it is refused. */
  lemma ScanBeginning(cfg: Config, asm: Assembly, rest: seq<byte>, f: Frame)
    requires Steady(cfg, First(asm)) && ValidFrame(f) && rest < FrameBytes(f)
    ensures var res := Scan(cfg, First(asm), rest, 0);
            !res.More? ==> res.Violation? && FrameOutcome(cfg, asm, f) == Fail(res.code)
  {
    var stream := FrameBytes(f) + [0x89];
    assert rest + stream[|rest|..] == stream;
    ScanResumes(cfg, First(asm), rest, stream[|rest|..], 0);
    ScanFrame(cfg, asm, f, stream);
    var o := FrameOutcome(cfg, asm, f);
    if o.Next? { PingBegins(cfg, o.r.asm, stream); }
  }

  /** The beginning of a frame delivers nothing. */
  lemma IncompleteDeliversNothing(cfg: Config, asm: Assembly, rest: seq<byte>)
    requires Steady(cfg, First(asm)) && Incomplete(rest)
    ensures Run(cfg, First(asm), rest, 0).msgs == []
  {
    var f :| ValidFrame(f) && rest < FrameBytes(f);
    ScanBeginning(cfg, asm, rest, f);
  }

  /** Every frame that begins with these bytes is refused with this code. */
  ghost predicate RefusedBeginning(cfg: Config, asm: Assembly, rest: seq<byte>, code: CloseCode) {
    forall f :: ValidFrame(f) && rest < FrameBytes(f) ==> FrameOutcome(cfg, asm, f) == Fail(code)
  }

  /** A connection closed inside a frame: no completion of that frame would have been accepted. */
  lemma ClosedInsideFrame(cfg: Config, asm: Assembly, rest: seq<byte>)
    requires Steady(cfg, First(asm)) && Incomplete(rest)
    ensures var t := Run(cfg, First(asm), rest, 0);
            t.end.Closed? ==> RefusedBeginning(cfg, asm, rest, t.end.code)
  {
    IncompleteDeliversNothing(cfg, asm, rest);
    var t := Run(cfg, First(asm), rest, 0);
    if t.end.Closed? {
      forall f | ValidFrame(f) && rest < FrameBytes(f)
        ensures FrameOutcome(cfg, asm, f) == Fail(t.end.code)
      {
        ScanBeginning(cfg, asm, rest, f);
      }
    }
  }

  // An empty frame at the end of a client's input.

  lemma {:induction false} FramesBytesMore(frames: seq<Frame>, f: Frame)
    requires ValidFrame(f) && forall g :: g in frames ==> ValidFrame(g)
    ensures forall g :: g in frames + [f] ==> ValidFrame(g)
    ensures FramesBytes(frames + [f]) == FramesBytes(frames) + FrameBytes(f)
    decreases frames
  {
    if frames == [] {
      assert frames + [f] == [f] && [f][1..] == [];
      assert FrameBytes(f) + [] == [] + FrameBytes(f);
    } else {
      FramesBytesMore(frames[1..], f);
      FramesStep(frames[0], frames[1..] + [f], []);
      FramesStep(frames[0], frames[1..], FrameBytes(f));
      assert frames == [frames[0]] + frames[1..] && frames + [f] == [frames[0]] + (frames[1..] + [f]);
      assert FramesBytes(frames + [f]) + [] == FramesBytes(frames + [f]);
      assert FramesBytes(frames[1..] + [f]) + [] == FramesBytes(frames[1..] + [f]);
    }
  }

  /** What one more frame does to a list of frames. */
  function OneMore(cfg: Config, t: Trace, f: Frame): Trace
    requires ValidFrame(f) && (t.end.Open? ==> t.end.r.First?)
  {
    if t.end.Closed? then t
    else match FrameOutcome(cfg, t.end.r.asm, f)
      case Fail(code) => Trace(t.msgs, Closed(code))
      case Deliver(r, msg) => Trace(t.msgs + [msg], Open(First(r.asm)))
      case Next(r) => Trace(t.msgs, Open(First(r.asm)))
  }

  lemma {:induction false} AssembleMore(cfg: Config, asm: Assembly, frames: seq<Frame>, f: Frame)
    requires ValidFrame(f) && forall g :: g in frames ==> ValidFrame(g)
    ensures forall g :: g in frames + [f] ==> ValidFrame(g)
    ensures var t := Assemble(cfg, asm, frames);
            (t.end.Open? ==> t.end.r.First?) && Assemble(cfg, asm, frames + [f]) == OneMore(cfg, t, f)
    decreases frames
  {
    if frames == [] {
      assert frames + [f] == [f] && [f][1..] == [];
    } else {
      assert (frames + [f])[1..] == frames[1..] + [f];
      var o := FrameOutcome(cfg, asm, frames[0]);
      if !o.Fail? {
        AssembleMore(cfg, o.r.asm, frames[1..], f);
        if o.Deliver? { PrependMore(cfg, o.msg, Assemble(cfg, o.r.asm, frames[1..]), f); }
      }
    }
  }

  lemma PrependMore(cfg: Config, msg: Message, t: Trace, f: Frame)
    requires ValidFrame(f) && (t.end.Open? ==> t.end.r.First?)
    ensures Prepend([msg], OneMore(cfg, t, f)) == OneMore(cfg, Prepend([msg], t), f)
  {
    if t.end.Open? && FrameOutcome(cfg, t.end.r.asm, f).Deliver? {
      var last := FrameOutcome(cfg, t.end.r.asm, f).msg;
      assert [msg] + (t.msgs + [last]) == [msg] + t.msgs + [last];
    }
  }

  /**
   * The last frame is empty, ends a client's input, follows accepted frames only, and has an acceptable header:
   * the parser has read all of it and waits for one more byte.
   */
  predicate HeldBack(cfg: Config, frames: seq<Frame>, rest: seq<byte>)
    requires forall f :: f in frames ==> ValidFrame(f)
  {
    && !AllSeen(cfg, frames, rest)
    && var n := |frames| - 1;
    Assemble(cfg, Idle, frames[..n]).end.Open? && HeaderPasses(cfg, frames[n])
  }

  lemma RunHeldBack(cfg: Config, asm: Assembly, f: Frame)
    requires cfg.role.Client? && ValidFrame(f) && f.payload == [] && WellFormedAssembly(asm)
    ensures HeaderPasses(cfg, f) ==> WellFormed(cfg.role, Headed(f, asm))
    ensures Run(cfg, First(asm), FrameBytes(f), 0) ==
            if HeaderPasses(cfg, f) then Trace([], Open(Headed(f, asm))) else Trace([], Closed(FrameOutcome(cfg, asm, f).code))
  {
    ScanHeader(cfg, asm, f, FrameBytes(f));
  }

  /** The run of a client over frames of which the last is empty. */
  lemma EmptyLastFrame(cfg: Config, frames: seq<Frame>, f: Frame)
    requires cfg.role.Client? && ValidFrame(f) && f.payload == [] && forall g :: g in frames ==> ValidFrame(g)
    ensures forall g :: g in frames + [f] ==> ValidFrame(g)
    ensures var t, whole := Assemble(cfg, Idle, frames), Continue(cfg, START, FramesBytes(frames + [f]));
            && (t.end.Open? ==> t.end.r.First?)
            && whole == if t.end.Open? && HeaderPasses(cfg, f) then Trace(t.msgs, Open(Headed(f, t.end.r.asm)))
                        else Assemble(cfg, Idle, frames + [f])
  {
    FramesBytesMore(frames, f);
    AssembleMore(cfg, Idle, frames, f);
    RunFrames(cfg, Idle, frames, FrameBytes(f));
    var t := Assemble(cfg, Idle, frames);
    if t.end.Open? { RunHeldBack(cfg, t.end.r.asm, f); }
    assert t.msgs + [] == t.msgs;
  }

  /** The last frame would complete a message. */
  predicate CompletesMessage(cfg: Config, frames: seq<Frame>)
    requires frames != [] && forall f :: f in frames ==> ValidFrame(f)
  {
    var n := |frames| - 1;
    var t := Assemble(cfg, Idle, frames[..n]);
    t.end.Open? && FrameOutcome(cfg, t.end.r.asm, frames[n]).Deliver?
  }

  /** A client hears of all the messages of its frames exactly unless the last is an empty one that completes a message. */
  lemma EmptyMessageWaitsExactly(cfg: Config, frames: seq<Frame>)
    requires cfg.role.Client? && frames != [] && forall f :: f in frames ==> ValidFrame(f)
    ensures Continue(cfg, START, FramesBytes(frames)).msgs == Assemble(cfg, Idle, frames).msgs <==>
            frames[|frames| - 1].payload != [] || !CompletesMessage(cfg, frames)
  {
    var before, f := frames[..|frames| - 1], frames[|frames| - 1];
    if f.payload == [] {
      assert frames == before + [f];
      AssembleMore(cfg, Idle, before, f);
      EmptyLastFrame(cfg, before, f);
    } else {
      WholeLastFrame(cfg, frames);
    }
  }

  lemma WholeLastFrame(cfg: Config, frames: seq<Frame>)
    requires cfg.role.Client? && frames != [] && forall f :: f in frames ==> ValidFrame(f)
    requires frames[|frames| - 1].payload != []
    ensures Continue(cfg, START, FramesBytes(frames)).msgs == Assemble(cfg, Idle, frames).msgs
  {
    RunFrames(cfg, Idle, frames, []);
    assert FramesBytes(frames) + [] == FramesBytes(frames);
    var t := Assemble(cfg, Idle, frames);
    OpenAtFrameBoundary(cfg, Idle, frames);
    assert t.msgs + [] == t.msgs;
  }

  // What any stream comes to.

  /**
   * The meaning of a stream made of these frames and the beginning of another: exactly the messages of the frames, the
   * code of the first frame that is refused, and inside an incomplete frame only the code that every completion of it
   * would be refused with; a frame held back has no effect yet.
   */
  ghost predicate FollowsGrammar(cfg: Config, frames: seq<Frame>, rest: seq<byte>)
    requires forall f :: f in frames ==> ValidFrame(f)
  {
    var t, whole := Assemble(cfg, Idle, frames), Continue(cfg, START, FramesBytes(frames) + rest);
    if HeldBack(cfg, frames, rest) then
      var n := |frames| - 1;
      var before := Assemble(cfg, Idle, frames[..n]);
      before.end.r.First? && whole == Trace(before.msgs, Open(Headed(frames[n], before.end.r.asm)))
    else
      && whole.msgs == t.msgs
      && (t.end.Closed? ==> whole.end == t.end)
      && (t.end.Open? && whole.end.Closed? ==>
            t.end.r.First? && RefusedBeginning(cfg, t.end.r.asm, rest, whole.end.code))
  }

  lemma StreamFollowsGrammar(cfg: Config, frames: seq<Frame>, rest: seq<byte>)
    requires cfg.role.Server? ==> cfg.maxSize >= MAX_CONTROL
    requires (forall f :: f in frames ==> ValidFrame(f)) && Incomplete(rest)
    ensures FollowsGrammar(cfg, frames, rest)
  {
    if AllSeen(cfg, frames, rest) {
      RunFrames(cfg, Idle, frames, rest);
      var t := Assemble(cfg, Idle, frames);
      if t.end.Open? {
        OpenAtFrameBoundary(cfg, Idle, frames);
        IncompleteDeliversNothing(cfg, t.end.r.asm, rest);
        ClosedInsideFrame(cfg, t.end.r.asm, rest);
      }
      assert t.msgs + [] == t.msgs;
    } else {
      var n := |frames| - 1;
      assert frames == frames[..n] + [frames[n]];
      assert FramesBytes(frames) + rest == FramesBytes(frames);
      AssembleMore(cfg, Idle, frames[..n], frames[n]);
      EmptyLastFrame(cfg, frames[..n], frames[n]);
    }
  }

  /** Every stream follows the grammar, and the messages are all there unless an empty frame completing one is held back. */
  lemma ParserFollowsGrammar(cfg: Config, stream: seq<byte>)
    requires cfg.role.Server? ==> cfg.maxSize >= MAX_CONTROL
    ensures var (fs, rest) := Deframe(stream);
            && (forall f :: f in fs ==> ValidFrame(f))
            && FramesBytes(fs) + rest == stream && Incomplete(rest)
            && FollowsGrammar(cfg, fs, rest)
            && (Continue(cfg, START, stream).msgs == Assemble(cfg, Idle, fs).msgs <==>
                AllSeen(cfg, fs, rest) || !CompletesMessage(cfg, fs))
  {
    DeframeBytes(stream);
    var (fs, rest) := Deframe(stream);
    StreamFollowsGrammar(cfg, fs, rest);
    if !AllSeen(cfg, fs, rest) {
      assert FramesBytes(fs) + rest == FramesBytes(fs);
      EmptyMessageWaitsExactly(cfg, fs);
    }
  }

  /** Whether a message is under reassembly after these frames: data frames decide, control frames do not. */
  predicate MidMessage(open: bool, frames: seq<Frame>)
    decreases |frames|
  {
    if frames == [] then open
    else MidMessage(if IsControl(frames[0].op) then open else !frames[0].fin, frames[1..])
  }

  lemma {:induction false} OpenAtFrameBoundary(cfg: Config, asm: Assembly, frames: seq<Frame>)
    requires forall f :: f in frames ==> ValidFrame(f)
    ensures var end := Assemble(cfg, asm, frames).end;
      end.Open? ==> end.r.First? && (end.r.asm.Fragments? <==> MidMessage(asm.Fragments?, frames))
    decreases frames
  {
    if frames != [] {
      var o := FrameOutcome(cfg, asm, frames[0]);
      if !o.Fail? { OpenAtFrameBoundary(cfg, o.r.asm, frames[1..]); }
    }
  }

  // Reassembly as grouping.

  /** The payloads of a group of frames, one after the other. */
  function Joined(group: seq<Frame>): seq<byte> {
    if group == [] then [] else Joined(group[..|group| - 1]) + group[|group| - 1].payload
  }

  /** Data frames grouped into messages, a group ending with its final frame; `open` is the group begun before. */
  function Groups(open: seq<Frame>, frames: seq<Frame>): seq<seq<Frame>>
    decreases |frames|
  {
    if frames == [] then []
    else if frames[0].fin then [open + [frames[0]]] + Groups([], frames[1..])
    else Groups(open + [frames[0]], frames[1..])
  }

  /** The group the frames leave open. */
  function Unfinished(open: seq<Frame>, frames: seq<Frame>): seq<Frame>
    decreases |frames|
  {
    if frames == [] then open
    else Unfinished(if frames[0].fin then [] else open + [frames[0]], frames[1..])
  }

  function MessagesOf(groups: seq<seq<Frame>>): seq<Message> {
    if groups == [] then []
    else [Message(if groups[0] == [] then 0 else groups[0][0].op, Joined(groups[0]))] + MessagesOf(groups[1..])
  }

  function UnderReassembly(open: seq<Frame>): Assembly {
    if open == [] then Idle else Fragments(open[0].op, Joined(open))
  }

  /** Accepted data frames deliver one message per group: the opcode of its first frame and all its payloads, joined. */
  lemma {:induction false} Reassembly(cfg: Config, open: seq<Frame>, frames: seq<Frame>)
    requires forall f :: f in frames ==> ValidFrame(f) && !IsControl(f.op)
    requires Assemble(cfg, UnderReassembly(open), frames).end.Open?
    ensures Assemble(cfg, UnderReassembly(open), frames)
         == Trace(MessagesOf(Groups(open, frames)), Open(First(UnderReassembly(Unfinished(open, frames)))))
    decreases |frames|
  {
    if frames != [] {
      var f, fs := frames[0], frames[1..];
      var group := open + [f];
      assert group[..|open|] == open;
      GroupStep(cfg, open, f);
      Reassembly(cfg, if f.fin then [] else group, fs);
    }
  }

  /** What an accepted data frame does to the group before it. */
  lemma {:induction false} GroupStep(cfg: Config, open: seq<Frame>, f: Frame)
    requires ValidFrame(f) && !IsControl(f.op) && !FrameOutcome(cfg, UnderReassembly(open), f).Fail?
    ensures var group, o := open + [f], FrameOutcome(cfg, UnderReassembly(open), f);
      o == if f.fin then Deliver(First(Idle), Message(group[0].op, Joined(group))) else Next(First(UnderReassembly(group)))
  {
    JoinedMore(open, f);
  }

  lemma {:induction false} JoinedMore(open: seq<Frame>, f: Frame)
    ensures Joined(open + [f]) == Joined(open) + f.payload && (open == [] ==> Joined(open + [f]) == f.payload)
    ensures (open + [f])[0] == if open == [] then f else open[0]
  {
    var group := open + [f];
    assert group[..|group| - 1] == open && group[|group| - 1] == f;
    assert open == [] ==> Joined(open) + f.payload == f.payload;
  }

  // Control frames between fragments, section 5.4 of RFC 6455.

  /** A control frame the parser accepts wherever it stands. */
  predicate Interleavable(cfg: Config, f: Frame) {
    && ValidFrame(f) && HeaderPasses(cfg, f)
    && IsControl(f.op) && f.fin && |f.payload| <= MAX_CONTROL
    && (f.op == CLOSE ==> f.payload != [])
  }

  function DataFrames(frames: seq<Frame>): seq<Frame> {
    if frames == [] then []
    else if IsControl(frames[0].op) then DataFrames(frames[1..])
    else [frames[0]] + DataFrames(frames[1..])
  }

  function DataMessages(msgs: seq<Message>): seq<Message> {
    if msgs == [] then []
    else if IsControl(msgs[0].op) then DataMessages(msgs[1..])
    else [msgs[0]] + DataMessages(msgs[1..])
  }

  /**
   * Accepted control frames anywhere between the frames of data messages change neither the data messages
   * nor the message left under reassembly nor a closing code.
   */
  lemma {:induction false} Interleaving(cfg: Config, asm: Assembly, frames: seq<Frame>)
    requires forall f :: f in frames ==> ValidFrame(f)
    requires forall f :: f in frames && IsControl(f.op) ==> Interleavable(cfg, f)
    requires WellFormedAssembly(asm)
    ensures forall f :: f in DataFrames(frames) ==> ValidFrame(f)
    ensures DataMessages(Assemble(cfg, asm, frames).msgs) == Assemble(cfg, asm, DataFrames(frames)).msgs
    ensures Assemble(cfg, asm, frames).end == Assemble(cfg, asm, DataFrames(frames)).end
    decreases frames
  {
    if frames != [] {
      var f, fs := frames[0], frames[1..];
      var o := FrameOutcome(cfg, asm, f);
      Interleaving(cfg, asm, fs);
      if !o.Fail? { Interleaving(cfg, o.r.asm, fs); }
      if IsControl(f.op) {
        assert o == Deliver(First(asm), Message(f.op, f.payload));
        assert ([o.msg] + Assemble(cfg, asm, fs).msgs)[1..] == Assemble(cfg, asm, fs).msgs;
      } else {
        assert ([f] + DataFrames(fs))[1..] == DataFrames(fs);
        if o.Deliver? {
          assert IsData(o.msg.op);
          assert ([o.msg] + Assemble(cfg, o.r.asm, fs).msgs)[1..] == Assemble(cfg, o.r.asm, fs).msgs;
        }
      }
    }
  }

  // Exactly when chunking is invisible and messages stay within bounds.

  ghost predicate ChunkingInvisible(cfg: Config) {
    forall chunks :: RunChunks(cfg, START, chunks) == Continue(cfg, START, Concat(chunks))
  }

  ghost predicate MessagesBounded(cfg: Config) {
    forall stream, m :: m in Continue(cfg, START, stream).msgs ==> BoundedMessage(cfg, m)
  }

  /** A first fragment of 125 bytes, masked for a server. */
  function LongFragment(cfg: Config): Frame {
    Frame(false, 0, BINARY, 0, if cfg.role.Server? then Zeros(4) else [], Zeros(125))
  }

  function EmptyLastFragment(cfg: Config): Frame {
    Frame(true, 0, CONTINUATION, 0, if cfg.role.Server? then Zeros(4) else [], [])
  }

  /** With a limit below 125 an oversized fragmented message is delivered or refused as the chunks fall. */
  lemma SmallLimitShowsChunking(cfg: Config)
    requires cfg.role.Server? && cfg.maxSize < MAX_CONTROL
    ensures var a, b := FrameBytes(LongFragment(cfg)) + FrameBytes(EmptyLastFragment(cfg)), [0];
            && Continue(cfg, START, a) == Trace([Message(BINARY, Zeros(125))], START)
            && RunChunks(cfg, START, [a, b]).msgs != []
            && Continue(cfg, START, Concat([a, b])) == Trace([], Closed(MESSAGE_TOO_BIG))
  {
    var f, l := LongFragment(cfg), EmptyLastFragment(cfg);
    var asm := Fragments(BINARY, f.payload);
    var last := FrameBytes(l);
    var a, b := FrameBytes(f) + last, [0];
    assert FrameOutcome(cfg, Idle, f) == Next(First(asm));
    RunFrame(cfg, Idle, f, last);
    ScanHeader(cfg, asm, l, last);
    var m := Message(BINARY, asm.data + []);
    assert OnEmpty(cfg, Headed(l, asm), false) == Deliver(First(Idle), m);
    assert Scan(cfg, First(asm), last, 0) == Ready(First(Idle), m, |last|);
    assert Run(cfg, First(asm), last, 0) == Trace([m], Open(First(Idle)));
    assert m == Message(BINARY, Zeros(125));
    RunFrame(cfg, Idle, f, last + b);
    RunFrame(cfg, asm, l, b);
    assert [a, b][1..] == [b] && b + [] == b;
    assert Concat([b]) == b;
    assert Concat([a, b]) == FrameBytes(f) + (last + b);
  }

  lemma ChunkingInvisibleExactly(cfg: Config)
    ensures ChunkingInvisible(cfg) <==> cfg.role.Client? || cfg.maxSize >= MAX_CONTROL
  {
    if cfg.role.Client? || cfg.maxSize >= MAX_CONTROL {
      forall chunks ensures RunChunks(cfg, START, chunks) == Continue(cfg, START, Concat(chunks)) {
        ChunksAreTheStream(cfg, START, chunks);
      }
    } else {
      SmallLimitShowsChunking(cfg);
      var chunks := [FrameBytes(LongFragment(cfg)) + FrameBytes(EmptyLastFragment(cfg)), [0]];
      assert RunChunks(cfg, START, chunks) != Continue(cfg, START, Concat(chunks));
    }
  }

  ghost predicate AlwaysFollowsGrammar(cfg: Config) {
    forall frames, rest :: (forall f :: f in frames ==> ValidFrame(f)) && Incomplete(rest) ==> FollowsGrammar(cfg, frames, rest)
  }

  /** The parser follows the grammar on every stream exactly for clients and for servers with a limit of at least 125. */
  lemma GrammarFollowedExactly(cfg: Config)
    ensures AlwaysFollowsGrammar(cfg) <==> cfg.role.Client? || cfg.maxSize >= MAX_CONTROL
  {
    if cfg.role.Client? || cfg.maxSize >= MAX_CONTROL {
      forall frames, rest | (forall f :: f in frames ==> ValidFrame(f)) && Incomplete(rest)
        ensures FollowsGrammar(cfg, frames, rest)
      {
        StreamFollowsGrammar(cfg, frames, rest);
      }
    } else {
      SmallLimitBreaksGrammar(cfg);
    }
  }

  /** With a limit below 125 a server delivers a message that its frames do not amount to. */
  lemma SmallLimitBreaksGrammar(cfg: Config)
    requires cfg.role.Server? && cfg.maxSize < MAX_CONTROL
    ensures var frames := [LongFragment(cfg), EmptyLastFragment(cfg)];
            && (forall f :: f in frames ==> ValidFrame(f))
            && Incomplete([]) && !FollowsGrammar(cfg, frames, [])
  {
    var f, l := LongFragment(cfg), EmptyLastFragment(cfg);
    NoFrameIsIncomplete([]);
    SmallLimitShowsChunking(cfg);
    assert [f, l][1..] == [l] && [l][1..] == [];
    assert FramesBytes([l]) == FrameBytes(l) + [] == FrameBytes(l);
    assert FramesBytes([f, l]) + [] == FrameBytes(f) + FrameBytes(l);
    assert FrameOutcome(cfg, Idle, f) == Next(First(Fragments(BINARY, f.payload)));
    assert Assemble(cfg, Idle, [f, l]).msgs == [];
  }

  lemma MessagesBoundedExactly(cfg: Config)
    ensures MessagesBounded(cfg) <==> cfg.maxSize >= MAX_CONTROL
  {
    if cfg.maxSize >= MAX_CONTROL {
      forall stream, m | m in Continue(cfg, START, stream).msgs ensures BoundedMessage(cfg, m) {
        RunBounded(cfg, First(Idle), stream, 0);
      }
    } else {
      var f := LongFragment(cfg).(fin := true);
      RunFrame(cfg, Idle, f, []);
      assert FrameBytes(f) + [] == FrameBytes(f);
      var m := Message(BINARY, f.payload);
      assert FrameOutcome(cfg, Idle, f) == Deliver(First(Idle), m);
      assert Continue(cfg, START, FrameBytes(f)).msgs == [m] + Run(cfg, First(Idle), [], 0).msgs;
      assert m in Continue(cfg, START, FrameBytes(f)).msgs && !BoundedMessage(cfg, m);
    }
  }
}
