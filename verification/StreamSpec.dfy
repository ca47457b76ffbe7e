/**
 * The WebSocket stream parser as a byte-at-a-time machine, for both ends of a connection, and the
 * result of running it over a stream that arrives in chunks.
 */
module StreamSpec {
  import opened Wire

  datatype Role = Server | Client

  /** A parser's role and the largest message it accepts. */
  datatype Config = Config(role: Role, maxSize: nat)

  /** The data message under reassembly, if a first fragment has been seen and its last has not. */
  datatype Assembly = Idle | Fragments(op: byte, data: seq<byte>)

  /** What the parser has read of the current frame. */
  datatype Reading =
    | First(asm: Assembly)
    | Second(fin: bool, op: byte, asm: Assembly)
    | Length(fin: bool, op: byte, width: nat, got: seq<byte>, asm: Assembly)
    | Key(fin: bool, op: byte, size: nat, got: seq<byte>, asm: Assembly)
    | Body(fin: bool, op: byte, size: nat, key: seq<byte>, got: seq<byte>, asm: Assembly)

  datatype FrameSeq = SINGLE | FIRST | MIDDLE | LAST

  datatype Verdict = Accept(fseq: FrameSeq) | Reject(code: CloseCode)

  datatype Outcome = Next(r: Reading) | Deliver(r: Reading, msg: Message) | Fail(code: CloseCode)

  /** What a parser of this role can have read. */
  predicate WellFormed(role: Role, r: Reading) {
    match r
    case First(asm) => WellFormedAssembly(asm)
    case Second(_, op, asm) => IsOpCodeSupported(op) && WellFormedAssembly(asm)
    case Length(_, op, width, got, asm) =>
      IsOpCodeSupported(op) && (width == 2 || width == 8) && |got| < width && WellFormedAssembly(asm)
    case Key(_, op, size, got, asm) =>
      IsOpCodeSupported(op) && role.Server? && |got| < 4 && WellFormedAssembly(asm)
    case Body(fin, op, size, key, got, asm) =>
      && IsOpCodeSupported(op) && WellFormedAssembly(asm)
      && |key| == (if role.Server? then 4 else 0)
      && |got| <= size && (|got| == size ==> size == 0)
      && (got != [] ==> Classify(fin, op, size, asm).Accept?)
  }

  predicate WellFormedAssembly(asm: Assembly) {
    asm.Fragments? ==> IsData(asm.op)
  }

  /** Section 5.4 and 5.5 of RFC 6455: where a frame with this header stands, or why it is refused. */
  function Classify(fin: bool, op: byte, size: nat, asm: Assembly): Verdict {
    if IsControl(op) then
      if !fin then Reject(PROTOCOL_VIOLATION)
      else if op == CLOSE && size == 0 then Reject(NORMAL)
      else if size > MAX_CONTROL then Reject(PROTOCOL_VIOLATION)
      else Accept(SINGLE)
    else if IsData(op) && asm.Idle? then Accept(if fin then SINGLE else FIRST)
    else if op == CONTINUATION && asm.Fragments? then Accept(if fin then LAST else MIDDLE)
    else Reject(PROTOCOL_VIOLATION)
  }

  /**
   * The verdict on a frame whose header is complete. The reassembled size is only compared with the
   * limit before the first payload byte, and only while more bytes are at hand.
   */
  function Admit(cfg: Config, r: Reading, more: bool): Verdict
    requires r.Body?
  {
    var v := Classify(r.fin, r.op, r.size, r.asm);
    if v.Accept? && (v.fseq.MIDDLE? || v.fseq.LAST?) && more && r.got == [] && |r.asm.data| + r.size > cfg.maxSize
    then Reject(MESSAGE_TOO_BIG)
    else v
  }

  /** The effect of a complete, admitted frame with application data `data`. */
  function Finish(op: byte, data: seq<byte>, asm: Assembly, fseq: FrameSeq): Outcome
    requires (fseq.MIDDLE? || fseq.LAST?) ==> asm.Fragments?
  {
    match fseq
    case SINGLE => Deliver(First(asm), Message(op, data))
    case FIRST => Next(First(Fragments(op, data)))
    case MIDDLE => Next(First(Fragments(asm.op, asm.data + data)))
    case LAST => Deliver(First(Idle), Message(asm.op, asm.data + data))
  }

  /** A header whose length field has just been completed. */
  function Sized(cfg: Config, fin: bool, op: byte, size: nat, asm: Assembly): Reading {
    if cfg.role.Server? then Key(fin, op, size, [], asm) else Body(fin, op, size, [], [], asm)
  }

  function OnFirst(cfg: Config, b: byte, asm: Assembly): Outcome {
    if b / 16 % 8 != 0 then Fail(PROTOCOL_VIOLATION)
    else if !IsOpCodeSupported(b % 16) then Fail(NO_COMPRENDE)
    else Next(Second(b / 128 == 1, b % 16, asm))
  }

  function OnSecond(cfg: Config, b: byte, fin: bool, op: byte, asm: Assembly): Outcome {
    if (b / 128 == 1) != cfg.role.Server? then Fail(PROTOCOL_VIOLATION)
    else if b % 128 < 126 then Next(Sized(cfg, fin, op, b % 128, asm))
    else Next(Length(fin, op, if b % 128 == 126 then 2 else 8, [], asm))
  }

  function OnLength(cfg: Config, b: byte, r: Reading): Outcome
    requires r.Length?
  {
    var got := r.got + [b];
    if |got| < r.width then Next(Length(r.fin, r.op, r.width, got, r.asm))
    else if FromBigEndian(got) > cfg.maxSize then Fail(MESSAGE_TOO_BIG)
    else Next(Sized(cfg, r.fin, r.op, FromBigEndian(got), r.asm))
  }

  function OnKey(b: byte, r: Reading): Outcome
    requires r.Key?
  {
    var got := r.got + [b];
    if |got| < 4 then Next(Key(r.fin, r.op, r.size, got, r.asm))
    else Next(Body(r.fin, r.op, r.size, got, [], r.asm))
  }

  function OnBody(cfg: Config, b: byte, r: Reading): Outcome
    requires r.Body? && IsKey(r.key)
  {
    match Admit(cfg, r, true)
    case Reject(code) => Fail(code)
    case Accept(fseq) =>
      var got := r.got + [MaskByte(b, r.key, |r.got|)];
      if |got| < r.size then Next(Body(r.fin, r.op, r.size, r.key, got, r.asm)) else Finish(r.op, got, r.asm, fseq)
  }

  /** One byte. */
  function OnByte(cfg: Config, r: Reading, b: byte): Outcome
    requires WellFormed(cfg.role, r)
  {
    match r
    case First(asm) => OnFirst(cfg, b, asm)
    case Second(fin, op, asm) => OnSecond(cfg, b, fin, op, asm)
    case Length(_, _, _, _, _) => OnLength(cfg, b, r)
    case Key(_, _, _, _, _) => OnKey(b, r)
    case Body(_, _, _, _, _, _) => OnBody(cfg, b, r)
  }

  /** A complete header announcing an empty payload: the frame completes without reading a byte. */
  predicate Empty(r: Reading) {
    r.Body? && r.size == 0
  }

  function OnEmpty(cfg: Config, r: Reading, more: bool): Outcome
    requires Empty(r)
  {
    match Admit(cfg, r, more)
    case Reject(code) => Fail(code)
    case Accept(fseq) => Finish(r.op, [], r.asm, fseq)
  }

  lemma OnByteWellFormed(cfg: Config, r: Reading, b: byte)
    requires WellFormed(cfg.role, r)
    requires !Empty(r)
    ensures !OnByte(cfg, r, b).Fail? ==> WellFormed(cfg.role, OnByte(cfg, r, b).r)
    ensures OnByte(cfg, r, b).Deliver? ==> OnByte(cfg, r, b).r.First?
  {
    match r
    case Body(_, _, _, _, _, _) => OnBodyWellFormed(cfg, r, b);
    case Length(_, _, _, _, _) => OnLengthWellFormed(cfg, r, b);
    case _ =>
  }

  lemma OnLengthWellFormed(cfg: Config, r: Reading, b: byte)
    requires WellFormed(cfg.role, r) && r.Length?
    ensures var o := OnLength(cfg, b, r); !o.Deliver? && (o.Next? ==> WellFormed(cfg.role, o.r))
  {
  }

  lemma OnBodyWellFormed(cfg: Config, r: Reading, b: byte)
    requires WellFormed(cfg.role, r) && r.Body? && !Empty(r)
    ensures var o := OnBody(cfg, b, r); (!o.Fail? ==> WellFormed(cfg.role, o.r)) && (o.Deliver? ==> o.r.First?)
  {
  }

  lemma OnEmptyWellFormed(cfg: Config, r: Reading, more: bool)
    requires WellFormed(cfg.role, r)
    requires Empty(r)
    ensures !OnEmpty(cfg, r, more).Fail? ==> WellFormed(cfg.role, OnEmpty(cfg, r, more).r) && OnEmpty(cfg, r, more).r.First?
  {
  }

  // One call of the parser: up to the next message, a violation or the end of the chunk.

  datatype ScanResult = More(r: Reading) | Ready(r: Reading, msg: Message, next: nat) | Violation(code: CloseCode)

  /** An empty frame completes at once, except that a client waits for the byte after it. */
  predicate Settles(cfg: Config, r: Reading, more: bool) {
    Empty(r) && (cfg.role.Server? || more)
  }

  function Measure(r: Reading, left: nat): nat {
    2 * left + (if Empty(r) then 1 else 0)
  }

  function Scan(cfg: Config, r: Reading, stream: seq<byte>, i: nat): (res: ScanResult)
    requires WellFormed(cfg.role, r)
    requires i <= |stream|
    ensures res.More? ==> WellFormed(cfg.role, res.r) && !Settles(cfg, res.r, false)
    ensures res.Ready? ==> WellFormed(cfg.role, res.r) && res.r.First? && i <= res.next <= |stream|
    ensures res.Ready? && res.next == i ==> Empty(r)
    decreases Measure(r, |stream| - i), 1
  {
    if Settles(cfg, r, i < |stream|) then ScanEmpty(cfg, r, stream, i)
    else if i == |stream| then More(r)
    else ScanByte(cfg, r, stream, i)
  }

  /** An empty frame, and on. */
  function ScanEmpty(cfg: Config, r: Reading, stream: seq<byte>, i: nat): (res: ScanResult)
    requires WellFormed(cfg.role, r) && i <= |stream| && Settles(cfg, r, i < |stream|)
    ensures res.More? ==> WellFormed(cfg.role, res.r) && !Settles(cfg, res.r, false)
    ensures res.Ready? ==> WellFormed(cfg.role, res.r) && res.r.First? && i <= res.next <= |stream|
    decreases Measure(r, |stream| - i), 0
  {
    OnEmptyWellFormed(cfg, r, i < |stream|);
    match OnEmpty(cfg, r, i < |stream|)
    case Fail(code) => Violation(code)
    case Deliver(r', msg) => Ready(r', msg, i)
    case Next(r') => Scan(cfg, r', stream, i)
  }

  /** The next byte, and on. */
  function ScanByte(cfg: Config, r: Reading, stream: seq<byte>, i: nat): (res: ScanResult)
    requires WellFormed(cfg.role, r) && i < |stream| && !Empty(r)
    ensures res.More? ==> WellFormed(cfg.role, res.r) && !Settles(cfg, res.r, false)
    ensures res.Ready? ==> WellFormed(cfg.role, res.r) && res.r.First? && i < res.next <= |stream|
    decreases Measure(r, |stream| - i), 0
  {
    OnByteWellFormed(cfg, r, stream[i]);
    match OnByte(cfg, r, stream[i])
    case Fail(code) => Violation(code)
    case Deliver(r', msg) => Ready(r', msg, i + 1)
    case Next(r') => Scan(cfg, r', stream, i + 1)
  }

  // The driver's loop over one chunk, and over a list of chunks.

  datatype End = Open(r: Reading) | Closed(code: CloseCode)

  /** Messages delivered, and how the parser is left. */
  datatype Trace = Trace(msgs: seq<Message>, end: End)

  predicate WellFormedEnd(cfg: Config, end: End) {
    end.Open? ==> WellFormed(cfg.role, end.r) && !Settles(cfg, end.r, false)
  }

  function Prepend(msgs: seq<Message>, t: Trace): Trace {
    Trace(msgs + t.msgs, t.end)
  }

  function Run(cfg: Config, r: Reading, stream: seq<byte>, i: nat): (t: Trace)
    requires WellFormed(cfg.role, r)
    requires i <= |stream|
    ensures WellFormedEnd(cfg, t.end)
    decreases Measure(r, |stream| - i)
  {
    match Scan(cfg, r, stream, i)
    case More(r') => Trace([], Open(r'))
    case Violation(code) => Trace([], Closed(code))
    case Ready(r', msg, next) =>
      if next < |stream| then Prepend([msg], Run(cfg, r', stream, next)) else Trace([msg], Open(r'))
  }

  function Continue(cfg: Config, end: End, chunk: seq<byte>): (t: Trace)
    requires WellFormedEnd(cfg, end)
    ensures WellFormedEnd(cfg, t.end)
  {
    match end
    case Closed(_) => Trace([], end)
    case Open(r) => Run(cfg, r, chunk, 0)
  }

  function RunChunks(cfg: Config, end: End, chunks: seq<seq<byte>>): (t: Trace)
    requires WellFormedEnd(cfg, end)
    ensures WellFormedEnd(cfg, t.end)
    decreases chunks
  {
    if chunks == [] then Trace([], end)
    else
      var t := Continue(cfg, end, chunks[0]);
      Prepend(t.msgs, RunChunks(cfg, t.end, chunks[1..]))
  }

  function Concat(chunks: seq<seq<byte>>): seq<byte> {
    if chunks == [] then [] else chunks[0] + Concat(chunks[1..])
  }
}
