/** The parser seen frame by frame: every stream is a list of frames, and each frame has one effect. */
module FrameGrammar {
  import opened Wire
  import opened StreamSpec

  /** The effect of one whole frame on the message under reassembly. */
  function FrameOutcome(cfg: Config, asm: Assembly, f: Frame): Outcome
    requires ValidFrame(f)
  {
    if f.rsv != 0 then Fail(PROTOCOL_VIOLATION)
    else if !IsOpCodeSupported(f.op) then Fail(NO_COMPRENDE)
    else if (f.key != []) != cfg.role.Server? then Fail(PROTOCOL_VIOLATION)
    else if f.extended != 0 && |f.payload| > cfg.maxSize then Fail(MESSAGE_TOO_BIG)
    else match Classify(f.fin, f.op, |f.payload|, asm)
      case Reject(code) => Fail(code)
      case Accept(fseq) =>
        if (fseq.MIDDLE? || fseq.LAST?) && |asm.data| + |f.payload| > cfg.maxSize then Fail(MESSAGE_TOO_BIG)
        else Finish(f.op, f.payload, asm, fseq)
  }

  /** A scan that has come to outcome `o` with position `i` next. */
  function After(cfg: Config, o: Outcome, stream: seq<byte>, i: nat): ScanResult
    requires !o.Fail? ==> WellFormed(cfg.role, o.r)
    requires i <= |stream|
  {
    match o
    case Fail(code) => Violation(code)
    case Deliver(r, msg) => Ready(r, msg, i)
    case Next(r) => Scan(cfg, r, stream, i)
  }

  lemma ScanStep(cfg: Config, r: Reading, stream: seq<byte>, i: nat)
    requires WellFormed(cfg.role, r) && !Empty(r) && i < |stream|
    ensures var o := OnByte(cfg, r, stream[i]);
            && (!o.Fail? ==> WellFormed(cfg.role, o.r))
            && Scan(cfg, r, stream, i) == After(cfg, o, stream, i + 1)
  {
    OnByteWellFormed(cfg, r, stream[i]);
  }

  function AfterLength(cfg: Config, r: Reading, size: nat): Outcome
    requires r.Length?
  {
    if size > cfg.maxSize then Fail(MESSAGE_TOO_BIG) else Next(Sized(cfg, r.fin, r.op, size, r.asm))
  }

  predicate InsideLength(cfg: Config, r: Reading, stream: seq<byte>, i: nat, bytes: seq<byte>) {
    && WellFormed(cfg.role, r) && r.Length? && |bytes| == r.width
    && r.got == bytes[..|r.got|]
    && i + (r.width - |r.got|) <= |stream|
    && stream[i..i + (r.width - |r.got|)] == bytes[|r.got|..]
  }

  lemma LengthStep(cfg: Config, r: Reading, stream: seq<byte>, i: nat, bytes: seq<byte>)
    requires InsideLength(cfg, r, stream, i, bytes)
    ensures var k := |r.got| + 1;
            var r' := Length(r.fin, r.op, r.width, bytes[..k], r.asm);
            if k < r.width then OnByte(cfg, r, stream[i]) == Next(r') && InsideLength(cfg, r', stream, i + 1, bytes)
            else OnByte(cfg, r, stream[i]) == AfterLength(cfg, r, FromBigEndian(bytes))
  {
    var k := |r.got|;
    var rest := stream[i..i + (r.width - k)];
    assert stream[i] == rest[0] == bytes[k];
    assert r.got + [bytes[k]] == bytes[..k + 1];
    if k + 1 < r.width {
      assert stream[i + 1..i + (r.width - k)] == rest[1..] == bytes[k + 1..];
    } else {
      assert bytes[..k + 1] == bytes;
    }
  }

  /** An extended length, from any point inside it. */
  lemma {:induction false} ScanLength(cfg: Config, r: Reading, stream: seq<byte>, i: nat, bytes: seq<byte>)
    requires InsideLength(cfg, r, stream, i, bytes)
    ensures Scan(cfg, r, stream, i) ==
            After(cfg, AfterLength(cfg, r, FromBigEndian(bytes)), stream, i + (r.width - |r.got|))
    decreases r.width - |r.got|
  {
    LengthStep(cfg, r, stream, i, bytes);
    if |r.got| + 1 < r.width {
      ScanLength(cfg, Length(r.fin, r.op, r.width, bytes[..|r.got| + 1], r.asm), stream, i + 1, bytes);
    }
  }

  lemma {:induction false} ScanKey(cfg: Config, r: Reading, stream: seq<byte>, i: nat, key: seq<byte>)
    requires WellFormed(cfg.role, r) && r.Key?
    requires i + (4 - |r.got|) <= |stream|
    requires key == r.got + stream[i..i + (4 - |r.got|)]
    ensures |key| == 4
    ensures Scan(cfg, r, stream, i) == Scan(cfg, Body(r.fin, r.op, r.size, key, [], r.asm), stream, i + (4 - |r.got|))
    decreases 4 - |r.got|
  {
    ScanStep(cfg, r, stream, i);
    var got := r.got + [stream[i]];
    assert key == got + stream[i + 1..i + (4 - |r.got|)];
    if |got| < 4 {
      ScanKey(cfg, Key(r.fin, r.op, r.size, got, r.asm), stream, i + 1, key);
    } else {
      assert key == got;
    }
  }

  /** `data` is what `r` has got followed by unmasked bytes of the stream from position i on. */
  predicate Unmasks(r: Reading, stream: seq<byte>, i: nat, data: seq<byte>)
    requires r.Body? && IsKey(r.key)
  {
    && |r.got| <= |data| <= r.size
    && data[..|r.got|] == r.got
    && i + (|data| - |r.got|) <= |stream|
    && forall k :: |r.got| <= k < |data| ==> data[k] == MaskByte(stream[i + (k - |r.got|)], r.key, k)
  }

  lemma BodyStep(cfg: Config, r: Reading, stream: seq<byte>, i: nat, data: seq<byte>)
    requires WellFormed(cfg.role, r) && r.Body? && |r.got| < |data| && Unmasks(r, stream, i, data)
    requires Admit(cfg, r, true).Accept?
    ensures var k := |r.got| + 1;
            var r' := Body(r.fin, r.op, r.size, r.key, data[..k], r.asm);
            if k < r.size then OnByte(cfg, r, stream[i]) == Next(r') && WellFormed(cfg.role, r') && Unmasks(r', stream, i + 1, data)
            else OnByte(cfg, r, stream[i]) == Finish(r.op, data, r.asm, Admit(cfg, r, true).fseq)
  {
    var k := |r.got|;
    assert data[k] == MaskByte(stream[i], r.key, k);
    assert r.got + [data[k]] == data[..k + 1];
    if k + 1 == r.size {
      assert data[..k + 1] == data;
    }
  }

  /** A non-empty payload, from any point inside it up to any later one. */
  lemma {:induction false} ScanBody(cfg: Config, r: Reading, stream: seq<byte>, i: nat, data: seq<byte>)
    requires WellFormed(cfg.role, r) && r.Body? && r.size > 0 && Unmasks(r, stream, i, data)
    requires Admit(cfg, r, true).Accept?
    ensures var j := i + (|data| - |r.got|);
            if |data| < r.size then
              var r' := Body(r.fin, r.op, r.size, r.key, data, r.asm);
              WellFormed(cfg.role, r') && Scan(cfg, r, stream, i) == Scan(cfg, r', stream, j)
            else
              var o := Finish(r.op, data, r.asm, Admit(cfg, r, true).fseq);
              WellFormed(cfg.role, o.r) && Scan(cfg, r, stream, i) == After(cfg, o, stream, j)
    decreases |data| - |r.got|
  {
    if |r.got| < |data| {
      BodyStep(cfg, r, stream, i, data);
      if |r.got| + 1 < r.size {
        ScanBody(cfg, Body(r.fin, r.op, r.size, r.key, data[..|r.got| + 1], r.asm), stream, i + 1, data);
      }
    } else {
      assert data == r.got;
    }
  }

  /** The reading a parser is in once the header of an acceptable frame is complete. */
  function Headed(f: Frame, asm: Assembly): Reading {
    Body(f.fin, f.op, |f.payload|, f.key, [], asm)
  }

  predicate HeaderPasses(cfg: Config, f: Frame) {
    f.rsv == 0 && IsOpCodeSupported(f.op) && (f.key != []) == cfg.role.Server? &&
    (f.extended != 0 ==> |f.payload| <= cfg.maxSize)
  }

  lemma HeaderBits(f: Frame, stream: seq<byte>)
    requires ValidFrame(f) && FrameBytes(f) <= stream
    ensures stream[0] / 16 % 8 == f.rsv && stream[0] % 16 == f.op && (stream[0] / 128 == 1) == f.fin
    ensures (stream[1] / 128 == 1) == (f.key != [])
    ensures stream[1] % 128 == if f.extended == 0 then |f.payload| else if f.extended == 2 then 126 else 127
  {
    assert stream[0] == FirstByte(f) && stream[1] == SecondByte(f);
  }

  lemma FrameSlices(f: Frame, stream: seq<byte>)
    requires ValidFrame(f) && FrameBytes(f) <= stream
    ensures var i := 2 + f.extended;
            var j := i + |f.key|;
            && stream[2..i] == BigEndian(|f.payload|, f.extended)
            && stream[i..j] == f.key
            && stream[j..j + |f.payload|] == Masked(f.payload, f.key)
  {
    var i := 2 + f.extended;
    var j := i + |f.key|;
    assert stream[2..i] == FrameBytes(f)[2..i];
    assert stream[i..j] == FrameBytes(f)[i..j];
    assert stream[j..j + |f.payload|] == FrameBytes(f)[j..];
  }

  lemma ScanFirst(cfg: Config, asm: Assembly, f: Frame, stream: seq<byte>)
    requires ValidFrame(f) && WellFormedAssembly(asm) && FrameBytes(f) <= stream
    ensures Scan(cfg, First(asm), stream, 0) ==
            if f.rsv != 0 then Violation(PROTOCOL_VIOLATION)
            else if !IsOpCodeSupported(f.op) then Violation(NO_COMPRENDE)
            else Scan(cfg, Second(f.fin, f.op, asm), stream, 1)
  {
    HeaderBits(f, stream);
    ScanStep(cfg, First(asm), stream, 0);
  }

  lemma ScanSecond(cfg: Config, asm: Assembly, f: Frame, stream: seq<byte>)
    requires ValidFrame(f) && WellFormedAssembly(asm) && FrameBytes(f) <= stream && IsOpCodeSupported(f.op)
    ensures Scan(cfg, Second(f.fin, f.op, asm), stream, 1) ==
            if (f.key != []) != cfg.role.Server? then Violation(PROTOCOL_VIOLATION)
            else if f.extended == 0 then Scan(cfg, Sized(cfg, f.fin, f.op, |f.payload|, asm), stream, 2)
            else Scan(cfg, Length(f.fin, f.op, f.extended, [], asm), stream, 2)
  {
    HeaderBits(f, stream);
    ScanStep(cfg, Second(f.fin, f.op, asm), stream, 1);
  }

  lemma ScanExtended(cfg: Config, asm: Assembly, f: Frame, stream: seq<byte>)
    requires ValidFrame(f) && WellFormedAssembly(asm) && FrameBytes(f) <= stream && IsOpCodeSupported(f.op)
    requires f.extended != 0
    ensures Scan(cfg, Length(f.fin, f.op, f.extended, [], asm), stream, 2) ==
            if |f.payload| > cfg.maxSize then Violation(MESSAGE_TOO_BIG)
            else Scan(cfg, Sized(cfg, f.fin, f.op, |f.payload|, asm), stream, 2 + f.extended)
  {
    FrameSlices(f, stream);
    BigEndianInverse(|f.payload|, f.extended);
    var bytes := BigEndian(|f.payload|, f.extended);
    ScanLength(cfg, Length(f.fin, f.op, f.extended, [], asm), stream, 2, bytes);
  }

  lemma ScanSized(cfg: Config, asm: Assembly, f: Frame, stream: seq<byte>)
    requires ValidFrame(f) && WellFormedAssembly(asm) && FrameBytes(f) <= stream
    requires IsOpCodeSupported(f.op) && (f.key != []) == cfg.role.Server?
    ensures WellFormed(cfg.role, Headed(f, asm))
    ensures Scan(cfg, Sized(cfg, f.fin, f.op, |f.payload|, asm), stream, 2 + f.extended) ==
            Scan(cfg, Headed(f, asm), stream, 2 + f.extended + |f.key|)
  {
    if cfg.role.Server? {
      var i := 2 + f.extended;
      FrameSlices(f, stream);
      assert f.key == [] + stream[i..i + 4];
      ScanKey(cfg, Key(f.fin, f.op, |f.payload|, [], asm), stream, i, f.key);
    }
  }

  /** The header of a frame, whatever follows it. */
  lemma ScanHeader(cfg: Config, asm: Assembly, f: Frame, stream: seq<byte>)
    requires ValidFrame(f) && WellFormedAssembly(asm) && FrameBytes(f) <= stream
    ensures HeaderPasses(cfg, f) ==> WellFormed(cfg.role, Headed(f, asm))
    ensures Scan(cfg, First(asm), stream, 0) ==
            if HeaderPasses(cfg, f) then Scan(cfg, Headed(f, asm), stream, 2 + f.extended + |f.key|)
            else Violation(FrameOutcome(cfg, asm, f).code)
  {
    ScanFirst(cfg, asm, f, stream);
    if f.rsv == 0 && IsOpCodeSupported(f.op) {
      ScanSecond(cfg, asm, f, stream);
      if (f.key != []) == cfg.role.Server? {
        if f.extended != 0 { ScanExtended(cfg, asm, f, stream); }
        if HeaderPasses(cfg, f) { ScanSized(cfg, asm, f, stream); }
      }
    }
  }

  /** An acceptable header leaves the frame to the verdict on the complete header. */
  lemma HeadedOutcome(cfg: Config, asm: Assembly, f: Frame)
    requires ValidFrame(f) && HeaderPasses(cfg, f)
    ensures FrameOutcome(cfg, asm, f) ==
            match Admit(cfg, Headed(f, asm), true)
            case Reject(code) => Fail(code)
            case Accept(fseq) => Finish(f.op, f.payload, asm, fseq)
  {
  }

  lemma PayloadAhead(cfg: Config, asm: Assembly, f: Frame, stream: seq<byte>)
    requires ValidFrame(f) && FrameBytes(f) <= stream && f.payload != []
    requires WellFormed(cfg.role, Headed(f, asm)) && Admit(cfg, Headed(f, asm), true).Accept?
    ensures Unmasks(Headed(f, asm), stream, 2 + f.extended + |f.key|, f.payload)
  {
    PayloadUnmasked(f, stream);
    assert f.payload[..0] == [];
  }

  lemma SliceUnmasked(stream: seq<byte>, j: nat, data: seq<byte>, key: seq<byte>)
    requires IsKey(key) && j + |data| <= |stream| && stream[j..j + |data|] == Masked(data, key)
    ensures forall k :: 0 <= k < |data| ==> data[k] == MaskByte(stream[j + k], key, k)
  {
    var masked := Masked(data, key);
    MaskedTwice(data, key);
    forall k | 0 <= k < |data| ensures data[k] == MaskByte(stream[j + k], key, k) {
      assert stream[j + k] == stream[j..j + |data|][k] == masked[k];
      assert data[k] == Masked(masked, key)[k];
    }
  }

  lemma PayloadUnmasked(f: Frame, stream: seq<byte>)
    requires ValidFrame(f) && FrameBytes(f) <= stream
    ensures var j := 2 + f.extended + |f.key|;
            forall k :: 0 <= k < |f.payload| ==> f.payload[k] == MaskByte(stream[j + k], f.key, k)
  {
    FrameSlices(f, stream);
    SliceUnmasked(stream, 2 + f.extended + |f.key|, f.payload, f.key);
  }

  lemma ScanPayload(cfg: Config, asm: Assembly, f: Frame, stream: seq<byte>)
    requires ValidFrame(f) && FrameBytes(f) <= stream && HeaderPasses(cfg, f) && f.payload != []
    requires WellFormed(cfg.role, Headed(f, asm))
    ensures var o := FrameOutcome(cfg, asm, f);
            && (!o.Fail? ==> WellFormed(cfg.role, o.r) && o.r.First?)
            && Scan(cfg, Headed(f, asm), stream, 2 + f.extended + |f.key|) == After(cfg, o, stream, |FrameBytes(f)|)
  {
    HeadedOutcome(cfg, asm, f);
    var r := Headed(f, asm);
    if Admit(cfg, r, true).Accept? {
      PayloadAhead(cfg, asm, f, stream);
      ScanBody(cfg, r, stream, 2 + f.extended + |f.key|, f.payload);
    }
  }

  lemma ScanNoPayload(cfg: Config, asm: Assembly, f: Frame, stream: seq<byte>)
    requires ValidFrame(f) && FrameBytes(f) < stream && HeaderPasses(cfg, f) && f.payload == []
    requires WellFormed(cfg.role, Headed(f, asm))
    ensures var o := FrameOutcome(cfg, asm, f);
            && (!o.Fail? ==> WellFormed(cfg.role, o.r) && o.r.First?)
            && Scan(cfg, Headed(f, asm), stream, |FrameBytes(f)|) == After(cfg, o, stream, |FrameBytes(f)|)
  {
    OnEmptyWellFormed(cfg, Headed(f, asm), true);
  }

  /** One frame, whatever follows it: a message is delivered exactly at the frame's last byte. */
  lemma ScanFrame(cfg: Config, asm: Assembly, f: Frame, stream: seq<byte>)
    requires ValidFrame(f) && WellFormedAssembly(asm)
    requires FrameBytes(f) <= stream
    requires f.payload == [] ==> FrameBytes(f) != stream
    ensures var o := FrameOutcome(cfg, asm, f);
            && (!o.Fail? ==> WellFormed(cfg.role, o.r) && o.r.First?)
            && Scan(cfg, First(asm), stream, 0) == After(cfg, o, stream, |FrameBytes(f)|)
  {
    ScanHeader(cfg, asm, f, stream);
    if HeaderPasses(cfg, f) {
      if f.payload == [] { ScanNoPayload(cfg, asm, f, stream); } else { ScanPayload(cfg, asm, f, stream); }
    }
  }
}
