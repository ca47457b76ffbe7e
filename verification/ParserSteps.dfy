/** What the steps of the stream parser need: facts about the scan, filling a buffer, and agreement with the scan. */
module ParserSteps {
  import opened Wire
  import opened Words
  import opened StreamSpec
  import opened FrameGrammar

  datatype Directive = MORE | TAKE_READY_MESSAGE | CLOSE_WITH_CODE | CONTINUE

  datatype Result = Result(cursor: nat, directive: Directive, code: CloseCode)

  // Agreement with a scan that started from `before` at `offset`; `now` is what has been read, `valid` whether the
  // parser that says so is valid.

  /** Up to the payload. */
  ghost predicate Follows(
      cfg: Config, before: Reading, stream: seq<byte>, offset: nat, res: Result, cursor: nat, valid: bool, now: Reading)
  {
    && WellFormed(cfg.role, before) && offset <= |stream|
    && match res.directive
    case MORE => valid && Scan(cfg, before, stream, offset) == More(now)
    case CLOSE_WITH_CODE => Scan(cfg, before, stream, offset) == Violation(res.code)
    case CONTINUE =>
      && valid && WellFormed(cfg.role, now) && offset <= res.cursor == cursor <= |stream|
      && Scan(cfg, before, stream, offset) == Scan(cfg, now, stream, cursor)
    case TAKE_READY_MESSAGE => false
  }

  /** Up to the end of a frame; `done` whether the parser has completed one, and `o` what that does. */
  ghost predicate FollowsPayload(
      cfg: Config, before: Reading, stream: seq<byte>, offset: nat, res: Result, cursor: nat, valid: bool, now: Reading,
      done: bool, size: nat, o: Outcome)
  {
    && WellFormed(cfg.role, before) && offset <= |stream|
    && match res.directive
    case MORE => valid && Scan(cfg, before, stream, offset) == More(now)
    case CLOSE_WITH_CODE => Scan(cfg, before, stream, offset) == Violation(res.code)
    case CONTINUE =>
      && done && !o.Fail? && offset <= res.cursor == cursor <= |stream| && (size > 0 ==> cursor > offset)
      && WellFormed(cfg.role, o.r) && Scan(cfg, before, stream, offset) == After(cfg, o, stream, cursor)
    case TAKE_READY_MESSAGE => false
  }

  /** Up to the next message; `ready` whether the parser holds one, and `o` how it is handed over. */
  ghost predicate FollowsCall(
      cfg: Config, before: Reading, stream: seq<byte>, offset: nat, res: Result, valid: bool, now: Reading, ready: bool,
      o: Outcome)
  {
    && WellFormed(cfg.role, before) && offset <= |stream|
    && match res.directive
    case MORE => valid && Scan(cfg, before, stream, offset) == More(now)
    case CLOSE_WITH_CODE => Scan(cfg, before, stream, offset) == Violation(res.code)
    case TAKE_READY_MESSAGE =>
      ready && o.Deliver? && Scan(cfg, before, stream, offset) == Ready(o.r, o.msg, res.cursor)
    case CONTINUE => false
  }

  /** `std::vector::resize`. */
  function Resize(s: seq<byte>, n: nat): (r: seq<byte>)
    ensures |r| == n
    ensures forall k :: 0 <= k < n ==> r[k] == if k < |s| then s[k] else 0
    ensures |s| <= n ==> r[..|s|] == s
  {
    if n <= |s| then s[..n] else s + seq(n - |s|, _ => 0)
  }

  lemma SliceOfSlice(s: seq<byte>, from: nat, n: nat)
    requires from + n <= |s|
    ensures s[from..][..n] == s[from..from + n]
  {
  }

  /** What the second byte of a header leads to. */
  lemma SecondByteRead(cfg: Config, r: Reading, stream: seq<byte>, i: nat)
    requires WellFormed(cfg.role, r) && r.Second? && i < |stream|
    ensures (stream[i] / 128 == 1) != cfg.role.Server? ==> Scan(cfg, r, stream, i) == Violation(PROTOCOL_VIOLATION)
    ensures (stream[i] / 128 == 1) == cfg.role.Server? ==>
      var small := stream[i] % 128;
      var r' := if small < 126 then Sized(cfg, r.fin, r.op, small, r.asm)
                else Length(r.fin, r.op, if small == 126 then 2 else 8, [], r.asm);
      WellFormed(cfg.role, r') && Scan(cfg, r, stream, i) == Scan(cfg, r', stream, i + 1)
  {
    ScanStep(cfg, r, stream, i);
  }

  /** What a completed extended length leads to. */
  lemma LengthTaken(cfg: Config, r: Reading, stream: seq<byte>, i: nat, size: nat)
    requires WellFormed(cfg.role, r) && r.Length? && i < |stream|
    requires Scan(cfg, r, stream, i) == After(cfg, AfterLength(cfg, r, size), stream, i + 1)
    ensures size > cfg.maxSize ==> Scan(cfg, r, stream, i) == Violation(MESSAGE_TOO_BIG)
    ensures size <= cfg.maxSize ==>
      var r' := Sized(cfg, r.fin, r.op, size, r.asm);
      && WellFormed(cfg.role, r') && Scan(cfg, r, stream, i) == Scan(cfg, r', stream, i + 1)
      && (i + 1 == |stream| && !Settles(cfg, r', false) ==> Scan(cfg, r, stream, i) == More(r'))
  {
  }

  lemma ScanEnd(cfg: Config, r: Reading, stream: seq<byte>)
    requires WellFormed(cfg.role, r) && !Settles(cfg, r, false)
    ensures Scan(cfg, r, stream, |stream|) == More(r)
  {
  }

  /** There is room for a fragment, behind the earlier ones unless it is the first. */
  predicate Reserved(frames: seq<byte>, size: nat, first: bool, earlier: seq<byte>) {
    size <= |frames| && if first then |frames| == size else frames[..|frames| - size] == earlier
  }

  lemma RoomForFirst(frames: seq<byte>, size: nat, earlier: seq<byte>)
    ensures var frames' := Resize(frames, size); Reserved(frames', size, true, earlier) && frames'[|frames'| - size..][..0] == []
  {
  }

  lemma RoomBehind(frames: seq<byte>, size: nat)
    ensures var frames' := Resize(frames, |frames| + size);
            Reserved(frames', size, false, frames) && frames'[|frames'| - size..][..0] == []
  {
  }

  lemma NoRoomNeeded(frames: seq<byte>)
    ensures Reserved(frames, 0, false, frames) && frames[|frames|..][..0] == []
  {
  }

  lemma StillReserved(frames: seq<byte>, frames': seq<byte>, size: nat, first: bool, earlier: seq<byte>)
    requires Reserved(frames, size, first, earlier)
    requires |frames'| == |frames| && frames'[..|frames| - size] == frames[..|frames| - size]
    ensures Reserved(frames', size, first, earlier)
  {
  }

  lemma FromStart(s: seq<byte>, n: nat)
    requires n <= |s|
    ensures s[0..n] == s[..n] && s[0..0 + n] == s[..n]
  {
  }

  lemma NextLengthByte(cfg: Config, r: Reading, stream: seq<byte>, i: nat)
    requires WellFormed(cfg.role, r) && r.Length? && i < |stream| && |r.got| + 1 < r.width
    ensures var r' := Length(r.fin, r.op, r.width, r.got + [stream[i]], r.asm);
            WellFormed(cfg.role, r') && Scan(cfg, r, stream, i) == Scan(cfg, r', stream, i + 1)
  {
    ScanStep(cfg, r, stream, i);
  }

  lemma LastLengthByte(cfg: Config, r: Reading, stream: seq<byte>, i: nat, bytes: seq<byte>)
    requires WellFormed(cfg.role, r) && r.Length? && i < |stream|
    requires |bytes| == r.width == |r.got| + 1 && bytes[..|r.got|] == r.got && bytes[|r.got|] == stream[i]
    ensures Scan(cfg, r, stream, i) == After(cfg, AfterLength(cfg, r, FromBigEndian(bytes)), stream, i + 1)
  {
    assert bytes == r.got + [stream[i]];
    ScanStep(cfg, r, stream, i);
  }

  lemma LastKeyByte(cfg: Config, r: Reading, stream: seq<byte>, i: nat, key: seq<byte>)
    requires WellFormed(cfg.role, r) && r.Key? && i < |stream|
    requires |key| == 4 == |r.got| + 1 && key[..3] == r.got && key[3] == stream[i]
    ensures var r' := Body(r.fin, r.op, r.size, key, [], r.asm);
            WellFormed(cfg.role, r') && Scan(cfg, r, stream, i) == Scan(cfg, r', stream, i + 1)
  {
    assert key == r.got + [stream[i]];
    ScanStep(cfg, r, stream, i);
  }

  /** Bytes masked as payload from `offset` on. */
  function MaskedFrom(s: seq<byte>, key: seq<byte>, offset: nat): (r: seq<byte>)
    requires IsKey(key)
    ensures |r| == |s|
  {
    seq(|s|, k requires 0 <= k < |s| => MaskByte(s[k], key, offset + k))
  }

  lemma MaskedFromJoin(a: seq<byte>, b: seq<byte>, key: seq<byte>, offset: nat)
    requires IsKey(key)
    ensures MaskedFrom(a + b, key, offset) == MaskedFrom(a, key, offset) + MaskedFrom(b, key, offset + |a|)
  {
  }

  /**
   * `out` is `buffer` with payload bytes ready..upto, unmasked, written from position base + ready on; they
   * were read from positions from..to of the stream. Nothing else changes.
   */
  ghost predicate Filled(stream: seq<byte>, from: nat, to: nat, buffer: seq<byte>, base: nat, ready: nat, key: seq<byte>,
                         upto: nat, out: seq<byte>)
  {
    && |out| == |buffer| && base + upto <= |out| && from <= to <= |stream| && to - from == upto - ready && IsKey(key)
    && out == buffer[..base + ready] + MaskedFrom(stream[from..to], key, ready) + buffer[base + upto..]
  }

  /** `out` with `block` written at `at`. */
  function Written(out: seq<byte>, at: nat, block: seq<byte>): (r: seq<byte>)
    requires at + |block| <= |out|
    ensures |r| == |out|
  {
    out[..at] + block + out[at + |block|..]
  }

  /** Writing behind what has been written. */
  lemma WrittenBehind(a: seq<byte>, m: seq<byte>, b: seq<byte>, block: seq<byte>)
    requires |block| <= |b|
    ensures Written(a + m + b, |a| + |m|, block) == a + (m + block) + b[|block|..]
  {
    var out := a + m + b;
    assert out[..|a| + |m|] == a + m;
    assert out[|a| + |m| + |block|..] == b[|block|..];
  }

  lemma MaskedBehind(
      out: seq<byte>, at: nat, block: seq<byte>, a: seq<byte>, was: seq<byte>, more: seq<byte>, key: seq<byte>,
      ready: nat, b: seq<byte>)
    requires IsKey(key) && |block| == |more| <= |b|
    requires out == a + MaskedFrom(was, key, ready) + b && at == |a| + |was| && block == MaskedFrom(more, key, ready + |was|)
    ensures at + |block| <= |out| && Written(out, at, block) == a + MaskedFrom(was + more, key, ready) + b[|block|..]
  {
    WrittenBehind(a, MaskedFrom(was, key, ready), b, block);
    MaskedFromJoin(was, more, key, ready);
  }

  lemma FillBlock(stream: seq<byte>, from: nat, to: nat, buffer: seq<byte>, base: nat, ready: nat, key: seq<byte>,
                  upto: nat, out: seq<byte>, block: seq<byte>)
    requires Filled(stream, from, to, buffer, base, ready, key, upto, out)
    requires base + upto + |block| <= |out| && to + |block| <= |stream|
    requires block == MaskedFrom(stream[to..to + |block|], key, upto)
    ensures Filled(stream, from, to + |block|, buffer, base, ready, key, upto + |block|, Written(out, base + upto, block))
  {
    var n := |block|;
    var was, more := stream[from..to], stream[to..to + n];
    MaskedBehind(out, base + upto, block, buffer[..base + ready], was, more, key, ready, buffer[base + upto..]);
    SlicesJoin(stream, from, to, to + n);
    TailOfTail(buffer, base + upto, n);
  }

  lemma SlicesJoin(s: seq<byte>, a: nat, b: nat, c: nat)
    requires a <= b <= c <= |s|
    ensures s[a..b] + s[b..c] == s[a..c]
  {
  }

  lemma TailOfTail(s: seq<byte>, a: nat, n: nat)
    requires a + n <= |s|
    ensures s[a..][n..] == s[a + n..]
  {
  }

  lemma WordBlock(s: seq<byte>, key: seq<byte>, offset: nat, word: seq<byte>)
    requires |s| == 8 && |key| == 4 && |word| == 8
    requires forall k :: 0 <= k < 8 ==> word[k] == MaskByte(s[k], key, offset + k)
    ensures word == MaskedFrom(s, key, offset)
  {
  }

  lemma NothingFilled(stream: seq<byte>, from: nat, buffer: seq<byte>, base: nat, ready: nat, key: seq<byte>)
    requires base + ready <= |buffer| && from <= |stream| && IsKey(key)
    ensures Filled(stream, from, from, buffer, base, ready, key, ready, buffer)
  {
    assert stream[from..from] == [];
    assert buffer == buffer[..base + ready] + [] + buffer[base + ready..];
  }

  lemma CopiedBlock(stream: seq<byte>, from: nat, buffer: seq<byte>, base: nat, ready: nat, n: nat)
    requires from + n <= |stream| && base + ready + n <= |buffer|
    ensures Filled(stream, from, from + n, buffer, base, ready, [], ready + n,
                   Written(buffer, base + ready, stream[from..from + n]))
  {
    var block := stream[from..from + n];
    assert MaskedFrom(block, [], ready) == block;
    NothingFilled(stream, from, buffer, base, ready, []);
    FillBlock(stream, from, from, buffer, base, ready, [], ready, buffer, block);
  }

  /** One masked byte. */
  method FillByte(stream: seq<byte>, cursor: nat, ghost from: nat, ghost buffer: seq<byte>, base: nat, ghost ready: nat,
                  key: seq<byte>, upto: nat, dst: seq<byte>)
    returns (out: seq<byte>)
    requires |key| == 4 && cursor < |stream| && base + upto < |dst|
    requires Filled(stream, from, cursor, buffer, base, ready, key, upto, dst)
    ensures Filled(stream, from, cursor + 1, buffer, base, ready, key, upto + 1, out)
  {
    var b := XorByte(stream[cursor], key[upto % 4]);
    assert [b] == MaskedFrom(stream[cursor..cursor + 1], key, upto);
    FillBlock(stream, from, cursor, buffer, base, ready, key, upto, dst, [b]);
    out := dst[base + upto := b];
    assert out == Written(dst, base + upto, [b]);
  }

  /** Eight bytes masked as one word, at an offset where the key starts over. */
  method FillWord(stream: seq<byte>, cursor: nat, ghost from: nat, ghost buffer: seq<byte>, base: nat, ghost ready: nat,
                  ghost key: seq<byte>, word: nat, upto: nat, dst: seq<byte>)
    returns (out: seq<byte>)
    requires |key| == 4 && word == KeyWord(key) && upto % 4 == 0 && cursor + 8 <= |stream| && base + upto + 8 <= |dst|
    requires Filled(stream, from, cursor, buffer, base, ready, key, upto, dst)
    ensures Filled(stream, from, cursor + 8, buffer, base, ready, key, upto + 8, out)
  {
    var masked := XorWord(stream[cursor..cursor + 8], word, key, upto);
    WordBlock(stream[cursor..cursor + 8], key, upto, masked);
    FillBlock(stream, from, cursor, buffer, base, ready, key, upto, dst, masked);
    out := Written(dst, base + upto, masked);
  }

  /** Copies what is still needed of `size` bytes, or what is there. */
  method CopyPart(stream: seq<byte>, from: nat, buffer: seq<byte>, base: nat, ready: nat, size: nat)
    returns (out: seq<byte>, n: nat)
    requires ready <= size && base + size <= |buffer| && from <= |stream|
    ensures ready + n <= size && from + n <= |stream| && (ready + n == size || from + n == |stream|)
    ensures Filled(stream, from, from + n, buffer, base, ready, [], ready + n, out)
  {
    var offs := |stream| - from;
    n := if ready + offs > size then size - ready else offs;
    CopiedBlock(stream, from, buffer, base, ready, n);
    out := Written(buffer, base + ready, stream[from..from + n]);
  }

  lemma FilledUnmasks(r: Reading, stream: seq<byte>, from: nat, to: nat, buffer: seq<byte>, base: nat, ready: nat,
                      upto: nat, out: seq<byte>)
    requires r.Body? && IsKey(r.key) && upto <= r.size
    requires Filled(stream, from, to, buffer, base, ready, r.key, upto, out)
    requires r.got == buffer[base..base + ready]
    ensures out[..base] == buffer[..base]
    ensures Unmasks(r, stream, from, out[base..base + upto])
  {
    var part := stream[from..to];
    var data := MaskedFrom(part, r.key, ready);
    assert out[..base] == buffer[..base + ready][..base];
    assert out[base..base + upto] == r.got + data;
    forall k | ready <= k < upto ensures (r.got + data)[k] == MaskByte(stream[from + (k - ready)], r.key, k) {
      assert (r.got + data)[k] == data[k - ready] && part[k - ready] == stream[from + (k - ready)];
    }
  }

  lemma ScanRejects(cfg: Config, r: Reading, stream: seq<byte>, i: nat)
    requires WellFormed(cfg.role, r) && r.Body? && i <= |stream|
    requires i < |stream| || Settles(cfg, r, false)
    requires Classify(r.fin, r.op, r.size, r.asm).Reject?
    ensures Scan(cfg, r, stream, i) == Violation(Classify(r.fin, r.op, r.size, r.asm).code)
  {
  }

  lemma ScanTooBig(cfg: Config, r: Reading, stream: seq<byte>, i: nat)
    requires WellFormed(cfg.role, r) && r.Body? && i < |stream|
    requires Classify(r.fin, r.op, r.size, r.asm).Accept? && Admit(cfg, r, true).Reject?
    ensures Scan(cfg, r, stream, i) == Violation(MESSAGE_TOO_BIG)
  {
  }

  /** Payload bytes up to the end of the frame or of the stream. */
  lemma ScanPayloadPart(cfg: Config, r: Reading, stream: seq<byte>, i: nat, fseq: FrameSeq, data: seq<byte>)
    requires WellFormed(cfg.role, r) && r.Body? && i <= |stream| && Unmasks(r, stream, i, data)
    requires Admit(cfg, r, i < |stream|) == Accept(fseq)
    requires r.size == 0 ==> cfg.role.Server? || i < |stream|
    requires r.size > 0 ==> |r.got| < |data|
    requires |data| < r.size ==> i + (|data| - |r.got|) == |stream|
    ensures if |data| < r.size then
              var r' := Body(r.fin, r.op, r.size, r.key, data, r.asm);
              WellFormed(cfg.role, r') && Scan(cfg, r, stream, i) == More(r')
            else
              var o := Finish(r.op, data, r.asm, fseq);
              WellFormed(cfg.role, o.r) && Scan(cfg, r, stream, i) == After(cfg, o, stream, i + (|data| - |r.got|))
  {
    if r.size == 0 {
      assert data == [];
      OnEmptyWellFormed(cfg, r, i < |stream|);
    } else {
      ScanBody(cfg, r, stream, i, data);
    }
  }
}
