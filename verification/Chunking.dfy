/** What a parser delivers does not depend on how the stream was cut into chunks. */
module Chunking {
  import opened Wire
  import opened StreamSpec

  /** The invariant of a parser whose limit admits every 7-bit length. */
  predicate Bounded(cfg: Config, r: Reading) {
    && WellFormed(cfg.role, r)
    && cfg.maxSize >= MAX_CONTROL
    && (r.asm.Fragments? ==> |r.asm.data| <= cfg.maxSize)
    && ((r.Key? || r.Body?) ==> r.size <= cfg.maxSize)
    && (r.Body? && r.got != [] && r.op == CONTINUATION && r.asm.Fragments? ==> |r.asm.data| + r.size <= cfg.maxSize)
  }

  /** What resuming needs: a client never completes an empty frame before the byte after it is there. */
  predicate Steady(cfg: Config, r: Reading) {
    WellFormed(cfg.role, r) && (cfg.role.Server? ==> Bounded(cfg, r))
  }

  predicate SteadyEnd(cfg: Config, end: End) {
    WellFormedEnd(cfg, end) && (end.Open? ==> Steady(cfg, end.r))
  }

  predicate BoundedEnd(cfg: Config, end: End) {
    WellFormedEnd(cfg, end) && (end.Open? ==> Bounded(cfg, end.r))
  }

  /** Section 5.5 of RFC 6455 for control messages, the configured limit for data messages. */
  predicate BoundedMessage(cfg: Config, m: Message) {
    |m.payload| <= (if IsControl(m.op) then MAX_CONTROL else cfg.maxSize)
  }

  predicate BoundedOutcome(cfg: Config, o: Outcome) {
    && (!o.Fail? ==> Bounded(cfg, o.r))
    && (o.Deliver? ==> BoundedMessage(cfg, o.msg))
  }

  lemma OnByteBounded(cfg: Config, r: Reading, b: byte)
    requires Bounded(cfg, r) && !Empty(r)
    ensures BoundedOutcome(cfg, OnByte(cfg, r, b))
  {
    match r
    case Body(_, _, _, _, _, _) => OnBodyBounded(cfg, r, b);
    case Length(_, _, _, _, _) => OnLengthWellFormed(cfg, r, b);
    case _ => OnByteWellFormed(cfg, r, b);
  }

  lemma OnBodyBounded(cfg: Config, r: Reading, b: byte)
    requires Bounded(cfg, r) && r.Body? && !Empty(r)
    ensures BoundedOutcome(cfg, OnBody(cfg, b, r))
  {
    OnBodyWellFormed(cfg, r, b);
  }

  lemma OnEmptyBounded(cfg: Config, r: Reading)
    requires Bounded(cfg, r) && Empty(r)
    ensures OnEmpty(cfg, r, true) == OnEmpty(cfg, r, false)
    ensures BoundedOutcome(cfg, OnEmpty(cfg, r, true))
  {
    OnEmptyWellFormed(cfg, r, true);
  }

  lemma {:induction false} ScanBounded(cfg: Config, r: Reading, stream: seq<byte>, i: nat)
    requires Bounded(cfg, r) && i <= |stream|
    ensures var res := Scan(cfg, r, stream, i);
            && (!res.Violation? ==> Bounded(cfg, res.r))
            && (res.Ready? ==> BoundedMessage(cfg, res.msg))
    decreases Measure(r, |stream| - i)
  {
    if Settles(cfg, r, i < |stream|) {
      OnEmptyBounded(cfg, r);
      OnEmptyWellFormed(cfg, r, i < |stream|);
      var o := OnEmpty(cfg, r, i < |stream|);
      if o.Next? { ScanBounded(cfg, o.r, stream, i); }
    } else if i < |stream| {
      OnByteBounded(cfg, r, stream[i]);
      var o := OnByte(cfg, r, stream[i]);
      if o.Next? { ScanBounded(cfg, o.r, stream, i + 1); }
    }
  }

  /** The result of scanning from position n + i of a stream whose first n bytes are dropped. */
  function Shift(res: ScanResult, n: nat): ScanResult {
    match res
    case Ready(r, msg, next) => Ready(r, msg, next + n)
    case _ => res
  }

  /** A scan looks only at the bytes from its starting position on. */
  lemma {:induction false} ScanShift(cfg: Config, r: Reading, a: seq<byte>, b: seq<byte>, i: nat)
    requires WellFormed(cfg.role, r) && i <= |b|
    ensures Scan(cfg, r, a + b, |a| + i) == Shift(Scan(cfg, r, b, i), |a|)
    decreases Measure(r, |b| - i)
  {
    if Settles(cfg, r, i < |b|) {
      OnEmptyWellFormed(cfg, r, i < |b|);
      var o := OnEmpty(cfg, r, i < |b|);
      if o.Next? { ScanShift(cfg, o.r, a, b, i); }
    } else if i < |b| {
      assert (a + b)[|a| + i] == b[i];
      OnByteWellFormed(cfg, r, b[i]);
      var o := OnByte(cfg, r, b[i]);
      if o.Next? { ScanShift(cfg, o.r, a, b, i + 1); }
    }
  }

  /** A scan interrupted at the end of one chunk resumes as if the next chunk had been there. */
  lemma {:induction false} ScanResumes(cfg: Config, r: Reading, a: seq<byte>, b: seq<byte>, i: nat)
    requires Steady(cfg, r) && i <= |a|
    ensures var res := Scan(cfg, r, a, i);
            Scan(cfg, r, a + b, i) == if res.More? then Scan(cfg, res.r, a + b, |a|) else res
    decreases Measure(r, |a| - i)
  {
    if Settles(cfg, r, i < |a|) {
      if cfg.role.Server? { OnEmptyBounded(cfg, r); }
      OnEmptyWellFormed(cfg, r, i < |a|);
      var o := OnEmpty(cfg, r, i < |a|);
      assert o == OnEmpty(cfg, r, i < |a + b|);
      if o.Next? { ScanResumes(cfg, o.r, a, b, i); }
    } else if i < |a| {
      assert (a + b)[i] == a[i];
      OnByteWellFormed(cfg, r, a[i]);
      if cfg.role.Server? { OnByteBounded(cfg, r, a[i]); }
      var o := OnByte(cfg, r, a[i]);
      if o.Next? { ScanResumes(cfg, o.r, a, b, i + 1); }
    }
  }

  lemma {:induction false} RunShift(cfg: Config, r: Reading, a: seq<byte>, b: seq<byte>, i: nat)
    requires WellFormed(cfg.role, r) && i <= |b|
    ensures Run(cfg, r, a + b, |a| + i) == Run(cfg, r, b, i)
    decreases Measure(r, |b| - i)
  {
    ScanShift(cfg, r, a, b, i);
    var res := Scan(cfg, r, b, i);
    if res.Ready? && res.next < |b| {
      RunShift(cfg, res.r, a, b, res.next);
    }
  }

  /** Every delivered message is within bounds, and so is what the parser keeps. */
  lemma {:induction false} RunBounded(cfg: Config, r: Reading, stream: seq<byte>, i: nat)
    requires Bounded(cfg, r) && i <= |stream|
    ensures BoundedEnd(cfg, Run(cfg, r, stream, i).end)
    ensures forall m :: m in Run(cfg, r, stream, i).msgs ==> BoundedMessage(cfg, m)
    decreases Measure(r, |stream| - i)
  {
    ScanBounded(cfg, r, stream, i);
    var res := Scan(cfg, r, stream, i);
    if res.Ready? && res.next < |stream| {
      RunBounded(cfg, res.r, stream, res.next);
    }
  }

  lemma SameScan(cfg: Config, r: Reading, i: nat, r': Reading, i': nat, stream: seq<byte>)
    requires WellFormed(cfg.role, r) && WellFormed(cfg.role, r') && i <= |stream| && i' <= |stream|
    requires Scan(cfg, r, stream, i) == Scan(cfg, r', stream, i')
    ensures Run(cfg, r, stream, i) == Run(cfg, r', stream, i')
  {
  }

  lemma ReadyRun(cfg: Config, r: Reading, stream: seq<byte>, i: nat)
    requires WellFormed(cfg.role, r) && i <= |stream|
    requires Scan(cfg, r, stream, i).Ready?
    ensures var res := Scan(cfg, r, stream, i);
            Run(cfg, r, stream, i) == Prepend([res.msg], Run(cfg, res.r, stream, res.next))
  {
    var res := Scan(cfg, r, stream, i);
    assert [res.msg] + [] == [res.msg];
  }

  lemma PrependTwice(a: seq<Message>, b: seq<Message>, t: Trace)
    ensures Prepend(a, Prepend(b, t)) == Prepend(a + b, t)
    ensures Prepend([], t) == t
  {
    assert a + (b + t.msgs) == (a + b) + t.msgs;
    assert [] + t.msgs == t.msgs;
  }

  /** Running over a + b is running over a and then, from where that left the parser, over b. */
  lemma {:induction false} RunSplit(cfg: Config, r: Reading, a: seq<byte>, b: seq<byte>, i: nat)
    requires Steady(cfg, r) && i <= |a|
    ensures var t := Run(cfg, r, a, i);
            Run(cfg, r, a + b, i) == Prepend(t.msgs, Continue(cfg, t.end, b))
    decreases Measure(r, |a| - i)
  {
    ScanResumes(cfg, r, a, b, i);
    if cfg.role.Server? { ScanBounded(cfg, r, a, i); }
    var res := Scan(cfg, r, a, i);
    match res
    case Violation(code) =>
    case More(r') =>
      SameScan(cfg, r, i, r', |a|, a + b);
      RunShift(cfg, r', a, b, 0);
      PrependTwice([], [], Run(cfg, r', b, 0));
    case Ready(r', msg, next) =>
      ReadyRun(cfg, r, a, i);
      ReadyRun(cfg, r, a + b, i);
      RunSplit(cfg, r', a, b, next);
      var u := Run(cfg, r', a, next);
      PrependTwice([msg], u.msgs, Continue(cfg, u.end, b));
  }

  /** Any chunks, from any reachable state, deliver what the joined stream delivers and end as it ends. */
  lemma {:induction false} ChunksAreTheStream(cfg: Config, end: End, chunks: seq<seq<byte>>)
    requires SteadyEnd(cfg, end)
    ensures RunChunks(cfg, end, chunks) == Continue(cfg, end, Concat(chunks))
    decreases chunks
  {
    if chunks == [] {
    } else {
      var t := Continue(cfg, end, chunks[0]);
      if end.Open? {
        if cfg.role.Server? { RunBounded(cfg, end.r, chunks[0], 0); }
        RunSplit(cfg, end.r, chunks[0], Concat(chunks[1..]), 0);
      }
      ChunksAreTheStream(cfg, t.end, chunks[1..]);
    }
  }
}
