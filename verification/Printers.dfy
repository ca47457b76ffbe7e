/** The frame printers of both ends, each proved to print exactly the bytes of the frames it stands for. */
module Printers {
  import opened Bits
  import opened Wire
  import opened Words

  const FRAGMENT_SIZE := 1392

  function FragmentBytes(count: int): int { FRAGMENT_SIZE * count }

  function FragmentCount(length: nat): nat { length / FRAGMENT_SIZE }

  /** An unfragmented frame with the shortest length form. */
  function WholeFrame(op: byte, key: seq<byte>, payload: seq<byte>): Frame {
    Frame(true, 0, op, ShortestForm(|payload|), key, payload)
  }

  /** Payload lengths are 64-bit. */
  predicate Sizeable(payload: seq<byte>) {
    |payload| < Pow2(64)
  }

  lemma ShortestFormFits(len: nat)
    requires len < Pow2(64)
    ensures len < (if ShortestForm(len) == 0 then 126 else Pow2(8 * ShortestForm(len)))
  {
    assert Pow2(16) == 65536 by { Pow2Add(8, 8); assert Pow2(8) == 256; }
  }

  /** No other frame with the same payload and key is shorter. */
  lemma WholeFrameShortest(f: Frame)
    requires ValidFrame(f)
    ensures ValidFrame(WholeFrame(f.op, f.key, f.payload))
    ensures |FrameBytes(WholeFrame(f.op, f.key, f.payload))| <= |FrameBytes(f)|
  {
    Widths();
    ShortestFormFits(|f.payload|);
  }

  /** The bytes of a frame between its first byte and its masking key, without the mask bit. */
  function LengthField(len: nat): seq<byte> {
    [LengthCode(len)] + BigEndian(len, ShortestForm(len))
  }

  function LengthCode(len: nat): (code: byte)
    ensures code < 128
  {
    if len > 65535 then 127 else if len > 125 then 126 else len
  }

  method PutBytes(ptr: seq<byte>, out: seq<byte>) returns (out': seq<byte>)
    ensures out' == out + ptr
  {
    out' := out;
    for i := 0 to |ptr|
      invariant out' == out + ptr[..i]
    {
      out' := out' + [ptr[i]];
    }
    assert ptr[..|ptr|] == ptr;
  }

  method PutLength(len: nat, out: seq<byte>) returns (out': seq<byte>)
    requires len < Pow2(64)
    ensures out' == out + LengthField(len)
  {
    if len > 65535 {
      out' := out + [127];
      out' := PutBytes(BigEndian(len, 8), out');
    } else if len > 125 {
      var ptr := BigEndian(len, 2);
      out' := out + [126] + [ptr[0]] + [ptr[1]];
      assert ptr == [ptr[0], ptr[1]];
    } else {
      out' := out + [len];
    }
  }

  lemma FieldIsHeader(f: Frame)
    requires ValidFrame(f) && f.extended == ShortestForm(|f.payload|) && f.key == []
    ensures FrameBytes(f) == [FirstByte(f)] + LengthField(|f.payload|) + f.payload
  {
    assert Masked(f.payload, []) == f.payload;
  }

  method ServerMessage(op: byte, src: seq<byte>) returns (out: seq<byte>)
    requires op < 16 && Sizeable(src)
    ensures ValidFrame(WholeFrame(op, [], src)) && out == FrameBytes(WholeFrame(op, [], src))
  {
    ShortestFormFits(|src|);
    out := [128 + op];
    out := PutLength(|src|, out);
    out := out + src;
    FieldIsHeader(WholeFrame(op, [], src));
  }

  function ClosePayload(code: CloseCode): seq<byte> {
    [code / 256, code % 256]
  }

  method ServerCloseMessage(code: CloseCode, reason: seq<byte>) returns (out: seq<byte>)
    requires Sizeable(ClosePayload(code) + reason)
    ensures var f := WholeFrame(CLOSE, [], ClosePayload(code) + reason);
            ValidFrame(f) && out == FrameBytes(f)
  {
    var payload := ClosePayload(code) + reason;
    ShortestFormFits(|payload|);
    out := [128 + 8];
    out := PutLength(|reason| + 2, out);
    FieldIsHeader(WholeFrame(CLOSE, [], payload));
    ClosePayloadParts(out, code, reason);
    out := out + [code / 256] + [code % 256] + reason;
  }

  lemma ClosePayloadParts(header: seq<byte>, code: CloseCode, reason: seq<byte>)
    ensures |ClosePayload(code) + reason| == |reason| + 2
    ensures header + [code / 256] + [code % 256] + reason == header + (ClosePayload(code) + reason)
  {
  }

  // Fragmentation.

  function FragmentFrame(fin: bool, op: byte, payload: seq<byte>): Frame {
    Frame(fin, 0, op, ShortestForm(|payload|), [], payload)
  }

  /** The frames after the first, for what is left of the message. */
  function LaterFragments(left: seq<byte>, count: nat): seq<Frame>
    requires count > 0 && FragmentBytes(count - 1) <= |left|
    decreases count
  {
    if count == 1 then [FragmentFrame(true, CONTINUATION, left)]
    else
      [FragmentFrame(false, CONTINUATION, left[..FRAGMENT_SIZE])] + LaterFragments(left[FRAGMENT_SIZE..], count - 1)
  }

  /** The frames of one message. */
  function Fragments(op: byte, src: seq<byte>): seq<Frame> {
    var count := Int32(FragmentCount(|src|));
    if count > 1 then
      assert FragmentBytes(count - 1) <= |src|;
      [FragmentFrame(false, op, src[..FRAGMENT_SIZE])] + LaterFragments(src[FRAGMENT_SIZE..], count - 1)
    else [WholeFrame(op, [], src)]
  }

  method PrintFragment(first: byte, payload: seq<byte>, ghost fin: bool, ghost op: byte) returns (out: seq<byte>)
    requires op < 16 && first == (if fin then 128 else 0) + op && Sizeable(payload)
    ensures var f := FragmentFrame(fin, op, payload);
            ValidFrame(f) && out == FrameBytes(f)
  {
    ShortestFormFits(|payload|);
    out := [first];
    out := PutLength(|payload|, out);
    out := out + payload;
    FieldIsHeader(FragmentFrame(fin, op, payload));
  }

  lemma {:induction false} LaterFragmentsValid(left: seq<byte>, count: nat)
    requires count > 0 && FragmentBytes(count - 1) <= |left| && Sizeable(left)
    ensures forall f :: f in LaterFragments(left, count) ==> ValidFrame(f)
    ensures |LaterFragments(left, count)| == count
    decreases count
  {
    if count > 1 {
      ShortestFormFits(FRAGMENT_SIZE);
      LaterFragmentsValid(left[FRAGMENT_SIZE..], count - 1);
    } else {
      ShortestFormFits(|left|);
    }
  }

  lemma PayloadFits(fin: bool, op: byte, payload: seq<byte>)
    requires op < 16 && Sizeable(payload)
    ensures ValidFrame(FragmentFrame(fin, op, payload)) && ValidFrame(WholeFrame(op, [], payload))
  {
    ShortestFormFits(|payload|);
  }

  lemma FragmentsValid(op: byte, src: seq<byte>)
    requires op < 16 && Sizeable(src)
    ensures forall f :: f in Fragments(op, src) ==> ValidFrame(f)
  {
    PayloadFits(true, op, src);
    var count := Int32(FragmentCount(|src|));
    if count > 1 {
      assert FragmentBytes(count - 1) <= |src|;
      PayloadFits(false, op, src[..FRAGMENT_SIZE]);
      LaterFragmentsValid(src[FRAGMENT_SIZE..], count - 1);
    }
  }

  lemma PrintsMore(out: seq<seq<byte>>, frames: seq<Frame>, outmsg: seq<byte>, f: Frame)
    requires Prints(out, frames) && ValidFrame(f) && outmsg == FrameBytes(f)
    ensures Prints(out + [outmsg], frames + [f])
  {
  }

  lemma PrintsFront(outmsg: seq<byte>, f: Frame, out: seq<seq<byte>>, frames: seq<Frame>)
    requires Prints(out, frames) && ValidFrame(f) && outmsg == FrameBytes(f)
    ensures Prints([outmsg] + out, [f] + frames)
  {
  }

  /** The loop over continuation frames and the final frame. */
  method PrintLaterFragments(src: seq<byte>, left: nat, count: int, ghost tail: seq<byte>) returns (out: seq<seq<byte>>)
    requires count > 0 && left <= |src| && FragmentBytes(count - 1) <= left && Sizeable(src) && tail == src[|src| - left..]
    ensures Prints(out, LaterFragments(tail, count))
  {
    var bytesLeft, fragments := left, count;
    out := [];
    ghost var frames, done := LaterFragments(tail, count), [];
    assert done + frames == frames;
    while fragments - 1 > 0
      invariant 1 <= fragments && bytesLeft <= |src| && FragmentBytes(fragments - 1) <= bytesLeft
      invariant Prints(out, done) && frames == done + LaterFragments(src[|src| - bytesLeft..], fragments)
      decreases fragments
    {
      ghost var rest := src[|src| - bytesLeft..];
      var outmsg := PrintNext(src, bytesLeft);
      NextFragment(rest, fragments, done);
      PrintsMore(out, done, outmsg, FragmentFrame(false, CONTINUATION, rest[..FRAGMENT_SIZE]));
      done := done + [FragmentFrame(false, CONTINUATION, rest[..FRAGMENT_SIZE])];
      bytesLeft := bytesLeft - FRAGMENT_SIZE;
      out := out + [outmsg];
      fragments := fragments - 1;
    }
    ghost var rest := src[|src| - bytesLeft..];
    var outmsg := PrintFragment(128, src[|src| - bytesLeft..], true, CONTINUATION);
    PrintsMore(out, done, outmsg, FragmentFrame(true, CONTINUATION, rest));
    out := out + [outmsg];
  }

  method PrintNext(src: seq<byte>, bytesLeft: nat) returns (outmsg: seq<byte>)
    requires FRAGMENT_SIZE <= bytesLeft <= |src| && Sizeable(src)
    ensures var rest := src[|src| - bytesLeft..]; var f := FragmentFrame(false, CONTINUATION, rest[..FRAGMENT_SIZE]);
      && ValidFrame(f) && outmsg == FrameBytes(f)
      && rest[FRAGMENT_SIZE..] == src[|src| - (bytesLeft - FRAGMENT_SIZE)..]
  {
    outmsg := PrintFragment(0, src[|src| - bytesLeft..][..FRAGMENT_SIZE], false, CONTINUATION);
  }

  lemma NextFragment(rest: seq<byte>, fragments: int, done: seq<Frame>)
    requires fragments > 1 && FragmentBytes(fragments - 1) <= |rest|
    ensures done + LaterFragments(rest, fragments)
         == done + [FragmentFrame(false, CONTINUATION, rest[..FRAGMENT_SIZE])] + LaterFragments(rest[FRAGMENT_SIZE..], fragments - 1)
  {
  }

  method FragmentedServerMessage(op: byte, src: seq<byte>) returns (out: seq<seq<byte>>)
    requires op < 16 && Sizeable(src)
    ensures Prints(out, Fragments(op, src))
  {
    var fragments := Int32(FragmentCount(|src|));
    if fragments > 1 {
      out := PrintFragments(op, src, fragments);
    } else {
      var outmsg := ServerMessage(op, src);
      out := [outmsg];
    }
  }

  lemma TailOf(src: seq<byte>, n: nat)
    requires n <= |src|
    ensures src[n..] == src[|src| - (|src| - n)..]
  {
  }

  /** A message of more than one fragment. */
  method PrintFragments(op: byte, src: seq<byte>, fragments: int) returns (out: seq<seq<byte>>)
    requires op < 16 && Sizeable(src) && fragments > 1 && FragmentBytes(fragments) <= |src|
    ensures var first, rest := FragmentFrame(false, op, src[..FRAGMENT_SIZE]), src[FRAGMENT_SIZE..];
      Prints(out, [first] + LaterFragments(rest, fragments - 1))
  {
    var outmsg := PrintFragment(op, src[..FRAGMENT_SIZE], false, op);
    ghost var first, rest := FragmentFrame(false, op, src[..FRAGMENT_SIZE]), src[FRAGMENT_SIZE..];
    TailOf(src, FRAGMENT_SIZE);
    var later := PrintLaterFragments(src, |src| - FRAGMENT_SIZE, fragments - 1, rest);
    PrintsFront(outmsg, first, later, LaterFragments(rest, fragments - 1));
    out := [outmsg] + later;
  }

  // The masking printer of the client.

  /** The client's printer for a non-empty payload: whole words while more than eight bytes are left, then bytes. */
  method MaskedMessage(op: byte, src: seq<byte>, key: seq<byte>) returns (out: seq<byte>)
    requires op < 16 && |key| == 4 && Sizeable(src)
    ensures src != [] ==> ValidFrame(WholeFrame(op, key, src)) && out == FrameBytes(WholeFrame(op, key, src))
    ensures src == [] ==> out == [128 + op, 128]
  {
    ShortestFormFits(|src|);
    out := [128 + op];
    out := PutLength(|src|, out);
    SecondReplaced(128 + op, LengthCode(|src|), BigEndian(|src|, ShortestForm(|src|)), 128 + LengthCode(|src|));
    out := out[1 := 128 + out[1]];
    if |src| != 0 {
      var body := MaskPayload(src, key);
      out := out + key + body;
      MaskedHeader(op, key, src);
    }
  }

  lemma MaskedHeader(op: byte, key: seq<byte>, src: seq<byte>)
    requires op < 16 && |key| == 4 && Sizeable(src)
    ensures var f := WholeFrame(op, key, src);
            && ValidFrame(f) && FirstByte(f) == 128 + op && SecondByte(f) == 128 + LengthCode(|src|)
  {
    ShortestFormFits(|src|);
  }

  lemma SecondReplaced(a: byte, b: byte, rest: seq<byte>, c: byte)
    ensures ([a] + ([b] + rest))[1 := c] == [a, c] + rest
  {
  }

  method MaskPayload(src: seq<byte>, key: seq<byte>) returns (out: seq<byte>)
    requires |key| == 4
    ensures out == Masked(src, key)
  {
    var doubleMask := KeyWord(key);
    out := [];
    var i := 0;
    while i + 8 < |src|
      invariant i % 4 == 0 && i <= |src| && |out| == i
      invariant forall k :: 0 <= k < i ==> out[k] == MaskByte(src[k], key, k)
      decreases |src| - i
    {
      var word := src[i..i + 8];
      var masked := XorWord(word, doubleMask, key, i);
      forall k | i <= k < i + 8 ensures masked[k - i] == MaskByte(src[k], key, k) {
        assert word[k - i] == src[k];
      }
      out := out + masked;
      i := i + 8;
    }
    while i < |src|
      invariant i <= |src| && |out| == i
      invariant forall k :: 0 <= k < i ==> out[k] == MaskByte(src[k], key, k)
      decreases |src| - i
    {
      out := out + [XorByte(src[i], key[i % 4])];
      i := i + 1;
    }
  }
}
