/** Frames of section 5.2 of RFC 6455: the values, their bytes on the wire, and masking. */
module Wire {
  import opened Bits

  type byte = x: int | 0 <= x < 256

  const CONTINUATION: byte := 0
  const TEXT: byte := 1
  const BINARY: byte := 2
  const CLOSE: byte := 8
  const PING: byte := 9
  const PONG: byte := 10

  type CloseCode = x: int | 0 <= x < 65536

  const NORMAL: CloseCode := 1000
  const PROTOCOL_VIOLATION: CloseCode := 1002
  const NO_COMPRENDE: CloseCode := 1003
  const BAD_DATA: CloseCode := 1007
  const MESSAGE_TOO_BIG: CloseCode := 1009

  const MAX_CONTROL := 125

  predicate IsOpCodeSupported(op: byte) {
    op == 0 || op == 1 || op == 2 || op == 8 || op == 9 || op == 10
  }

  predicate IsControl(op: byte) {
    op == CLOSE || op == PING || op == PONG
  }

  predicate IsData(op: byte) {
    op == TEXT || op == BINARY
  }

  /** A complete message as it leaves a parser. */
  datatype Message = Message(op: byte, payload: seq<byte>)

  // Masking, section 5.3 of RFC 6455.

  function XorByte(a: byte, b: byte): (r: byte)
    ensures r == Xor(a, b)
    ensures Xor(r, b) == a
  {
    assert Xor(a, b) < 256 by {
      assert Pow2(8) == 256;
      XorBelow(8, a, b);
    }
    XorInvolutive(a, b);
    Xor(a, b)
  }

  /** An empty key stands for an unmasked frame. */
  predicate IsKey(key: seq<byte>) {
    |key| == 0 || |key| == 4
  }

  function MaskByte(b: byte, key: seq<byte>, i: nat): (r: byte)
    requires IsKey(key)
  {
    if key == [] then b else XorByte(b, key[i % 4])
  }

  function Masked(data: seq<byte>, key: seq<byte>): (r: seq<byte>)
    requires IsKey(key)
    ensures |r| == |data|
  {
    seq(|data|, i requires 0 <= i < |data| => MaskByte(data[i], key, i))
  }

  lemma MaskedTwice(data: seq<byte>, key: seq<byte>)
    requires IsKey(key)
    ensures Masked(Masked(data, key), key) == data
  {
  }

  // Big-endian numbers.

  function BigEndian(n: nat, width: nat): (s: seq<byte>)
    ensures |s| == width
  {
    if width == 0 then [] else BigEndian(n / 256, width - 1) + [n % 256]
  }

  function FromBigEndian(s: seq<byte>): nat {
    if s == [] then 0 else 256 * FromBigEndian(s[..|s| - 1]) + s[|s| - 1]
  }

  lemma {:induction false} BigEndianInverse(n: nat, width: nat)
    requires n < Pow2(8 * width)
    ensures FromBigEndian(BigEndian(n, width)) == n
  {
    if width > 0 {
      assert Pow2(8 * width) == 256 * Pow2(8 * (width - 1)) by { Pow2Add(8, 8 * (width - 1)); assert Pow2(8) == 256; }
      BigEndianInverse(n / 256, width - 1);
      assert BigEndian(n, width)[..width - 1] == BigEndian(n / 256, width - 1);
    }
  }

  /** Every string of bytes is the big-endian form of the number it denotes. */
  lemma {:induction false} FromBigEndianInverse(s: seq<byte>)
    ensures FromBigEndian(s) < Pow2(8 * |s|)
    ensures BigEndian(FromBigEndian(s), |s|) == s
  {
    if s != [] {
      var t := s[..|s| - 1];
      FromBigEndianInverse(t);
      assert Pow2(8 * |s|) == 256 * Pow2(8 * |t|) by { Pow2Add(8, 8 * |t|); assert Pow2(8) == 256; }
      assert s == t + [s[|s| - 1]];
      assert FromBigEndian(s) / 256 == FromBigEndian(t);
    }
  }

  // Frames.

  /**
   * One frame: `extended` is the number of extended length bytes (0, 2 or 8), `key` the masking key or
   * empty, `payload` the application data before masking.
   */
  datatype Frame = Frame(fin: bool, rsv: nat, op: byte, extended: nat, key: seq<byte>, payload: seq<byte>)

  predicate ValidFrame(f: Frame) {
    && f.rsv < 8
    && f.op < 16
    && IsKey(f.key)
    && (f.extended == 0 || f.extended == 2 || f.extended == 8)
    && |f.payload| < (if f.extended == 0 then 126 else Pow2(8 * f.extended))
  }

  function FirstByte(f: Frame): (b: byte)
    requires ValidFrame(f)
  {
    (if f.fin then 128 else 0) + 16 * f.rsv + f.op
  }

  function SecondByte(f: Frame): (b: byte)
    requires ValidFrame(f)
  {
    (if f.key != [] then 128 else 0) +
    (if f.extended == 0 then |f.payload| else if f.extended == 2 then 126 else 127)
  }

  function FrameBytes(f: Frame): (s: seq<byte>)
    requires ValidFrame(f)
    ensures |s| == 2 + f.extended + |f.key| + |f.payload|
  {
    [FirstByte(f), SecondByte(f)] + BigEndian(|f.payload|, f.extended) + f.key + Masked(f.payload, f.key)
  }

  /** The number of extended length bytes a printer uses. */
  function ShortestForm(len: nat): (extended: nat)
    ensures extended == 0 || extended == 2 || extended == 8
  {
    if len > 65535 then 8 else if len > 125 then 2 else 0
  }

  /** Each message is the bytes of one frame. */
  predicate Prints(out: seq<seq<byte>>, frames: seq<Frame>) {
    |out| == |frames| && forall i :: 0 <= i < |frames| ==> ValidFrame(frames[i]) && out[i] == FrameBytes(frames[i])
  }
}
