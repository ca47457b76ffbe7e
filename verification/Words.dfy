/** 64-bit words in memory, least significant byte first, and masking a payload one word at a time. */
module Words {
  import opened Bits
  import opened Wire

  function Load(s: seq<byte>): nat {
    if s == [] then 0 else s[0] + 256 * Load(s[1..])
  }

  function Store(word: nat, width: nat): (s: seq<byte>)
    ensures |s| == width
  {
    if width == 0 then [] else [word % 256] + Store(word / 256, width - 1)
  }

  lemma {:induction false} XorLoads(a: seq<byte>, b: seq<byte>)
    requires |a| == |b| > 0
    ensures Xor(Load(a), Load(b)) == XorByte(a[0], b[0]) + 256 * Xor(Load(a[1..]), Load(b[1..]))
  {
    XorHead(Load(a), a[0], Load(a[1..]), Load(b), b[0], Load(b[1..]));
  }

  lemma {:induction false} StoreStep(low: byte, high: nat, width: nat)
    requires width > 0
    ensures Store(low + 256 * high, width) == [low] + Store(high, width - 1)
  {
    LowHigh(low, high);
  }

  lemma LowHigh(low: byte, high: nat)
    ensures (low + 256 * high) % 256 == low && (low + 256 * high) / 256 == high
  {
  }

  /** Exclusive or of two words is exclusive or of their bytes. */
  lemma {:induction false} XorLanes(a: seq<byte>, b: seq<byte>, k: nat)
    requires |a| == |b| && k < |a|
    ensures Store(Xor(Load(a), Load(b)), |a|)[k] == XorByte(a[k], b[k])
  {
    XorLoads(a, b);
    StoreStep(XorByte(a[0], b[0]), Xor(Load(a[1..]), Load(b[1..])), |a|);
    if k > 0 {
      XorLanes(a[1..], b[1..], k - 1);
    }
  }

  lemma {:induction false} XorHead(v: nat, a: byte, x: nat, w: nat, b: byte, y: nat)
    requires v == a + 256 * x && w == b + 256 * y
    ensures Xor(v, w) == XorByte(a, b) + 256 * Xor(x, y)
  {
    assert Pow2(8) == 256;
    Shift256(x);
    Shift256(y);
    Shift256(Xor(x, y));
    XorSplit(8, a, x, b, y);
  }

  lemma {:induction false} Shift256(x: nat)
    ensures ShiftLeft(x, 8) == 256 * x
  {
    assert ShiftLeft(x, 1) == 2 * x;
    assert ShiftLeft(x, 2) == 4 * x;
    assert ShiftLeft(x, 3) == 8 * x;
    assert ShiftLeft(x, 4) == 16 * x;
    assert ShiftLeft(x, 5) == 32 * x;
    assert ShiftLeft(x, 6) == 64 * x;
  }

  /** The word of a four-byte masking key repeated, which both ends of a connection build. */
  function KeyWord(key: seq<byte>): nat
    requires |key| == 4
  {
    Load(key + key)
  }

  lemma KeyLane(key: seq<byte>, offset: nat, k: nat)
    requires |key| == 4 && offset % 4 == 0 && k < 8
    ensures (key + key)[k] == key[(offset + k) % 4]
  {
    assert (offset + k) % 4 == k % 4;
  }

  lemma WordLane(src: seq<byte>, key: seq<byte>, offset: nat, k: nat)
    requires |src| == 8 && |key| == 4 && offset % 4 == 0 && k < 8
    ensures Store(Xor(Load(src), KeyWord(key)), 8)[k] == MaskByte(src[k], key, offset + k)
  {
    var keys := key + key;
    XorLanes(src, keys, k);
    KeyLane(key, offset, k);
  }

  /** One step of a word loop, entered at an offset divisible by four, masks eight bytes as byte steps would. */
  lemma WordStep(src: seq<byte>, key: seq<byte>, offset: nat)
    requires |src| == 8 && |key| == 4 && offset % 4 == 0
    ensures var dst := Store(Xor(Load(src), KeyWord(key)), 8);
            forall k :: 0 <= k < 8 ==> dst[k] == MaskByte(src[k], key, offset + k)
  {
    var dst := Store(Xor(Load(src), KeyWord(key)), 8);
    forall k | 0 <= k < 8
      ensures dst[k] == MaskByte(src[k], key, offset + k)
    {
      WordLane(src, key, offset, k);
    }
  }

  /** Eight bytes masked as one word, at a payload offset where the key starts over. */
  method XorWord(src: seq<byte>, word: nat, ghost key: seq<byte>, ghost offset: nat) returns (dst: seq<byte>)
    requires |src| == 8 && |key| == 4 && word == KeyWord(key) && offset % 4 == 0
    ensures |dst| == 8 && forall k :: 0 <= k < 8 ==> dst[k] == MaskByte(src[k], key, offset + k)
  {
    WordStep(src, key, offset);
    dst := Store(Xor(Load(src), word), 8);
  }
}
