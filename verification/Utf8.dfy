/** The validator of text messages, against the grammar of section 4 of RFC 3629 and the encoding itself. */
module Utf8 {
  import opened Wire

  /** A Unicode scalar value. */
  predicate IsScalar(c: nat) {
    c < 0xD800 || 0xE000 <= c <= 0x10FFFF
  }

  /** Section 3 of RFC 3629, for any code point. */
  function EncodePoint(c: nat): (s: seq<byte>)
    requires c < 0x110000
    ensures 1 <= |s| <= 4
  {
    if c < 0x80 then [c]
    else if c < 0x800 then [0xC0 + c / 64, 0x80 + c % 64]
    else if c < 0x10000 then [0xE0 + c / 4096, 0x80 + c / 64 % 64, 0x80 + c % 64]
    else [0xF0 + c / 262144, 0x80 + c / 4096 % 64, 0x80 + c / 64 % 64, 0x80 + c % 64]
  }

  function Encode(cs: seq<nat>): seq<byte>
    requires forall c :: c in cs ==> IsScalar(c)
  {
    if cs == [] then [] else assert IsScalar(cs[0]); EncodePoint(cs[0]) + Encode(cs[1..])
  }

  predicate Tail(b: byte) {
    0x80 <= b <= 0xBF
  }

  /** The length of the sequence of section 4 of RFC 3629 that `s` begins with, or 0. */
  function HeadLength(s: seq<byte>): (n: nat)
    ensures n <= |s| && n <= 4
  {
    if |s| >= 1 && s[0] <= 0x7F then 1
    else if |s| >= 2 && 0xC2 <= s[0] <= 0xDF && Tail(s[1]) then 2
    else if |s| >= 3 && Tail(s[2]) &&
      ( (s[0] == 0xE0 && 0xA0 <= s[1] <= 0xBF) || (0xE1 <= s[0] <= 0xEC && Tail(s[1])) ||
        (s[0] == 0xED && 0x80 <= s[1] <= 0x9F) || (0xEE <= s[0] <= 0xEF && Tail(s[1]))) then 3
    else if |s| >= 4 && Tail(s[2]) && Tail(s[3]) &&
      ( (s[0] == 0xF0 && 0x90 <= s[1] <= 0xBF) || (0xF1 <= s[0] <= 0xF3 && Tail(s[1])) ||
        (s[0] == 0xF4 && 0x80 <= s[1] <= 0x8F)) then 4
    else 0
  }

  predicate WellFormedUtf8(s: seq<byte>)
    decreases |s|
  {
    s == [] || (HeadLength(s) > 0 && WellFormedUtf8(s[HeadLength(s)..]))
  }

  lemma {:induction false} EncodedIsWellFormed(cs: seq<nat>)
    requires forall c :: c in cs ==> IsScalar(c)
    ensures WellFormedUtf8(Encode(cs))
  {
    if cs != [] {
      var rest := Encode(cs[1..]);
      EncodedIsWellFormed(cs[1..]);
      EncodedHead(cs[0], rest);
      assert (EncodePoint(cs[0]) + rest)[|EncodePoint(cs[0])|..] == rest;
    }
  }

  lemma EncodedHead(c: nat, rest: seq<byte>)
    requires IsScalar(c)
    ensures HeadLength(EncodePoint(c) + rest) == |EncodePoint(c)|
  {
    if c >= 0x10000 {
      EncodedHead4(c, rest);
    } else if c >= 0x800 {
      EncodedHead3(c, rest);
    }
  }

  lemma EncodedHead3(c: nat, rest: seq<byte>)
    requires IsScalar(c) && 0x800 <= c < 0x10000
    ensures HeadLength(EncodePoint(c) + rest) == 3
  {
    var s := EncodePoint(c) + rest;
    assert s[0] == 0xE0 + c / 4096 && s[1] == 0x80 + c / 64 % 64 && s[2] == 0x80 + c % 64;
  }

  lemma EncodedHead4(c: nat, rest: seq<byte>)
    requires IsScalar(c) && 0x10000 <= c
    ensures HeadLength(EncodePoint(c) + rest) == 4
  {
    var s := EncodePoint(c) + rest;
    assert s[0] == 0xF0 + c / 262144 && s[1] == 0x80 + c / 4096 % 64 && s[2] == 0x80 + c / 64 % 64 && s[3] == 0x80 + c % 64;
  }

  /** The payload bits of a byte with marker `mark`. */
  function Bits(b: byte, mark: nat): nat {
    if b < mark then 0 else b - mark
  }

  /** The scalar value of the sequence at the head of `s`. */
  function HeadScalar(s: seq<byte>): (c: nat)
    requires HeadLength(s) > 0
  {
    match HeadLength(s)
    case 1 => s[0]
    case 2 => 64 * Bits(s[0], 0xC0) + Bits(s[1], 0x80)
    case 3 => 4096 * Bits(s[0], 0xE0) + 64 * Bits(s[1], 0x80) + Bits(s[2], 0x80)
    case _ => 262144 * Bits(s[0], 0xF0) + 4096 * Bits(s[1], 0x80) + 64 * Bits(s[2], 0x80) + Bits(s[3], 0x80)
  }

  lemma Digit(q: nat, z: nat)
    requires z < 64
    ensures (64 * q + z) / 64 == q && (64 * q + z) % 64 == z
  {
  }

  lemma DivDiv(c: nat)
    ensures c / 4096 == c / 64 / 64
    ensures c / 262144 == c / 4096 / 64
  {
  }

  lemma Digits(w: nat, x: nat, y: nat, z: nat)
    requires x < 64 && y < 64 && z < 64
    ensures var c := 262144 * w + 4096 * x + 64 * y + z;
            c % 64 == z && c / 64 % 64 == y && c / 4096 % 64 == x && c / 4096 == 64 * w + x && c / 262144 == w
  {
    var p := 64 * w + x;
    var q := 64 * p + y;
    Digit(q, z);
    Digit(p, y);
    Digit(w, x);
    DivDiv(64 * q + z);
  }

  lemma HeadScalarEncodes(s: seq<byte>)
    requires HeadLength(s) > 0
    ensures IsScalar(HeadScalar(s)) && EncodePoint(HeadScalar(s)) == s[..HeadLength(s)]
  {
    match HeadLength(s)
    case 1 =>
    case 2 => TwoByteScalar(s);
    case 3 => ThreeByteScalar(s);
    case _ => FourByteScalar(s);
  }

  lemma TwoByteScalar(s: seq<byte>)
    requires HeadLength(s) == 2
    ensures IsScalar(HeadScalar(s)) && EncodePoint(HeadScalar(s)) == s[..2]
  {
    Digit(Bits(s[0], 0xC0), Bits(s[1], 0x80));
  }

  lemma ThreeByteScalar(s: seq<byte>)
    requires HeadLength(s) == 3
    ensures IsScalar(HeadScalar(s)) && EncodePoint(HeadScalar(s)) == s[..3]
  {
    Digits(0, Bits(s[0], 0xE0), Bits(s[1], 0x80), Bits(s[2], 0x80));
  }

  lemma FourByteScalar(s: seq<byte>)
    requires HeadLength(s) == 4
    ensures IsScalar(HeadScalar(s)) && EncodePoint(HeadScalar(s)) == s[..4]
  {
    Digits(Bits(s[0], 0xF0), Bits(s[1], 0x80), Bits(s[2], 0x80), Bits(s[3], 0x80));
  }

  lemma {:induction false} WellFormedIsEncoded(s: seq<byte>) returns (cs: seq<nat>)
    requires WellFormedUtf8(s)
    ensures forall c :: c in cs ==> IsScalar(c)
    ensures Encode(cs) == s
    decreases |s|
  {
    if s == [] {
      cs := [];
    } else {
      var n := HeadLength(s);
      HeadScalarEncodes(s);
      var rest := WellFormedIsEncoded(s[n..]);
      cs := [HeadScalar(s)] + rest;
      assert cs[1..] == rest;
      assert s == s[..n] + s[n..];
    }
  }

  ghost predicate EncodesScalars(s: seq<byte>) {
    exists cs: seq<nat> :: (forall c :: c in cs ==> IsScalar(c)) && Encode(cs) == s
  }

  /** The grammar derives exactly the encodings of lists of scalar values. */
  lemma WellFormedExactly(s: seq<byte>)
    ensures WellFormedUtf8(s) <==> EncodesScalars(s)
  {
    if WellFormedUtf8(s) {
      var cs := WellFormedIsEncoded(s);
    }
    if EncodesScalars(s) {
      var cs: seq<nat> :| (forall c :: c in cs ==> IsScalar(c)) && Encode(cs) == s;
      EncodedIsWellFormed(cs);
    }
  }

  /** After well-formed text, the whole is well-formed exactly when the rest is. */
  lemma {:induction false} WellFormedJoin(a: seq<byte>, b: seq<byte>)
    requires WellFormedUtf8(a)
    ensures WellFormedUtf8(a + b) <==> WellFormedUtf8(b)
    decreases |a|
  {
    if a == [] {
      assert a + b == b;
    } else {
      WellFormedJoin(a[HeadLength(a)..], b);
      HeadLengthStays(a, b);
      JoinStep(a, b, HeadLength(a));
    }
  }

  lemma JoinStep(a: seq<byte>, b: seq<byte>, n: nat)
    requires 0 < n <= |a| && n == HeadLength(a + b)
    ensures WellFormedUtf8(a + b) == WellFormedUtf8(a[n..] + b)
  {
    assert (a + b)[n..] == a[n..] + b;
  }

  lemma HeadLengthStays(a: seq<byte>, b: seq<byte>)
    requires a != [] && HeadLength(a) > 0
    ensures HeadLength(a + b) == HeadLength(a)
  {
  }

  lemma {:induction false} AsciiRun(s: seq<byte>, i: nat, n: nat)
    requires i + n <= |s| && forall k :: i <= k < i + n ==> s[k] < 0x80
    ensures WellFormedUtf8(s[i..]) == WellFormedUtf8(s[i + n..])
    decreases n
  {
    if n > 0 {
      Consume(s, i, 1);
      AsciiRun(s, i + 1, n - 1);
    }
  }

  lemma Consume(s: seq<byte>, i: nat, n: nat)
    requires i < |s| && n == HeadLength(s[i..]) > 0
    ensures WellFormedUtf8(s[i..]) == WellFormedUtf8(s[i + n..])
  {
    assert s[i..][n..] == s[i + n..];
  }

  /** The validator: four bytes at a time while they are ASCII, else one sequence at a time. */
  method IsValidUtf8(cs: seq<byte>) returns (ok: bool)
    ensures ok <==> WellFormedUtf8(cs)
  {
    var s, e := 0, |cs|;
    assert cs[0..] == cs;
    while s != e
      invariant 0 <= s <= e
      invariant WellFormedUtf8(cs) == WellFormedUtf8(cs[s..])
      decreases e - s
    {
      if s + 4 <= e && cs[s] < 0x80 && cs[s + 1] < 0x80 && cs[s + 2] < 0x80 && cs[s + 3] < 0x80 {
        AsciiRun(cs, s, 4);
        s := s + 4;
      } else {
        var finished;
        finished, ok, s := SkipSequence(cs, s);
        if finished {
          return;
        }
      }
    }
    return true;
  }

  /** ASCII and then one sequence; `finished` stands for the function returning `ok`. */
  method SkipSequence(cs: seq<byte>, from: nat) returns (finished: bool, ok: bool, s: nat)
    requires from < |cs|
    ensures from <= s <= |cs|
    ensures finished ==> ok == WellFormedUtf8(cs[from..])
    ensures !finished ==> from < s && WellFormedUtf8(cs[from..]) == WellFormedUtf8(cs[s..])
  {
    s := SkipAscii(cs, from);
    if s == |cs| {
      return true, true, s;
    }
    var n := SequenceLength(cs, s);
    if n == 0 {
      return true, false, s;
    }
    Consume(cs, s, n);
    return false, true, s + n;
  }

  /** The inner loop; the end of the text stands for the function returning true. */
  method SkipAscii(cs: seq<byte>, from: nat) returns (s: nat)
    requires from < |cs|
    ensures from <= s <= |cs| && (s < |cs| ==> cs[s] >= 0x80)
    ensures WellFormedUtf8(cs[from..]) == WellFormedUtf8(cs[s..])
  {
    s := from;
    while cs[s] < 0x80
      invariant from <= s < |cs|
      invariant WellFormedUtf8(cs[from..]) == WellFormedUtf8(cs[s..])
      decreases |cs| - s
    {
      Consume(cs, s, 1);
      s := s + 1;
      if s == |cs| {
        return;
      }
    }
  }

  /** The tests on one multi-byte sequence; 0 stands for the function returning false. */
  method SequenceLength(cs: seq<byte>, s: nat) returns (n: nat)
    requires s < |cs| && cs[s] >= 0x80
    ensures n == HeadLength(cs[s..])
  {
    var e := |cs|;
    if cs[s] / 32 % 4 == 2 {
      if s + 1 >= e || cs[s + 1] / 64 != 2 || cs[s] / 2 == 0xC0 / 2 {
        return 0;
      }
      return 2;
    } else if cs[s] / 16 == 0xE {
      if s + 2 >= e || cs[s + 1] / 64 != 2 || cs[s + 2] / 64 != 2 ||
        (cs[s] == 0xE0 && cs[s + 1] / 32 == 4) || (cs[s] == 0xED && cs[s + 1] / 32 == 5) {
        return 0;
      }
      return 3;
    } else if cs[s] / 8 == 0x1E {
      if s + 3 >= e || cs[s + 1] / 64 != 2 || cs[s + 2] / 64 != 2 || cs[s + 3] / 64 != 2 ||
        (cs[s] == 0xF0 && cs[s + 1] / 16 == 8) || (cs[s] == 0xF4 && cs[s + 1] > 0x8F) || cs[s] > 0xF4 {
        return 0;
      }
      return 4;
    } else {
      return 0;
    }
  }
}
