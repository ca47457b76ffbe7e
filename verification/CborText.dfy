/** Text of Unicode scalar values as the parser reads it. */
module CborText {
  import opened Wire
  import opened Cbor
  import opened CborRoundTrip
  import opened Utf8

  /** The code points of UTF-16: a high and a low surrogate are one, any other unit is one by itself. */
  function Points(units: Text): seq<nat> {
    if units == [] then []
    else if 0xD800 <= units[0] < 0xDC00 && |units| > 1 && 0xDC00 <= units[1] < 0xE000 then
      [0x10000 + (units[0] - 0xD800) as int * 0x400 + (units[1] - 0xDC00)] + Points(units[2..])
    else [units[0]] + Points(units[1..])
  }

  predicate Scalars(cs: seq<nat>) {
    forall c :: c in cs ==> IsScalar(c)
  }

  function UnitsOf(cs: seq<nat>): Text
    requires Scalars(cs)
  {
    if cs == [] then [] else assert IsScalar(cs[0]); Units(cs[0]) + UnitsOf(cs[1..])
  }

  lemma {:induction false} PointsBack(cs: seq<nat>)
    requires Scalars(cs)
    ensures Points(UnitsOf(cs)) == cs
    decreases |cs|
  {
    if cs != [] {
      assert IsScalar(cs[0]);
      PointsBack(cs[1..]);
      var rest := UnitsOf(cs[1..]);
      if cs[0] < 0x10000 {
        assert ([cs[0]] + rest)[1..] == rest;
      } else {
        PairBack(cs[0], rest);
      }
    }
  }

  lemma PairBack(c: nat, rest: Text)
    requires 0x10000 <= c < 0x110000
    ensures Points(Units(c) + rest) == [c] + Points(rest)
  {
    var x := c - 0x10000;
    assert x / 1024 < 0x400 && x == x / 1024 * 1024 + x % 1024;
    assert (Units(c) + rest)[2..] == rest;
  }

  lemma {:induction false} ScalarsRead(data: seq<byte>, at: nat, cs: seq<nat>)
    requires Scalars(cs) && At(data, at, Encode(cs))
    ensures ReadsText(data, at, Encode(cs), UnitsOf(cs))
    decreases |cs|
  {
    if cs != [] {
      assert IsScalar(cs[0]);
      AtSplit(data, at, EncodePoint(cs[0]), Encode(cs[1..]));
      ScalarsRead(data, at + |EncodePoint(cs[0])|, cs[1..]);
      TextStep(data, at, cs[0], Encode(cs[1..]), UnitsOf(cs[1..]));
    }
  }

  /** Any Unicode text is read from its UTF-8 bytes as UTF-16 that stands for the same code points. */
  lemma UnicodeRead(data: seq<byte>, at: nat, cs: seq<nat>)
    requires Scalars(cs) && At(data, at, Encode(cs))
    ensures at <= |data|
    ensures var r := ReadText(data, at, |Encode(cs)|); r.Ok? && r.next == at + |Encode(cs)| && Points(r.value) == cs
  {
    ScalarsRead(data, at, cs);
    PointsBack(cs);
  }
}
