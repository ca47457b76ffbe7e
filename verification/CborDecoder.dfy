/** The CBOR parser over a buffer and a moving offset, against the parsing functions. */
module CborDecoder {
  import opened Bits
  import opened Wire
  import opened Cbor
  import opened Wrappers

  /** What a parsing step returns; an exception ends the whole parse. */
  datatype Outcome<T> = Value(value: T) | Thrown

  function Byte(b: byte): nat { b }

  /** Entries already read, followed by the rest. */
  function Then<T>(done: seq<T>, rest: Parsed<seq<T>>): Parsed<seq<T>> {
    match rest
    case Ok(more, next) => Ok(done + more, next)
    case Error => Error
  }

  function Flat(elements: seq<seq<byte>>): seq<byte> {
    if elements == [] then [] else Flat(elements[..|elements| - 1]) + elements[|elements| - 1]
  }

  lemma ThenTwice<T>(a: seq<T>, b: seq<T>, rest: Parsed<seq<T>>)
    ensures Then(a, Then(b, rest)) == Then(a + b, rest)
  {
    if rest.Ok? { assert a + (b + rest.value) == a + b + rest.value; }
  }

  lemma OneMore(s: seq<byte>, b: byte)
    ensures FromBigEndian(s + [b]) == 256 * FromBigEndian(s) + Byte(b)
  {
    assert (s + [b])[..|s|] == s;
  }

  lemma TwoWords(s: seq<byte>, t: seq<byte>)
    requires |t| == 4
    ensures FromBigEndian(s + t) == FromBigEndian(s) * 0x1_0000_0000 + FromBigEndian(t)
  {
    Four(s, t);
    Four([], t);
    assert [] + t == t;
  }

  lemma Four(s: seq<byte>, t: seq<byte>)
    requires |t| == 4
    ensures FromBigEndian(s + t)
         == 0x1_0000_0000 * FromBigEndian(s) + 0x100_0000 * Byte(t[0]) + 0x1_0000 * Byte(t[1])
          + 0x100 * Byte(t[2]) + Byte(t[3])
  {
    OneMore(s, t[0]);
    OneMore(s + [t[0]], t[1]);
    OneMore(s + [t[0]] + [t[1]], t[2]);
    OneMore(s + [t[0]] + [t[1]] + [t[2]], t[3]);
    assert s + t == s + [t[0]] + [t[1]] + [t[2]] + [t[3]];
  }

  /** Numbers of up to four bytes need no rounding. */
  lemma SmallUint(data: seq<byte>, at: nat, width: nat)
    requires at + width <= |data| && width <= 4
    ensures var n := FromBigEndian(data[at..at + width]); Rounded(n) == n
  {
    var s := data[at..at + width];
    FromBigEndianInverse(s);
    Pow2Monotone(8 * width, 32);
    Widths();
    RoundedExact(FromBigEndian(s));
  }

  /** One sequence of a text. */
  lemma TextStep(data: seq<byte>, at: nat, left: int, units: Text, point: nat, next: nat, rest: int)
    requires at < |data| && left > 0 && next == at + 1 + Following(data[at]) <= |data| && rest == left - (next - at)
    requires point == Assembled(data[at..next])
    ensures Then(units, ReadText(data, at, left)) == Then(units + Units(point), ReadText(data, next, rest))
  {
    ThenTwice(units, Units(point), ReadText(data, next, rest));
  }

  /** One piece of an indefinite byte string. */
  lemma PiecesStep(data: seq<byte>, at: nat, done: seq<byte>, piece: seq<byte>, next: nat)
    requires at <= |data| && ReadPieceLength(data, at, 2).Ok? && ReadPieceLength(data, at, 2).value >= 0
    requires var r := ReadPieceLength(data, at, 2); ReadBytes(data, r.next, r.value) == Ok(piece, next)
    ensures Then(done, ReadBytePieces(data, at)) == Then(done + piece, ReadBytePieces(data, next))
  {
    ThenTwice(done, piece, ReadBytePieces(data, next));
  }

  lemma FlatMore(elements: seq<seq<byte>>, piece: seq<byte>)
    ensures Flat(elements + [piece]) == Flat(elements) + piece
  {
    assert (elements + [piece])[..|elements|] == elements;
  }

  /** One field of an object. */
  lemma FieldsStep(
      show: Show, data: seq<byte>, at: nat, count: Count, fields: seq<Field>, key: Value, next: nat, value: Value, next': nat,
      text: Text)
    requires at <= |data| && AtEnd(data, at, count) == Ok(false, at) && Dec(show, data, at) == Ok(key, next)
    requires Dec(show, data, next) == Ok(value, next') && KeyText(show, key) == Some(text)
    ensures DecFields(show, data, at, count, fields)
         == DecFields(show, data, next', Fewer(count), SetProperty(fields, text, value))
  {
  }

  class Decoder {
    const data: seq<byte>
    const show: Show
    var offset: nat

    ghost predicate Valid()
      reads this`offset
    {
      offset <= |data|
    }

    /** The step did what the parsing function says. */
    ghost predicate Follows<T>(out: Outcome<T>, spec: Parsed<T>)
      reads this`offset
    {
      match spec
      case Error => out.Thrown?
      case Ok(value, next) => out == Value(value) && offset == next
    }

    constructor (bytes: seq<byte>, show: Show)
      ensures Valid() && data == bytes && this.show == show && offset == 0
    {
      data, this.show, offset := bytes, show, 0;
    }

    /** `getUint8`, `getUint16` and `getUint32` at the offset. */
    method ReadUintOf(width: nat) returns (out: Outcome<nat>)
      requires Valid()
      modifies this`offset
      ensures Valid() && Follows(out, ReadUint(data, old(offset), width))
    {
      if offset + width > |data| { return Thrown; }
      out := Value(FromBigEndian(data[offset..offset + width]));
      offset := offset + width;
    }

    method ReadUint64() returns (out: Outcome<nat>)
      requires Valid()
      modifies this`offset
      ensures Valid()
      ensures match ReadUint(data, old(offset), 8)
        case Error => out.Thrown?
        case Ok(n, next) => out == Value(Rounded(n)) && offset == next
    {
      var high := ReadUintOf(4);
      if high.Thrown? { return Thrown; }
      var low := ReadUintOf(4);
      if low.Thrown? { return Thrown; }
      ghost var at := old(offset);
      TwoWords(data[at..at + 4], data[at + 4..at + 8]);
      assert data[at..at + 4] + data[at + 4..at + 8] == data[at..at + 8];
      out := Value(Rounded(high.value * 0x1_0000_0000 + low.value));
    }

    method ReadLengthOf(info: nat) returns (out: Outcome<int>)
      requires Valid()
      modifies this`offset
      ensures Valid() && Follows(out, ReadLength(data, old(offset), info))
    {
      if info < 24 { return Value(info); }
      if info == 31 { return Value(-1); }
      if info > 27 { return Thrown; }
      var n;
      if info == 27 {
        n := ReadUint64();
      } else {
        ghost var at := offset;
        n := ReadUintOf(Width(info));
        if n.Value? { SmallUint(data, at, Width(info)); }
      }
      out := if n.Thrown? then Thrown else Value(n.value);
    }

    method ReadIndefiniteStringLength(major: nat) returns (out: Outcome<int>)
      requires Valid()
      modifies this`offset
      ensures Valid() && Follows(out, ReadPieceLength(data, old(offset), major))
    {
      if offset >= |data| { return Thrown; }
      var initialByte := Byte(data[offset]);
      offset := offset + 1;
      if initialByte == 0xFF { return Value(-1); }
      out := ReadLengthOf(initialByte % 32);
      if out.Value? && (out.value < 0 || initialByte / 32 != major) { out := Thrown; }
    }

    /** The number assembled from the sequence at the offset. */
    method ReadPoint() returns (out: Outcome<nat>, following: nat)
      requires Valid() && offset < |data|
      modifies this`offset
      ensures Valid() && following == Following(data[old(offset)])
      ensures out.Thrown? <==> old(offset) + 1 + following > |data|
      ensures out.Value? ==>
        && offset == old(offset) + 1 + following
        && out.value == Assembled(data[old(offset)..offset])
    {
      var first := Byte(data[offset]);
      offset := offset + 1;
      var value := first;
      following := if first < 0x80 then 0 else if first < 0xE0 then 1 else if first < 0xF0 then 2 else 3;
      if offset + following > |data| { return Thrown, following; }
      if following == 1 {
        value := first % 32 * 64 + Byte(data[offset]) % 64;
      } else if following == 2 {
        value := first % 16 * 4096 + Byte(data[offset]) % 64 * 64 + Byte(data[offset + 1]) % 64;
      } else if following == 3 {
        value := first % 16 * 262144 + Byte(data[offset]) % 64 * 4096 + Byte(data[offset + 1]) % 64 * 64
          + Byte(data[offset + 2]) % 64;
      }
      offset := offset + following;
      out := Value(value);
    }

    /** The loop whose bound shrinks by the extra bytes of each sequence. */
    method AppendUtf16Data(utf16data: Text, bytes: nat) returns (out: Outcome<Text>)
      requires Valid()
      modifies this`offset
      ensures Valid() && Follows(out, Then(utf16data, ReadText(data, old(offset), bytes)))
    {
      var units := utf16data;
      var i, length: int := 0, bytes;
      ghost var left, whole := length, Then(utf16data, ReadText(data, offset, bytes));
      while i < length
        invariant Valid() && left == length - i && Then(units, ReadText(data, offset, left)) == whole
      {
        if offset >= |data| { return Thrown; }
        ghost var at := offset;
        var point, extra := ReadPoint();
        if point.Thrown? { return Thrown; }
        TextStep(data, at, left, units, point.value, offset, left - (1 + extra));
        units := units + Units(point.value);
        length := length - extra;
        i := i + 1;
        left := left - (1 + extra);
      }
      assert units + [] == units;
      out := Value(units);
    }

    method ReadArrayBuffer(length: nat) returns (out: Outcome<seq<byte>>)
      requires Valid()
      modifies this`offset
      ensures Valid() && Follows(out, ReadBytes(data, old(offset), length))
    {
      if offset + length > |data| { return Thrown; }
      out := Value(data[offset..offset + length]);
      offset := offset + length;
    }

    /** The pieces of an indefinite byte string. */
    method ReadElements() returns (out: Outcome<seq<seq<byte>>>)
      requires Valid()
      modifies this`offset
      ensures Valid()
      ensures var spec := ReadBytePieces(data, old(offset));
        if spec.Error? then out.Thrown? else out.Value? && Flat(out.value) == spec.value && offset == spec.next
    {
      var elements: seq<seq<byte>> := [];
      var length := ReadIndefiniteStringLength(2);
      ghost var at := old(offset);
      ghost var whole := ReadBytePieces(data, at);
      assert whole.Ok? ==> [] + whole.value == whole.value;
      while length.Value? && length.value >= 0
        invariant Valid() && at <= |data| && Follows(length, ReadPieceLength(data, at, 2))
        invariant Then(Flat(elements), ReadBytePieces(data, at)) == whole
        decreases |data| - at
      {
        var piece := ReadArrayBuffer(length.value);
        if piece.Thrown? { return Thrown; }
        PiecesStep(data, at, Flat(elements), piece.value, offset);
        at := offset;
        FlatMore(elements, piece.value);
        elements := elements + [piece.value];
        length := ReadIndefiniteStringLength(2);
      }
      if length.Thrown? { return Thrown; }
      assert Flat(elements) + [] == Flat(elements);
      out := Value(elements);
    }

    /** The pieces copied one after the other. */
    static method Join(elements: seq<seq<byte>>) returns (bytes: seq<byte>)
      ensures bytes == Flat(elements)
    {
      bytes := [];
      for i := 0 to |elements|
        invariant bytes == Flat(elements[..i])
      {
        assert elements[..i + 1][..i] == elements[..i];
        bytes := bytes + elements[i];
      }
      assert elements[..|elements|] == elements;
    }

    method DecodeBytes(length: int) returns (out: Outcome<seq<byte>>)
      requires Valid()
      modifies this`offset
      ensures Valid()
      ensures Follows(out, if length < 0 then ReadBytePieces(data, old(offset)) else ReadBytes(data, old(offset), length))
    {
      if length >= 0 {
        out := ReadArrayBuffer(length);
      } else {
        var elements := ReadElements();
        if elements.Thrown? { return Thrown; }
        var bytes := Join(elements.value);
        out := Value(bytes);
      }
    }

    method DecodePieces() returns (out: Outcome<Text>)
      requires Valid()
      modifies this`offset
      ensures Valid() && Follows(out, ReadTextPieces(data, old(offset)))
    {
      out := Value([]);
      var length := ReadIndefiniteStringLength(3);
      ghost var at := old(offset);
      ghost var whole := ReadTextPieces(data, at);
      assert whole.Ok? ==> [] + whole.value == whole.value;
      while length.Value? && length.value >= 0
        invariant Valid() && at <= |data| && out.Value? && Follows(length, ReadPieceLength(data, at, 3))
        invariant Then(out.value, ReadTextPieces(data, at)) == whole
        decreases |data| - at
      {
        var units := out.value;
        ghost var text := ReadText(data, offset, length.value);
        out := AppendUtf16Data(units, length.value);
        if out.Thrown? { return; }
        at := offset;
        ThenTwice(units, text.value, ReadTextPieces(data, at));
        length := ReadIndefiniteStringLength(3);
      }
      if length.Thrown? { return Thrown; }
      assert out.value + [] == out.value;
    }

    method DecodeText(length: int) returns (out: Outcome<Text>)
      requires Valid()
      modifies this`offset
      ensures Valid()
      ensures Follows(out, if length < 0 then ReadTextPieces(data, old(offset)) else ReadText(data, old(offset), length))
    {
      if length < 0 {
        out := DecodePieces();
      } else {
        ghost var text := ReadText(data, offset, length);
        out := AppendUtf16Data([], length);
        assert text.Ok? ==> [] + text.value == text.value;
      }
    }

    method ReadBreak() returns (out: Outcome<bool>)
      requires Valid()
      modifies this`offset
      ensures Valid() && Follows(out, AtEnd(data, old(offset), UntilBreak))
    {
      if offset >= |data| { return Thrown; }
      out := Value(data[offset] == 0xFF);
      if out.value { offset := offset + 1; }
    }

    /** Whether the loop over `length` entries, or up to a break, is over before entry `i`. */
    method Over(i: nat, length: int) returns (out: Outcome<bool>)
      requires Valid() && (length >= 0 ==> i <= length)
      modifies this`offset
      ensures Valid() && Follows(out, AtEnd(data, old(offset), Left(i, length)))
    {
      if length < 0 {
        out := ReadBreak();
      } else {
        out := Value(i >= length);
      }
    }

    method DecodeArray(length: int) returns (out: Outcome<seq<Value>>)
      requires Valid()
      modifies this`offset
      ensures Valid() && Follows(out, DecItems(show, data, old(offset), ToCount(length)))
      decreases |data| - offset, 1
    {
      out := Value([]);
      var i: nat := 0;
      ghost var at := offset;
      ghost var whole := DecItems(show, data, offset, ToCount(length));
      assert whole.Ok? ==> [] + whole.value == whole.value;
      var over := Over(i, length);
      while over.Value? && !over.value
        invariant Valid() && old(offset) <= at <= |data| && out.Value? && (length >= 0 ==> i <= length)
        invariant Follows(over, AtEnd(data, at, Left(i, length)))
        invariant Then(out.value, DecItems(show, data, at, Left(i, length))) == whole
        decreases |data| - at
      {
        var item := DecodeItem();
        if item.Thrown? { return Thrown; }
        ThenTwice(out.value, [item.value], DecItems(show, data, offset, Left(i + 1, length)));
        out := Value(out.value + [item.value]);
        i := i + 1;
        at := offset;
        over := Over(i, length);
      }
      if over.Thrown? { return Thrown; }
      assert out.value + [] == out.value;
    }

    method DecodeObject(length: int) returns (out: Outcome<seq<Field>>)
      requires Valid()
      modifies this`offset
      ensures Valid() && Follows(out, DecFields(show, data, old(offset), ToCount(length), []))
      decreases |data| - offset, 1
    {
      var fields: seq<Field> := [];
      var i: nat := 0;
      ghost var at := offset;
      ghost var whole := DecFields(show, data, offset, ToCount(length), []);
      var over := Over(i, length);
      while over.Value? && !over.value
        invariant Valid() && old(offset) <= at <= |data| && (length >= 0 ==> i <= length)
        invariant Follows(over, AtEnd(data, at, Left(i, length)))
        invariant DecFields(show, data, at, Left(i, length), fields) == whole
        decreases |data| - at
      {
        var key := DecodeItem();
        if key.Thrown? { return Thrown; }
        ghost var between := offset;
        var value := DecodeItem();
        if value.Thrown? { return Thrown; }
        var name := KeyText(show, key.value);
        if name.None? { return Thrown; }
        FieldsStep(show, data, at, Left(i, length), fields, key.value, between, value.value, offset, name.value);
        fields := SetProperty(fields, name.value, value.value);
        i := i + 1;
        at := offset;
        over := Over(i, length);
      }
      if over.Thrown? { return Thrown; }
      out := Value(fields);
    }

    method DecodeItem() returns (out: Outcome<Value>)
      requires Valid()
      modifies this`offset
      ensures Valid() && Follows(out, Dec(show, data, old(offset)))
      decreases |data| - offset, 0
    {
      if offset >= |data| { return Thrown; }
      var initialByte := Byte(data[offset]);
      offset := offset + 1;
      out := DecodeHead(initialByte / 32, initialByte % 32);
    }

    /** The rest of an item whose initial byte has been read. */
    method DecodeHead(major: nat, info: nat) returns (out: Outcome<Value>)
      requires Valid() && major < 8
      modifies this`offset
      ensures Valid() && Follows(out, DecHead(show, data, old(offset), major, info))
      decreases |data| - offset, 4
    {
      if major == 7 && 25 <= info <= 27 {
        var image := ReadArrayBuffer(Width(info));
        return if image.Thrown? then Thrown else Value(Float(image.value));
      }
      var length := ReadLengthOf(info);
      if length.Thrown? || (length.value < 0 && (major < 2 || 6 < major)) { return Thrown; }
      out := DecodeMajor(major, length.value);
    }

    /** The rest of an item whose initial byte and length have been read. */
    method DecodeMajor(major: nat, length: int) returns (out: Outcome<Value>)
      requires Valid() && major < 8 && length >= -1 && (length < 0 ==> 2 <= major <= 6)
      modifies this`offset
      ensures Valid() && Follows(out, DecBody(show, data, old(offset), major, length))
      decreases |data| - offset, 3
    {
      if major < 2 {
        out := Value(Int(if major == 0 then length else Negative(length)));
      } else if major == 2 {
        var bytes := DecodeBytes(length);
        out := if bytes.Thrown? then Thrown else Value(Bytes(bytes.value));
      } else if major == 3 {
        var text := DecodeText(length);
        out := if text.Thrown? then Thrown else Value(Str(text.value));
      } else if major == 4 {
        if length >= 0x1_0000_0000 { return Thrown; }
        var items := DecodeArray(length);
        out := if items.Thrown? then Thrown else Value(Array(items.value));
      } else if major == 5 {
        var fields := DecodeObject(length);
        out := if fields.Thrown? then Thrown else Value(Object(fields.value));
      } else if major == 6 {
        out := DecodeItem();
      } else {
        out := Value(Simple(length));
      }
    }
  }

  function Left(i: nat, length: int): Count
    requires length >= 0 ==> i <= length
  {
    if length < 0 then UntilBreak else Exactly(length - i)
  }

  /** The parser as a whole. */
  method Decode(data: seq<byte>, show: Show) returns (out: Outcome<Value>)
    ensures match Cbor.Decode(show, data) case Ok(v, _) => out == Value(v) case Error => out.Thrown?
  {
    var decoder := new Decoder(data, show);
    out := decoder.DecodeItem();
    if out.Value? && decoder.offset != |data| { out := Thrown; }
  }
}
