/** The CBOR printer over a buffer that grows by doubling, against the bytes it stands for. */
module CborEncoder {
  import opened Bits
  import opened Wire
  import opened Cbor

  const LIMIT := 0x4000_0000

  /** 256 bytes, doubled `j` times. */
  function BufferSize(j: nat): (n: nat)
    ensures n % 4 == 0 && n >= 256
  {
    if j == 0 then 256 else 2 * BufferSize(j - 1)
  }

  /** The sizes a buffer goes through, up to 2^30 bytes. */
  ghost predicate IsBufferSize(n: int) {
    exists j: nat :: j <= 22 && n == BufferSize(j)
  }

  lemma {:induction false} Largest()
    ensures BufferSize(22) == LIMIT
  {
    assert BufferSize(4) == 4096;
    assert BufferSize(8) == 65536;
    assert BufferSize(12) == 1048576;
    assert BufferSize(16) == 16777216;
    assert BufferSize(20) == 268435456;
  }

  lemma {:induction false} SizesGrow(i: nat, j: nat)
    requires i < j
    ensures 2 * BufferSize(i) <= BufferSize(j)
    decreases j
  {
    if i < j - 1 { SizesGrow(i, j - 1); }
  }

  lemma {:induction false} BufferSizes(n: int)
    requires IsBufferSize(n)
    ensures 256 <= n <= LIMIT && n % 4 == 0
    ensures n < LIMIT ==> IsBufferSize(2 * n) && 2 * n <= LIMIT
  {
    var j: nat :| j <= 22 && n == BufferSize(j);
    Largest();
    if j < 22 {
      SizesGrow(j, 22);
      assert 2 * n == BufferSize(j + 1);
    }
  }

  /** A buffer size after k doublings. */
  function Doubled(size: int, k: nat): int {
    if k == 0 then size else Int32(2 * Doubled(size, k - 1))
  }

  /** Beyond 2^30 bytes the growing loop never gets there: the size turns negative and then stays 0. */
  lemma {:induction false} GrowthStalls(size: nat, k: nat)
    requires IsBufferSize(size)
    ensures Doubled(size, k) <= LIMIT
    ensures Stalled(Doubled(size, k)) || IsBufferSize(Doubled(size, k))
  {
    BufferSizes(size);
    if k > 0 {
      GrowthStalls(size, k - 1);
      StallsNext(Doubled(size, k - 1));
    }
  }

  lemma {:induction false} DoubledSize(j: nat, k: nat)
    requires j + k <= 22
    ensures Doubled(BufferSize(j), k) == BufferSize(j + k)
    decreases k
  {
    if k > 0 {
      DoubledSize(j, k - 1);
      Largest();
      if j + k < 22 { SizesGrow(j + k, 22); }
      Int32Same(BufferSize(j + k));
    }
  }

  /** The growing loop gets to the required size exactly when that is at most 2^30 bytes. */
  lemma GrowthEndsExactly(size: nat, required: nat)
    requires IsBufferSize(size)
    ensures (exists k: nat :: Doubled(size, k) >= required) <==> required <= LIMIT
  {
    var j: nat :| j <= 22 && size == BufferSize(j);
    Largest();
    DoubledSize(j, 22 - j);
    assert Doubled(size, 22 - j) == LIMIT;
    if k: nat :| Doubled(size, k) >= required { GrowthStalls(size, k); }
  }

  predicate Stalled(n: int) {
    n == 0 || n == -0x8000_0000
  }

  lemma {:induction false} StallsNext(n: int)
    requires Stalled(n) || IsBufferSize(n)
    ensures Stalled(Int32(2 * n)) || IsBufferSize(Int32(2 * n))
    ensures Int32(2 * n) <= LIMIT
  {
    if Stalled(n) {
      assert Int32(0) == 0 && Int32(-0x1_0000_0000) == 0;
    } else {
      BufferSizes(n);
      if n < LIMIT { Int32Same(2 * n); } else { assert Int32(0x8000_0000) == -0x8000_0000; }
    }
  }

  lemma AppendTwice(written: seq<byte>, a: seq<byte>, b: seq<byte>)
    ensures written + a + b == written + (a + b) && |a + b| == |a| + |b|
  {
  }

  class Encoder {
    var data: array<byte>
    var offset: nat
    var lastLength: nat

    ghost predicate Valid()
      reads this`data, this`offset
    {
      IsBufferSize(data.Length) && offset <= data.Length
    }

    /** What has been written. */
    ghost function Written(): seq<byte>
      requires Valid()
      reads this`data, this`offset, data
    {
      data[..offset]
    }

    constructor ()
      ensures Valid() && Written() == [] && fresh(data)
    {
      data := new byte[256](_ => 0);
      offset, lastLength := 0, 0;
      assert BufferSize(0) == 256;
    }

    /** The size of a buffer for `required` bytes. */
    method Grown(required: nat) returns (size: nat)
      requires Valid() && required <= LIMIT
      ensures IsBufferSize(size) && size >= required && size >= data.Length
    {
      size := data.Length;
      while size < required
        invariant IsBufferSize(size) && size >= data.Length
        decreases LIMIT - size
      {
        BufferSizes(size);
        size := Int32(2 * size);
      }
    }

    /** A larger buffer holding what has been written, copied word by word. */
    method CopyWords(size: nat) returns (copy: array<byte>)
      requires Valid() && size > data.Length
      ensures fresh(copy) && copy.Length == size && copy[..offset] == data[..offset]
    {
      BufferSizes(data.Length);
      WordsFit(offset, data.Length);
      var words := (offset + 3) / 4;
      copy := new byte[size](_ => 0);
      MoveWords(data, copy, words);
      assert forall k :: 0 <= k < offset ==> copy[k] == data[k];
    }

    static method MoveWords(from: array<byte>, to: array<byte>, words: nat)
      requires 4 * words <= from.Length && 4 * words <= to.Length && from != to
      modifies to
      ensures forall k :: 0 <= k < 4 * words ==> to[k] == from[k]
    {
      var i := 0;
      while i < words
        invariant 0 <= i <= words
        invariant forall k :: 0 <= k < 4 * i ==> to[k] == from[k]
      {
        to[4 * i], to[4 * i + 1] := from[4 * i], from[4 * i + 1];
        to[4 * i + 2], to[4 * i + 3] := from[4 * i + 2], from[4 * i + 3];
        i := i + 1;
      }
    }

    /** Makes room for `length` bytes. */
    method PrepareWrite(length: nat)
      requires Valid() && offset + length <= LIMIT
      modifies this`data, this`lastLength
      ensures Valid() && Written() == old(Written()) && lastLength == length && offset + length <= data.Length
      ensures data == old(data) || fresh(data)
    {
      var size := Grown(offset + length);
      if size != data.Length {
        data := CopyWords(size);
      }
      lastLength := length;
    }

    method CommitWrite()
      requires Valid() && offset + lastLength <= data.Length
      modifies this`offset
      ensures Valid() && offset == old(offset) + old(lastLength)
    {
      offset := offset + lastLength;
    }

    method WriteUint8Array(value: seq<byte>)
      requires Valid() && offset + |value| <= LIMIT
      modifies this, data
      ensures Valid() && Written() == old(Written()) + value && (data == old(data) || fresh(data))
    {
      PrepareWrite(|value|);
      SetBytes(data, offset, value);
      CommitWrite();
    }

    static method SetBytes(to: array<byte>, at: nat, value: seq<byte>)
      requires at + |value| <= to.Length
      modifies to
      ensures to[..at + |value|] == old(to[..at]) + value
    {
      var i := 0;
      while i < |value|
        invariant 0 <= i <= |value|
        invariant to[..at + i] == old(to[..at]) + value[..i]
      {
        to[at + i] := value[i];
        i := i + 1;
      }
      assert value[..i] == value;
    }

    /** `DataView.setUint8/16/32`: big-endian. */
    method WriteUint(value: nat, width: nat)
      requires Valid() && offset + width <= LIMIT
      modifies this, data
      ensures Valid() && Written() == old(Written()) + BigEndian(value, width) && (data == old(data) || fresh(data))
    {
      WriteUint8Array(BigEndian(value, width));
    }

    method WriteUint64(value: nat)
      requires Valid() && offset + 8 <= LIMIT && value < 0x1_0000_0000_0000_0000
      modifies this, data
      ensures Valid() && Written() == old(Written()) + BigEndian(value, 8) && (data == old(data) || fresh(data))
    {
      var high, low := Halves(value);
      WriteUint8Array(BigEndian(high, 4) + BigEndian(low, 4));
    }

    static method Halves(value: nat) returns (high: nat, low: nat)
      ensures BigEndian(high, 4) + BigEndian(low, 4) == BigEndian(value, 8)
    {
      low := value % 0x1_0000_0000;
      high := (value - low) / 0x1_0000_0000;
      HighPart(value);
      HighLow(value);
    }

    method WriteTypeAndLength(major: nat, length: nat)
      requires Valid() && major < 8 && length < 0x1_0000_0000_0000_0000 && offset + |Head(major, length)| <= LIMIT
      modifies this, data
      ensures Valid() && Written() == old(Written()) + Head(major, length) && (data == old(data) || fresh(data))
    {
      if length < 24 {
        WriteUint8Array([32 * major + length]);
      } else if length < 0x100 {
        WriteForm(major, 24, length);
      } else if length < 0x10000 {
        WriteForm(major, 25, length);
      } else if length < 0x1_0000_0000 {
        WriteForm(major, 26, length);
      } else {
        WriteForm(major, 27, length);
      }
    }

    /** An initial byte and the length bytes it announces. */
    method WriteForm(major: nat, info: nat, length: nat)
      requires Valid() && major < 8 && length < 0x1_0000_0000_0000_0000 && info == Extra(length) >= 24
      requires offset + |Head(major, length)| <= LIMIT
      modifies this, data
      ensures Valid() && Written() == old(Written()) + Head(major, length) && (data == old(data) || fresh(data))
    {
      WriteUint8Array([32 * major + info]);
      if info == 27 {
        WriteUint64(length);
      } else {
        WriteUint(length, Width(info));
      }
    }

    /** The UTF-8 loop over the units of a text. */
    method Utf8Data(text: Text) returns (utf8: seq<byte>)
      ensures utf8 == TextBytes(text)
    {
      utf8 := [];
      var i: nat := 0;
      assert text[0..] == text;
      while i < |text|
        invariant i <= |text| && utf8 + TextBytes(text[i..]) == TextBytes(text)
        decreases |text| - i
      {
        var bytes, next := PushPoint(text, i);
        TextFrom(text, i, utf8);
        utf8 := utf8 + bytes;
        i := next;
      }
    }

    /** One turn of the loop: the bytes pushed and the index of the next unit. */
    method PushPoint(text: Text, at: nat) returns (utf8: seq<byte>, i: nat)
      requires at < |text|
      ensures utf8 == Utf8.EncodePoint(FirstPoint(text[at..])) && i == at + Taken(text[at..])
    {
      i := at;
      var c := text[i] as int;
      if c < 0x80 {
        utf8 := [c];
      } else if c < 0x800 {
        utf8 := [0xC0 + c / 64, 0x80 + c % 64];
      } else if c < 0xD800 {
        utf8 := [0xE0 + c / 4096, 0x80 + c / 64 % 64, 0x80 + c % 64];
      } else {
        utf8, i := PushPair(text, i);
      }
      i := i + 1;
    }

    /** A unit from 0xD800 on and the one after it. */
    method PushPair(text: Text, at: nat) returns (utf8: seq<byte>, i: nat)
      requires at < |text| && text[at] >= 0xD800
      ensures utf8 == Utf8.EncodePoint(FirstPoint(text[at..])) && i + 1 == at + Taken(text[at..])
    {
      i := at;
      var high, low := text[i] as int % 1024, 0;
      if i + 1 < |text| {
        i := i + 1;
        low := text[i] as int % 1024;
      }
      var c := high * 1024 + low + 0x10000;
      assert c == FirstPoint(text[at..]);
      utf8 := [0xF0 + c / 262144, 0x80 + c / 4096 % 64, 0x80 + c / 64 % 64, 0x80 + c % 64];
    }

    method EncodeText(text: Text)
      requires Valid() && 4 * |text| < MAX_SAFE && offset + |EncText(text)| <= LIMIT
      modifies this, data
      ensures Valid() && Written() == old(Written()) + EncText(text) && (data == old(data) || fresh(data))
    {
      var utf8 := Utf8Data(text);
      AppendTwice(Written(), Head(3, |utf8|), utf8);
      WriteTypeAndLength(3, |utf8|);
      WriteUint8Array(utf8);
    }

    method EncodeLeaf(v: Value)
      requires Valid() && Proper(v) && !v.Array? && !v.Object? && offset + |Enc(v)| <= LIMIT
      modifies this, data
      ensures Valid() && Written() == old(Written()) + Enc(v) && (data == old(data) || fresh(data))
    {
      match v
      case Bool(b) => WriteUint8Array([if b then 0xF5 else 0xF4]);
      case Null => WriteUint8Array([0xF6]);
      case Undefined => WriteUint8Array([0xF7]);
      case Int(i) =>
        if i >= 0 { WriteTypeAndLength(0, i); } else { WriteTypeAndLength(1, -(i + 1)); }
      case Float(image) =>
        AppendTwice(Written(), [0xFB], image);
        WriteUint8Array([0xFB]);
        WriteUint8Array(image);
      case Str(text) => EncodeText(text);
      case Bytes(bytes) =>
        AppendTwice(Written(), Head(2, |bytes|), bytes);
        WriteTypeAndLength(2, |bytes|);
        WriteUint8Array(bytes);
    }

    method EncodeItem(v: Value)
      requires Valid() && Proper(v) && offset + |Enc(v)| <= LIMIT
      modifies this, data
      ensures Valid() && Written() == old(Written()) + Enc(v) && (data == old(data) || fresh(data))
      decreases v, 2
    {
      match v
      case Array(items) => EncodeArray(items);
      case Object(fields) => EncodeObject(fields);
      case _ => EncodeLeaf(v);
    }

    method EncodeArray(items: seq<Value>)
      requires Valid() && Proper(Array(items)) && offset + |Enc(Array(items))| <= LIMIT
      modifies this, data
      ensures Valid() && Written() == old(Written()) + Enc(Array(items)) && (data == old(data) || fresh(data))
      decreases items, 1
    {
      Associate(Written(), Head(4, |items|), EncItems(items));
      WriteTypeAndLength(4, |items|);
      EncodeItems(items);
    }

    method EncodeItems(items: seq<Value>)
      requires Valid() && Proper(Array(items)) && offset + |EncItems(items)| <= LIMIT
      modifies this, data
      ensures Valid() && Written() == old(Written()) + EncItems(items) && (data == old(data) || fresh(data))
      decreases items, 0
    {
      var i := 0;
      ghost var whole := Written() + EncItems(items);
      assert items[0..] == items;
      while i < |items|
        invariant 0 <= i <= |items| && Valid() && (data == old(data) || fresh(data))
        invariant Written() + EncItems(items[i..]) == whole
      {
        ItemsFrom(items, i, Written(), whole);
        EncodeItem(items[i]);
        i := i + 1;
      }
      assert Written() + EncItems(items[i..]) == Written();
    }

    method EncodeObject(fields: seq<Field>)
      requires Valid() && Proper(Object(fields)) && offset + |Enc(Object(fields))| <= LIMIT
      modifies this, data
      ensures Valid() && Written() == old(Written()) + Enc(Object(fields)) && (data == old(data) || fresh(data))
      decreases fields, 1
    {
      Associate(Written(), Head(5, |fields|), EncFields(fields));
      WriteTypeAndLength(5, |fields|);
      EncodeFields(fields);
    }

    method EncodeFields(fields: seq<Field>)
      requires Valid() && Proper(Object(fields)) && offset + |EncFields(fields)| <= LIMIT
      modifies this, data
      ensures Valid() && Written() == old(Written()) + EncFields(fields) && (data == old(data) || fresh(data))
      decreases fields, 0
    {
      var i := 0;
      ghost var whole := Written() + EncFields(fields);
      assert fields[0..] == fields;
      while i < |fields|
        invariant 0 <= i <= |fields| && Valid() && (data == old(data) || fresh(data))
        invariant Written() + EncFields(fields[i..]) == whole
      {
        FieldsFrom(fields, i, Written(), whole);
        EncodeField(fields[i]);
        i := i + 1;
      }
      assert Written() + EncFields(fields[i..]) == Written();
    }

    method EncodeField(field: Field)
      requires Valid() && 4 * |field.key| < MAX_SAFE && Proper(field.value)
      requires offset + |EncText(field.key) + Enc(field.value)| <= LIMIT
      modifies this, data
      ensures Valid() && Written() == old(Written()) + (EncText(field.key) + Enc(field.value))
      ensures data == old(data) || fresh(data)
      decreases field, 0
    {
      AppendTwice(Written(), EncText(field.key), Enc(field.value));
      EncodeText(field.key);
      EncodeItem(field.value);
    }
  }

  /** Whole words that cover `offset` bytes stay inside a buffer of whole words. */
  lemma WordsFit(offset: nat, length: nat)
    requires offset <= length && length % 4 == 0
    ensures offset <= 4 * ((offset + 3) / 4) <= length
  {
  }

  lemma Associate(a: seq<byte>, b: seq<byte>, c: seq<byte>)
    ensures a + b + c == a + (b + c)
  {
  }

  lemma {:induction false} TextFrom(text: Text, i: nat, before: seq<byte>)
    requires i < |text|
    ensures var bytes, next := Utf8.EncodePoint(FirstPoint(text[i..])), i + Taken(text[i..]);
      before + TextBytes(text[i..]) == before + bytes + TextBytes(text[next..])
  {
    var next := i + Taken(text[i..]);
    assert text[i..][Taken(text[i..])..] == text[next..];
  }

  lemma {:induction false} ItemsFrom(items: seq<Value>, i: nat, before: seq<byte>, whole: seq<byte>)
    requires i < |items| && before + EncItems(items[i..]) == whole
    ensures |before| + |Enc(items[i])| <= |whole| && before + Enc(items[i]) + EncItems(items[i + 1..]) == whole
  {
    assert items[i..][1..] == items[i + 1..];
    AppendTwice(before, Enc(items[i]), EncItems(items[i + 1..]));
  }

  lemma {:induction false} FieldsFrom(fields: seq<Field>, i: nat, before: seq<byte>, whole: seq<byte>)
    requires i < |fields| && before + EncFields(fields[i..]) == whole
    ensures var field := EncText(fields[i].key) + Enc(fields[i].value);
      |before| + |field| <= |whole| && before + field + EncFields(fields[i + 1..]) == whole
  {
    assert fields[i..][1..] == fields[i + 1..];
    AppendTwice(before, EncText(fields[i].key) + Enc(fields[i].value), EncFields(fields[i + 1..]));
  }

  lemma HighPart(value: nat)
    ensures (value - value % 0x1_0000_0000) / 0x1_0000_0000 == value / 0x1_0000_0000
  {
  }

  lemma DropByte(x: nat, low: nat)
    ensures (256 * x + low) / 256 == x + low / 256 && (256 * x + low) % 256 == low % 256
  {
  }

  /** The value of the lowest bit above this many bytes. */
  function ByteUnit(bytes: nat): nat {
    if bytes == 0 then 1 else 256 * ByteUnit(bytes - 1)
  }

  /** The bytes of a number are those of its high part and those of its low part. */
  lemma {:induction false} HighThenLow(high: nat, low: nat, n: nat, left: nat)
    requires low < ByteUnit(left)
    ensures BigEndian(ByteUnit(left) * high + low, n + left) == BigEndian(high, n) + BigEndian(low, left)
    decreases left
  {
    if left == 0 {
      assert BigEndian(high, n) + [] == BigEndian(high, n);
    } else {
      HighThenLow(high, low / 256, n, left - 1);
      UnitTimes(high, left);
      DropByte(ByteUnit(left - 1) * high, low);
    }
  }

  lemma UnitTimes(high: nat, left: nat)
    requires left > 0
    ensures ByteUnit(left) * high == 256 * (ByteUnit(left - 1) * high)
  {
  }

  lemma {:induction false} HighLow(value: nat)
    ensures BigEndian(value, 8) == BigEndian(value / 0x1_0000_0000, 4) + BigEndian(value % 0x1_0000_0000, 4)
  {
    var high, low := value / 0x1_0000_0000, value % 0x1_0000_0000;
    assert ByteUnit(2) == 0x1_0000;
    assert ByteUnit(4) == 0x1_0000_0000;
    HighThenLow(high, low, 4, 4);
  }

  /** The printer as a whole. */
  method Encode(v: Value) returns (out: seq<byte>)
    requires Proper(v) && |Enc(v)| <= LIMIT
    ensures out == Enc(v)
  {
    var e := new Encoder();
    e.EncodeItem(v);
    out := e.data[..e.offset];
  }
}
