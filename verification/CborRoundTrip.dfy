/** What parsing makes of printed values, and exactly which values come back unchanged. */
module CborRoundTrip {
  import opened Bits
  import opened Wire
  import opened Cbor
  import opened Utf8

  /** `s` stands at position `at` of the data. */
  predicate At(data: seq<byte>, at: nat, s: seq<byte>) {
    at + |s| <= |data| && data[at..at + |s|] == s
  }

  lemma AtSplit(data: seq<byte>, at: nat, a: seq<byte>, b: seq<byte>)
    requires At(data, at, a + b)
    ensures At(data, at, a) && At(data, at + |a|, b)
  {
    var whole := data[at..at + |a + b|];
    assert data[at..at + |a|] == whole[..|a|] == a;
    assert data[at + |a|..at + |a| + |b|] == whole[|a|..] == b;
  }

  lemma AtThree(data: seq<byte>, at: nat, a: seq<byte>, b: seq<byte>, c: seq<byte>)
    requires At(data, at, a + b + c)
    ensures At(data, at, a) && At(data, at + |a|, b) && At(data, at + |a| + |b|, c)
  {
    AtSplit(data, at, a + b, c);
    AtSplit(data, at, a, b);
  }

  lemma AtByte(data: seq<byte>, at: nat, s: seq<byte>, k: nat)
    requires At(data, at, s) && k < |s|
    ensures data[at + k] == s[k]
  {
    assert data[at..at + |s|][k] == s[k];
  }

  /** The parser reads back the length that was printed, in each of its five forms, as far as its numbers go. */
  lemma {:induction false} HeadRead(data: seq<byte>, at: nat, major: nat, length: nat)
    requires major < 8 && length < 0x1_0000_0000_0000_0000 && At(data, at, Head(major, length))
    ensures at < |data| && data[at] / 32 == major && data[at] % 32 == Extra(length)
    ensures ReadLength(data, at + 1, Extra(length)) == Ok(Rounded(length), at + |Head(major, length)|)
  {
    var info := Extra(length);
    AtByte(data, at, Head(major, length), 0);
    AtSplit(data, at, [32 * major + info], BigEndian(length, Width(info)));
    ByteSplit(major, info);
    if info >= 24 { LengthRead(data, at + 1, length); } else { RoundedExact(length); }
  }

  lemma ByteSplit(major: nat, info: nat)
    requires info < 32
    ensures (32 * major + info) / 32 == major && (32 * major + info) % 32 == info
  {
  }

  lemma {:induction false} LengthRead(data: seq<byte>, at: nat, length: nat)
    requires Extra(length) >= 24 && length < 0x1_0000_0000_0000_0000
    requires At(data, at, BigEndian(length, Width(Extra(length))))
    ensures ReadUint(data, at, Width(Extra(length))) == Ok(length, at + Width(Extra(length)))
  {
    WidthHolds(length);
    BigEndianInverse(length, Width(Extra(length)));
  }

  lemma WidthHolds(length: nat)
    requires Extra(length) >= 24 && length < 0x1_0000_0000_0000_0000
    ensures length < Pow2(8 * Width(Extra(length)))
  {
    Widths();
  }

  /** An item begins with its printed head; what is left is its body. */
  lemma {:induction false} ItemHead(show: Show, data: seq<byte>, at: nat, major: nat, length: nat)
    requires major < 7 && length < 0x1_0000_0000_0000_0000 && At(data, at, Head(major, length))
    ensures Dec(show, data, at) == DecBody(show, data, at + |Head(major, length)|, major, Rounded(length))
    ensures length <= MAX_SAFE ==> Rounded(length) == length
  {
    HeadRead(data, at, major, length);
    if length <= MAX_SAFE { RoundedExact(length); }
    assert Dec(show, data, at) == DecHead(show, data, at + 1, major, Extra(length));
  }

  // Text.

  /** The text that comes back. */
  function BackText(text: Text): Text {
    if text == [] then [] else Units(FirstPoint(text)) + BackText(text[Taken(text)..])
  }

  /** Units below 0xD800 and well-formed surrogate pairs. */
  predicate CleanText(text: Text) {
    text == [] ||
    (if text[0] < 0xD800 then CleanText(text[1..])
     else text[0] < 0xDC00 && |text| > 1 && 0xDC00 <= text[1] < 0xE000 && CleanText(text[2..]))
  }

  lemma {:induction false} PairUnits(high: CodeUnit, low: CodeUnit)
    ensures Units(PairPoint(high, low)) == [0xD800 + high % 1024, 0xDC00 + low % 1024]
  {
    var x := high % 1024 * 1024 + low % 1024;
    assert x / 1024 == high % 1024 && x % 1024 == low % 1024;
  }

  lemma SamePrefix(a: Text, b: Text, c: Text, d: Text)
    requires |a| == |c|
    ensures a + b == c + d <==> a == c && b == d
  {
    if a + b == c + d {
      assert a == (a + b)[..|a|] && b == (a + b)[|a|..];
      assert c == (c + d)[..|c|] && d == (c + d)[|c|..];
    }
  }

  /** Exactly such text comes back unchanged. */
  lemma {:induction false} CleanTextExactly(text: Text)
    ensures BackText(text) == text <==> CleanText(text)
    decreases |text|
  {
    if text != [] {
      CleanTextExactly(text[Taken(text)..]);
      if text[0] < 0xD800 {
        SamePrefix([text[0]], BackText(text[1..]), text[..1], text[1..]);
        assert text == text[..1] + text[1..];
      } else if |text| > 1 {
        CleanPair(text);
      } else {
        PairUnits(text[0], 0);
      }
    }
  }

  lemma {:induction false} CleanPair(text: Text)
    requires |text| > 1 && text[0] >= 0xD800
    ensures BackText(text) == text <==>
      text[0] < 0xDC00 && 0xDC00 <= text[1] < 0xE000 && BackText(text[2..]) == text[2..]
  {
    PairUnits(text[0], text[1]);
    SamePrefix([0xD800 + text[0] % 1024, 0xDC00 + text[1] % 1024], BackText(text[2..]), text[..2], text[2..]);
    assert text == text[..2] + text[2..];
    Halves(text[0], text[1]);
  }

  lemma Halves(high: CodeUnit, low: CodeUnit)
    requires high >= 0xD800
    ensures high == 0xD800 + high % 1024 <==> high < 0xDC00
    ensures low == 0xDC00 + low % 1024 <==> 0xDC00 <= low < 0xE000
  {
  }

  lemma {:induction false} Recompose(c: nat)
    ensures c == c / 262144 * 262144 + c / 4096 % 64 * 4096 + c / 64 % 64 * 64 + c % 64
    ensures c == c / 4096 * 4096 + c / 64 % 64 * 64 + c % 64
  {
    DivDiv(c);
  }

  /** A code point printed in three or four bytes is assembled again. */
  lemma {:induction false} LongPointRead(c: nat)
    requires 0x800 <= c < 0x110000
    ensures var s := EncodePoint(c); |s| == 1 + Following(s[0]) && Assembled(s) == c
  {
    Recompose(c);
    var s := EncodePoint(c);
    if c < 0x10000 {
      assert Low(s[0], 16) == c / 4096 && Low(s[1], 64) == c / 64 % 64 && Low(s[2], 64) == c % 64;
    } else {
      assert Low(s[0], 16) == c / 262144 && Low(s[1], 64) == c / 4096 % 64;
      assert Low(s[2], 64) == c / 64 % 64 && Low(s[3], 64) == c % 64;
    }
  }

  lemma {:induction false} PointRead(c: nat)
    requires c < 0x110000
    ensures var s := EncodePoint(c); |s| == 1 + Following(s[0]) && Assembled(s) == c
  {
    if c >= 0x800 { LongPointRead(c); }
  }

  lemma {:induction false} ReadTextStep(data: seq<byte>, at: nat, s: seq<byte>, left: nat)
    requires at <= |data| && |s| > 0 && |s| == 1 + Following(s[0]) && At(data, at, s)
    ensures at + |s| <= |data|
    ensures var rest := ReadText(data, at + |s|, left);
      ReadText(data, at, |s| + left) == if rest.Ok? then Ok(Units(Assembled(s)) + rest.value, rest.next) else Error
  {
    AtByte(data, at, s, 0);
    assert data[at..at + |s|] == s;
  }

  /** The bytes at this position are read as this text. */
  predicate ReadsText(data: seq<byte>, at: nat, bytes: seq<byte>, text: Text) {
    at <= |data| && ReadText(data, at, |bytes|) == Ok(text, at + |bytes|)
  }

  lemma {:induction false} TextRead(data: seq<byte>, at: nat, text: Text)
    requires At(data, at, TextBytes(text))
    ensures ReadsText(data, at, TextBytes(text), BackText(text))
    decreases |text|
  {
    if text != [] {
      var c, rest := FirstPoint(text), text[Taken(text)..];
      AtSplit(data, at, EncodePoint(c), TextBytes(rest));
      TextRead(data, at + |EncodePoint(c)|, rest);
      TextStep(data, at, c, TextBytes(rest), BackText(rest));
    }
  }

  /** One printed code point in front of a text. */
  lemma {:induction false} TextStep(data: seq<byte>, at: nat, c: nat, bytes: seq<byte>, text: Text)
    requires c < 0x110000 && At(data, at, EncodePoint(c)) && ReadsText(data, at + |EncodePoint(c)|, bytes, text)
    ensures ReadsText(data, at, EncodePoint(c) + bytes, Units(c) + text)
  {
    PointRead(c);
    ReadTextStep(data, at, EncodePoint(c), |bytes|);
  }

  // Values.

  /** The value that comes back. */
  function Back(v: Value): Value {
    match v
    case Str(text) => Str(BackText(text))
    case Array(items) => Array(BackItems(items))
    case Object(fields) => Object(BackFields(fields, []))
    case _ => v
  }

  function BackItems(items: seq<Value>): seq<Value> {
    if items == [] then [] else [Back(items[0])] + BackItems(items[1..])
  }

  function BackFields(fields: seq<Field>, done: seq<Field>): seq<Field> {
    if fields == [] then done
    else BackFields(fields[1..], SetProperty(done, BackText(fields[0].key), Back(fields[0].value)))
  }

  lemma {:induction false} TextBytesLength(text: Text)
    ensures |TextBytes(text)| <= 4 * |text|
    decreases |text|
  {
    if text != [] { TextBytesLength(text[Taken(text)..]); }
  }

  /** The bytes at this position are read as this value. */
  predicate Reads(show: Show, data: seq<byte>, at: nat, bytes: seq<byte>, v: Value) {
    at <= |data| && Dec(show, data, at) == Ok(v, at + |bytes|)
  }

  predicate ReadsItems(show: Show, data: seq<byte>, at: nat, n: nat, bytes: seq<byte>, items: seq<Value>) {
    at <= |data| && DecItems(show, data, at, Exactly(n)) == Ok(items, at + |bytes|)
  }

  /** ... as the fields that complete those read before. */
  predicate ReadsFields(show: Show, data: seq<byte>, at: nat, n: nat, done: seq<Field>, bytes: seq<byte>, fields: seq<Field>) {
    at <= |data| && DecFields(show, data, at, Exactly(n), done) == Ok(fields, at + |bytes|)
  }

  lemma {:induction false} TextItemRead(show: Show, data: seq<byte>, at: nat, text: Text)
    requires 4 * |text| < MAX_SAFE && At(data, at, EncText(text))
    ensures Reads(show, data, at, EncText(text), Str(BackText(text)))
  {
    TextBytesLength(text);
    var head := Head(3, |TextBytes(text)|);
    AtSplit(data, at, head, TextBytes(text));
    ItemHead(show, data, at, 3, |TextBytes(text)|);
    TextRead(data, at + |head|, text);
  }

  lemma {:induction false} NumberRead(show: Show, data: seq<byte>, at: nat, i: int)
    requires -MAX_SAFE <= i <= MAX_SAFE && At(data, at, Enc(Int(i)))
    ensures Reads(show, data, at, Enc(Int(i)), Int(i))
  {
    if i >= 0 {
      ItemHead(show, data, at, 0, i);
    } else {
      ItemHead(show, data, at, 1, -i - 1);
      RoundedExact(-i);
    }
  }

  lemma {:induction false} BytesRead(show: Show, data: seq<byte>, at: nat, bytes: seq<byte>)
    requires |bytes| < MAX_SAFE && At(data, at, Enc(Bytes(bytes)))
    ensures Reads(show, data, at, Enc(Bytes(bytes)), Bytes(bytes))
  {
    AtSplit(data, at, Head(2, |bytes|), bytes);
    ItemHead(show, data, at, 2, |bytes|);
  }

  lemma {:induction false} SimpleRead(show: Show, data: seq<byte>, at: nat, v: Value)
    requires (v.Bool? || v.Null? || v.Undefined? || (v.Float? && |v.image| == 8)) && At(data, at, Enc(v))
    ensures Reads(show, data, at, Enc(v), v)
  {
    AtByte(data, at, Enc(v), 0);
    if v.Float? {
      AtSplit(data, at, [0xFB], v.image);
      assert Dec(show, data, at) == DecHead(show, data, at + 1, 7, 27);
    } else {
      var info := Enc(v)[0] % 32;
      assert Dec(show, data, at) == DecHead(show, data, at + 1, 7, info) == DecBody(show, data, at + 1, 7, info);
    }
  }

  /** Parsing what was printed for a value, wherever it stands, consumes exactly that and yields what comes back. */
  lemma {:induction false} ItemRead(show: Show, data: seq<byte>, at: nat, v: Value)
    requires Proper(v) && At(data, at, Enc(v))
    ensures Reads(show, data, at, Enc(v), Back(v))
    decreases v, 1
  {
    match v
    case Int(i) => NumberRead(show, data, at, i);
    case Str(text) => TextItemRead(show, data, at, text);
    case Bytes(bytes) => BytesRead(show, data, at, bytes);
    case Array(items) => ArrayRead(show, data, at, items);
    case Object(fields) => ObjectRead(show, data, at, fields);
    case _ => SimpleRead(show, data, at, v);
  }

  lemma {:induction false} ArrayRead(show: Show, data: seq<byte>, at: nat, items: seq<Value>)
    requires Proper(Array(items)) && At(data, at, Enc(Array(items)))
    ensures Reads(show, data, at, Enc(Array(items)), Array(BackItems(items)))
    decreases items, 1
  {
    AtSplit(data, at, Head(4, |items|), EncItems(items));
    ItemHead(show, data, at, 4, |items|);
    ItemsRead(show, data, at + |Head(4, |items|)|, items);
  }

  lemma {:induction false} ObjectRead(show: Show, data: seq<byte>, at: nat, fields: seq<Field>)
    requires Proper(Object(fields)) && At(data, at, Enc(Object(fields)))
    ensures Reads(show, data, at, Enc(Object(fields)), Object(BackFields(fields, [])))
    decreases fields, 1
  {
    var head, bytes := Head(5, |fields|), EncFields(fields);
    AtSplit(data, at, head, bytes);
    FieldsRead(show, data, at + |head|, fields, []);
    ObjectBody(show, data, at + |head|, |fields|, bytes, BackFields(fields, []));
    HeadedRead(show, data, at, 5, |fields|, bytes, Object(BackFields(fields, [])));
  }

  /** An item is read if its body is. */
  lemma {:induction false} HeadedRead(show: Show, data: seq<byte>, at: nat, major: nat, length: nat, bytes: seq<byte>, v: Value)
    requires major < 7 && length <= MAX_SAFE && At(data, at, Head(major, length) + bytes)
    requires var next := at + |Head(major, length)|; DecBody(show, data, next, major, length) == Ok(v, next + |bytes|)
    ensures Reads(show, data, at, Head(major, length) + bytes, v)
  {
    AtSplit(data, at, Head(major, length), bytes);
    ItemHead(show, data, at, major, length);
  }

  lemma ObjectBody(show: Show, data: seq<byte>, at: nat, n: nat, bytes: seq<byte>, fields: seq<Field>)
    requires ReadsFields(show, data, at, n, [], bytes, fields)
    ensures DecBody(show, data, at, 5, n) == Ok(Object(fields), at + |bytes|)
  {
  }

  lemma {:induction false} ItemStep(
      show: Show, data: seq<byte>, at: nat, n: nat, bytes: seq<byte>, v: Value, more: seq<byte>, items: seq<Value>)
    requires n > 0 && Reads(show, data, at, bytes, v) && ReadsItems(show, data, at + |bytes|, n - 1, more, items)
    ensures ReadsItems(show, data, at, n, bytes + more, [v] + items)
  {
  }

  lemma {:induction false} ItemsRead(show: Show, data: seq<byte>, at: nat, items: seq<Value>)
    requires (forall i :: 0 <= i < |items| ==> Proper(items[i])) && At(data, at, EncItems(items))
    ensures ReadsItems(show, data, at, |items|, EncItems(items), BackItems(items))
    decreases items, 0
  {
    if items != [] {
      var bytes, rest := Enc(items[0]), items[1..];
      AtSplit(data, at, bytes, EncItems(rest));
      ItemRead(show, data, at, items[0]);
      ItemsRead(show, data, at + |bytes|, rest);
      ItemStep(show, data, at, |items|, bytes, Back(items[0]), EncItems(rest), BackItems(rest));
    }
  }

  lemma {:induction false} FieldStep(
      show: Show, data: seq<byte>, at: nat, n: nat, done: seq<Field>, bytes: seq<byte>, key: Text, bytes': seq<byte>, value: Value,
      more: seq<byte>, fields: seq<Field>)
    requires n > 0 && Reads(show, data, at, bytes, Str(key)) && Reads(show, data, at + |bytes|, bytes', value)
    requires ReadsFields(show, data, at + |bytes| + |bytes'|, n - 1, SetProperty(done, key, value), more, fields)
    ensures ReadsFields(show, data, at, n, done, bytes + bytes' + more, fields)
  {
  }

  /** The first field of a printed object. */
  lemma {:induction false} FieldParts(show: Show, data: seq<byte>, at: nat, field: Field, rest: seq<byte>)
    requires 4 * |field.key| < MAX_SAFE && Proper(field.value)
    requires At(data, at, EncText(field.key) + Enc(field.value) + rest)
    ensures At(data, at + |EncText(field.key)| + |Enc(field.value)|, rest)
    ensures Reads(show, data, at, EncText(field.key), Str(BackText(field.key)))
    ensures Reads(show, data, at + |EncText(field.key)|, Enc(field.value), Back(field.value))
    decreases field, 1
  {
    AtThree(data, at, EncText(field.key), Enc(field.value), rest);
    TextItemRead(show, data, at, field.key);
    ItemRead(show, data, at + |EncText(field.key)|, field.value);
  }

  lemma {:induction false} FieldsRead(show: Show, data: seq<byte>, at: nat, fields: seq<Field>, done: seq<Field>)
    requires forall i :: 0 <= i < |fields| ==> 4 * |fields[i].key| < MAX_SAFE && Proper(fields[i].value)
    requires At(data, at, EncFields(fields))
    ensures ReadsFields(show, data, at, |fields|, done, EncFields(fields), BackFields(fields, done))
    decreases fields, 0
  {
    if fields != [] {
      var field, rest := fields[0], fields[1..];
      var bytes, bytes', key, value := EncText(field.key), Enc(field.value), BackText(field.key), Back(field.value);
      var done' := SetProperty(done, key, value);
      FieldParts(show, data, at, field, EncFields(rest));
      FieldsRead(show, data, at + |bytes| + |bytes'|, rest, done');
      FieldStep(show, data, at, |fields|, done, bytes, key, bytes', value, EncFields(rest), BackFields(rest, done'));
    }
  }

  /** Decoding an encoded value. */
  lemma DecodeEncoded(show: Show, v: Value)
    requires Proper(v)
    ensures Decode(show, Enc(v)) == Ok(Back(v), |Enc(v)|)
  {
    assert Enc(v)[0..0 + |Enc(v)|] == Enc(v);
    ItemRead(show, Enc(v), 0, v);
  }

  // Exactly which values come back unchanged.

  /** All text is clean and no field is called `__proto__`. */
  predicate Clean(v: Value) {
    match v
    case Str(text) => CleanText(text)
    case Array(items) => forall i :: 0 <= i < |items| ==> Clean(items[i])
    case Object(fields) =>
      forall i :: 0 <= i < |fields| ==> CleanText(fields[i].key) && fields[i].key != PROTO && Clean(fields[i].value)
    case _ => true
  }

  lemma {:induction false} SetPropertyGrows(fields: seq<Field>, key: Text, value: Value)
    ensures var after := SetProperty(fields, key, value);
            && |fields| <= |after| <= |fields| + 1
            && (|after| == |fields| + 1 ==> after == fields + [Field(key, value)] && key != PROTO)
            && (key != PROTO && (forall i :: 0 <= i < |fields| ==> fields[i].key != key) ==> |after| == |fields| + 1)
    decreases fields
  {
    if key != PROTO && fields != [] && fields[0].key != key {
      SetPropertyGrows(fields[1..], key, value);
      if forall i :: 0 <= i < |fields| ==> fields[i].key != key {
        assert forall i :: 0 <= i < |fields| - 1 ==> fields[1..][i].key != key;
      }
      assert fields == [fields[0]] + fields[1..];
    }
  }

  function BackField(f: Field): Field {
    Field(BackText(f.key), Back(f.value))
  }

  function BackEach(fields: seq<Field>): seq<Field> {
    if fields == [] then [] else [BackField(fields[0])] + BackEach(fields[1..])
  }

  /** Fields come back one by one, or fewer of them do. */
  lemma {:induction false} BackFieldsCount(fields: seq<Field>, done: seq<Field>)
    ensures |BackFields(fields, done)| <= |done| + |fields|
    ensures |BackFields(fields, done)| == |done| + |fields| ==>
              BackFields(fields, done) == done + BackEach(fields) && forall i :: 0 <= i < |fields| ==> BackText(fields[i].key) != PROTO
    decreases fields
  {
    if fields != [] {
      var f := BackField(fields[0]);
      SetPropertyGrows(done, f.key, f.value);
      BackFieldsCount(fields[1..], SetProperty(done, f.key, f.value));
    }
  }

  lemma {:induction false} CleanFieldsBack(fields: seq<Field>, done: seq<Field>)
    requires DistinctKeys(done + fields)
    requires forall i :: 0 <= i < |fields| ==> BackField(fields[i]) == fields[i] && fields[i].key != PROTO
    ensures BackFields(fields, done) == done + fields
    decreases fields
  {
    if fields != [] {
      var f := fields[0];
      forall i | 0 <= i < |done| ensures done[i].key != f.key {
        assert (done + fields)[i] == done[i] && (done + fields)[|done|] == f;
      }
      SetPropertyGrows(done, f.key, f.value);
      assert done + [f] + fields[1..] == done + fields;
      assert BackField(f) == f;
      CleanFieldsBack(fields[1..], done + [f]);
    }
  }

  lemma {:induction false} BackEachAt(fields: seq<Field>, i: nat)
    requires i < |fields|
    ensures |BackEach(fields)| == |fields| && BackEach(fields)[i] == BackField(fields[i])
  {
    if i > 0 {
      BackEachAt(fields[1..], i - 1);
    } else if |fields| > 1 {
      BackEachAt(fields[1..], 0);
    }
  }

  lemma {:induction false} BackItemsAt(items: seq<Value>, i: nat)
    requires i < |items|
    ensures |BackItems(items)| == |items| && BackItems(items)[i] == Back(items[i])
  {
    if i > 0 {
      BackItemsAt(items[1..], i - 1);
    } else if |items| > 1 {
      BackItemsAt(items[1..], 0);
    }
  }

  lemma {:induction false} BackExactly(v: Value)
    requires Proper(v)
    ensures Back(v) == v <==> Clean(v)
    decreases v
  {
    match v
    case Str(text) => CleanTextExactly(text);
    case Array(items) =>
      forall i | 0 <= i < |items|
        ensures |BackItems(items)| == |items| && BackItems(items)[i] == Back(items[i])
        ensures Back(items[i]) == items[i] <==> Clean(items[i])
      {
        BackItemsAt(items, i);
        BackExactly(items[i]);
      }
    case Object(fields) =>
      forall i | 0 <= i < |fields| ensures BackField(fields[i]) == fields[i] <==> CleanText(fields[i].key) && Clean(fields[i].value) {
        CleanTextExactly(fields[i].key);
        BackExactly(fields[i].value);
      }
      ObjectExactly(fields);
    case _ =>
  }

  lemma ObjectExactly(fields: seq<Field>)
    requires DistinctKeys(fields)
    ensures BackFields(fields, []) == fields <==>
            forall i :: 0 <= i < |fields| ==> BackField(fields[i]) == fields[i] && fields[i].key != PROTO
  {
    assert [] + fields == fields;
    BackFieldsCount(fields, []);
    if BackFields(fields, []) == fields {
      assert [] + BackEach(fields) == BackEach(fields);
      forall i | 0 <= i < |fields| ensures BackField(fields[i]) == fields[i] && fields[i].key != PROTO {
        BackEachAt(fields, i);
      }
    }
    if forall i :: 0 <= i < |fields| ==> BackField(fields[i]) == fields[i] && fields[i].key != PROTO {
      CleanFieldsBack(fields, []);
    }
  }

  /** A value comes back unchanged exactly when all its text is clean and no field is called `__proto__`. */
  lemma RoundTripExactly(show: Show, v: Value)
    requires Proper(v)
    ensures Decode(show, Enc(v)) == Ok(v, |Enc(v)|) <==> Clean(v)
  {
    DecodeEncoded(show, v);
    BackExactly(v);
  }

  /** A private-use character and a field called `__proto__` do not come back. */
  lemma NotComingBack(show: Show)
    ensures var v := Str([0xE000]); Decode(show, Enc(v)) != Ok(v, |Enc(v)|)
    ensures var v := Object([Field(PROTO, Null)]); Decode(show, Enc(v)) != Ok(v, |Enc(v)|)
  {
    RoundTripExactly(show, Str([0xE000]));
    assert |PROTO| == 9;
    RoundTripExactly(show, Object([Field(PROTO, Null)]));
    assert !Clean(Object([Field(PROTO, Null)])) by { assert [Field(PROTO, Null)][0].key == PROTO; }
  }
}
