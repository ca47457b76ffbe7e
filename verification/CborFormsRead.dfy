/** The parser reads every form of every value. */
module CborFormsRead {
  import opened CborForms
  import opened Wire
  import opened Cbor
  import opened CborObjects
  import opened CborRoundTrip
  import opened CborLengths
  import opened CborPieces
  import opened CborReads
  import opened CborText
  import opened Utf8

  /** An item is read if its body is. */
  lemma {:induction false} FormRead(show: Show, data: seq<byte>, at: nat, major: nat, l: Length, bytes: seq<byte>, v: Value)
    requires major < 7 && Holds(l) && At(data, at, Start(major, l) + bytes)
    requires ReadsBody(show, data, at + |Start(major, l)|, major, l.n, bytes, v)
    ensures Reads(show, data, at, Start(major, l) + bytes, v)
  {
    AtSplit(data, at, Start(major, l), bytes);
    StartRead(data, at, major, l);
    assert Dec(show, data, at) == DecHead(show, data, at + 1, major, l.info);
  }

  /** The same for an item whose length is not given: its initial byte, its body and a break. */
  lemma {:induction false} OpenRead(show: Show, data: seq<byte>, at: nat, major: nat, bytes: seq<byte>, v: Value)
    requires 2 <= major <= 5 && At(data, at, [32 * major + 31] + bytes + [0xFF])
    requires ReadsBody(show, data, at + 1, major, -1, bytes + [0xFF], v)
    ensures Reads(show, data, at, [32 * major + 31] + bytes + [0xFF], v)
  {
    AtByte(data, at, [32 * major + 31] + bytes + [0xFF], 0);
    ByteSplit(major, 31);
    assert Dec(show, data, at) == DecHead(show, data, at + 1, major, 31);
  }

  lemma {:induction false} TextPieceRead(show: Show, data: seq<byte>, at: nat, p: TextPiece)
    requires GoodText(p) && At(data, at, TextPieceBytes(p))
    ensures Reads(show, data, at, TextPieceBytes(p), Str(UnitsOf(p.cs)))
  {
    AtSplit(data, at, Start(3, p.l), Encode(p.cs));
    ScalarsRead(data, at + |Start(3, p.l)|, p.cs);
    TextBody(show, data, at + |Start(3, p.l)|, Encode(p.cs), UnitsOf(p.cs));
    FormRead(show, data, at, 3, p.l, Encode(p.cs), Str(UnitsOf(p.cs)));
  }

  lemma {:induction false} ItemReadable(show: Show, data: seq<byte>, f: Form)
    requires Good(f)
    ensures ReadableAs(show, data, Entry(FormBytes(f), ValueOf(f)))
    decreases f, 2
  {
    FirstNotBreak(f);
    forall i: nat | At(data, i, FormBytes(f)) ensures Reads(show, data, i, FormBytes(f), ValueOf(f)) { AnyRead(show, data, i, f); }
  }

  lemma {:induction false} ListRead(show: Show, data: seq<byte>, at: nat, items: seq<Form>, count: Count)
    requires (forall i :: 0 <= i < |items| ==> Good(items[i])) && Counts(count, |items|)
    requires At(data, at, ItemsBytes(items) + Ending(count))
    ensures ReadsList(show, data, at, count, ItemsBytes(items) + Ending(count), ValuesOf(items))
    decreases items, 0
  {
    ItemsAreEntries(items);
    var es := EntriesOf(items);
    forall k | 0 <= k < |es| ensures ReadableAs(show, data, es[k]) { ItemReadable(show, data, items[k]); }
    EntriesRead(show, data, at, es, count);
  }

  lemma {:induction false} PairReadable(show: Show, data: seq<byte>, p: Pair)
    requires GoodPair(p)
    ensures ReadableAsField(show, data, FieldEntry(PairBytes(p), FieldOf(p)))
    decreases p, 3
  {
    forall i: nat | At(data, i, PairBytes(p)) ensures ReadsPair(show, data, i, PairBytes(p), FieldOf(p)) { PairRead(show, data, i, p); }
  }

  lemma {:induction false} PairsRead(show: Show, data: seq<byte>, at: nat, pairs: seq<Pair>, count: Count)
    requires (forall i :: 0 <= i < |pairs| ==> GoodPair(pairs[i])) && Counts(count, |pairs|)
    requires At(data, at, PairsBytes(pairs) + Ending(count))
    ensures ReadsPairs(show, data, at, count, [], PairsBytes(pairs) + Ending(count), AssignedAll([], FieldsOf(pairs)))
    decreases pairs, 0
  {
    PairsAreEntries(pairs);
    var es := FieldEntriesOf(pairs);
    forall k | 0 <= k < |es| ensures ReadableAsField(show, data, es[k]) { PairReadable(show, data, pairs[k]); }
    FieldEntriesRead(show, data, at, es, count, []);
  }

  lemma {:induction false} PairRead(show: Show, data: seq<byte>, at: nat, p: Pair)
    requires GoodPair(p) && At(data, at, PairBytes(p))
    ensures ReadsPair(show, data, at, PairBytes(p), FieldOf(p))
    decreases p, 2
  {
    var key, value := TextPieceBytes(p.key), FormBytes(p.value);
    AtSplit(data, at, key, value);
    TextPieceRead(show, data, at, p.key);
    AnyRead(show, data, at + |key|, p.value);
    assert (key + value)[..|key|] == key && (key + value)[|key|..] == value;
  }

  /** However a value is written, the parser reads the value, consumes exactly its bytes, and needs nothing behind them. */
  lemma {:induction false} AnyRead(show: Show, data: seq<byte>, at: nat, f: Form)
    requires Good(f) && At(data, at, FormBytes(f))
    ensures Reads(show, data, at, FormBytes(f), ValueOf(f))
    decreases f, 1
  {
    match f
    case Unsigned(l) => NumberFormRead(show, data, at, f, l);
    case Negated(l) => NumberFormRead(show, data, at, f, l);
    case Octets(octets, l) => OctetsRead(show, data, at, octets, l);
    case OctetPieces(ps) => OctetPiecesRead(show, data, at, ps);
    case Chars(cs, l) => TextPieceRead(show, data, at, TextPiece(cs, l));
    case CharPieces(ps) => CharPiecesRead(show, data, at, ps);
    case List(items, l) => ItemsFormRead(show, data, at, items, l);
    case OpenList(items) => OpenListRead(show, data, at, items);
    case Pairs(pairs, l) => PairsFormRead(show, data, at, pairs, l);
    case OpenPairs(pairs) => OpenPairsRead(show, data, at, pairs);
    case Tagged(tag, item) => TaggedRead(show, data, at, tag, item);
    case _ => SmallRead(show, data, at, f);
  }

  lemma {:induction false} OctetsRead(show: Show, data: seq<byte>, at: nat, octets: seq<byte>, l: Length)
    requires Good(Octets(octets, l)) && At(data, at, Start(2, l) + octets)
    ensures Reads(show, data, at, Start(2, l) + octets, Bytes(octets))
  {
    AtSplit(data, at, Start(2, l), octets);
    StringBody(show, data, at + |Start(2, l)|, octets);
    FormRead(show, data, at, 2, l, octets, Bytes(octets));
  }

  lemma {:induction false} TaggedRead(show: Show, data: seq<byte>, at: nat, tag: Length, item: Form)
    requires Good(Tagged(tag, item)) && At(data, at, FormBytes(Tagged(tag, item)))
    ensures Reads(show, data, at, FormBytes(Tagged(tag, item)), ValueOf(item))
    decreases item, 2
  {
    var start, bytes, v := Start(6, tag), FormBytes(item), ValueOf(item);
    AtSplit(data, at, start, bytes);
    AnyRead(show, data, at + |start|, item);
    TagBody(show, data, at + |start|, tag.n, bytes, v);
    FormRead(show, data, at, 6, tag, bytes, v);
  }

  lemma {:induction false} NumberFormRead(show: Show, data: seq<byte>, at: nat, f: Form, l: Length)
    requires Good(f) && (f == Unsigned(l) || f == Negated(l)) && At(data, at, FormBytes(f))
    ensures Reads(show, data, at, FormBytes(f), ValueOf(f))
  {
    var major := if f.Unsigned? then 0 else 1;
    assert Start(major, l) + [] == Start(major, l);
    RoundedExact(1 + l.n);
    FormRead(show, data, at, major, l, [], ValueOf(f));
  }

  lemma {:induction false} OctetPiecesRead(show: Show, data: seq<byte>, at: nat, ps: seq<Piece>)
    requires Good(OctetPieces(ps)) && At(data, at, FormBytes(OctetPieces(ps)))
    ensures Reads(show, data, at, FormBytes(OctetPieces(ps)), Bytes(DataOf(ps)))
  {
    AtOpen(data, at, 0x5F, PiecesBytes(ps));
    PiecesRead(data, at + 1, ps, PiecesBytes(ps) + [0xFF], DataOf(ps));
    PiecesBody(show, data, at + 1, PiecesBytes(ps) + [0xFF], DataOf(ps));
    OpenRead(show, data, at, 2, PiecesBytes(ps), Bytes(DataOf(ps)));
  }

  lemma {:induction false} CharPiecesRead(show: Show, data: seq<byte>, at: nat, ps: seq<TextPiece>)
    requires Good(CharPieces(ps)) && At(data, at, FormBytes(CharPieces(ps)))
    ensures Reads(show, data, at, FormBytes(CharPieces(ps)), ValueOf(CharPieces(ps)))
  {
    AtOpen(data, at, 0x7F, PartsBytes(PartsOf(ps)));
    TextPiecesRead(data, at + 1, ps);
    PiecesJoined(ps);
    TextPiecesBody(show, data, at + 1, PartsBytes(PartsOf(ps)) + [0xFF], PartsText(PartsOf(ps)));
    OpenRead(show, data, at, 3, PartsBytes(PartsOf(ps)), Str(PartsText(PartsOf(ps))));
  }

  lemma {:induction false} ItemsFormRead(show: Show, data: seq<byte>, at: nat, items: seq<Form>, l: Length)
    requires Good(List(items, l)) && At(data, at, FormBytes(List(items, l)))
    ensures Reads(show, data, at, FormBytes(List(items, l)), Array(ValuesOf(items)))
    decreases items, 1
  {
    var start, bytes, values := Start(4, l), ItemsBytes(items), ValuesOf(items);
    AtSplit(data, at, start, bytes);
    assert bytes + Ending(Exactly(|items|)) == bytes;
    ListRead(show, data, at + |start|, items, Exactly(|items|));
    ArrayRead(show, data, at, l, bytes, values);
  }

  lemma {:induction false} ArrayRead(show: Show, data: seq<byte>, at: nat, l: Length, bytes: seq<byte>, values: seq<Value>)
    requires Holds(l) && l.n < 0x1_0000_0000 && At(data, at, Start(4, l) + bytes)
    requires ReadsList(show, data, at + |Start(4, l)|, Exactly(l.n), bytes, values)
    ensures Reads(show, data, at, Start(4, l) + bytes, Array(values))
  {
    ListBody(show, data, at + |Start(4, l)|, l.n, bytes, values);
    FormRead(show, data, at, 4, l, bytes, Array(values));
  }

  lemma {:induction false} OpenListRead(show: Show, data: seq<byte>, at: nat, items: seq<Form>)
    requires Good(OpenList(items)) && At(data, at, FormBytes(OpenList(items)))
    ensures Reads(show, data, at, FormBytes(OpenList(items)), Array(ValuesOf(items)))
    decreases items, 1
  {
    AtOpen(data, at, 0x9F, ItemsBytes(items));
    ListRead(show, data, at + 1, items, UntilBreak);
    ListBody(show, data, at + 1, -1, ItemsBytes(items) + [0xFF], ValuesOf(items));
    OpenRead(show, data, at, 4, ItemsBytes(items), Array(ValuesOf(items)));
  }

  lemma {:induction false} PairsFormRead(show: Show, data: seq<byte>, at: nat, pairs: seq<Pair>, l: Length)
    requires Good(Pairs(pairs, l)) && At(data, at, FormBytes(Pairs(pairs, l)))
    ensures Reads(show, data, at, FormBytes(Pairs(pairs, l)), Object(AssignedAll([], FieldsOf(pairs))))
    decreases pairs, 1
  {
    var start, bytes, fields := Start(5, l), PairsBytes(pairs), AssignedAll([], FieldsOf(pairs));
    AtSplit(data, at, start, bytes);
    assert bytes + Ending(Exactly(|pairs|)) == bytes;
    PairsRead(show, data, at + |start|, pairs, Exactly(|pairs|));
    ObjectRead(show, data, at, l, bytes, fields);
  }

  lemma {:induction false} ObjectRead(show: Show, data: seq<byte>, at: nat, l: Length, bytes: seq<byte>, fields: seq<Field>)
    requires Holds(l) && At(data, at, Start(5, l) + bytes)
    requires ReadsPairs(show, data, at + |Start(5, l)|, Exactly(l.n), [], bytes, fields)
    ensures Reads(show, data, at, Start(5, l) + bytes, Object(fields))
  {
    PairsBody(show, data, at + |Start(5, l)|, l.n, bytes, fields);
    FormRead(show, data, at, 5, l, bytes, Object(fields));
  }

  lemma {:induction false} OpenPairsRead(show: Show, data: seq<byte>, at: nat, pairs: seq<Pair>)
    requires Good(OpenPairs(pairs)) && At(data, at, FormBytes(OpenPairs(pairs)))
    ensures Reads(show, data, at, FormBytes(OpenPairs(pairs)), Object(AssignedAll([], FieldsOf(pairs))))
    decreases pairs, 1
  {
    AtOpen(data, at, 0xBF, PairsBytes(pairs));
    PairsRead(show, data, at + 1, pairs, UntilBreak);
    PairsBody(show, data, at + 1, -1, PairsBytes(pairs) + [0xFF], AssignedAll([], FieldsOf(pairs)));
    OpenRead(show, data, at, 5, PairsBytes(pairs), Object(AssignedAll([], FieldsOf(pairs))));
  }

  lemma {:induction false} AtOpen(data: seq<byte>, at: nat, b: byte, bytes: seq<byte>)
    requires At(data, at, [b] + bytes + [0xFF])
    ensures at + 1 <= |data| && At(data, at + 1, bytes + [0xFF])
  {
    assert [b] + bytes + [0xFF] == [b] + (bytes + [0xFF]);
    AtSplit(data, at, [b], bytes + [0xFF]);
  }

  lemma {:induction false} SmallRead(show: Show, data: seq<byte>, at: nat, f: Form)
    requires Good(f) && (f.SimpleValue? || f.SimpleByte? || f.Image?) && At(data, at, FormBytes(f))
    ensures Reads(show, data, at, FormBytes(f), ValueOf(f))
  {
    match f
    case SimpleValue(n) => SimpleRead(show, data, at, n);
    case SimpleByte(n) => SimpleByteRead(show, data, at, n);
    case Image(image) => ImageRead(show, data, at, image);
  }

  lemma {:induction false} SimpleRead(show: Show, data: seq<byte>, at: nat, n: nat)
    requires n < 24 && At(data, at, [0xE0 + n])
    ensures Reads(show, data, at, [0xE0 + n], SimpleOf(n))
  {
    AtByte(data, at, [0xE0 + n], 0);
    ByteSplit(7, n);
    assert DecHead(show, data, at + 1, 7, n) == DecBody(show, data, at + 1, 7, n);
  }

  lemma {:induction false} SimpleByteRead(show: Show, data: seq<byte>, at: nat, n: byte)
    requires At(data, at, [0xF8, n])
    ensures Reads(show, data, at, [0xF8, n], SimpleOf(n))
  {
    AtByte(data, at, [0xF8, n], 0);
    AtByte(data, at, [0xF8, n], 1);
    assert data[at + 1..at + 2] == [n];
    assert FromBigEndian([n]) == n;
    RoundedExact(n);
    assert ReadLength(data, at + 1, 24) == Ok(n, at + 2);
    assert DecHead(show, data, at + 1, 7, 24) == DecBody(show, data, at + 2, 7, n);
  }

  lemma {:induction false} ImageRead(show: Show, data: seq<byte>, at: nat, image: seq<byte>)
    requires (|image| == 2 || |image| == 4 || |image| == 8) && At(data, at, FormBytes(Image(image)))
    ensures Reads(show, data, at, FormBytes(Image(image)), Float(image))
  {
    var first := if |image| == 2 then 0xF9 else if |image| == 4 then 0xFA else 0xFB;
    AtSplit(data, at, [first], image);
    AtByte(data, at, [first], 0);
    assert DecHead(show, data, at + 1, 7, first - 0xE0) == Ok(Float(image), at + 1 + |image|);
  }

  /** The parser understands every form of every value. */
  lemma {:induction false} EveryFormRead(show: Show, f: Form)
    requires Good(f)
    ensures Decode(show, FormBytes(f)) == Ok(ValueOf(f), |FormBytes(f)|)
  {
    assert FormBytes(f)[0..0 + |FormBytes(f)|] == FormBytes(f);
    AnyRead(show, FormBytes(f), 0, f);
  }
}
