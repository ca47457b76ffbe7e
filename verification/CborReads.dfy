/** What it means that the parser reads the parts of an item, and how the parts follow one another. */
module CborReads {
  import opened Wire
  import opened Cbor
  import opened CborRoundTrip
  import opened CborObjects

  predicate ReadsPieces(data: seq<byte>, at: nat, bytes: seq<byte>, all: seq<byte>) {
    at <= |data| && ReadBytePieces(data, at) == Ok(all, at + |bytes|)
  }

  predicate ReadsTextPieces(data: seq<byte>, at: nat, bytes: seq<byte>, all: Text) {
    at <= |data| && ReadTextPieces(data, at) == Ok(all, at + |bytes|)
  }

  /** Entries are read until there are none left or the break comes. */
  predicate ReadsList(show: Show, data: seq<byte>, at: nat, count: Count, bytes: seq<byte>, items: seq<Value>) {
    at <= |data| && DecItems(show, data, at, count) == Ok(items, at + |bytes|)
  }

  predicate ReadsPairs(show: Show, data: seq<byte>, at: nat, count: Count, done: seq<Field>, bytes: seq<byte>, fields: seq<Field>) {
    at <= |data| && DecFields(show, data, at, count, done) == Ok(fields, at + |bytes|)
  }

  /** A key and its value stand one after the other. */
  predicate ReadsPair(show: Show, data: seq<byte>, at: nat, bytes: seq<byte>, f: Field) {
    exists k :: 0 <= k <= |bytes| && Reads(show, data, at, bytes[..k], Str(f.key)) && Reads(show, data, at + k, bytes[k..], f.value)
  }

  lemma {:induction false} PiecesEnd(data: seq<byte>, at: nat)
    requires At(data, at, [0xFF])
    ensures ReadsPieces(data, at, [0xFF], []) && ReadsTextPieces(data, at, [0xFF], [])
  {
    AtByte(data, at, [0xFF], 0);
  }

  lemma {:induction false} PieceThen(data: seq<byte>, at: nat, start: seq<byte>, bytes: seq<byte>, more: seq<byte>, rest: seq<byte>)
    requires At(data, at, start + bytes) && ReadPieceLength(data, at, 2) == Ok(|bytes|, at + |start|)
    requires ReadsPieces(data, at + |start + bytes|, more, rest)
    ensures ReadsPieces(data, at, start + bytes + more, bytes + rest)
  {
    AtSplit(data, at, start, bytes);
  }

  /** A piece of a text: its head, its bytes and its units. */
  datatype Part = Part(start: seq<byte>, body: seq<byte>, text: Text)

  function PartBytes(part: Part): seq<byte> {
    part.start + part.body
  }

  function PartsBytes(parts: seq<Part>): seq<byte> {
    if parts == [] then [] else PartBytes(parts[0]) + PartsBytes(parts[1..])
  }

  function PartsText(parts: seq<Part>): Text {
    if parts == [] then [] else parts[0].text + PartsText(parts[1..])
  }

  predicate PartAt(data: seq<byte>, at: nat, part: Part) {
    && at <= |data| && ReadPieceLength(data, at, 3) == Ok(|part.body|, at + |part.start|)
    && ReadsText(data, at + |part.start|, part.body, part.text)
  }

  /** Wherever the bytes of a part stand, the part is read. */
  ghost predicate ReadableIn(data: seq<byte>, part: Part) {
    forall i: nat :: At(data, i, PartBytes(part)) ==> PartAt(data, i, part)
  }

  lemma {:induction false} TextPieceThen(data: seq<byte>, at: nat, part: Part, more: seq<byte>, rest: Text)
    requires PartAt(data, at, part) && ReadsTextPieces(data, at + |PartBytes(part)|, more, rest)
    ensures ReadsTextPieces(data, at, PartBytes(part) + more, part.text + rest)
  {
  }

  lemma {:induction false} PartsRead(data: seq<byte>, at: nat, parts: seq<Part>)
    requires (forall k :: 0 <= k < |parts| ==> ReadableIn(data, parts[k])) && At(data, at, PartsBytes(parts) + [0xFF])
    ensures ReadsTextPieces(data, at, PartsBytes(parts) + [0xFF], PartsText(parts))
    decreases |parts|
  {
    if parts == [] {
      assert PartsBytes(parts) + [0xFF] == [0xFF];
      PiecesEnd(data, at);
    } else {
      var part, later := parts[0], parts[1..];
      var bytes, more := PartBytes(part), PartsBytes(later) + [0xFF];
      assert PartsBytes(parts) + [0xFF] == bytes + more;
      AtSplit(data, at, bytes, more);
      PartsRead(data, at + |bytes|, later);
      assert ReadableIn(data, part);
      TextPieceThen(data, at, part, more, PartsText(later));
    }
  }

  lemma {:induction false} ListStep(
      show: Show, data: seq<byte>, at: nat, count: Count, bytes: seq<byte>, v: Value, more: seq<byte>, items: seq<Value>)
    requires at <= |data| && AtEnd(data, at, count) == Ok(false, at) && Reads(show, data, at, bytes, v)
    requires ReadsList(show, data, at + |bytes|, Fewer(count), more, items)
    ensures ReadsList(show, data, at, count, bytes + more, [v] + items)
  {
  }

  lemma {:induction false} PairStep(
      show: Show, data: seq<byte>, at: nat, count: Count, done: seq<Field>, bytes: seq<byte>, f: Field, more: seq<byte>,
      fields: seq<Field>)
    requires at <= |data| && AtEnd(data, at, count) == Ok(false, at) && ReadsPair(show, data, at, bytes, f)
    requires ReadsPairs(show, data, at + |bytes|, Fewer(count), With(done, f), more, fields)
    ensures ReadsPairs(show, data, at, count, done, bytes + more, fields)
  {
  }

  /** What follows an initial byte and its length. */
  predicate ReadsBody(show: Show, data: seq<byte>, at: nat, major: nat, length: int, bytes: seq<byte>, v: Value)
    requires length >= -1 && (length < 0 ==> 2 <= major <= 6)
  {
    at <= |data| && DecBody(show, data, at, major, length) == Ok(v, at + |bytes|)
  }

  lemma {:induction false} StringBody(show: Show, data: seq<byte>, at: nat, bytes: seq<byte>)
    requires At(data, at, bytes)
    ensures ReadsBody(show, data, at, 2, |bytes|, bytes, Bytes(bytes))
  {
  }

  lemma {:induction false} PiecesBody(show: Show, data: seq<byte>, at: nat, bytes: seq<byte>, all: seq<byte>)
    requires ReadsPieces(data, at, bytes, all)
    ensures ReadsBody(show, data, at, 2, -1, bytes, Bytes(all))
  {
  }

  lemma {:induction false} TextBody(show: Show, data: seq<byte>, at: nat, bytes: seq<byte>, text: Text)
    requires ReadsText(data, at, bytes, text)
    ensures ReadsBody(show, data, at, 3, |bytes|, bytes, Str(text))
  {
  }

  lemma {:induction false} TextPiecesBody(show: Show, data: seq<byte>, at: nat, bytes: seq<byte>, all: Text)
    requires ReadsTextPieces(data, at, bytes, all)
    ensures ReadsBody(show, data, at, 3, -1, bytes, Str(all))
  {
  }

  lemma {:induction false} ListBody(show: Show, data: seq<byte>, at: nat, length: int, bytes: seq<byte>, items: seq<Value>)
    requires -1 <= length < 0x1_0000_0000 && ReadsList(show, data, at, ToCount(length), bytes, items)
    ensures ReadsBody(show, data, at, 4, length, bytes, Array(items))
  {
  }

  lemma {:induction false} PairsBody(show: Show, data: seq<byte>, at: nat, length: int, bytes: seq<byte>, fields: seq<Field>)
    requires -1 <= length && ReadsPairs(show, data, at, ToCount(length), [], bytes, fields)
    ensures ReadsBody(show, data, at, 5, length, bytes, Object(fields))
  {
  }

  lemma {:induction false} TagBody(show: Show, data: seq<byte>, at: nat, tag: nat, bytes: seq<byte>, v: Value)
    requires Reads(show, data, at, bytes, v)
    ensures ReadsBody(show, data, at, 6, tag, bytes, v)
  {
  }

  // Where entries end.

  /** What ends entries: nothing after a number of them, else the break byte. */
  function Ending(count: Count): seq<byte> {
    if count.UntilBreak? then [0xFF] else []
  }

  predicate Counts(count: Count, n: nat) {
    count == UntilBreak || count == Exactly(n)
  }

  lemma {:induction false} AtEndOf(data: seq<byte>, at: nat, count: Count)
    requires Counts(count, 0) && At(data, at, Ending(count))
    ensures at <= |data| && AtEnd(data, at, count) == Ok(true, at + |Ending(count)|)
  {
    if count.UntilBreak? { AtByte(data, at, [0xFF], 0); }
  }

  lemma {:induction false} NotAtEnd(data: seq<byte>, at: nat, count: Count, n: nat, bytes: seq<byte>)
    requires Counts(count, n) && n > 0 && bytes != [] && bytes[0] != 0xFF && At(data, at, bytes)
    ensures at < |data| && AtEnd(data, at, count) == Ok(false, at)
    ensures Counts(Fewer(count), n - 1) && Ending(Fewer(count)) == Ending(count)
  {
    AtByte(data, at, bytes, 0);
  }

  // Entries of an array or object that are read wherever their bytes stand.

  datatype Entry = Entry(bytes: seq<byte>, value: Value)

  function EntriesBytes(es: seq<Entry>): seq<byte> {
    if es == [] then [] else es[0].bytes + EntriesBytes(es[1..])
  }

  function EntriesValues(es: seq<Entry>): seq<Value> {
    if es == [] then [] else [es[0].value] + EntriesValues(es[1..])
  }

  predicate Begins(bytes: seq<byte>) {
    bytes != [] && bytes[0] != 0xFF
  }

  ghost predicate ReadableAs(show: Show, data: seq<byte>, e: Entry) {
    Begins(e.bytes) && forall i: nat :: At(data, i, e.bytes) ==> Reads(show, data, i, e.bytes, e.value)
  }

  lemma {:induction false} EntriesRead(show: Show, data: seq<byte>, at: nat, es: seq<Entry>, count: Count)
    requires (forall k :: 0 <= k < |es| ==> ReadableAs(show, data, es[k])) && Counts(count, |es|)
    requires At(data, at, EntriesBytes(es) + Ending(count))
    ensures ReadsList(show, data, at, count, EntriesBytes(es) + Ending(count), EntriesValues(es))
    decreases |es|
  {
    if es == [] {
      assert EntriesBytes(es) + Ending(count) == Ending(count);
      AtEndOf(data, at, count);
    } else {
      var e, later := es[0], es[1..];
      var more := EntriesBytes(later) + Ending(count);
      assert EntriesBytes(es) + Ending(count) == e.bytes + more;
      assert ReadableAs(show, data, e);
      AtSplit(data, at, e.bytes, more);
      NotAtEnd(data, at, count, |es|, e.bytes);
      EntriesRead(show, data, at + |e.bytes|, later, Fewer(count));
      ListStep(show, data, at, count, e.bytes, e.value, more, EntriesValues(later));
    }
  }

  datatype FieldEntry = FieldEntry(bytes: seq<byte>, field: Field)

  function FieldsBytes(es: seq<FieldEntry>): seq<byte> {
    if es == [] then [] else es[0].bytes + FieldsBytes(es[1..])
  }

  function EntryFields(es: seq<FieldEntry>): seq<Field> {
    if es == [] then [] else [es[0].field] + EntryFields(es[1..])
  }

  ghost predicate ReadableAsField(show: Show, data: seq<byte>, e: FieldEntry) {
    Begins(e.bytes) && forall i: nat :: At(data, i, e.bytes) ==> ReadsPair(show, data, i, e.bytes, e.field)
  }

  lemma {:induction false} FieldEntriesRead(show: Show, data: seq<byte>, at: nat, es: seq<FieldEntry>, count: Count, done: seq<Field>)
    requires (forall k :: 0 <= k < |es| ==> ReadableAsField(show, data, es[k])) && Counts(count, |es|)
    requires At(data, at, FieldsBytes(es) + Ending(count))
    ensures ReadsPairs(show, data, at, count, done, FieldsBytes(es) + Ending(count), AssignedAll(done, EntryFields(es)))
    decreases |es|
  {
    if es == [] {
      assert FieldsBytes(es) + Ending(count) == Ending(count);
      AtEndOf(data, at, count);
    } else {
      var e, later := es[0], es[1..];
      var more, fields := FieldsBytes(later) + Ending(count), EntryFields(later);
      assert FieldsBytes(es) + Ending(count) == e.bytes + more;
      assert ([e.field] + fields)[1..] == fields;
      assert ReadableAsField(show, data, e);
      AtSplit(data, at, e.bytes, more);
      NotAtEnd(data, at, count, |es|, e.bytes);
      FieldEntriesRead(show, data, at + |e.bytes|, later, Fewer(count), With(done, e.field));
      PairStep(show, data, at, count, done, e.bytes, e.field, more, AssignedAll(With(done, e.field), fields));
    }
  }
}
