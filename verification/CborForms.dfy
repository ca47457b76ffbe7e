/**
 * Every way CBOR (sections 2.1 to 2.3 of RFC 7049) allows to write a value, and what the parser makes of it: lengths in any
 * form that holds them, strings in pieces, arrays and objects with a number of entries or a break, tags, simple values.
 */
module CborForms {
  import opened Wire
  import opened Cbor
  import opened CborObjects
  import opened CborLengths
  import opened CborReads
  import opened CborPieces
  import opened CborText

  datatype Form =
    | Unsigned(l: Length)
    | Negated(l: Length)
    | Octets(data: seq<byte>, l: Length)
    | OctetPieces(octets: seq<Piece>)
    | Chars(cs: seq<nat>, l: Length)
    | CharPieces(chars: seq<TextPiece>)
    | List(items: seq<Form>, l: Length)
    | OpenList(items: seq<Form>)
    | Pairs(pairs: seq<Pair>, l: Length)
    | OpenPairs(pairs: seq<Pair>)
    | Tagged(tag: Length, item: Form)
    | SimpleValue(n: nat)
    | SimpleByte(n: nat)
    | Image(image: seq<byte>)

  datatype Pair = Pair(key: TextPiece, value: Form)

  predicate Good(f: Form) {
    match f
    case Unsigned(l) => Holds(l)
    case Negated(l) => Holds(l)
    case Octets(data, l) => GoodPiece(Piece(data, l))
    case OctetPieces(octets) => GoodPieces(octets)
    case Chars(cs, l) => GoodText(TextPiece(cs, l))
    case CharPieces(chars) => GoodTexts(chars)
    case List(items, l) =>
      l.n == |items| < 0x1_0000_0000 && Holds(l) && forall i :: 0 <= i < |items| ==> Good(items[i])
    case OpenList(items) => forall i :: 0 <= i < |items| ==> Good(items[i])
    case Pairs(pairs, l) =>
      l.n == |pairs| && Holds(l) && forall i :: 0 <= i < |pairs| ==> GoodPair(pairs[i])
    case OpenPairs(pairs) => forall i :: 0 <= i < |pairs| ==> GoodPair(pairs[i])
    case Tagged(tag, item) => Holds(tag) && Good(item)
    case SimpleValue(n) => n < 24
    case SimpleByte(n) => n < 256
    case Image(image) => |image| == 2 || |image| == 4 || |image| == 8
  }

  predicate GoodPair(p: Pair) {
    GoodText(p.key) && Good(p.value)
  }

  /** The bytes of a form. */
  function FormBytes(f: Form): seq<byte>
    requires Good(f)
  {
    match f
    case Unsigned(l) => Start(0, l)
    case Negated(l) => Start(1, l)
    case Octets(data, l) => PieceBytes(Piece(data, l))
    case OctetPieces(octets) => [0x5F] + PiecesBytes(octets) + [0xFF]
    case Chars(cs, l) => TextPieceBytes(TextPiece(cs, l))
    case CharPieces(chars) => [0x7F] + PartsBytes(PartsOf(chars)) + [0xFF]
    case List(items, l) => Start(4, l) + ItemsBytes(items)
    case OpenList(items) => [0x9F] + ItemsBytes(items) + [0xFF]
    case Pairs(pairs, l) => Start(5, l) + PairsBytes(pairs)
    case OpenPairs(pairs) => [0xBF] + PairsBytes(pairs) + [0xFF]
    case Tagged(tag, item) => Start(6, tag) + FormBytes(item)
    case SimpleValue(n) => [0xE0 + n]
    case SimpleByte(n) => [0xF8, n]
    case Image(image) => [if |image| == 2 then 0xF9 else if |image| == 4 then 0xFA else 0xFB] + image
  }

  function ItemsBytes(items: seq<Form>): seq<byte>
    requires forall i :: 0 <= i < |items| ==> Good(items[i])
  {
    if items == [] then [] else FormBytes(items[0]) + ItemsBytes(items[1..])
  }

  function PairsBytes(pairs: seq<Pair>): seq<byte>
    requires forall i :: 0 <= i < |pairs| ==> GoodPair(pairs[i])
  {
    if pairs == [] then [] else PairBytes(pairs[0]) + PairsBytes(pairs[1..])
  }

  function PairBytes(p: Pair): seq<byte>
    requires GoodPair(p)
  {
    TextPieceBytes(p.key) + FormBytes(p.value)
  }

  // What a form stands for.

  function SimpleOf(n: nat): Value {
    if n == 20 then Bool(false) else if n == 21 then Bool(true) else if n == 22 then Null else Undefined
  }

  function ValueOf(f: Form): Value
    requires Good(f)
  {
    match f
    case Unsigned(l) => Int(l.n)
    case Negated(l) => Int(-1 - l.n)
    case Octets(data, _) => Bytes(data)
    case OctetPieces(octets) => Bytes(DataOf(octets))
    case Chars(cs, _) => Str(UnitsOf(cs))
    case CharPieces(chars) => PiecesJoined(chars); Str(UnitsOf(PointsOf(chars)))
    case List(items, _) => Array(ValuesOf(items))
    case OpenList(items) => Array(ValuesOf(items))
    case Pairs(pairs, _) => Object(AssignedAll([], FieldsOf(pairs)))
    case OpenPairs(pairs) => Object(AssignedAll([], FieldsOf(pairs)))
    case Tagged(_, item) => ValueOf(item)
    case SimpleValue(n) => SimpleOf(n)
    case SimpleByte(n) => SimpleOf(n)
    case Image(image) => Float(image)
  }

  function ValuesOf(items: seq<Form>): seq<Value>
    requires forall i :: 0 <= i < |items| ==> Good(items[i])
  {
    if items == [] then [] else [ValueOf(items[0])] + ValuesOf(items[1..])
  }

  function FieldsOf(pairs: seq<Pair>): seq<Field>
    requires forall i :: 0 <= i < |pairs| ==> GoodPair(pairs[i])
  {
    if pairs == [] then [] else [FieldOf(pairs[0])] + FieldsOf(pairs[1..])
  }

  function FieldOf(p: Pair): Field
    requires GoodPair(p)
  {
    Field(UnitsOf(p.key.cs), ValueOf(p.value))
  }

  // Forms as entries.

  /** No item begins with the break byte. */
  lemma {:induction false} FirstNotBreak(f: Form)
    requires Good(f)
    ensures FormBytes(f) != [] && FormBytes(f)[0] != 0xFF
  {
  }

  function EntriesOf(items: seq<Form>): (es: seq<Entry>)
    requires forall i :: 0 <= i < |items| ==> Good(items[i])
    ensures |es| == |items| && forall k :: 0 <= k < |items| ==> es[k] == Entry(FormBytes(items[k]), ValueOf(items[k]))
  {
    seq(|items|, k requires 0 <= k < |items| && Good(items[k]) => Entry(FormBytes(items[k]), ValueOf(items[k])))
  }

  lemma {:induction false} ItemsAreEntries(items: seq<Form>)
    requires forall i :: 0 <= i < |items| ==> Good(items[i])
    ensures ItemsBytes(items) == EntriesBytes(EntriesOf(items)) && ValuesOf(items) == EntriesValues(EntriesOf(items))
  {
    if items != [] {
      ItemsAreEntries(items[1..]);
      assert EntriesOf(items)[1..] == EntriesOf(items[1..]);
    }
  }

  function FieldEntriesOf(pairs: seq<Pair>): (es: seq<FieldEntry>)
    requires forall i :: 0 <= i < |pairs| ==> GoodPair(pairs[i])
    ensures |es| == |pairs| && forall k :: 0 <= k < |pairs| ==> es[k] == FieldEntry(PairBytes(pairs[k]), FieldOf(pairs[k]))
  {
    seq(|pairs|, k requires 0 <= k < |pairs| && GoodPair(pairs[k]) => FieldEntry(PairBytes(pairs[k]), FieldOf(pairs[k])))
  }

  lemma {:induction false} PairsAreEntries(pairs: seq<Pair>)
    requires forall i :: 0 <= i < |pairs| ==> GoodPair(pairs[i])
    ensures PairsBytes(pairs) == FieldsBytes(FieldEntriesOf(pairs)) && FieldsOf(pairs) == EntryFields(FieldEntriesOf(pairs))
  {
    if pairs != [] {
      PairsAreEntries(pairs[1..]);
      assert FieldEntriesOf(pairs)[1..] == FieldEntriesOf(pairs[1..]);
    }
  }
}
