/** CBOR (section 2.1 of RFC 7049) as the protocol clients print and parse it, on values. */
module Cbor {
  import opened Wire
  import opened Wrappers
  import Utf8

  /** A UTF-16 code unit. */
  type CodeUnit = x: int | 0 <= x < 0x10000

  type Text = seq<CodeUnit>

  /**
   * A value of the client's language. A number outside the integers up to 2^53 is represented by the bytes of
   * its floating-point image; an object by its fields in enumeration order.
   */
  datatype Value =
    | Bool(b: bool)
    | Null
    | Undefined
    | Int(i: int)
    | Float(image: seq<byte>)
    | Str(text: Text)
    | Bytes(data: seq<byte>)
    | Array(items: seq<Value>)
    | Object(fields: seq<Field>)

  datatype Field = Field(key: Text, value: Value)

  const MAX_SAFE := 0x20_0000_0000_0000

  /** What a value of the language can be: safe integers, 8-byte images, bounded lengths, distinct keys. */
  predicate Proper(v: Value) {
    match v
    case Int(i) => -MAX_SAFE <= i <= MAX_SAFE
    case Float(image) => |image| == 8
    case Str(text) => 4 * |text| < MAX_SAFE
    case Bytes(data) => |data| < MAX_SAFE
    case Array(items) => |items| < 0x1_0000_0000 && forall i :: 0 <= i < |items| ==> Proper(items[i])
    case Object(fields) =>
      && |fields| < MAX_SAFE && DistinctKeys(fields)
      && forall i :: 0 <= i < |fields| ==> 4 * |fields[i].key| < MAX_SAFE && Proper(fields[i].value)
    case _ => true
  }

  predicate DistinctKeys(fields: seq<Field>) {
    forall i, j :: 0 <= i < j < |fields| ==> fields[i].key != fields[j].key
  }

  // Printing.

  function Extra(length: nat): (info: nat)
    ensures info < 28
  {
    if length < 24 then length
    else if length < 0x100 then 24
    else if length < 0x10000 then 25
    else if length < 0x1_0000_0000 then 26
    else 27
  }

  function Width(info: nat): nat {
    match info
    case 24 => 1
    case 25 => 2
    case 26 => 4
    case 27 => 8
    case _ => 0
  }

  /** The initial byte and length bytes of an item. */
  function Head(major: nat, length: nat): seq<byte>
    requires major < 8
  {
    [32 * major + Extra(length)] + BigEndian(length, Width(Extra(length)))
  }

  /** The code point of a unit from 0xD800 on, taken as the first half of a pair whatever it is. */
  function PairPoint(high: CodeUnit, low: CodeUnit): (c: nat)
    ensures 0x10000 <= c < 0x110000
  {
    high % 1024 * 1024 + low % 1024 + 0x10000
  }

  /** How many units the printer takes at the front of a text: two from 0xD800 on, if there are two. */
  function Taken(text: Text): (n: nat)
    requires text != []
    ensures 1 <= n <= |text|
  {
    if text[0] < 0xD800 || |text| == 1 then 1 else 2
  }

  /** The code point printed for them; a last unit from 0xD800 on is paired with 0. */
  function FirstPoint(text: Text): (c: nat)
    requires text != []
    ensures c < 0x110000
  {
    if text[0] < 0xD800 then text[0] else PairPoint(text[0], if |text| == 1 then 0 else text[1])
  }

  function TextBytes(text: Text): seq<byte> {
    if text == [] then [] else Utf8.EncodePoint(FirstPoint(text)) + TextBytes(text[Taken(text)..])
  }

  function Enc(v: Value): seq<byte> {
    match v
    case Bool(b) => [if b then 0xF5 else 0xF4]
    case Null => [0xF6]
    case Undefined => [0xF7]
    case Int(i) => if i >= 0 then Head(0, i) else Head(1, -i - 1)
    case Float(image) => [0xFB] + image
    case Str(text) => EncText(text)
    case Bytes(data) => Head(2, |data|) + data
    case Array(items) => Head(4, |items|) + EncItems(items)
    case Object(fields) => Head(5, |fields|) + EncFields(fields)
  }

  function EncText(text: Text): seq<byte> {
    Head(3, |TextBytes(text)|) + TextBytes(text)
  }

  function EncItems(items: seq<Value>): seq<byte> {
    if items == [] then [] else Enc(items[0]) + EncItems(items[1..])
  }

  function EncFields(fields: seq<Field>): seq<byte> {
    if fields == [] then []
    else EncText(fields[0].key) + Enc(fields[0].value) + EncFields(fields[1..])
  }

  // Parsing.

  /** A parsed value and the position after it; an exception otherwise. */
  datatype Parsed<T> = Ok(value: T, next: nat) | Error

  function ReadUint(data: seq<byte>, at: nat, width: nat): (r: Parsed<nat>)
    requires at <= |data|
    ensures r.Ok? ==> at <= r.next <= |data|
  {
    if at + width <= |data| then Ok(FromBigEndian(data[at..at + width]), at + width) else Error
  }

  /** The distance between neighbouring numbers of the client's language around `n`. */
  function Unit(n: nat): (u: nat)
    ensures u > 0
  {
    if n < MAX_SAFE then 1 else 2 * Unit(n / 2)
  }

  /** The number of the client's language nearest to `n`, the even one of two. */
  function Rounded(n: nat): nat {
    var u := Unit(n);
    var q, r := n / u, n % u;
    if 2 * r < u || (2 * r == u && q % 2 == 0) then q * u else (q + 1) * u
  }

  /** The client's `-1 - length`. */
  function Negative(length: nat): int {
    -(Rounded(1 + length) as int)
  }

  lemma {:induction false} RoundedExact(n: nat)
    requires n <= MAX_SAFE
    ensures Rounded(n) == n
  {
    if n == MAX_SAFE { assert Unit(n) == 2; }
  }

  /** The length announced by the low bits of an initial byte; -1 for an indefinite one. */
  function ReadLength(data: seq<byte>, at: nat, info: nat): (r: Parsed<int>)
    requires at <= |data|
    ensures r.Ok? ==> at <= r.next <= |data| && r.value >= -1
  {
    if info < 24 then Ok(info, at)
    else if 24 <= info <= 27 then
      match ReadUint(data, at, Width(info))
      case Ok(n, next) => Ok(Rounded(n), next)
      case Error => Error
    else if info == 31 then Ok(-1, at)
    else Error
  }

  /** The number of bytes after the first in a UTF-8 sequence, as the parser counts them. */
  function Following(b: byte): nat {
    if b < 0x80 then 0 else if b < 0xE0 then 1 else if b < 0xF0 then 2 else 3
  }

  function Low(b: byte, m: nat): nat
    requires m > 0
  {
    b % m
  }

  /** The number assembled from a sequence; markers are masked away unchecked. */
  function Assembled(s: seq<byte>): (c: nat)
    requires |s| > 0 && |s| == 1 + Following(s[0])
    ensures c < 0x400000
  {
    match |s|
    case 1 => s[0]
    case 2 => Low(s[0], 32) * 64 + Low(s[1], 64)
    case 3 => Low(s[0], 16) * 4096 + Low(s[1], 64) * 64 + Low(s[2], 64)
    case _ => Low(s[0], 16) * 262144 + Low(s[1], 64) * 4096 + Low(s[2], 64) * 64 + Low(s[3], 64)
  }

  function Units(c: nat): Text
    requires c < 0x400000
  {
    if c < 0x10000 then [c]
    else [0xD800 + (c - 0x10000) / 1024 % 0x800, 0xDC00 + (c - 0x10000) % 1024]
  }

  /** Text of `left` bytes; a sequence may run past them. */
  function ReadText(data: seq<byte>, at: nat, left: int): (r: Parsed<Text>)
    requires at <= |data|
    ensures r.Ok? ==> at <= r.next <= |data|
    decreases if left > 0 then left else 0
  {
    if left <= 0 then Ok([], at)
    else if at >= |data| then Error
    else
      var n := 1 + Following(data[at]);
      if at + n > |data| then Error
      else match ReadText(data, at + n, left - n)
        case Error => Error
        case Ok(text, next) => Ok(Units(Assembled(data[at..at + n])) + text, next)
  }

  /** The length of the next piece of an indefinite string, or -1 at its end. */
  function ReadPieceLength(data: seq<byte>, at: nat, major: nat): (r: Parsed<int>)
    requires at <= |data|
    ensures r.Ok? ==> at < r.next <= |data| && r.value >= -1
  {
    if at >= |data| then Error
    else if data[at] == 0xFF then Ok(-1, at + 1)
    else match ReadLength(data, at + 1, data[at] % 32)
      case Error => Error
      case Ok(length, next) => if length < 0 || data[at] / 32 != major then Error else Ok(length, next)
  }

  function ReadBytes(data: seq<byte>, at: nat, length: nat): (r: Parsed<seq<byte>>)
    requires at <= |data|
    ensures r.Ok? ==> at <= r.next <= |data|
  {
    if at + length <= |data| then Ok(data[at..at + length], at + length) else Error
  }

  function ReadBytePieces(data: seq<byte>, at: nat): (r: Parsed<seq<byte>>)
    requires at <= |data|
    ensures r.Ok? ==> at < r.next <= |data|
    decreases |data| - at
  {
    match ReadPieceLength(data, at, 2)
    case Error => Error
    case Ok(length, next) =>
      if length < 0 then Ok([], next)
      else if next + length > |data| then Error
      else match ReadBytePieces(data, next + length)
        case Error => Error
        case Ok(rest, last) => Ok(data[next..next + length] + rest, last)
  }

  function ReadTextPieces(data: seq<byte>, at: nat): (r: Parsed<Text>)
    requires at <= |data|
    ensures r.Ok? ==> at < r.next <= |data|
    decreases |data| - at
  {
    match ReadPieceLength(data, at, 3)
    case Error => Error
    case Ok(length, next) =>
      if length < 0 then Ok([], next)
      else match ReadText(data, next, length)
        case Error => Error
        case Ok(text, next') =>
          match ReadTextPieces(data, next')
          case Error => Error
          case Ok(rest, last) => Ok(text + rest, last)
  }

  const PROTO: Text := [95, 95, 112, 114, 111, 116, 111, 95, 95]

  /** Assigning a property: `__proto__` is not an own property, an existing one is overwritten in place. */
  function SetProperty(fields: seq<Field>, key: Text, value: Value): seq<Field> {
    if key == PROTO then fields
    else if fields == [] then [Field(key, value)]
    else if fields[0].key == key then [Field(key, value)] + fields[1..]
    else [fields[0]] + SetProperty(fields[1..], key, value)
  }

  /** How many entries of an array or object follow: a number, or up to a break byte. */
  datatype Count = Exactly(n: nat) | UntilBreak

  function ToCount(length: int): Count {
    if length < 0 then UntilBreak else Exactly(length)
  }

  function Dec(show: Show, data: seq<byte>, at: nat): (r: Parsed<Value>)
    requires at <= |data|
    ensures r.Ok? ==> at < r.next <= |data|
    decreases |data| - at, 0
  {
    if at >= |data| then Error else DecHead(show, data, at + 1, data[at] / 32, data[at] % 32)
  }

  /** The rest of an item after its initial byte. */
  function DecHead(show: Show, data: seq<byte>, at: nat, major: nat, info: nat): (r: Parsed<Value>)
    requires at <= |data|
    ensures r.Ok? ==> at <= r.next <= |data|
    decreases |data| - at, 3
  {
    if major == 7 && 25 <= info <= 27 then
      match ReadBytes(data, at, Width(info))
      case Error => Error
      case Ok(image, next) => Ok(Float(image), next)
    else match ReadLength(data, at, info)
      case Error => Error
      case Ok(length, next) =>
        if length < 0 && (major < 2 || 6 < major) then Error else DecBody(show, data, next, major, length)
  }

  /** The rest of an item after its initial byte and length. */
  function DecBody(show: Show, data: seq<byte>, at: nat, major: nat, length: int): (r: Parsed<Value>)
    requires at <= |data| && length >= -1 && (length < 0 ==> 2 <= major <= 6)
    ensures r.Ok? ==> at <= r.next <= |data|
    decreases |data| - at, 2
  {
    if major < 2 then Ok(Int(if major == 0 then length else Negative(length)), at)
    else if major == 2 then
      match if length < 0 then ReadBytePieces(data, at) else ReadBytes(data, at, length)
      case Error => Error
      case Ok(bytes, last) => Ok(Bytes(bytes), last)
    else if major == 3 then
      match if length < 0 then ReadTextPieces(data, at) else ReadText(data, at, length)
      case Error => Error
      case Ok(text, last) => Ok(Str(text), last)
    else if major == 4 then
      if length >= 0x1_0000_0000 then Error
      else match DecItems(show, data, at, ToCount(length))
        case Error => Error
        case Ok(items, last) => Ok(Array(items), last)
    else if major == 5 then
      match DecFields(show, data, at, ToCount(length), [])
      case Error => Error
      case Ok(fields, last) => Ok(Object(fields), last)
    else if major == 6 then Dec(show, data, at)
    else Ok(Simple(length), at)
  }

  function Simple(length: int): Value {
    match length
    case 20 => Bool(false)
    case 21 => Bool(true)
    case 22 => Null
    case _ => Undefined
  }

  /** Whether the entries end here, and the position after the end marker. */
  function AtEnd(data: seq<byte>, at: nat, count: Count): (r: Parsed<bool>)
    requires at <= |data|
    ensures r.Ok? ==> at <= r.next <= |data|
  {
    match count
    case Exactly(n) => Ok(n == 0, at)
    case UntilBreak =>
      if at >= |data| then Error else if data[at] == 0xFF then Ok(true, at + 1) else Ok(false, at)
  }

  function Fewer(count: Count): Count {
    if count.Exactly? && count.n > 0 then Exactly(count.n - 1) else count
  }

  function DecItems(show: Show, data: seq<byte>, at: nat, count: Count): (r: Parsed<seq<Value>>)
    requires at <= |data|
    ensures r.Ok? ==> at <= r.next <= |data|
    decreases |data| - at, 1
  {
    match AtEnd(data, at, count)
    case Error => Error
    case Ok(end, next) =>
      if end then Ok([], next)
      else match Dec(show, data, at)
        case Error => Error
        case Ok(v, next') =>
          match DecItems(show, data, next', Fewer(count))
          case Error => Error
          case Ok(rest, last) => Ok([v] + rest, last)
  }

  /** Turning a value into text, which may throw; only the text of text is laid down. */
  type Show = Value -> Option<Text>

  function KeyText(show: Show, key: Value): Option<Text> {
    if key.Str? then Some(key.text) else show(key)
  }

  /** Fields added to `fields` one by one. */
  function DecFields(show: Show, data: seq<byte>, at: nat, count: Count, fields: seq<Field>): (r: Parsed<seq<Field>>)
    requires at <= |data|
    ensures r.Ok? ==> at <= r.next <= |data|
    decreases |data| - at, 1
  {
    match AtEnd(data, at, count)
    case Error => Error
    case Ok(end, next) =>
      if end then Ok(fields, next)
      else match Dec(show, data, at)
        case Error => Error
        case Ok(key, next') =>
          match Dec(show, data, next')
          case Error => Error
          case Ok(value, next'') =>
            match KeyText(show, key)
            case None => Error
            case Some(text) => DecFields(show, data, next'', Fewer(count), SetProperty(fields, text, value))
  }

  function Decode(show: Show, data: seq<byte>): Parsed<Value> {
    match Dec(show, data, 0)
    case Ok(v, next) => if next == |data| then Ok(v, next) else Error
    case Error => Error
  }
}
