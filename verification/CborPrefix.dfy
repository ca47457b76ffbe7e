/** What the parser reads does not depend on the bytes behind it, and nothing is read from a message that is cut short. */
module CborPrefix {
  import opened Wire
  import opened Cbor

  predicate Same<T(==)>(less: Parsed<T>, more: Parsed<T>) {
    less.Ok? ==> more == less
  }

  lemma LengthSame(data: seq<byte>, whole: seq<byte>, at: nat, info: nat)
    requires data <= whole && at <= |data|
    ensures Same(ReadLength(data, at, info), ReadLength(whole, at, info))
  {
    if 24 <= info <= 27 && at + Width(info) <= |data| {
      assert data[at..at + Width(info)] == whole[at..at + Width(info)];
    }
  }

  lemma PieceLengthSame(data: seq<byte>, whole: seq<byte>, at: nat, major: nat)
    requires data <= whole && at <= |data|
    ensures Same(ReadPieceLength(data, at, major), ReadPieceLength(whole, at, major))
  {
    if at < |data| { LengthSame(data, whole, at + 1, data[at] % 32); }
  }

  lemma {:induction false} TextSame(data: seq<byte>, whole: seq<byte>, at: nat, left: int)
    requires data <= whole && at <= |data|
    ensures Same(ReadText(data, at, left), ReadText(whole, at, left))
    decreases if left > 0 then left else 0
  {
    if left > 0 && at < |data| {
      var n := 1 + Following(data[at]);
      if at + n <= |data| {
        TextSame(data, whole, at + n, left - n);
        assert data[at..at + n] == whole[at..at + n];
      }
    }
  }

  lemma {:induction false} PiecesSame(data: seq<byte>, whole: seq<byte>, at: nat)
    requires data <= whole && at <= |data|
    ensures Same(ReadBytePieces(data, at), ReadBytePieces(whole, at))
    decreases |data| - at
  {
    PieceLengthSame(data, whole, at, 2);
    var r := ReadPieceLength(data, at, 2);
    if r.Ok? && r.value >= 0 && r.next + r.value <= |data| {
      PiecesSame(data, whole, r.next + r.value);
      assert data[r.next..r.next + r.value] == whole[r.next..r.next + r.value];
    }
  }

  lemma {:induction false} TextPiecesSame(data: seq<byte>, whole: seq<byte>, at: nat)
    requires data <= whole && at <= |data|
    ensures Same(ReadTextPieces(data, at), ReadTextPieces(whole, at))
    decreases |data| - at
  {
    PieceLengthSame(data, whole, at, 3);
    var r := ReadPieceLength(data, at, 3);
    if r.Ok? && r.value >= 0 {
      TextSame(data, whole, r.next, r.value);
      var text := ReadText(data, r.next, r.value);
      if text.Ok? { TextPiecesSame(data, whole, text.next); }
    }
  }

  lemma {:induction false} ItemSame(show: Show, data: seq<byte>, whole: seq<byte>, at: nat)
    requires data <= whole && at <= |data|
    ensures Same(Dec(show, data, at), Dec(show, whole, at))
    decreases |data| - at, 0
  {
    if at < |data| { HeadSame(show, data, whole, at + 1, data[at] / 32, data[at] % 32); }
  }

  lemma {:induction false} HeadSame(show: Show, data: seq<byte>, whole: seq<byte>, at: nat, major: nat, info: nat)
    requires data <= whole && at <= |data|
    ensures Same(DecHead(show, data, at, major, info), DecHead(show, whole, at, major, info))
    decreases |data| - at, 3
  {
    if major == 7 && 25 <= info <= 27 {
      if at + Width(info) <= |data| { assert data[at..at + Width(info)] == whole[at..at + Width(info)]; }
    } else {
      LengthSame(data, whole, at, info);
      var r := ReadLength(data, at, info);
      if r.Ok? && !(r.value < 0 && (major < 2 || 6 < major)) { BodySame(show, data, whole, r.next, major, r.value); }
    }
  }

  lemma {:induction false} BodySame(show: Show, data: seq<byte>, whole: seq<byte>, at: nat, major: nat, length: int)
    requires data <= whole && at <= |data| && length >= -1 && (length < 0 ==> 2 <= major <= 6)
    ensures Same(DecBody(show, data, at, major, length), DecBody(show, whole, at, major, length))
    decreases |data| - at, 2
  {
    match major
    case 2 =>
      PiecesSame(data, whole, at);
      if length >= 0 && at + length <= |data| { assert data[at..at + length] == whole[at..at + length]; }
    case 3 =>
      TextPiecesSame(data, whole, at);
      TextSame(data, whole, at, length);
    case 4 => ItemsSame(show, data, whole, at, ToCount(length));
    case 5 => FieldsSame(show, data, whole, at, ToCount(length), []);
    case 6 => ItemSame(show, data, whole, at);
    case _ =>
  }

  lemma {:induction false} ItemsSame(show: Show, data: seq<byte>, whole: seq<byte>, at: nat, count: Count)
    requires data <= whole && at <= |data|
    ensures Same(DecItems(show, data, at, count), DecItems(show, whole, at, count))
    decreases |data| - at, 1
  {
    var end := AtEnd(data, at, count);
    if end.Ok? && !end.value {
      ItemSame(show, data, whole, at);
      var r := Dec(show, data, at);
      if r.Ok? { ItemsSame(show, data, whole, r.next, Fewer(count)); }
    }
  }

  lemma {:induction false} FieldsSame(show: Show, data: seq<byte>, whole: seq<byte>, at: nat, count: Count, fields: seq<Field>)
    requires data <= whole && at <= |data|
    ensures Same(DecFields(show, data, at, count, fields), DecFields(show, whole, at, count, fields))
    decreases |data| - at, 1
  {
    var end := AtEnd(data, at, count);
    if end.Ok? && !end.value {
      ItemSame(show, data, whole, at);
      var key := Dec(show, data, at);
      if key.Ok? {
        ItemSame(show, data, whole, key.next);
        var value := Dec(show, data, key.next);
        if value.Ok? && KeyText(show, key.value).Some? {
          FieldsSame(show, data, whole, value.next, Fewer(count), SetProperty(fields, KeyText(show, key.value).value, value.value));
        }
      }
    }
  }

  /** A message that is accepted is not the beginning of another one, and none of its own beginnings is accepted. */
  lemma CutShortRefused(show: Show, data: seq<byte>, whole: seq<byte>)
    requires data <= whole && Decode(show, data).Ok? && Decode(show, whole).Ok?
    ensures data == whole
  {
    ItemSame(show, data, whole, 0);
    assert whole[..|data|] == data;
  }
}
