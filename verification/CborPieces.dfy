/** Reading lengths in any form, and strings in pieces. */
module CborPieces {
  import opened Bits
  import opened Wire
  import opened Cbor
  import opened CborRoundTrip
  import opened CborReads
  import opened CborLengths
  import opened CborText
  import opened Utf8

  lemma {:induction false} LengthRead(data: seq<byte>, at: nat, l: Length)
    requires Holds(l) && l.info >= 24 && At(data, at, LengthBytes(l))
    ensures at <= |data| && ReadLength(data, at, l.info) == Ok(l.n, at + |LengthBytes(l)|)
  {
    Widths();
    RoundedExact(l.n);
    BigEndianInverse(l.n, Width(l.info));
  }

  lemma {:induction false} StartRead(data: seq<byte>, at: nat, major: nat, l: Length)
    requires major < 8 && Holds(l) && At(data, at, Start(major, l))
    ensures at < |data| && data[at] == 32 * major + l.info && data[at] / 32 == major && data[at] % 32 == l.info
    ensures ReadLength(data, at + 1, l.info) == Ok(l.n, at + |Start(major, l)|)
  {
    AtByte(data, at, Start(major, l), 0);
    ByteSplit(major, l.info);
    if l.info >= 24 {
      AtSplit(data, at, [32 * major + l.info], LengthBytes(l));
      LengthRead(data, at + 1, l);
    }
  }

  lemma {:induction false} PieceRead(data: seq<byte>, at: nat, major: nat, l: Length)
    requires (major == 2 || major == 3) && Holds(l) && At(data, at, Start(major, l))
    ensures at <= |data| && ReadPieceLength(data, at, major) == Ok(l.n, at + |Start(major, l)|)
  {
    StartRead(data, at, major, l);
  }

  lemma {:induction false} PieceStep(data: seq<byte>, at: nat, p: Piece, bytes: seq<byte>, more: seq<byte>, rest: seq<byte>)
    requires GoodPiece(p) && bytes == PieceBytes(p) && At(data, at, bytes) && ReadsPieces(data, at + |bytes|, more, rest)
    ensures ReadsPieces(data, at, bytes + more, p.data + rest)
  {
    AtSplit(data, at, Start(2, p.l), p.data);
    PieceRead(data, at, 2, p.l);
    PieceThen(data, at, Start(2, p.l), p.data, more, rest);
  }

  lemma {:induction false} PiecesApart(ps: seq<Piece>, whole: seq<byte>, all: seq<byte>)
    returns (bytes: seq<byte>, more: seq<byte>, rest: seq<byte>)
    requires ps != [] && SpellsPieces(ps, whole, all)
    ensures GoodPiece(ps[0]) && bytes == PieceBytes(ps[0]) && SpellsPieces(ps[1..], more, rest)
    ensures whole == bytes + more && all == ps[0].data + rest
  {
    bytes, more, rest := PieceBytes(ps[0]), PiecesBytes(ps[1..]) + [0xFF], DataOf(ps[1..]);
    AppendTwice(bytes, PiecesBytes(ps[1..]), [0xFF]);
  }

  lemma {:induction false} PiecesRead(data: seq<byte>, at: nat, ps: seq<Piece>, whole: seq<byte>, all: seq<byte>)
    requires SpellsPieces(ps, whole, all) && At(data, at, whole)
    ensures ReadsPieces(data, at, whole, all)
    decreases |ps|
  {
    if ps == [] {
      NoPieces(whole);
      PiecesEnd(data, at);
    } else {
      var bytes, more, rest := PiecesApart(ps, whole, all);
      AtSplit(data, at, bytes, more);
      PiecesRead(data, at + |bytes|, ps[1..], more, rest);
      PieceStep(data, at, ps[0], bytes, more, rest);
    }
  }

  lemma TextPieceReadable(data: seq<byte>, p: TextPiece)
    requires GoodText(p)
    ensures ReadableIn(data, PartOf(p))
  {
    var start, body := Start(3, p.l), Encode(p.cs);
    forall i: nat | At(data, i, start + body) ensures PartAt(data, i, PartOf(p)) {
      AtSplit(data, i, start, body);
      PieceRead(data, i, 3, p.l);
      ScalarsRead(data, i + |start|, p.cs);
    }
  }

  lemma {:induction false} TextPiecesReadable(data: seq<byte>, ps: seq<TextPiece>, k: nat)
    requires GoodTexts(ps) && k < |PartsOf(ps)|
    ensures ReadableIn(data, PartsOf(ps)[k])
  {
    if k == 0 { TextPieceReadable(data, ps[0]); } else { TextPiecesReadable(data, ps[1..], k - 1); }
  }

  lemma {:induction false} TextPiecesRead(data: seq<byte>, at: nat, ps: seq<TextPiece>)
    requires GoodTexts(ps) && At(data, at, PartsBytes(PartsOf(ps)) + [0xFF])
    ensures ReadsTextPieces(data, at, PartsBytes(PartsOf(ps)) + [0xFF], PartsText(PartsOf(ps)))
  {
    forall k | 0 <= k < |PartsOf(ps)| ensures ReadableIn(data, PartsOf(ps)[k]) { TextPiecesReadable(data, ps, k); }
    PartsRead(data, at, PartsOf(ps));
  }

  /** Text in pieces is the text of all their characters. */
  lemma {:induction false} PiecesJoined(ps: seq<TextPiece>)
    requires GoodTexts(ps)
    ensures Scalars(PointsOf(ps)) && PartsText(PartsOf(ps)) == UnitsOf(PointsOf(ps))
  {
    if ps != [] {
      PiecesJoined(ps[1..]);
      var part, later := PartOf(ps[0]), PartsOf(ps[1..]);
      assert ([part] + later)[1..] == later;
      UnitsJoined(ps[0].cs, PointsOf(ps[1..]));
    }
  }

  lemma {:induction false} UnitsJoined(cs: seq<nat>, more: seq<nat>)
    requires Scalars(cs) && Scalars(more)
    ensures Scalars(cs + more) && UnitsOf(cs + more) == UnitsOf(cs) + UnitsOf(more)
  {
    if cs == [] {
      assert cs + more == more;
    } else {
      assert (cs + more)[1..] == cs[1..] + more;
      UnitsJoined(cs[1..], more);
    }
  }

  lemma AppendTwice(a: seq<byte>, b: seq<byte>, c: seq<byte>)
    ensures a + b + c == a + (b + c)
  {
  }

}
