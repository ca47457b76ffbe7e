/** The ways to write a length, and the pieces of a string (sections 2.1 and 2.2 of RFC 7049). */
module CborLengths {
  import opened Wire
  import opened Cbor
  import opened CborReads
  import opened CborText
  import opened Utf8

  /** A length and the way it is written: in the initial byte, or in 1, 2, 4 or 8 bytes behind it. */
  datatype Length = Length(n: nat, info: nat)

  predicate Holds(l: Length) {
    && l.n <= 0x1F_FFFF_FFFF_FFFF
    && ((l.info < 24 && l.info == l.n) || (l.info == 24 && l.n < 0x100) || (l.info == 25 && l.n < 0x1_0000)
        || (l.info == 26 && l.n < 0x1_0000_0000) || l.info == 27)
  }

  function LengthBytes(l: Length): seq<byte> {
    if l.info < 24 then [] else BigEndian(l.n, if l.info == 24 then 1 else if l.info == 25 then 2 else if l.info == 26 then 4 else 8)
  }

  function Start(major: nat, l: Length): seq<byte>
    requires major < 8 && Holds(l)
  {
    [32 * major + l.info] + LengthBytes(l)
  }

  /** The printer writes the shortest of them. */
  lemma ShortestHead(major: nat, l: Length)
    requires major < 8 && Holds(l)
    ensures |Head(major, l.n)| <= |Start(major, l)|
  {
  }

  datatype Piece = Piece(data: seq<byte>, l: Length)

  datatype TextPiece = TextPiece(cs: seq<nat>, l: Length)

  predicate GoodPiece(p: Piece) {
    p.l.n == |p.data| && Holds(p.l)
  }

  predicate GoodText(p: TextPiece) {
    Scalars(p.cs) && p.l.n == |Encode(p.cs)| && Holds(p.l)
  }

  predicate GoodPieces(ps: seq<Piece>) {
    ps != [] ==> GoodPiece(ps[0]) && GoodPieces(ps[1..])
  }

  predicate GoodTexts(ps: seq<TextPiece>) {
    ps != [] ==> GoodText(ps[0]) && GoodTexts(ps[1..])
  }

  function PieceBytes(p: Piece): seq<byte>
    requires GoodPiece(p)
  {
    Start(2, p.l) + p.data
  }

  function TextPieceBytes(p: TextPiece): seq<byte>
    requires GoodText(p)
  {
    Start(3, p.l) + Encode(p.cs)
  }

  function PiecesBytes(ps: seq<Piece>): seq<byte>
    requires GoodPieces(ps)
  {
    if ps == [] then [] else PieceBytes(ps[0]) + PiecesBytes(ps[1..])
  }

  function DataOf(ps: seq<Piece>): seq<byte> {
    if ps == [] then [] else ps[0].data + DataOf(ps[1..])
  }

  function PointsOf(ps: seq<TextPiece>): seq<nat> {
    if ps == [] then [] else ps[0].cs + PointsOf(ps[1..])
  }

  // A piece or pieces, their bytes with the break behind them, and what they hold.

  predicate SpellsPieces(ps: seq<Piece>, whole: seq<byte>, all: seq<byte>) {
    GoodPieces(ps) && whole == PiecesBytes(ps) + [0xFF] && all == DataOf(ps)
  }

  /** The pieces of a text, each with its bytes and its units. */
  function PartsOf(ps: seq<TextPiece>): seq<Part>
    requires GoodTexts(ps)
  {
    if ps == [] then [] else [PartOf(ps[0])] + PartsOf(ps[1..])
  }

  function PartOf(p: TextPiece): Part
    requires GoodText(p)
  {
    Part(Start(3, p.l), Encode(p.cs), UnitsOf(p.cs))
  }

  lemma NoPieces(whole: seq<byte>)
    ensures forall all :: SpellsPieces([], whole, all) ==> whole == [0xFF] && all == []
  {
  }
}
