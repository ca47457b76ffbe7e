/**
 * The resumable stream parser with the fields it keeps between calls. Each method is proved against the
 * byte-at-a-time machine: what it returns and the state it leaves are those of a scan of the same bytes.
 */
module StreamParser {
  import opened Wire
  import opened Words
  import opened StreamSpec
  import opened FrameGrammar
  import opened ParserSteps
  import opened Wrappers

  datatype State =
    | INIT
    | HEADER_1ST_BYTE
    | HEADER_2ND_BYTE
    | READ_SHORT_SIZE(k: nat)
    | READ_LONG_SIZE(k: nat)
    | READ_MASK(k: nat)
    | VALIDATE
    | PAYLOAD
    | DONE
    | MESSAGE_READY

  datatype FrameHeader = FrameHeader(
    fin: bool, op: byte, fseq: FrameSeq, shortSize: seq<byte>, longSize: seq<byte>, mask: seq<byte>, msgSize: nat)

  const BLANK_HEADER := FrameHeader(false, 0, SINGLE, [0, 0], [0, 0, 0, 0, 0, 0, 0, 0], [0, 0, 0, 0], 0)

  class Parser {
    const role: Role
    var plBytesReady: nat
    var cursor: nat
    var maxMsgSize: nat
    var preSize: nat
    var header: FrameHeader
    var opcodes: seq<byte>
    var message: seq<byte>
    var messageFrames: seq<byte>
    var bufferQueue: seq<seq<byte>>
    var state: State
    var maskWord: nat

    ghost function Cfg(): Config
      reads this`maxMsgSize
    {
      Config(role, maxMsgSize)
    }

    ghost predicate ValidHeader()
      reads this`header
    {
      |header.shortSize| == 2 && |header.longSize| == 8 && |header.mask| == 4
    }

    /** The opcode stack holds the opcode of the message under reassembly and nothing else. */
    ghost predicate ValidStack()
      reads this`opcodes
    {
      |opcodes| <= 1 && forall op :: op in opcodes ==> IsData(op)
    }

    ghost function Pending(): Assembly
      reads this`opcodes, this`messageFrames
    {
      if opcodes == [] then Idle else Fragments(opcodes[0], messageFrames)
    }

    ghost function FrameKey(): seq<byte>
      reads this`header
    {
      if role.Server? then header.mask else []
    }

    ghost predicate BeforePayload()
      reads this`header, this`plBytesReady
    {
      IsOpCodeSupported(header.op) && plBytesReady == 0 && header.fseq == SINGLE
    }

    /** Bytes of earlier fragments, while the payload of a continuation frame is being read. */
    ghost function Earlier(): seq<byte>
      reads this`plBytesReady, this`header, this`messageFrames
    {
      if plBytesReady == 0 || |messageFrames| < header.msgSize then messageFrames
      else messageFrames[..|messageFrames| - header.msgSize]
    }

    ghost function Received(): seq<byte>
      reads this`plBytesReady, this`header, this`message, this`messageFrames
    {
      var buffer := if header.fseq.SINGLE? then message else messageFrames;
      if plBytesReady == 0 || |buffer| < header.msgSize || header.msgSize < plBytesReady then []
      else buffer[|buffer| - header.msgSize..][..plBytesReady]
    }

    ghost function InPayload(): Reading
      reads this`plBytesReady, this`header, this`opcodes, this`message, this`messageFrames
    {
      var asm := match header.fseq
                 case SINGLE => Pending()
                 case FIRST => Idle
                 case MIDDLE => Fragments(if opcodes == [] then 0 else opcodes[0], Earlier())
                 case LAST => Fragments(header.op, Earlier());
      var op := if header.fseq.MIDDLE? || header.fseq.LAST? then CONTINUATION else header.op;
      Body(header.fin, op, header.msgSize, FrameKey(), Received(), asm)
    }

    ghost predicate ValidPayload()
      reads this`plBytesReady, this`header, this`opcodes, this`message, this`messageFrames
    {
      && (plBytesReady < header.msgSize || plBytesReady == header.msgSize == 0)
      && WellFormed(role, InPayload())
      && Classify(header.fin, InPayload().op, header.msgSize, InPayload().asm) == Accept(header.fseq)
      && (header.fseq.SINGLE? && plBytesReady > 0 ==> |message| == header.msgSize)
      && (!header.fseq.SINGLE? && plBytesReady > 0 ==> |messageFrames| >= header.msgSize)
      && (header.fseq.FIRST? ==> opcodes == [header.op] && (plBytesReady > 0 ==> |messageFrames| == header.msgSize))
      && (header.fseq.MIDDLE? ==> |opcodes| == 1)
      && (header.fseq.LAST? ==> opcodes == [])
    }

    /** What the fields say has been read of the current frame. */
    ghost function Abs(): Reading
      reads this`plBytesReady, this`header, this`opcodes, this`message, this`messageFrames, this`state
    {
      match state
      case INIT | HEADER_1ST_BYTE => First(Pending())
      case HEADER_2ND_BYTE => Second(header.fin, header.op, Pending())
      case READ_SHORT_SIZE(k) => Length(header.fin, header.op, 2, if k <= |header.shortSize| then header.shortSize[..k] else [], Pending())
      case READ_LONG_SIZE(k) => Length(header.fin, header.op, 8, if k <= |header.longSize| then header.longSize[..k] else [], Pending())
      case READ_MASK(k) =>
        if role.Server? then
          Key(header.fin, header.op, header.msgSize, if k <= |header.mask| then header.mask[..k] else [], Pending())
        else Body(header.fin, header.op, header.msgSize, [], [], Pending())
      case VALIDATE => Body(header.fin, header.op, header.msgSize, FrameKey(), [], Pending())
      case PAYLOAD => InPayload()
      case DONE | MESSAGE_READY => First(Idle)
    }

    ghost predicate Valid()
      reads this`plBytesReady, this`header, this`opcodes, this`message, this`messageFrames, this`state, this`maskWord
    {
      && ValidHeader() && ValidStack()
      && match state
         case INIT => true
         case HEADER_1ST_BYTE => plBytesReady == 0 && header == BLANK_HEADER
         case HEADER_2ND_BYTE => BeforePayload()
         case READ_SHORT_SIZE(k) => BeforePayload() && k < 2
         case READ_LONG_SIZE(k) => BeforePayload() && k < 8
         case READ_MASK(k) => BeforePayload() && k < 4 && (role.Client? ==> k == 0)
         case VALIDATE => BeforePayload() && ValidWord()
         case PAYLOAD => ValidPayload() && ValidWord()
         case DONE | MESSAGE_READY => false
    }

    ghost predicate ValidWord()
      reads this`header, this`maskWord
      requires ValidHeader()
    {
      role.Server? ==> maskWord == KeyWord(header.mask)
    }

    /** The result of reading from `offset` agrees with the scan that started from `before`. */
    ghost predicate Tracks(before: Reading, stream: seq<byte>, offset: nat, res: Result)
      reads this`plBytesReady, this`cursor, this`maxMsgSize, this`header, this`opcodes, this`message, this`messageFrames,
            this`state, this`maskWord
    {
      Follows(Cfg(), before, stream, offset, res, cursor, Valid(), Abs())
    }

    constructor (role: Role, presz: nat)
      ensures Valid() && state == INIT && opcodes == [] && this.role == role && maxMsgSize == 0
      ensures Abs() == First(Idle)
    {
      this.role := role;
      plBytesReady, cursor, maxMsgSize, preSize := 0, 0, 0, presz;
      header := BLANK_HEADER;
      opcodes := [];
      message, messageFrames := seq(presz, _ => 0), seq(presz, _ => 0);
      bufferQueue := [];
      state := INIT;
      maskWord := 0;
    }

    method SetMaxMsgSize(mms: nat)
      requires Valid()
      modifies this`maxMsgSize
      ensures Valid() && maxMsgSize == mms && Abs() == old(Abs())
    {
      ghost var before := Abs();
      maxMsgSize := mms;
      assert Valid() == old(Valid());
      assert Abs() == before;
    }

    method Reset()
      requires Valid()
      modifies this`state, this`plBytesReady, this`header
      ensures state == HEADER_1ST_BYTE && plBytesReady == 0 && header == BLANK_HEADER
    {
      state, plBytesReady, header := HEADER_1ST_BYTE, 0, BLANK_HEADER;
    }

    method GetHeader1stByte(stream: seq<byte>, offset: nat) returns (res: Result)
      requires Valid() && state == HEADER_1ST_BYTE && offset <= |stream|
      modifies this`cursor, this`header, this`state
      ensures Tracks(old(Abs()), stream, offset, res)
      ensures res.directive.CONTINUE? ==> state == HEADER_2ND_BYTE && cursor == offset + 1
    {
      cursor := offset;
      if cursor < |stream| {
        var b := stream[cursor];
        header := header.(fin := b / 128 == 1, op := b % 16);
        if b / 16 % 8 != 0 {
          return Result(cursor, CLOSE_WITH_CODE, PROTOCOL_VIOLATION);
        }
        if !IsOpCodeSupported(header.op) {
          return Result(cursor, CLOSE_WITH_CODE, NO_COMPRENDE);
        }
        cursor := cursor + 1;
        state := HEADER_2ND_BYTE;
        return Result(cursor, CONTINUE, NORMAL);
      } else {
        cursor := 0;
        return Result(cursor, MORE, NORMAL);
      }
    }

    method GetHeader2ndByte(stream: seq<byte>, offset: nat) returns (res: Result)
      requires Valid() && state == HEADER_2ND_BYTE && offset <= |stream|
      modifies this`cursor, this`header, this`state
      ensures Tracks(old(Abs()), stream, offset, res)
      ensures res.directive.CONTINUE? ==>
                state == READ_MASK(0) || state == READ_SHORT_SIZE(0) || state == READ_LONG_SIZE(0)
    {
      cursor := offset;
      if cursor < |stream| {
        SecondByteRead(Cfg(), Abs(), stream, cursor);
        var b := stream[cursor];
        var masked := b / 128 == 1;
        if masked != role.Server? {
          return Result(cursor, CLOSE_WITH_CODE, PROTOCOL_VIOLATION);
        }
        TakeLengthForm(b % 128);
        cursor := cursor + 1;
        return Result(cursor, CONTINUE, NORMAL);
      } else {
        cursor := 0;
        return Result(cursor, MORE, NORMAL);
      }
    }

    /** The short length, or the form of the extended one. */
    method TakeLengthForm(small: byte)
      requires Valid() && state == HEADER_2ND_BYTE && small < 128
      modifies this`header, this`state
      ensures Valid()
      ensures state == READ_MASK(0) || state == READ_SHORT_SIZE(0) || state == READ_LONG_SIZE(0)
      ensures Abs() == if small < 126 then Sized(Cfg(), old(header.fin), old(header.op), small, Pending())
        else Length(old(header.fin), old(header.op), if small == 126 then 2 else 8, [], Pending())
    {
      if small < 126 {
        header := header.(msgSize := small);
        state := READ_MASK(0);
      } else if small == 126 {
        state := READ_SHORT_SIZE(0);
      } else {
        state := READ_LONG_SIZE(0);
      }
    }

    method ReadSize(stream: seq<byte>, offset: nat) returns (res: Result)
      requires Valid() && offset <= |stream|
      requires state.READ_SHORT_SIZE? || state.READ_LONG_SIZE? || state == READ_MASK(0)
      modifies this`cursor, this`header, this`state
      ensures Tracks(old(Abs()), stream, offset, res)
      ensures res.directive.CONTINUE? ==> state == READ_MASK(0) && cursor < |stream|
    {
      cursor := offset;
      if cursor < |stream| {
        if state.READ_SHORT_SIZE? {
          res := ReadShortSize(stream);
        } else if state.READ_LONG_SIZE? {
          res := ReadLongSize(stream);
        } else {
          res := Result(cursor, CONTINUE, NORMAL);
        }
      } else {
        cursor := 0;
        return Result(cursor, MORE, NORMAL);
      }
    }

    method ReadShortSize(stream: seq<byte>) returns (res: Result)
      requires Valid() && cursor < |stream| && state.READ_SHORT_SIZE?
      modifies this`cursor, this`header, this`state
      ensures Tracks(old(Abs()), stream, old(cursor), res)
      ensures res.directive.CONTINUE? ==> state == READ_MASK(0) && cursor < |stream|
    {
      ghost var start, from := Abs(), cursor;
      ValidWellFormed();
      if state.k == 0 {
        StoreShortSize(stream);
        if cursor == |stream| {
          return Result(cursor, MORE, NORMAL);
        }
      }
      res := EndShortSize(stream, start, from);
    }

    /** The last byte of a 16-bit length. */
    method EndShortSize(stream: seq<byte>, ghost start: Reading, ghost from: nat) returns (res: Result)
      requires Valid() && from <= cursor < |stream| && state == READ_SHORT_SIZE(1)
      requires WellFormed(role, start) && WellFormed(role, Abs())
      requires Scan(Cfg(), start, stream, from) == Scan(Cfg(), Abs(), stream, cursor)
      modifies this`cursor, this`header, this`state
      ensures Tracks(start, stream, from, res)
      ensures res.directive.CONTINUE? ==> state == READ_MASK(0) && cursor < |stream|
    {
      ghost var before, at := Abs(), cursor;
      header := header.(shortSize := header.shortSize[1 := stream[cursor]]);
      LastLengthByte(Cfg(), before, stream, cursor, header.shortSize);
      res := TakeSize(stream, FromBigEndian(header.shortSize), before);
      TracksOn(before, at, start, from, stream, res);
    }

    /** What agrees with a scan agrees with any scan that leads to it. */
    lemma TracksOn(before: Reading, at: nat, start: Reading, from: nat, stream: seq<byte>, res: Result)
      requires Tracks(before, stream, at, res) && from <= at && WellFormed(role, start)
      requires Scan(Cfg(), start, stream, from) == Scan(Cfg(), before, stream, at)
      ensures Tracks(start, stream, from, res)
    {
    }

    /** The last byte of an extended length has just been stored. */
    method TakeSize(stream: seq<byte>, size: nat, ghost before: Reading) returns (res: Result)
      requires ValidHeader() && ValidStack() && BeforePayload() && cursor < |stream|
      requires before.Length? && WellFormed(role, before)
      requires before.fin == header.fin && before.op == header.op && before.asm == Pending()
      requires Scan(Cfg(), before, stream, cursor) == After(Cfg(), AfterLength(Cfg(), before, size), stream, cursor + 1)
      modifies this`cursor, this`header, this`state
      ensures Tracks(before, stream, old(cursor), res)
      ensures res.directive.CONTINUE? ==> state == READ_MASK(0) && cursor < |stream|
    {
      LengthTaken(Cfg(), before, stream, cursor, size);
      header := header.(msgSize := size);
      if header.msgSize > maxMsgSize {
        return Result(cursor, CLOSE_WITH_CODE, MESSAGE_TOO_BIG);
      }
      state := READ_MASK(0);
      cursor := cursor + 1;
      if cursor == |stream| {
        cursor := 0;
        return Result(cursor, MORE, NORMAL);
      }
      return Result(cursor, CONTINUE, NORMAL);
    }

    method StoreShortSize(stream: seq<byte>)
      requires Valid() && cursor < |stream| && state == READ_SHORT_SIZE(0)
      modifies this`cursor, this`header, this`state
      ensures Valid() && state == READ_SHORT_SIZE(1) && cursor == old(cursor) + 1
      ensures old(WellFormed(role, Abs())) && WellFormed(role, Abs())
      ensures Scan(Cfg(), old(Abs()), stream, old(cursor)) == Scan(Cfg(), Abs(), stream, cursor)
    {
      ScanStep(Cfg(), Abs(), stream, cursor);
      ghost var got := Abs().got;
      header := header.(shortSize := header.shortSize[0 := stream[cursor]]);
      assert got + [stream[cursor]] == header.shortSize[..1];
      state := READ_SHORT_SIZE(1);
      cursor := cursor + 1;
    }

    method ReadLongSize(stream: seq<byte>) returns (res: Result)
      requires Valid() && cursor < |stream| && state.READ_LONG_SIZE?
      modifies this`cursor, this`header, this`state
      ensures Tracks(old(Abs()), stream, old(cursor), res)
      ensures res.directive.CONTINUE? ==> state == READ_MASK(0) && cursor < |stream|
    {
      ghost var start, from := Abs(), cursor;
      ValidWellFormed();
      while state.k < 7
        invariant Valid() && state.READ_LONG_SIZE? && from <= cursor < |stream|
        invariant WellFormed(role, Abs()) && Scan(Cfg(), start, stream, from) == Scan(Cfg(), Abs(), stream, cursor)
        decreases 7 - state.k
      {
        StoreLongSize(stream);
        if cursor == |stream| {
          cursor := 0;
          return Result(cursor, MORE, NORMAL);
        }
      }
      res := EndLongSize(stream, start, from);
    }

    /** The last byte of a 64-bit length. */
    method EndLongSize(stream: seq<byte>, ghost start: Reading, ghost from: nat) returns (res: Result)
      requires Valid() && from <= cursor < |stream| && state == READ_LONG_SIZE(7)
      requires WellFormed(role, start) && WellFormed(role, Abs())
      requires Scan(Cfg(), start, stream, from) == Scan(Cfg(), Abs(), stream, cursor)
      modifies this`cursor, this`header, this`state
      ensures Tracks(start, stream, from, res)
      ensures res.directive.CONTINUE? ==> state == READ_MASK(0) && cursor < |stream|
    {
      ghost var before, at := Abs(), cursor;
      header := header.(longSize := header.longSize[7 := stream[cursor]]);
      LastLengthByte(Cfg(), before, stream, cursor, header.longSize);
      res := TakeSize(stream, FromBigEndian(header.longSize), before);
      TracksOn(before, at, start, from, stream, res);
    }

    method StoreLongSize(stream: seq<byte>)
      requires Valid() && cursor < |stream| && state.READ_LONG_SIZE? && state.k < 7
      modifies this`cursor, this`header, this`state
      ensures Valid() && state == READ_LONG_SIZE(old(state.k) + 1) && cursor == old(cursor) + 1
      ensures old(WellFormed(role, Abs())) && WellFormed(role, Abs())
      ensures Scan(Cfg(), old(Abs()), stream, old(cursor)) == Scan(Cfg(), Abs(), stream, cursor)
    {
      ghost var before, at := Abs(), cursor;
      ValidWellFormed();
      KeepLongByte(stream);
      NextLengthByte(Cfg(), before, stream, at);
    }

    method KeepLongByte(stream: seq<byte>)
      requires Valid() && cursor < |stream| && state.READ_LONG_SIZE? && state.k < 7
      modifies this`cursor, this`header, this`state
      ensures Valid() && state == READ_LONG_SIZE(old(state.k) + 1) && cursor == old(cursor) + 1
      ensures var r := old(Abs());
        r.Length? && r.width == 8 && |r.got| < 7 && Abs() == Length(r.fin, r.op, 8, r.got + [stream[old(cursor)]], r.asm)
    {
      ghost var got := Abs().got;
      var k := state.k;
      header := header.(longSize := header.longSize[k := stream[cursor]]);
      assert got + [stream[cursor]] == header.longSize[..k + 1];
      state := READ_LONG_SIZE(k + 1);
      cursor := cursor + 1;
    }

    method ReadMask(stream: seq<byte>, offset: nat) returns (res: Result)
      requires Valid() && role.Server? && state.READ_MASK? && offset <= |stream|
      modifies this`cursor, this`header, this`state, this`maskWord
      ensures Tracks(old(Abs()), stream, offset, res)
      ensures res.directive.CONTINUE? ==> state == VALIDATE && (cursor < |stream| || header.msgSize == 0)
    {
      cursor := offset;
      if cursor < |stream| {
        ghost var start := Abs();
        ValidWellFormed();
        var more := StoreMasks(stream, start, offset);
        if more {
          return Result(cursor, MORE, NORMAL);
        }
        res := TakeMask(stream, start, offset);
      } else {
        cursor := 0;
        return Result(cursor, MORE, NORMAL);
      }
    }

    /** The bytes of the masking key but the last; `more` if the stream ends among them. */
    method StoreMasks(stream: seq<byte>, ghost start: Reading, ghost from: nat) returns (more: bool)
      requires Valid() && role.Server? && state.READ_MASK? && cursor < |stream|
      requires start == Abs() && WellFormed(role, start) && from == cursor
      modifies this`cursor, this`header, this`state
      ensures Valid() && WellFormed(role, Abs()) && from <= cursor <= |stream|
      ensures Scan(Cfg(), start, stream, from) == Scan(Cfg(), Abs(), stream, cursor)
      ensures if more then cursor == |stream| && state.READ_MASK? else cursor < |stream| && state == READ_MASK(3)
    {
      while state.k < 3
        invariant Valid() && state.READ_MASK? && from <= cursor < |stream|
        invariant WellFormed(role, Abs()) && Scan(Cfg(), start, stream, from) == Scan(Cfg(), Abs(), stream, cursor)
        decreases 3 - state.k
      {
        StoreMask(stream);
        if cursor == |stream| {
          return true;
        }
      }
      return false;
    }

    method StoreLastMask(stream: seq<byte>)
      requires Valid() && role.Server? && state == READ_MASK(3) && cursor < |stream|
      modifies this`cursor, this`header, this`state, this`maskWord
      ensures Valid() && state == VALIDATE && cursor == old(cursor) + 1 && header.msgSize == old(header.msgSize)
      ensures var r := old(Abs());
        && r.Key? && Abs() == Body(r.fin, r.op, r.size, header.mask, [], r.asm)
        && |header.mask| == 4 && header.mask[..3] == r.got && header.mask[3] == stream[old(cursor)]
    {
      header := header.(mask := header.mask[3 := stream[cursor]]);
      cursor := cursor + 1;
      maskWord := KeyWord(header.mask);
      state := VALIDATE;
    }

    /** The last byte of the masking key. */
    method TakeMask(stream: seq<byte>, ghost start: Reading, ghost from: nat) returns (res: Result)
      requires Valid() && role.Server? && state == READ_MASK(3) && from <= cursor < |stream|
      requires WellFormed(role, start) && WellFormed(role, Abs())
      requires Scan(Cfg(), start, stream, from) == Scan(Cfg(), Abs(), stream, cursor)
      modifies this`cursor, this`header, this`state, this`maskWord
      ensures Tracks(start, stream, from, res)
      ensures res.directive.CONTINUE? ==> state == VALIDATE && (cursor < |stream| || header.msgSize == 0)
    {
      ghost var before, at := Abs(), cursor;
      StoreLastMask(stream);
      LastKeyByte(Cfg(), before, stream, at, header.mask);
      if cursor == |stream| && header.msgSize != 0 {
        ScanEnd(Cfg(), Abs(), stream);
        res := Suspend();
      } else {
        res := Result(cursor, CONTINUE, NORMAL);
      }
    }

    method StoreMask(stream: seq<byte>)
      requires Valid() && role.Server? && cursor < |stream| && state.READ_MASK? && state.k < 3
      modifies this`cursor, this`header, this`state
      ensures Valid() && state == READ_MASK(old(state.k) + 1) && cursor == old(cursor) + 1
      ensures old(WellFormed(role, Abs())) && WellFormed(role, Abs())
      ensures Scan(Cfg(), old(Abs()), stream, old(cursor)) == Scan(Cfg(), Abs(), stream, cursor)
    {
      ScanStep(Cfg(), Abs(), stream, cursor);
      ghost var got := Abs().got;
      var k := state.k;
      header := header.(mask := header.mask[k := stream[cursor]]);
      assert got + [stream[cursor]] == header.mask[..k + 1];
      state := READ_MASK(k + 1);
      cursor := cursor + 1;
    }

    method ValidateHeader() returns (res: Result)
      requires Valid() && state == VALIDATE
      modifies this`header, this`opcodes, this`state
      ensures header == old(header).(op := header.op, fseq := header.fseq)
      ensures res.directive.CONTINUE? || res.directive.CLOSE_WITH_CODE?
      ensures res.directive.CONTINUE? ==> Valid() && state == PAYLOAD && plBytesReady == 0 && Abs() == old(Abs())
      ensures res.directive.CLOSE_WITH_CODE? ==>
                old(Classify(header.fin, header.op, header.msgSize, Pending())) == Reject(res.code)
    {
      var controlOpCode := header.op == CLOSE || header.op == PING || header.op == PONG;
      var controlFrame := header.fin && controlOpCode;
      var badControlFrame := !header.fin && controlOpCode;
      if badControlFrame {
        return Result(cursor, CLOSE_WITH_CODE, PROTOCOL_VIOLATION);
      }
      if !controlFrame {
        res := ValidateData();
      } else {
        res := ValidateControl();
      }
    }

    method ValidateControl() returns (res: Result)
      requires Valid() && state == VALIDATE && header.fin && IsControl(header.op)
      modifies this`state
      ensures res.directive.CONTINUE? || res.directive.CLOSE_WITH_CODE?
      ensures res.directive.CONTINUE? ==> Valid() && state == PAYLOAD && plBytesReady == 0 && Abs() == old(Abs())
      ensures res.directive.CLOSE_WITH_CODE? ==>
                Classify(header.fin, header.op, header.msgSize, Pending()) == Reject(res.code)
    {
      if header.msgSize == 0 {
        if header.op == CLOSE {
          return Result(cursor, CLOSE_WITH_CODE, NORMAL);
        }
      } else if header.msgSize > 125 {
        return Result(cursor, CLOSE_WITH_CODE, PROTOCOL_VIOLATION);
      }
      state := PAYLOAD;
      return Result(cursor, CONTINUE, NORMAL);
    }

    method ValidateData() returns (res: Result)
      requires Valid() && state == VALIDATE && !IsControl(header.op)
      modifies this`header, this`opcodes, this`state
      ensures header == old(header).(op := header.op, fseq := header.fseq)
      ensures res.directive.CONTINUE? || res.directive.CLOSE_WITH_CODE?
      ensures res.directive.CONTINUE? ==> Valid() && state == PAYLOAD && plBytesReady == 0 && Abs() == old(Abs())
      ensures res.directive.CLOSE_WITH_CODE? ==>
                old(Classify(header.fin, header.op, header.msgSize, Pending())) == Reject(res.code)
    {
      var dataOpCode := header.op == TEXT || header.op == BINARY;
      var singleFrame := header.fin && dataOpCode && opcodes == [];
      var firstFragment := !header.fin && dataOpCode && opcodes == [];
      var continuationFragment := !header.fin && header.op == CONTINUATION && opcodes != [];
      var lastFragment := header.fin && header.op == CONTINUATION && opcodes != [];
      var badFrame := !singleFrame && !firstFragment && !continuationFragment && !lastFragment;
      if badFrame {
        return Result(cursor, CLOSE_WITH_CODE, PROTOCOL_VIOLATION);
      }
      if singleFrame {
        header := header.(fseq := SINGLE);
      } else if firstFragment {
        header := header.(fseq := FIRST);
        opcodes := opcodes + [header.op];
      } else if continuationFragment {
        header := header.(fseq := MIDDLE);
      } else if lastFragment {
        header := header.(fseq := LAST, op := opcodes[|opcodes| - 1]);
        opcodes := opcodes[..|opcodes| - 1];
      }
      state := PAYLOAD;
      return Result(cursor, CONTINUE, NORMAL);
    }

    /**
     * Writes unmasked payload bytes into `buffer` from position base + plBytesReady on, until the payload or
     * the stream ends: byte steps up to a multiple of four, then whole words, then the remaining bytes.
     */
    method Unmask(stream: seq<byte>, buffer: seq<byte>, base: nat) returns (out: seq<byte>)
      requires role.Server? && |header.mask| == 4 && maskWord == KeyWord(header.mask)
      requires plBytesReady <= header.msgSize && base + header.msgSize <= |buffer| && cursor <= |stream|
      modifies this`cursor, this`plBytesReady
      ensures plBytesReady <= header.msgSize && (plBytesReady == header.msgSize || cursor == |stream|)
      ensures cursor == old(cursor) + (plBytesReady - old(plBytesReady))
      ensures Filled(stream, old(cursor), cursor, buffer, base, old(plBytesReady), header.mask, plBytesReady, out)
    {
      ghost var from, ready := cursor, plBytesReady;
      out := buffer;
      NothingFilled(stream, from, buffer, base, ready, header.mask);
      if |stream| - cursor >= 16 {
        while plBytesReady < header.msgSize && cursor < |stream| && plBytesReady % 4 != 0
          invariant plBytesReady <= header.msgSize && cursor == from + (plBytesReady - ready) <= |stream|
          invariant Filled(stream, from, cursor, buffer, base, ready, header.mask, plBytesReady, out)
          decreases header.msgSize - plBytesReady
        {
          out := MaskStep(stream, from, buffer, base, ready, out);
        }
        while plBytesReady + 8 <= header.msgSize && cursor + 8 <= |stream|
          invariant plBytesReady <= header.msgSize && cursor == from + (plBytesReady - ready) <= |stream|
          invariant Filled(stream, from, cursor, buffer, base, ready, header.mask, plBytesReady, out)
          invariant plBytesReady == header.msgSize || cursor == |stream| || plBytesReady % 4 == 0
          decreases header.msgSize - plBytesReady
        {
          out := MaskWordStep(stream, from, buffer, base, ready, out);
        }
      }
      while plBytesReady < header.msgSize && cursor < |stream|
        invariant plBytesReady <= header.msgSize && cursor == from + (plBytesReady - ready) <= |stream|
        invariant Filled(stream, from, cursor, buffer, base, ready, header.mask, plBytesReady, out)
        decreases header.msgSize - plBytesReady
      {
        out := MaskStep(stream, from, buffer, base, ready, out);
      }
    }

    method MaskWordStep(stream: seq<byte>, ghost from: nat, ghost buffer: seq<byte>, base: nat, ghost ready: nat, dst: seq<byte>)
      returns (out: seq<byte>)
      requires |header.mask| == 4 && maskWord == KeyWord(header.mask)
      requires plBytesReady % 4 == 0 && plBytesReady + 8 <= header.msgSize && cursor + 8 <= |stream|
      requires base + plBytesReady + 8 <= |dst| && ready <= plBytesReady && cursor == from + (plBytesReady - ready)
      requires Filled(stream, from, cursor, buffer, base, ready, header.mask, plBytesReady, dst)
      modifies this`cursor, this`plBytesReady
      ensures plBytesReady == old(plBytesReady) + 8 && cursor == old(cursor) + 8
      ensures Filled(stream, from, cursor, buffer, base, ready, header.mask, plBytesReady, out)
    {
      out := FillWord(stream, cursor, from, buffer, base, ready, header.mask, maskWord, plBytesReady, dst);
      cursor := cursor + 8;
      plBytesReady := plBytesReady + 8;
    }

    method MaskStep(stream: seq<byte>, ghost from: nat, ghost buffer: seq<byte>, base: nat, ghost ready: nat, dst: seq<byte>)
      returns (out: seq<byte>)
      requires |header.mask| == 4 && plBytesReady < header.msgSize && cursor < |stream|
      requires base + plBytesReady < |dst| && ready <= plBytesReady && cursor == from + (plBytesReady - ready)
      requires Filled(stream, from, cursor, buffer, base, ready, header.mask, plBytesReady, dst)
      modifies this`cursor, this`plBytesReady
      ensures plBytesReady == old(plBytesReady) + 1 && cursor == old(cursor) + 1
      ensures Filled(stream, from, cursor, buffer, base, ready, header.mask, plBytesReady, out)
    {
      out := FillByte(stream, cursor, from, buffer, base, ready, header.mask, plBytesReady, dst);
      cursor := cursor + 1;
      plBytesReady := plBytesReady + 1;
    }

    /** A client's payload is not masked: one block copy of what is needed or what is there. */
    method CopyBlock(stream: seq<byte>, buffer: seq<byte>, base: nat) returns (out: seq<byte>)
      requires role.Client?
      requires plBytesReady <= header.msgSize && base + header.msgSize <= |buffer| && cursor <= |stream|
      modifies this`cursor, this`plBytesReady
      ensures plBytesReady <= header.msgSize && (plBytesReady == header.msgSize || cursor == |stream|)
      ensures cursor == old(cursor) + (plBytesReady - old(plBytesReady))
      ensures Filled(stream, old(cursor), cursor, buffer, base, old(plBytesReady), [], plBytesReady, out)
    {
      var n;
      out, n := CopyPart(stream, cursor, buffer, base, plBytesReady, header.msgSize);
      cursor := cursor + n;
      plBytesReady := plBytesReady + n;
    }

    method Fill(stream: seq<byte>, buffer: seq<byte>, base: nat, ghost r: Reading) returns (out: seq<byte>)
      requires ValidHeader() && ValidWord() && plBytesReady <= header.msgSize && cursor <= |stream|
      requires base + header.msgSize <= |buffer|
      requires r.Body? && r.key == FrameKey() && r.size == header.msgSize && r.got == buffer[base..base + plBytesReady]
      modifies this`cursor, this`plBytesReady
      ensures plBytesReady <= header.msgSize && (plBytesReady == header.msgSize || cursor == |stream|)
      ensures old(plBytesReady) <= plBytesReady && cursor == old(cursor) + (plBytesReady - old(plBytesReady)) <= |stream|
      ensures |out| == |buffer| && out[..base] == buffer[..base]
      ensures Unmasks(r, stream, old(cursor), out[base..base + plBytesReady])
    {
      if role.Server? {
        out := Unmask(stream, buffer, base);
      } else {
        out := CopyBlock(stream, buffer, base);
      }
      FilledUnmasks(r, stream, old(cursor), cursor, buffer, base, old(plBytesReady), plBytesReady, out);
    }

    /** What the current frame, completely read, does. */
    ghost function DoneOutcome(): Outcome
      reads this`header, this`opcodes, this`message, this`messageFrames
    {
      match header.fseq
      case SINGLE => Deliver(First(Pending()), Message(header.op, message))
      case FIRST | MIDDLE => Next(First(Pending()))
      case LAST => Deliver(First(Idle), Message(header.op, messageFrames))
    }

    ghost predicate ValidDone()
      reads this`header, this`opcodes
    {
      && ValidHeader() && ValidStack()
      && (header.fseq.FIRST? || header.fseq.MIDDLE? ==> |opcodes| == 1)
      && (header.fseq.LAST? ==> opcodes == [] && IsData(header.op))
    }

    method FillSingle(stream: seq<byte>)
      requires Valid() && state == PAYLOAD && header.fseq.SINGLE? && cursor <= |stream|
      requires cursor < |stream| || header.msgSize == 0
      modifies this`cursor, this`plBytesReady, this`message
      ensures plBytesReady <= header.msgSize && (plBytesReady == header.msgSize || cursor == |stream|)
      ensures cursor == old(cursor) + (plBytesReady - old(plBytesReady)) <= |stream|
      ensures header.msgSize > 0 ==> plBytesReady > old(plBytesReady)
      ensures |message| == header.msgSize
      ensures Unmasks(old(InPayload()), stream, old(cursor), message[..plBytesReady])
    {
      ghost var r := InPayload();
      if plBytesReady == 0 {
        message := Resize(message, header.msgSize);
      }
      FromStart(message, plBytesReady);
      message := Fill(stream, message, 0, r);
      FromStart(message, plBytesReady);
    }

    /** A fragment is refused for its size when its first byte is there and the sum passes the limit. */
    lemma FragmentRefused(more: bool)
      requires Valid() && state == PAYLOAD && !header.fseq.SINGLE?
      ensures Admit(Cfg(), InPayload(), more).Reject? && plBytesReady == 0 <==>
        !header.fseq.FIRST? && plBytesReady == 0 && more && |messageFrames| + header.msgSize > maxMsgSize
    {
    }

    /** Makes room for the payload of a fragment behind the fragments before it. */
    method ReserveFragment(stream: seq<byte>) returns (tooBig: bool)
      requires Valid() && state == PAYLOAD && !header.fseq.SINGLE? && cursor <= |stream|
      requires cursor < |stream| || header.msgSize == 0
      modifies this`messageFrames
      ensures tooBig == old(Admit(Cfg(), InPayload(), cursor < |stream|).Reject? && plBytesReady == 0)
      ensures !tooBig ==>
        && Reserved(messageFrames, header.msgSize, header.fseq.FIRST?, old(Earlier()))
        && messageFrames[|messageFrames| - header.msgSize..][..plBytesReady] == old(Received())
    {
      FragmentRefused(cursor < |stream|);
      tooBig := false;
      if plBytesReady == 0 {
        ghost var before := messageFrames;
        tooBig := ReserveNew(stream);
        assert old(Earlier()) == before && old(Received()) == [];
      }
    }

    /** Room for a fragment of which nothing has been read. */
    method ReserveNew(stream: seq<byte>) returns (tooBig: bool)
      requires plBytesReady == 0 && cursor <= |stream| && (cursor < |stream| || header.msgSize == 0)
      modifies this`messageFrames
      ensures tooBig == (!header.fseq.FIRST? && cursor < |stream| && |old(messageFrames)| + header.msgSize > maxMsgSize)
      ensures !tooBig ==>
        && Reserved(messageFrames, header.msgSize, header.fseq.FIRST?, old(messageFrames))
        && messageFrames[|messageFrames| - header.msgSize..][..0] == []
    {
      if header.fseq.FIRST? {
        RoomForFirst(messageFrames, header.msgSize, messageFrames);
        messageFrames := Resize(messageFrames, header.msgSize);
      } else if cursor != |stream| {
        if |messageFrames| + header.msgSize > maxMsgSize {
          return true;
        }
        RoomBehind(messageFrames, header.msgSize);
        messageFrames := Resize(messageFrames, |messageFrames| + header.msgSize);
      } else {
        NoRoomNeeded(messageFrames);
      }
      return false;
    }

    method FillFragments(stream: seq<byte>) returns (tooBig: bool)
      requires Valid() && state == PAYLOAD && !header.fseq.SINGLE? && cursor <= |stream|
      requires cursor < |stream| || header.msgSize == 0
      modifies this`cursor, this`plBytesReady, this`messageFrames
      ensures tooBig == old(Admit(Cfg(), InPayload(), cursor < |stream|).Reject? && plBytesReady == 0)
      ensures !tooBig ==>
        && plBytesReady <= header.msgSize && (plBytesReady == header.msgSize || cursor == |stream|)
        && cursor == old(cursor) + (plBytesReady - old(plBytesReady)) <= |stream|
        && (header.msgSize > 0 ==> plBytesReady > old(plBytesReady))
        && Reserved(messageFrames, header.msgSize, header.fseq.FIRST?, old(Earlier()))
        && Unmasks(old(InPayload()), stream, old(cursor), messageFrames[|messageFrames| - header.msgSize..][..plBytesReady])
    {
      ghost var r, earlier := InPayload(), Earlier();
      tooBig := ReserveFragment(stream);
      if tooBig {
        return true;
      }
      ghost var frames := messageFrames;
      FillReserved(stream, r);
      StillReserved(frames, messageFrames, header.msgSize, header.fseq.FIRST?, earlier);
      return false;
    }

    /** The payload goes behind the earlier fragments, which stay as they are. */
    method FillReserved(stream: seq<byte>, ghost r: Reading)
      requires ValidHeader() && ValidWord() && plBytesReady <= header.msgSize && cursor <= |stream|
      requires header.msgSize <= |messageFrames| && r.Body? && r.key == FrameKey() && r.size == header.msgSize
      requires r.got == messageFrames[|messageFrames| - header.msgSize..][..plBytesReady]
      modifies this`cursor, this`plBytesReady, this`messageFrames
      ensures plBytesReady <= header.msgSize && (plBytesReady == header.msgSize || cursor == |stream|)
      ensures old(plBytesReady) <= plBytesReady && cursor == old(cursor) + (plBytesReady - old(plBytesReady)) <= |stream|
      ensures |messageFrames| == |old(messageFrames)|
      ensures messageFrames[..|messageFrames| - header.msgSize] == old(messageFrames[..|messageFrames| - header.msgSize])
      ensures Unmasks(r, stream, old(cursor), messageFrames[|messageFrames| - header.msgSize..][..plBytesReady])
    {
      var used := |messageFrames| - header.msgSize;
      SliceOfSlice(messageFrames, used, plBytesReady);
      messageFrames := Fill(stream, messageFrames, used, r);
      SliceOfSlice(messageFrames, used, plBytesReady);
    }

    /** The result of payload processing that started from `before` at `offset`. */
    ghost predicate TracksPayload(before: Reading, stream: seq<byte>, offset: nat, res: Result)
      reads this`plBytesReady, this`cursor, this`maxMsgSize, this`header, this`opcodes, this`message, this`messageFrames,
            this`state, this`maskWord
    {
      FollowsPayload(Cfg(), before, stream, offset, res, cursor, Valid(), Abs(), state == DONE && ValidDone(), header.msgSize,
                     DoneOutcome())
    }

    /** The frame is complete. */
    method Complete(stream: seq<byte>, ghost before: Reading, ghost from: nat) returns (res: Result)
      requires ValidDone() && WellFormed(role, DoneOutcome().r) && WellFormed(role, before)
      requires from <= cursor <= |stream| && (header.msgSize > 0 ==> cursor > from)
      requires Scan(Cfg(), before, stream, from) == After(Cfg(), DoneOutcome(), stream, cursor)
      modifies this`state
      ensures TracksPayload(before, stream, from, res)
    {
      state := DONE;
      return Result(cursor, CONTINUE, NORMAL);
    }

    /** The stream ends inside the frame. */
    method Suspend() returns (res: Result)
      requires Valid()
      modifies this`cursor
      ensures res == Result(0, MORE, NORMAL) && Valid() && Abs() == old(Abs())
    {
      cursor := 0;
      return Result(cursor, MORE, NORMAL);
    }

    /** The fields after payload bytes have been written, given that they started as `r`. */
    ghost predicate Progressed(r: Reading, data: seq<byte>)
      reads this`plBytesReady, this`maxMsgSize, this`header, this`opcodes, this`message, this`messageFrames, this`state, this`maskWord
    {
      && ValidHeader() && ValidStack() && ValidWord() && state == PAYLOAD
      && r.Body? && r.size == header.msgSize && r.key == FrameKey() && r.fin == header.fin
      && WellFormed(role, r) && |data| == plBytesReady <= header.msgSize && (header.msgSize > 0 ==> plBytesReady > 0)
      && Classify(r.fin, r.op, r.size, r.asm) == Accept(header.fseq)
      && match header.fseq
         case SINGLE => r.op == header.op && r.asm == Pending() && |message| == header.msgSize && data == message[..plBytesReady]
         case FIRST =>
           && r.op == header.op && r.asm == Idle && opcodes == [header.op]
           && |messageFrames| == header.msgSize && data == messageFrames[..plBytesReady]
         case MIDDLE =>
           && r.op == CONTINUATION && |opcodes| == 1 && r.asm == Fragments(opcodes[0], r.asm.data)
           && FragmentBehind(r.asm.data, data)
         case LAST =>
           && r.op == CONTINUATION && opcodes == [] && IsData(header.op) && r.asm == Fragments(header.op, r.asm.data)
           && FragmentBehind(r.asm.data, data)
    }

    ghost predicate FragmentBehind(earlier: seq<byte>, data: seq<byte>)
      reads this`plBytesReady, this`header, this`messageFrames
    {
      && |messageFrames| == |earlier| + header.msgSize && messageFrames[..|earlier|] == earlier
      && plBytesReady <= header.msgSize && data == messageFrames[|earlier|..][..plBytesReady]
    }

    lemma FragmentProgress(r: Reading, data: seq<byte>, earlier: seq<byte>)
      requires ValidHeader() && ValidStack() && ValidWord() && state == PAYLOAD
      requires r.Body? && r.size == header.msgSize && r.key == FrameKey() && r.fin == header.fin && WellFormed(role, r)
      requires |data| == plBytesReady <= header.msgSize <= |messageFrames| && (header.msgSize > 0 ==> plBytesReady > 0)
      requires Classify(r.fin, r.op, r.size, r.asm) == Accept(header.fseq)
      requires data == messageFrames[|messageFrames| - header.msgSize..][..plBytesReady]
      requires match header.fseq
               case SINGLE => false
               case FIRST => r.op == header.op && r.asm == Idle && opcodes == [header.op] && |messageFrames| == header.msgSize
               case MIDDLE => r.op == CONTINUATION && |opcodes| == 1 && r.asm == Fragments(opcodes[0], earlier)
               case LAST => r.op == CONTINUATION && opcodes == [] && IsData(header.op) && r.asm == Fragments(header.op, earlier)
      requires header.fseq.FIRST? || messageFrames[..|messageFrames| - header.msgSize] == earlier
      ensures Progressed(r, data)
    {
    }

    lemma ProgressedDone(r: Reading, data: seq<byte>)
      requires Progressed(r, data) && plBytesReady == header.msgSize
      ensures ValidDone() && DoneOutcome() == Finish(r.op, data, r.asm, header.fseq)
    {
      match header.fseq
      case SINGLE => assert data == message;
      case FIRST => assert data == messageFrames;
      case MIDDLE => assert messageFrames == r.asm.data + data;
      case LAST => assert messageFrames == r.asm.data + data;
    }

    lemma ProgressedMore(r: Reading, data: seq<byte>)
      requires Progressed(r, data) && plBytesReady < header.msgSize
      ensures Received() == data && InPayload() == Body(r.fin, r.op, r.size, r.key, data, r.asm)
      ensures WellFormed(role, InPayload()) ==> Valid()
    {
    }

    /** The frame is complete, or the stream ends inside it. */
    method Decide(stream: seq<byte>, ghost r: Reading, ghost from: nat, ghost data: seq<byte>) returns (res: Result)
      requires Progressed(r, data) && from <= |stream| && Unmasks(r, stream, from, data)
      requires from < |stream| || (role.Server? && header.msgSize == 0)
      requires cursor == from + (plBytesReady - |r.got|) && (header.msgSize > 0 ==> |r.got| < plBytesReady)
      requires plBytesReady == header.msgSize || cursor == |stream|
      requires Admit(Cfg(), r, from < |stream|).Accept?
      modifies this`cursor, this`state
      ensures TracksPayload(r, stream, from, res)
    {
      ScanPayloadPart(Cfg(), r, stream, from, header.fseq, data);
      if plBytesReady == header.msgSize {
        ProgressedDone(r, data);
        res := Complete(stream, r, from);
      } else {
        ProgressedMore(r, data);
        res := Suspend();
      }
    }

    method ProcessSingle(stream: seq<byte>, ghost r: Reading) returns (res: Result)
      requires Valid() && state == PAYLOAD && header.fseq.SINGLE? && cursor <= |stream| && r == InPayload()
      requires cursor < |stream| || (role.Server? && header.msgSize == 0)
      modifies this`cursor, this`plBytesReady, this`message, this`state
      ensures TracksPayload(r, stream, old(cursor), res)
    {
      FillSingle(stream);
      res := Decide(stream, r, old(cursor), message[..plBytesReady]);
    }

    method ProcessFragment(stream: seq<byte>, ghost r: Reading) returns (res: Result)
      requires Valid() && state == PAYLOAD && !header.fseq.SINGLE? && cursor <= |stream| && r == InPayload()
      requires cursor < |stream| || (role.Server? && header.msgSize == 0)
      modifies this`cursor, this`plBytesReady, this`messageFrames, this`state
      ensures TracksPayload(r, stream, old(cursor), res)
    {
      var tooBig, data := FillFragment(stream, r);
      if tooBig {
        ScanTooBig(Cfg(), r, stream, old(cursor));
        return Result(cursor, CLOSE_WITH_CODE, MESSAGE_TOO_BIG);
      }
      res := Decide(stream, r, old(cursor), data);
    }

    /** Fills a fragment; `data` is what there is of it then. */
    method FillFragment(stream: seq<byte>, ghost r: Reading) returns (tooBig: bool, ghost data: seq<byte>)
      requires Valid() && state == PAYLOAD && !header.fseq.SINGLE? && cursor <= |stream| && r == InPayload()
      requires cursor < |stream| || (role.Server? && header.msgSize == 0)
      modifies this`cursor, this`plBytesReady, this`messageFrames
      ensures tooBig ==> old(cursor) < |stream| && Admit(Cfg(), r, true).Reject?
      ensures !tooBig ==>
        && Progressed(r, data) && Unmasks(r, stream, old(cursor), data)
        && cursor == old(cursor) + (plBytesReady - |r.got|) && (header.msgSize > 0 ==> |r.got| < plBytesReady)
        && (plBytesReady == header.msgSize || cursor == |stream|)
        && Admit(Cfg(), r, old(cursor) < |stream|).Accept?
    {
      tooBig := FillFragments(stream);
      data := [];
      if !tooBig {
        data := messageFrames[|messageFrames| - header.msgSize..][..plBytesReady];
        FragmentProgress(r, data, old(Earlier()));
      }
    }

    method ProcessPayload(stream: seq<byte>, offset: nat, ghost r: Reading) returns (res: Result)
      requires Valid() && state == PAYLOAD && offset <= |stream| && r == InPayload()
      requires offset < |stream| || (role.Server? && header.msgSize == 0)
      modifies this`cursor, this`plBytesReady, this`message, this`messageFrames, this`state
      ensures TracksPayload(r, stream, offset, res)
    {
      cursor := offset;
      if header.fseq.SINGLE? {
        res := ProcessSingle(stream, r);
      } else {
        res := ProcessFragment(stream, r);
      }
    }

    lemma ValidWellFormed()
      requires Valid()
      ensures WellFormed(role, Abs())
    {
    }

    /** The states before validation, each falling through to the next. */
    method ParseHeader(stream: seq<byte>, offset: nat) returns (res: Result)
      requires Valid() && offset <= |stream| && state != PAYLOAD && state != VALIDATE
      requires offset < |stream| || state == INIT
      modifies this`cursor, this`plBytesReady, this`header, this`state, this`maskWord
      ensures Tracks(old(Abs()), stream, offset, res)
      ensures res.directive.CONTINUE? ==>
                && state == VALIDATE && offset <= cursor && (cursor < |stream| || (role.Server? && header.msgSize == 0))
                && (old(state == INIT) ==> offset < cursor)
    {
      cursor := offset;
      if state == INIT {
        Reset();
      }
      ghost var start := Abs();
      res := Result(cursor, CONTINUE, NORMAL);
      if state == HEADER_1ST_BYTE {
        res := GetHeader1stByte(stream, cursor);
        if !res.directive.CONTINUE? {
          return;
        }
      }
      res := ParseSizes(stream, start, offset);
    }

    method ParseSizes(stream: seq<byte>, ghost before: Reading, ghost from: nat) returns (res: Result)
      requires Valid() && cursor <= |stream| && (cursor < |stream| || state == HEADER_2ND_BYTE)
      requires state == HEADER_2ND_BYTE || state.READ_SHORT_SIZE? || state.READ_LONG_SIZE? || state.READ_MASK?
      requires WellFormed(role, before) && WellFormed(role, Abs()) && from <= cursor
      requires Scan(Cfg(), before, stream, from) == Scan(Cfg(), Abs(), stream, cursor)
      modifies this`cursor, this`header, this`state, this`maskWord
      ensures Tracks(before, stream, from, res)
      ensures res.directive.CONTINUE? ==>
                && state == VALIDATE && old(cursor) <= cursor
                && (cursor < |stream| || (role.Server? && header.msgSize == 0))
    {
      var fallen := false;
      if state == HEADER_2ND_BYTE {
        res := GetHeader2ndByte(stream, cursor);
        if !res.directive.CONTINUE? {
          return;
        }
        fallen := true;
      }
      if fallen || state.READ_SHORT_SIZE? || state.READ_LONG_SIZE? {
        res := ReadSize(stream, cursor);
        if !res.directive.CONTINUE? {
          return;
        }
      }
      res := ParseMask(stream, before, from);
    }

    method ParseMask(stream: seq<byte>, ghost before: Reading, ghost from: nat) returns (res: Result)
      requires Valid() && cursor < |stream| && state.READ_MASK?
      requires WellFormed(role, before) && WellFormed(role, Abs()) && from <= cursor
      requires Scan(Cfg(), before, stream, from) == Scan(Cfg(), Abs(), stream, cursor)
      modifies this`cursor, this`header, this`state, this`maskWord
      ensures Tracks(before, stream, from, res)
      ensures res.directive.CONTINUE? ==>
                && state == VALIDATE && old(cursor) <= cursor
                && (cursor < |stream| || (role.Server? && header.msgSize == 0))
    {
      if role.Server? {
        res := ReadMask(stream, cursor);
      } else {
        state := VALIDATE;
        res := Result(cursor, CONTINUE, NORMAL);
      }
    }

    /** Validation and payload. */
    method ParseBody(stream: seq<byte>, offset: nat) returns (res: Result)
      requires Valid() && (state == VALIDATE || state == PAYLOAD) && offset <= |stream|
      requires offset < |stream| || (role.Server? && header.msgSize == 0)
      modifies this`cursor, this`plBytesReady, this`header, this`opcodes, this`message, this`messageFrames, this`state
      ensures TracksPayload(old(Abs()), stream, offset, res)
    {
      ghost var r := Abs();
      ValidWellFormed();
      if state == VALIDATE {
        res := ValidateHeader();
        if !res.directive.CONTINUE? {
          ScanRejects(Cfg(), r, stream, offset);
          return;
        }
      }
      res := ProcessPayload(stream, offset, r);
    }

    ghost predicate ValidReady()
      reads this`header, this`opcodes, this`state
    {
      ValidDone() && state == MESSAGE_READY && (header.fseq.SINGLE? || header.fseq.LAST?)
    }

    /** The result of one call, against the scan it stands for. */
    ghost predicate TracksCall(before: Reading, stream: seq<byte>, offset: nat, res: Result)
      reads this`plBytesReady, this`cursor, this`maxMsgSize, this`header, this`opcodes, this`message, this`messageFrames,
            this`state, this`maskWord
    {
      FollowsCall(Cfg(), before, stream, offset, res, Valid(), Abs(), ValidReady(), DoneOutcome())
    }

    lemma HeaderPassed(before: Reading, stream: seq<byte>, offset: nat, res: Result)
      requires Tracks(before, stream, offset, res) && res.directive.CONTINUE?
      ensures Valid() && WellFormed(role, before) && WellFormed(role, Abs()) && offset <= cursor <= |stream|
      ensures Scan(Cfg(), before, stream, offset) == Scan(Cfg(), Abs(), stream, cursor)
    {
    }

    lemma HeaderResult(before: Reading, stream: seq<byte>, offset: nat, res: Result)
      requires Tracks(before, stream, offset, res) && !res.directive.CONTINUE?
      ensures TracksCall(before, stream, offset, res)
    {
    }

    method DecideOnDone(stream: seq<byte>, offset: nat) returns (res: Result)
      requires state == DONE && ValidDone() && WellFormed(role, DoneOutcome().r) && offset <= |stream|
      modifies this`cursor, this`plBytesReady, this`header, this`opcodes, this`message, this`messageFrames, this`state, this`maskWord
      ensures match old(DoneOutcome())
              case Next(r) => TracksCall(r, stream, offset, res)
              case Deliver(_, _) => res == Result(offset, TAKE_READY_MESSAGE, NORMAL) && ValidReady() && DoneOutcome() == old(DoneOutcome())
              case Fail(_) => true
      decreases |stream| - offset, 2
    {
      cursor := offset;
      if header.fseq.SINGLE? || header.fseq.LAST? {
        state := MESSAGE_READY;
        return Result(cursor, TAKE_READY_MESSAGE, NORMAL);
      }
      state := INIT;
      res := Parse(stream, cursor);
    }

    /** One call on a chunk: from `offset` to the next message, violation or the end of the chunk. */
    method Parse(stream: seq<byte>, offset: nat) returns (res: Result)
      requires Valid() && offset <= |stream| && (offset < |stream| || state == INIT)
      modifies this`cursor, this`plBytesReady, this`header, this`opcodes, this`message, this`messageFrames, this`state, this`maskWord
      ensures TracksCall(old(Abs()), stream, offset, res)
      decreases |stream| - offset, if state == INIT then 1 else 5
    {
      if state == VALIDATE || state == PAYLOAD {
        ValidWellFormed();
        res := ParseRest(stream, offset, Abs(), offset);
      } else {
        res := ParseFromHeader(stream, offset);
      }
    }

    method ParseFromHeader(stream: seq<byte>, offset: nat) returns (res: Result)
      requires Valid() && state != VALIDATE && state != PAYLOAD
      requires offset <= |stream| && (offset < |stream| || state == INIT)
      modifies this`cursor, this`plBytesReady, this`header, this`opcodes, this`message, this`messageFrames, this`state, this`maskWord
      ensures TracksCall(old(Abs()), stream, offset, res)
      decreases |stream| - offset, if state == INIT then 0 else 4
    {
      res := ParseHeader(stream, offset);
      if res.directive.CONTINUE? {
        HeaderPassed(old(Abs()), stream, offset, res);
        res := ParseRest(stream, cursor, old(Abs()), offset);
      } else {
        HeaderResult(old(Abs()), stream, offset, res);
      }
    }

    method ParseRest(stream: seq<byte>, offset: nat, ghost before: Reading, ghost from: nat) returns (res: Result)
      requires Valid() && (state == VALIDATE || state == PAYLOAD)
      requires from <= offset <= |stream| && (offset < |stream| || (role.Server? && header.msgSize == 0))
      requires WellFormed(role, before) && WellFormed(role, Abs())
      requires Scan(Cfg(), before, stream, from) == Scan(Cfg(), Abs(), stream, offset)
      modifies this`cursor, this`plBytesReady, this`header, this`opcodes, this`message, this`messageFrames, this`state, this`maskWord
      ensures TracksCall(before, stream, from, res)
      decreases |stream| - offset, 3
    {
      res := ParseBody(stream, offset);
      if res.directive.CONTINUE? {
        res := DecideOnDone(stream, cursor);
      }
    }

    method GetBuffer() returns (buffer: seq<byte>)
      modifies this`bufferQueue
      ensures buffer == Resize(if old(bufferQueue) == [] then [] else old(bufferQueue)[0], preSize)
      ensures bufferQueue == if old(bufferQueue) == [] then [] else old(bufferQueue)[1..]
    {
      if bufferQueue == [] {
        buffer := Resize([], preSize);
      } else {
        buffer := Resize(bufferQueue[0], preSize);
        bufferQueue := bufferQueue[1..];
      }
    }

    method ReturnBuffer(buffer: seq<byte>)
      modifies this`bufferQueue
      ensures bufferQueue == [buffer] + old(bufferQueue)
    {
      bufferQueue := [buffer] + bufferQueue;
    }

    /** The ready message; `None` stands for the exception a server throws when there is none. */
    method GetMessage() returns (m: Option<Message>)
      modifies this`state, this`message, this`messageFrames, this`bufferQueue
      ensures old(ValidReady()) ==>
        && Valid() && state == INIT
        && m == Some(old(DoneOutcome()).msg) && Abs() == old(DoneOutcome()).r
      ensures old(state != MESSAGE_READY) && role.Server? ==>
        m == None && state == old(state) && message == old(message) && messageFrames == old(messageFrames)
    {
      if state == MESSAGE_READY {
        state := INIT;
      } else if role.Server? {
        return None;
      }
      if header.fseq.SINGLE? {
        m := Some(Message(header.op, message));
        message := GetBuffer();
      } else {
        m := Some(Message(header.op, messageFrames));
        messageFrames := GetBuffer();
      }
    }
  }
}
