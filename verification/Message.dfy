/**
 * The peer wire codec (src/core/peer/message.rs): BEP 3, section "peer messages", and the port
 * message of BEP 5.
 */
module Messages {
  import opened Bytes

  datatype Message =
    | KeepAlive
    | Choke
    | UnChoke
    | Interested
    | NotInterested
    | Have(index: u32)
    | Bitfield(bits: seq<byte>)
    | Request(index: u32, begin: u32, length: u32)
    | Piece(index: u32, begin: u32, block: seq<byte>)
    | Cancel(index: u32, begin: u32, length: u32)
    | Port(port: u16)

  datatype DecodeError = InvalidType(id: byte) | MessageTooShort

  datatype Decoded = Ok(message: Message) | Err(error: DecodeError)

  // ------------------------------------------------------- big-endian words

  function PutU16(x: u16): seq<byte> {
    [x / 0x100, x % 0x100]
  }

  function PutU32(x: u32): seq<byte> {
    [x / 0x100_0000, x / 0x1_0000 % 0x100, x / 0x100 % 0x100, x % 0x100]
  }

  function GetU16(s: seq<byte>, at: nat): u16
    requires at + 2 <= |s|
  {
    var a: int, b: int := s[at], s[at + 1];
    a * 0x100 + b
  }

  function GetU32(s: seq<byte>, at: nat): u32
    requires at + 4 <= |s|
  {
    var a: int, b: int, c: int, d: int := s[at], s[at + 1], s[at + 2], s[at + 3];
    a * 0x100_0000 + b * 0x1_0000 + c * 0x100 + d
  }

  lemma WordIsItsDigits(x: u32)
    ensures x == x / 0x100_0000 * 0x100_0000 + x / 0x1_0000 % 0x100 * 0x1_0000 + x / 0x100 % 0x100 * 0x100 + x % 0x100
  {
    var high: int, middle: int := x / 0x1_0000, x / 0x100;
    assert high == high / 0x100 * 0x100 + high % 0x100 && high / 0x100 == x / 0x100_0000;
    assert middle == middle / 0x100 * 0x100 + middle % 0x100 && middle / 0x100 == high;
  }

  lemma WordsRoundTrip(x: u32, y: u16)
    ensures GetU32(PutU32(x), 0) == x && GetU16(PutU16(y), 0) == y
  {
    WordIsItsDigits(x);
  }

  lemma DigitsRoundTrip(a: byte, b: byte, c: byte, d: byte, x: u32)
    requires x == a as int * 0x100_0000 + b as int * 0x1_0000 + c as int * 0x100 + d as int
    ensures PutU32(x) == [a, b, c, d]
  {
    assert x / 0x100 == a as int * 0x1_0000 + b as int * 0x100 + c as int;
    assert x / 0x1_0000 == a as int * 0x100 + b as int;
    assert x / 0x100_0000 == a;
  }

  lemma BytesRoundTrip(s: seq<byte>, at: nat)
    requires at + 4 <= |s|
    ensures PutU32(GetU32(s, at)) == s[at..at + 4]
  {
    DigitsRoundTrip(s[at], s[at + 1], s[at + 2], s[at + 3], GetU32(s, at));
  }

  // ---------------------------------------------------------------- encoding

  function Id(m: Message): byte
    requires !m.KeepAlive?
  {
    match m
    case Choke => 0
    case UnChoke => 1
    case Interested => 2
    case NotInterested => 3
    case Have(_) => 4
    case Bitfield(_) => 5
    case Request(_, _, _) => 6
    case Piece(_, _, _) => 7
    case Cancel(_, _, _) => 8
    case Port(_) => 9
  }

  function Payload(m: Message): seq<byte> {
    match m
    case Have(index) => PutU32(index)
    case Bitfield(bits) => bits
    case Request(index, begin, length) => PutU32(index) + PutU32(begin) + PutU32(length)
    case Piece(index, begin, block) => PutU32(index) + PutU32(begin) + block
    case Cancel(index, begin, length) => PutU32(index) + PutU32(begin) + PutU32(length)
    case Port(port) => PutU16(port)
    case _ => []
  }

  /** What follows the length prefix. */
  function Body(m: Message): seq<byte> {
    if m.KeepAlive? then [] else [Id(m)] + Payload(m)
  }

  /** The frame of a message: its length in four bytes, then its body. */
  function Encode(m: Message): seq<byte> {
    PutU32(Wrap32(|Body(m)|)) + Body(m)
  }

  // ---------------------------------------------------------------- decoding

  /** `deserialize`: the first message of a buffer that starts with a length prefix. */
  function Decode(s: seq<byte>): Decoded {
    if |s| < 4 then Err(MessageTooShort)
    else
      var len := GetU32(s, 0);
      if len == 0 then Ok(KeepAlive)
      else if |s| < 5 then Err(MessageTooShort)
      else
        match s[4]
        case 0 => Ok(Choke)
        case 1 => Ok(UnChoke)
        case 2 => Ok(Interested)
        case 3 => Ok(NotInterested)
        case 4 => if |s| != 9 then Err(MessageTooShort) else Ok(Have(GetU32(s, 5)))
        case 5 => if |s| < 5 + (len - 1) then Err(MessageTooShort) else Ok(Bitfield(s[5..]))
        case 6 =>
          if |s| != 17 then Err(MessageTooShort) else Ok(Request(GetU32(s, 5), GetU32(s, 9), GetU32(s, 13)))
        case 7 =>
          if |s| < 13 + Wrap32(len - 9) then Err(MessageTooShort) else Ok(Piece(GetU32(s, 5), GetU32(s, 9), s[13..]))
        case 8 =>
          if |s| != 17 then Err(MessageTooShort) else Ok(Cancel(GetU32(s, 5), GetU32(s, 9), GetU32(s, 13)))
        case 9 => if |s| != 7 then Err(MessageTooShort) else Ok(Port(GetU16(s, 5)))
        case i => Err(InvalidType(i))
  }

  /** What decoding leaves in the buffer: a bitfield or a block is split off, the rest stays. */
  function LeftOver(s: seq<byte>): seq<byte> {
    match Decode(s)
    case Ok(Bitfield(_)) => s[..5]
    case Ok(Piece(_, _, _)) => s[..13]
    case _ => s
  }

  // -------------------------------------------------------------- round trips

  /** The length fits the prefix, or wraps to anything but zero. */
  predicate PrefixSurvives(m: Message) {
    m.KeepAlive? || Wrap32(|Body(m)|) != 0
  }

  lemma EncodeShape(m: Message)
    ensures var e := Encode(m);
      && |e| == 4 + |Body(m)|
      && GetU32(e, 0) == Wrap32(|Body(m)|)
      && e[4..] == Body(m)
  {
    WordsRoundTrip(Wrap32(|Body(m)|), 0);
  }

  /** A word of an encoding, wherever it stands. */
  lemma WordAt(e: seq<byte>, at: nat, x: u32)
    requires at + 4 <= |e| && e[at..at + 4] == PutU32(x)
    ensures GetU32(e, at) == x
  {
    WordsRoundTrip(x, 0);
    var w := e[at..at + 4];
    assert e[at] == w[0] && e[at + 1] == w[1] && e[at + 2] == w[2] && e[at + 3] == w[3];
  }

  lemma PayloadStandsAt5(m: Message)
    requires !m.KeepAlive?
    ensures 5 <= |Encode(m)| && Encode(m)[5..] == Payload(m)
  {
    EncodeShape(m);
    assert Encode(m)[5..] == Encode(m)[4..][1..] == Body(m)[1..] == Payload(m);
  }

  lemma RangeFields(m: Message)
    requires m.Request? || m.Cancel?
    ensures |Encode(m)| == 17
    ensures GetU32(Encode(m), 5) == m.index && GetU32(Encode(m), 9) == m.begin && GetU32(Encode(m), 13) == m.length
  {
    var e, payload := Encode(m), Payload(m);
    PayloadStandsAt5(m);
    assert e[5..9] == payload[..4] && e[9..13] == payload[4..8] && e[13..17] == payload[8..12];
    WordAt(e, 5, m.index);
    WordAt(e, 9, m.begin);
    WordAt(e, 13, m.length);
  }

  lemma PieceFields(m: Message)
    requires m.Piece?
    ensures 13 <= |Encode(m)|
    ensures GetU32(Encode(m), 5) == m.index && GetU32(Encode(m), 9) == m.begin && Encode(m)[13..] == m.block
  {
    var e, payload := Encode(m), Payload(m);
    PayloadStandsAt5(m);
    assert e[5..9] == payload[..4] && e[9..13] == payload[4..8] && e[13..] == payload[8..];
    WordAt(e, 5, m.index);
    WordAt(e, 9, m.begin);
  }

  lemma FieldsOf(m: Message)
    ensures m.Have? ==> |Encode(m)| == 9 && GetU32(Encode(m), 5) == m.index
    ensures m.Bitfield? ==> 5 <= |Encode(m)| && Encode(m)[5..] == m.bits
    ensures m.Port? ==> |Encode(m)| == 7 && GetU16(Encode(m), 5) == m.port
  {
    if m.Have? || m.Bitfield? || m.Port? {
      PayloadStandsAt5(m);
    }
    if m.Have? {
      WordAt(Encode(m), 5, m.index);
    }
    if m.Port? {
      WordsRoundTrip(0, m.port);
      assert Encode(m)[5] == Payload(m)[0] && Encode(m)[6] == Payload(m)[1];
    }
  }

  lemma EncodedHeader(m: Message)
    requires !m.KeepAlive?
    ensures |Encode(m)| == 5 + |Payload(m)| && Encode(m)[4] == Id(m)
    ensures GetU32(Encode(m), 0) == Wrap32(1 + |Payload(m)|)
  {
    EncodeShape(m);
  }

  lemma FixedRoundTrips(m: Message)
    requires !m.KeepAlive? && !m.Bitfield? && !m.Piece?
    ensures Decode(Encode(m)) == Ok(m)
  {
    EncodedHeader(m);
    FieldsOf(m);
    if m.Request? || m.Cancel? {
      RangeFields(m);
    }
  }

  lemma BitfieldRoundTrips(m: Message)
    requires m.Bitfield? && PrefixSurvives(m)
    ensures Decode(Encode(m)) == Ok(m)
  {
    EncodedHeader(m);
    FieldsOf(m);
  }

  lemma PieceRoundTrips(m: Message)
    requires m.Piece? && PrefixSurvives(m)
    ensures Decode(Encode(m)) == Ok(m)
  {
    EncodedHeader(m);
    PieceFields(m);
    var len: int := GetU32(Encode(m), 0);
    assert Wrap32(len - 9) <= |m.block|;
  }

  lemma LostPrefixReadsAsKeepAlive(m: Message)
    requires !PrefixSurvives(m)
    ensures Decode(Encode(m)) == Ok(KeepAlive)
  {
    EncodedHeader(m);
  }

  /** Decoding an encoded message gives it back, exactly when its length prefix does not wrap to zero. */
  lemma RoundTripExactly(m: Message)
    ensures Decode(Encode(m)) == Ok(m) <==> PrefixSurvives(m)
  {
    if m.KeepAlive? {
      EncodeShape(m);
    } else if PrefixSurvives(m) {
      if m.Bitfield? {
        BitfieldRoundTrips(m);
      } else if m.Piece? {
        PieceRoundTrips(m);
      } else {
        FixedRoundTrips(m);
      }
    } else {
      LostPrefixReadsAsKeepAlive(m);
    }
  }

  lemma RoundTrip(m: Message)
    requires Representable(m)
    ensures Decode(Encode(m)) == Ok(m)
  {
    RoundTripExactly(m);
  }

  predicate Representable(m: Message) {
    |Body(m)| < U32_RANGE
  }

  // ---------------------------------------------------------------- canonicity

  /** The frames that are in the form the encoder gives them. */
  predicate Canonical(s: seq<byte>)
    requires 4 <= |s|
  {
    var len := GetU32(s, 0);
    if len == 0 then |s| == 4
    else if 5 <= |s| && s[4] <= 3 then len == 1 && |s| == 5
    else len == Wrap32(|s| - 4)
  }

  /** What was decoded encodes back to the same bytes on exactly the canonical frames. */
  lemma CanonicityExactly(s: seq<byte>)
    requires Decode(s).Ok?
    ensures 4 <= |s| && (Encode(Decode(s).message) == s <==> Canonical(s))
  {
    var m := Decode(s).message;
    var e := Encode(m);
    EncodeShape(m);
    BytesRoundTrip(s, 0);
    if m.KeepAlive? {
      if |s| == 4 {
        assert s == s[0..4];
      }
    } else {
      BodyIsKept(s);
      if e == s {
        assert GetU32(e, 0) == GetU32(s, 0);
      }
      if |s| == |e| && Wrap32(|Body(m)|) == GetU32(s, 0) {
        assert s == s[0..4] + s[4..];
        assert e == s;
      }
    }
  }

  lemma WordsAreKept(s: seq<byte>)
    ensures |s| == 9 ==> PutU32(GetU32(s, 5)) == s[5..]
    ensures |s| == 17 ==> PutU32(GetU32(s, 5)) + PutU32(GetU32(s, 9)) + PutU32(GetU32(s, 13)) == s[5..]
    ensures |s| >= 13 ==> PutU32(GetU32(s, 5)) + PutU32(GetU32(s, 9)) + s[13..] == s[5..]
  {
    if |s| >= 9 {
      BytesRoundTrip(s, 5);
      assert |s| == 9 ==> s[5..9] == s[5..];
    }
    if |s| >= 13 {
      BytesRoundTrip(s, 9);
      assert s[5..9] + s[9..13] + s[13..] == s[5..];
    }
    if |s| == 17 {
      BytesRoundTrip(s, 13);
      assert s[5..9] + s[9..13] + s[13..17] == s[5..];
    }
  }

  /** Apart from surplus bytes after the fixed messages, the body of a decoded frame is kept. */
  lemma BodyIsKept(s: seq<byte>)
    requires Decode(s).Ok? && !Decode(s).message.KeepAlive?
    ensures 5 <= |s| && Id(Decode(s).message) == s[4]
    ensures Body(Decode(s).message) == if s[4] <= 3 then [s[4]] else s[4..]
  {
    WordsAreKept(s);
    assert s[4..] == [s[4]] + s[5..];
    PortIsKept(s);
  }

  lemma PortIsKept(s: seq<byte>)
    ensures |s| == 7 ==> PutU16(GetU16(s, 5)) == s[5..]
  {
  }

  // ------------------------------------------------------------------ streams

  function EncodeAll(ms: seq<Message>): seq<byte> {
    if ms == [] then [] else Encode(ms[0]) + EncodeAll(ms[1..])
  }

  /** Cuts a stream into frames by the length prefixes and decodes each; None if that fails. */
  function DecodeAll(s: seq<byte>): Option<seq<Message>>
    decreases |s|
  {
    if s == [] then Some([])
    else if |s| < 4 || |s| < 4 + GetU32(s, 0) then None
    else
      var n := 4 + GetU32(s, 0);
      match Decode(s[..n])
      case Err(_) => None
      case Ok(m) =>
        var rest := DecodeAll(s[n..]);
        if rest.None? then None else Some([m] + rest.value)
  }

  /** Any string that begins with an encoding announces the length of that encoding. */
  lemma PrefixGivesLength(m: Message, s: seq<byte>)
    requires Representable(m) && Encode(m) <= s
    ensures 4 <= |s| && |Encode(m)| == 4 + GetU32(s, 0)
  {
    EncodeShape(m);
    assert s[0] == Encode(m)[0] && s[1] == Encode(m)[1] && s[2] == Encode(m)[2] && s[3] == Encode(m)[3];
  }

  lemma FirstFrame(m: Message, rest: seq<byte>)
    requires Representable(m)
    ensures var s := Encode(m) + rest;
      4 <= |s| && 4 + GetU32(s, 0) == |Encode(m)| && s[..4 + GetU32(s, 0)] == Encode(m) && s[4 + GetU32(s, 0)..] == rest
  {
    PrefixGivesLength(m, Encode(m) + rest);
  }

  lemma DecodeFirst(m: Message, rest: seq<byte>)
    requires Representable(m) && DecodeAll(rest).Some?
    ensures DecodeAll(Encode(m) + rest) == Some([m] + DecodeAll(rest).value)
  {
    EncodeShape(m);
    FirstFrame(m, rest);
    RoundTrip(m);
  }

  /** A stream of representable messages decodes to the same messages. */
  lemma {:induction false} StreamRoundTrip(ms: seq<Message>)
    requires forall m :: m in ms ==> Representable(m)
    ensures DecodeAll(EncodeAll(ms)) == Some(ms)
    decreases |ms|
  {
    if ms != [] {
      StreamRoundTrip(ms[1..]);
      DecodeFirst(ms[0], EncodeAll(ms[1..]));
      assert [ms[0]] + ms[1..] == ms;
    }
  }

  /** Each frame of a stream, as the length prefixes cut it, is in the form the encoder gives it. */
  predicate AllCanonical(s: seq<byte>)
    decreases |s|
  {
    s == [] ||
    (4 <= |s| && 4 + GetU32(s, 0) <= |s|
     && Canonical(s[..4 + GetU32(s, 0)]) && AllCanonical(s[4 + GetU32(s, 0)..]))
  }

  /** A frame cut by its prefix decodes to a message whose own prefix does not wrap. */
  lemma CutFrameIsRepresentable(s: seq<byte>)
    requires 4 <= |s| && |s| == 4 + GetU32(s, 0) && Decode(s).Ok?
    ensures Representable(Decode(s).message)
  {
    if !Decode(s).message.KeepAlive? {
      BodyIsKept(s);
    }
  }

  /** The first frame and its message, when a stream decodes. */
  lemma StreamSplits(s: seq<byte>) returns (frame: seq<byte>, rest: seq<byte>)
    requires s != [] && DecodeAll(s).Some?
    ensures s == frame + rest && |rest| < |s| && 4 <= |frame| && |frame| == 4 + GetU32(frame, 0)
    ensures GetU32(s, 0) == GetU32(frame, 0)
    ensures Decode(frame).Ok? && DecodeAll(rest).Some?
    ensures DecodeAll(s).value == [Decode(frame).message] + DecodeAll(rest).value
    ensures AllCanonical(s) <==> Canonical(frame) && AllCanonical(rest)
  {
    var n := 4 + GetU32(s, 0);
    frame, rest := s[..n], s[n..];
    assert s == frame + rest;
    assert GetU32(frame, 0) == GetU32(s, 0);
  }

  /** An encoding that begins a stream is its first frame. */
  lemma EncodingIsFirstFrame(m: Message, frame: seq<byte>, rest: seq<byte>, tail: seq<byte>)
    requires Representable(m) && 4 <= |frame| && |frame| == 4 + GetU32(frame, 0)
    requires Encode(m) + tail == frame + rest
    ensures Encode(m) == frame && tail == rest
  {
    var s := frame + rest;
    assert s == Encode(m) + tail;
    assert s[..|Encode(m)|] == Encode(m);
    PrefixGivesLength(m, s);
    assert GetU32(s, 0) == GetU32(frame, 0);
    assert s[..|frame|] == frame && s[|frame|..] == rest && s[|Encode(m)|..] == tail;
  }

  /** A stream that decodes encodes back to the same bytes exactly when each of its frames is canonical. */
  lemma {:induction false} StreamCanonicityExactly(s: seq<byte>)
    requires DecodeAll(s).Some?
    ensures EncodeAll(DecodeAll(s).value) == s <==> AllCanonical(s)
    decreases |s|
  {
    if s != [] {
      var frame, rest := StreamSplits(s);
      var m, ms := Decode(frame).message, DecodeAll(rest).value;
      StreamCanonicityExactly(rest);
      CanonicityExactly(frame);
      CutFrameIsRepresentable(frame);
      assert ([m] + ms)[1..] == ms;
      assert EncodeAll([m] + ms) == Encode(m) + EncodeAll(ms);
      if EncodeAll([m] + ms) == s {
        EncodingIsFirstFrame(m, frame, rest, EncodeAll(ms));
      }
    }
  }

  /** Two lists of messages never share an encoding. */
  lemma StreamsAreInjective(a: seq<Message>, b: seq<Message>)
    requires forall m :: m in a ==> Representable(m)
    requires forall m :: m in b ==> Representable(m)
    requires EncodeAll(a) == EncodeAll(b)
    ensures a == b
  {
    StreamRoundTrip(a);
    StreamRoundTrip(b);
  }

  lemma EqualEncodings(a: Message, b: Message)
    requires Representable(a) && Representable(b) && Encode(a) == Encode(b)
    ensures a == b
  {
    RoundTrip(a);
    RoundTrip(b);
  }

  /** No encoding is a proper prefix of another. */
  lemma EncodingIsPrefixFree(a: Message, b: Message)
    requires Representable(a) && Representable(b) && Encode(a) <= Encode(b)
    ensures a == b
  {
    PrefixGivesLength(a, Encode(b));
    PrefixGivesLength(b, Encode(b));
    EqualEncodings(a, b);
  }

  /** A block taken from a frame cut by its prefix is shorter than 2^32 bytes. */
  lemma BlocksFitU32(s: seq<byte>)
    requires 4 <= |s| && |s| == 4 + GetU32(s, 0)
    requires Decode(s).Ok? && Decode(s).message.Piece?
    ensures |Decode(s).message.block| + 9 < U32_RANGE
  {
  }

  // -------------------------------------------------- frames without prefix

  /** The message without a payload that has this id. */
  function Bare(id: byte): Message
    requires id <= 3
  {
    match id
    case 0 => Choke
    case 1 => UnChoke
    case 2 => Interested
    case _ => NotInterested
  }

  /** The id is the highest byte of the length read in its place. */
  lemma BodyPrefix(m: Message)
    requires 4 <= |Body(m)|
    ensures Id(m) as int * 0x100_0000 <= GetU32(Body(m), 0) < (Id(m) as int + 1) * 0x100_0000
  {
    var b := Body(m);
    assert b[0] == Id(m);
  }

  lemma ShortBodies(m: Message)
    ensures m.KeepAlive? || m.Choke? || m.UnChoke? || m.Interested? || m.NotInterested? || m.Port? ==> |Body(m)| < 5
    ensures m.Have? || m.Request? || m.Cancel? || m.Piece? ==> 5 <= |Body(m)| && 4 <= Id(m)
  {
  }

  /** The byte that a frame without its prefix has where the decoder looks for the id. */
  lemma MistakenId(m: Message)
    requires m.Have? || m.Request? || m.Cancel? || m.Piece?
    ensures 5 <= |Body(m)| && Body(m)[4] == m.index % 0x100
  {
    assert Body(m)[4] == Payload(m)[3] == PutU32(m.index)[3];
  }

  /** A body is never taken for a keep-alive: where the length is read it has its id. */
  lemma BodyIsNoKeepAlive(m: Message)
    ensures Decode(Body(m)) != Ok(KeepAlive)
  {
    if 5 <= |Body(m)| {
      ShortBodies(m);
      BodyPrefix(m);
    }
  }

  /**
   * The connection strips the length prefix before it calls the decoder
   * (src/core/peer/peer_connection.rs:113-137). Whatever message was sent, what is read then is an error or
   * a message whose body is shorter by four bytes or more; so no message comes back as it was sent.
   */
  lemma StrippedFramesAreLost(m: Message)
    ensures Decode(Body(m)).Ok? ==> |Body(Decode(Body(m)).message)| + 4 <= |Body(m)|
    ensures Decode(Body(m)) != Ok(m)
  {
    BodyIsNoKeepAlive(m);
    if Decode(Body(m)).Ok? {
      BodyIsKept(Body(m));
    }
  }

  /** A have, a request or a cancel is read as a message without payload, or as an error. */
  lemma StrippedIndexDecides(m: Message)
    requires m.Have? || m.Request? || m.Cancel?
    ensures var id := m.index % 0x100;
      Decode(Body(m)) == if id <= 3 then Ok(Bare(id)) else if 9 < id then Err(InvalidType(id)) else Err(MessageTooShort)
  {
    ShortBodies(m);
    BodyPrefix(m);
    MistakenId(m);
  }

  // ------------------------------------------------------------- the buffer

  /** A growable byte buffer. */
  class Buffer {
    var data: seq<byte>

    constructor (data: seq<byte>)
      ensures this.data == data
    {
      this.data := data;
    }

    method AppendU8(x: byte)
      modifies this
      ensures data == old(data) + [x]
    {
      data := data + [x];
    }

    method AppendU16(x: u16)
      modifies this
      ensures data == old(data) + PutU16(x)
    {
      data := data + PutU16(x);
    }

    method AppendU32(x: u32)
      modifies this
      ensures data == old(data) + PutU32(x)
    {
      data := data + PutU32(x);
    }

    method AppendSlice(s: seq<byte>)
      modifies this
      ensures data == old(data) + s
    {
      data := data + s;
    }

    /** Keeps the first n bytes and returns the others. */
    method SplitOff(n: nat) returns (tail: seq<byte>)
      requires n <= |data|
      modifies this
      ensures data == old(data)[..n] && tail == old(data)[n..]
    {
      tail := data[n..];
      data := data[..n];
    }
  }

  /** The header of a message with a body: its length and its id. */
  method AppendHeader(buf: Buffer, length: u32, id: byte)
    modifies buf
    ensures buf.data == old(buf.data) + (PutU32(length) + [id])
  {
    buf.AppendU32(length);
    buf.AppendU8(id);
  }

  method AppendRange(buf: Buffer, index: u32, begin: u32, length: u32)
    modifies buf
    ensures buf.data == old(buf.data) + (PutU32(index) + PutU32(begin) + PutU32(length))
  {
    buf.AppendU32(index);
    buf.AppendU32(begin);
    buf.AppendU32(length);
  }

  method AppendBlock(buf: Buffer, index: u32, begin: u32, block: seq<byte>)
    modifies buf
    ensures buf.data == old(buf.data) + (PutU32(index) + PutU32(begin) + block)
  {
    buf.AppendU32(index);
    buf.AppendU32(begin);
    buf.AppendSlice(block);
  }

  lemma WrapAdds(a: nat, n: nat)
    ensures Wrap32(a + Wrap32(n)) == Wrap32(a + n)
  {
  }

  lemma FrameIs(was: seq<byte>, m: Message, length: u32, id: byte)
    requires !m.KeepAlive? && id == Id(m) && length == Wrap32(1 + |Payload(m)|)
    ensures was + (PutU32(length) + [id]) + Payload(m) == was + Encode(m)
    ensures Payload(m) == [] ==> was + (PutU32(length) + [id]) == was + Encode(m)
  {
    assert Body(m) == [id] + Payload(m);
    JoinFrame(was, PutU32(length), [id], Payload(m));
  }

  lemma JoinFrame(was: seq<byte>, prefix: seq<byte>, id: seq<byte>, payload: seq<byte>)
    ensures was + (prefix + id) + payload == was + (prefix + (id + payload))
    ensures payload == [] ==> was + (prefix + id) == was + (prefix + (id + payload))
  {
    assert payload == [] ==> id + payload == id;
  }

  method SerializeInto(m: Message, buf: Buffer)
    modifies buf
    ensures buf.data == old(buf.data) + Encode(m)
  {
    ghost var was := buf.data;
    match m {
      case KeepAlive =>
        buf.AppendU32(0);
      case Choke =>
        AppendHeader(buf, 1, 0);
        FrameIs(was, m, 1, 0);
      case UnChoke =>
        AppendHeader(buf, 1, 1);
        FrameIs(was, m, 1, 1);
      case Interested =>
        AppendHeader(buf, 1, 2);
        FrameIs(was, m, 1, 2);
      case NotInterested =>
        AppendHeader(buf, 1, 3);
        FrameIs(was, m, 1, 3);
      case Have(piece) =>
        AppendHeader(buf, 5, 4);
        buf.AppendU32(piece);
        FrameIs(was, m, 5, 4);
      case Bitfield(bits) =>
        var length := Wrap32(1 + Wrap32(|bits|));
        AppendHeader(buf, length, 5);
        buf.AppendSlice(bits);
        WrapAdds(1, |bits|);
        FrameIs(was, m, length, 5);
      case Request(index, begin, length) =>
        AppendHeader(buf, 13, 6);
        AppendRange(buf, index, begin, length);
        FrameIs(was, m, 13, 6);
      case Piece(index, begin, block) =>
        var length := Wrap32(9 + Wrap32(|block|));
        AppendHeader(buf, length, 7);
        AppendBlock(buf, index, begin, block);
        WrapAdds(9, |block|);
        FrameIs(was, m, length, 7);
      case Cancel(index, begin, length) =>
        AppendHeader(buf, 13, 8);
        AppendRange(buf, index, begin, length);
        FrameIs(was, m, 13, 8);
      case Port(port) =>
        AppendHeader(buf, 3, 9);
        buf.AppendU16(port);
        FrameIs(was, m, 3, 9);
    }
  }

  method Deserialize(buf: Buffer) returns (r: Decoded)
    modifies buf
    ensures r == Decode(old(buf.data))
    ensures buf.data == LeftOver(old(buf.data))
  {
    var s := buf.data;
    if |s| < 4 {
      return Err(MessageTooShort);
    }
    var len := GetU32(s, 0);
    if len == 0 {
      return Ok(KeepAlive);
    }
    if |s| < 5 {
      return Err(MessageTooShort);
    }
    match s[4]
    case 0 => return Ok(Choke);
    case 1 => return Ok(UnChoke);
    case 2 => return Ok(Interested);
    case 3 => return Ok(NotInterested);
    case 4 =>
      if |s| != 9 {
        return Err(MessageTooShort);
      }
      return Ok(Have(GetU32(s, 5)));
    case 5 =>
      if |s| < 5 + (len - 1) {
        return Err(MessageTooShort);
      }
      var bits := buf.SplitOff(5);
      return Ok(Bitfield(bits));
    case 6 =>
      if |s| != 17 {
        return Err(MessageTooShort);
      }
      return Ok(Request(GetU32(s, 5), GetU32(s, 9), GetU32(s, 13)));
    case 7 =>
      if |s| < 13 + Wrap32(len - 9) {
        return Err(MessageTooShort);
      }
      var index, begin := GetU32(s, 5), GetU32(s, 9);
      var block := buf.SplitOff(13);
      return Ok(Piece(index, begin, block));
    case 8 =>
      if |s| != 17 {
        return Err(MessageTooShort);
      }
      return Ok(Cancel(GetU32(s, 5), GetU32(s, 9), GetU32(s, 13)));
    case 9 =>
      if |s| != 7 {
        return Err(MessageTooShort);
      }
      return Ok(Port(GetU16(s, 5)));
    case i => return Err(InvalidType(i));
  }
}
