/**
 * The codec against the wire: what the bytes of each frame are (BEP 3, section "peer messages", and BEP 5).
 * The laws in Messages say that encoder and decoder agree; these say on what.
 */
module Wire {
  import opened Bytes
  import opened Messages

  /** The number that some bytes spell, the first one weighing most. */
  function Spelled(s: seq<byte>): nat {
    if s == [] then 0 else 0x100 * Spelled(s[..|s| - 1]) + s[|s| - 1]
  }

  lemma SpelledTwo(a: byte, b: byte)
    ensures Spelled([a, b]) == 0x100 * a as int + b as int
  {
    assert [a, b][..1] == [a] && [a][..0] == [];
    assert Spelled([a]) == a as int;
  }

  lemma SpelledFour(a: byte, b: byte, c: byte, d: byte)
    ensures Spelled([a, b, c, d]) == a as int * 0x100_0000 + b as int * 0x1_0000 + c as int * 0x100 + d as int
  {
    assert [a, b, c, d][..3] == [a, b, c] && [a, b, c][..2] == [a, b];
    SpelledTwo(a, b);
    assert Spelled([a, b, c]) == 0x100 * Spelled([a, b]) + c as int;
  }

  /** Words are written with the high byte first. */
  lemma WordsAreBigEndian(x: u32, y: u16)
    ensures |PutU32(x)| == 4 && Spelled(PutU32(x)) == x
    ensures |PutU16(y)| == 2 && Spelled(PutU16(y)) == y
  {
    WordIsItsDigits(x);
    SpelledFour(x / 0x100_0000, x / 0x1_0000 % 0x100, x / 0x100 % 0x100, x % 0x100);
    SpelledTwo(y / 0x100, y % 0x100);
  }

  /** Words are read with the high byte first. */
  lemma ReadsBigEndian(s: seq<byte>, at: nat)
    ensures at + 4 <= |s| ==> GetU32(s, at) == Spelled(s[at..at + 4])
    ensures at + 2 <= |s| ==> GetU16(s, at) == Spelled(s[at..at + 2])
  {
    if at + 4 <= |s| {
      SpelledFour(s[at], s[at + 1], s[at + 2], s[at + 3]);
      assert s[at..at + 4] == [s[at], s[at + 1], s[at + 2], s[at + 3]];
    }
    if at + 2 <= |s| {
      SpelledTwo(s[at], s[at + 1]);
      assert s[at..at + 2] == [s[at], s[at + 1]];
    }
  }

  /** Four bytes that spell a number are the word of it. */
  predicate IsWord(s: seq<byte>, x: int) {
    |s| == 4 && Spelled(s) == x
  }

  /** Messages without fields, byte for byte. */
  lemma PlainFrames()
    ensures Encode(KeepAlive) == [0, 0, 0, 0]
    ensures Encode(Choke) == [0, 0, 0, 1, 0]
    ensures Encode(UnChoke) == [0, 0, 0, 1, 1]
    ensures Encode(Interested) == [0, 0, 0, 1, 2]
    ensures Encode(NotInterested) == [0, 0, 0, 1, 3]
  {
  }

  lemma WordFrame(header: seq<byte>, x: u32, e: seq<byte>)
    requires |header| == 5 && e == header + PutU32(x)
    ensures |e| == 9 && e[..5] == header && IsWord(e[5..9], x)
  {
    WordsAreBigEndian(x, 0);
    assert e[5..9] == PutU32(x);
  }

  lemma HaveFrame(index: u32)
    ensures var e := Encode(Have(index));
      |e| == 9 && e[..5] == [0, 0, 0, 5, 4] && IsWord(e[5..9], index)
  {
    var e := Encode(Have(index));
    assert e == [0, 0, 0, 5, 4] + PutU32(index);
    WordFrame([0, 0, 0, 5, 4], index, e);
  }

  /** The frame of a message that names a range: three words after the header. */
  lemma RangeFrame(header: seq<byte>, index: u32, begin: u32, length: u32, e: seq<byte>)
    requires |header| == 5 && e == header + (PutU32(index) + PutU32(begin) + PutU32(length))
    ensures |e| == 17 && e[..5] == header
    ensures IsWord(e[5..9], index) && IsWord(e[9..13], begin) && IsWord(e[13..17], length)
  {
    WordsAreBigEndian(index, 0);
    WordsAreBigEndian(begin, 0);
    WordsAreBigEndian(length, 0);
    assert e[5..9] == PutU32(index) && e[9..13] == PutU32(begin) && e[13..17] == PutU32(length);
  }

  lemma RequestFrame(index: u32, begin: u32, length: u32)
    ensures var e := Encode(Request(index, begin, length));
      && |e| == 17 && e[..5] == [0, 0, 0, 13, 6]
      && IsWord(e[5..9], index) && IsWord(e[9..13], begin) && IsWord(e[13..17], length)
  {
    var e := Encode(Request(index, begin, length));
    assert e == [0, 0, 0, 13, 6] + (PutU32(index) + PutU32(begin) + PutU32(length));
    RangeFrame([0, 0, 0, 13, 6], index, begin, length, e);
  }

  lemma CancelFrame(index: u32, begin: u32, length: u32)
    ensures var e := Encode(Cancel(index, begin, length));
      && |e| == 17 && e[..5] == [0, 0, 0, 13, 8]
      && IsWord(e[5..9], index) && IsWord(e[9..13], begin) && IsWord(e[13..17], length)
  {
    var e := Encode(Cancel(index, begin, length));
    assert e == [0, 0, 0, 13, 8] + (PutU32(index) + PutU32(begin) + PutU32(length));
    RangeFrame([0, 0, 0, 13, 8], index, begin, length, e);
  }

  lemma PortFrame(port: u16)
    ensures var e := Encode(Port(port));
      |e| == 7 && e[..5] == [0, 0, 0, 3, 9] && Spelled(e[5..7]) == port
  {
    WordsAreBigEndian(0, port);
    assert Encode(Port(port))[5..7] == PutU16(port);
  }

  lemma ShortFramePlaces(prefix: seq<byte>, id: byte, bits: seq<byte>, e: seq<byte>)
    requires |prefix| == 4 && e == prefix + ([id] + bits)
    ensures |e| == 5 + |bits| && e[..4] == prefix && e[4] == id && e[5..] == bits
  {
  }

  /** The prefix of a bitfield or a block is its length, with the wrap of the cast. */
  lemma BitfieldFrame(bits: seq<byte>)
    ensures var e := Encode(Bitfield(bits));
      |e| == 5 + |bits| && IsWord(e[..4], (1 + |bits|) % 0x1_0000_0000) && e[4] == 5 && e[5..] == bits
  {
    WordsAreBigEndian(Wrap32(1 + |bits|), 0);
    ShortFramePlaces(PutU32(Wrap32(1 + |bits|)), 5, bits, Encode(Bitfield(bits)));
  }

  lemma FramePlaces(prefix: seq<byte>, id: byte, x: seq<byte>, y: seq<byte>, block: seq<byte>, e: seq<byte>)
    requires |prefix| == |x| == |y| == 4 && e == prefix + ([id] + (x + y + block))
    ensures |e| == 13 + |block| && e[..4] == prefix && e[4] == id
    ensures e[5..9] == x && e[9..13] == y && e[13..] == block
  {
  }

  lemma PieceFrame(index: u32, begin: u32, block: seq<byte>)
    ensures var e := Encode(Piece(index, begin, block));
      && |e| == 13 + |block| && IsWord(e[..4], (9 + |block|) % 0x1_0000_0000) && e[4] == 7
      && IsWord(e[5..9], index) && IsWord(e[9..13], begin) && e[13..] == block
  {
    WordsAreBigEndian(Wrap32(9 + |block|), 0);
    WordsAreBigEndian(index, 0);
    WordsAreBigEndian(begin, 0);
    FramePlaces(PutU32(Wrap32(9 + |block|)), 7, PutU32(index), PutU32(begin), block, Encode(Piece(index, begin, block)));
  }

  // ----------------------------------------------------------------- reading

  /** A keep-alive is a length of zero, whatever follows it. */
  lemma ReadsKeepAlive(s: seq<byte>)
    ensures Decode(s) == Ok(KeepAlive) <==> 4 <= |s| && Spelled(s[..4]) == 0
  {
    ReadsBigEndian(s, 0);
  }

  /** The fifth byte of any other frame says what it is. */
  lemma ReadsKind(s: seq<byte>)
    requires 5 <= |s| && Spelled(s[..4]) != 0 && Decode(s).Ok?
    ensures var m := Decode(s).message;
      && (s[4] == 0 <==> m.Choke?) && (s[4] == 1 <==> m.UnChoke?) && (s[4] == 2 <==> m.Interested?)
      && (s[4] == 3 <==> m.NotInterested?) && (s[4] == 4 <==> m.Have?) && (s[4] == 5 <==> m.Bitfield?)
      && (s[4] == 6 <==> m.Request?) && (s[4] == 7 <==> m.Piece?) && (s[4] == 8 <==> m.Cancel?)
      && (s[4] == 9 <==> m.Port?)
  {
    ReadsBigEndian(s, 0);
  }

  /** The fields of a decoded message are the words of its frame. */
  lemma ReadsFields(s: seq<byte>)
    requires 5 <= |s| && Spelled(s[..4]) != 0 && Decode(s).Ok?
    ensures var m := Decode(s).message;
      && (m.Have? ==> |s| == 9 && m.index == Spelled(s[5..9]))
      && (m.Bitfield? ==> m.bits == s[5..])
      && (m.Request? ==> |s| == 17 && m.index == Spelled(s[5..9]) && m.begin == Spelled(s[9..13])
                         && m.length == Spelled(s[13..17]))
      && (m.Piece? ==> 13 <= |s| && m.index == Spelled(s[5..9]) && m.begin == Spelled(s[9..13]) && m.block == s[13..])
      && (m.Cancel? ==> |s| == 17 && m.index == Spelled(s[5..9]) && m.begin == Spelled(s[9..13])
                        && m.length == Spelled(s[13..17]))
      && (m.Port? ==> |s| == 7 && m.port == Spelled(s[5..7]))
  {
    ReadsBigEndian(s, 0);
    ReadsBigEndian(s, 5);
    ReadsBigEndian(s, 9);
    ReadsBigEndian(s, 13);
  }

  /** The length that a frame of this kind must have; a bitfield or a block may be longer than announced. */
  predicate LongEnough(s: seq<byte>, length: nat)
    requires 5 <= |s|
  {
    match s[4]
    case 4 => |s| == 9
    case 5 => 4 + length <= |s|
    case 6 => |s| == 17
    case 7 => 13 + (length - 9) % 0x1_0000_0000 <= |s|
    case 8 => |s| == 17
    case 9 => |s| == 7
    case _ => true
  }

  /** Which byte strings are refused, and why. */
  lemma RefusedExactly(s: seq<byte>)
    ensures Decode(s) == Err(MessageTooShort) <==>
      |s| < 4 || (Spelled(s[..4]) != 0 && (|s| < 5 || !LongEnough(s, Spelled(s[..4]))))
    ensures forall id :: Decode(s) == Err(InvalidType(id)) <==>
      5 <= |s| && Spelled(s[..4]) != 0 && s[4] == id && 9 < id
  {
    ReadsBigEndian(s, 0);
  }

  /** What is split off the buffer is the bitfield or the block, and nothing else leaves it. */
  lemma SplitsOff(s: seq<byte>)
    ensures Decode(s).Ok? && Decode(s).message.Bitfield? ==> LeftOver(s) + Decode(s).message.bits == s
    ensures Decode(s).Ok? && Decode(s).message.Piece? ==> LeftOver(s) + Decode(s).message.block == s
    ensures !(Decode(s).Ok? && (Decode(s).message.Bitfield? || Decode(s).message.Piece?)) ==> LeftOver(s) == s
  {
  }
}
