/** What the logical functions and the byte order of SHA-1 mean apart from their definitions. */
module Sha1Bits {
  import opened Words
  import opened Sha1Spec

  /** RFC 3174 section 5: where b has a one bit the result is c's, elsewhere d's. */
  lemma ChooseBits(b: bv32, c: bv32, d: bv32)
    ensures Choose(b, c, d) & b == c & b
    ensures Choose(b, c, d) & !b == d & !b
  {}

  /** Where b and c agree the result is theirs, elsewhere d's. */
  lemma MajorityBits(b: bv32, c: bv32, d: bv32)
    ensures Majority(b, c, d) & !(b ^ c) == b & !(b ^ c)
    ensures Majority(b, c, d) & (b ^ c) == d & (b ^ c)
  {}

  lemma Append8(x: bv8, y: bv8)
    ensures ((x as bv16 << 8) | y as bv16) as int == x as int * 0x100 + y as int
  {}

  lemma Append16(x: bv16, y: bv8)
    ensures ((x as bv24 << 8) | y as bv24) as int == x as int * 0x100 + y as int
  {}

  lemma Append24(x: bv24, y: bv8)
    ensures ((x as bv32 << 8) | y as bv32) as int == x as int * 0x100 + y as int
  {}

  lemma ConcatAppends(a: bv8, b: bv8, c: bv8, d: bv8)
    ensures var two := (a as bv16 << 8) | b as bv16;
            var three := (two as bv24 << 8) | c as bv24;
            Concat4(a as bv32, b as bv32, c as bv32, d as bv32) == (three as bv32 << 8) | d as bv32
  {}

  /** Four bytes in a word denote the number they denote by themselves. */
  lemma Concat4Denotes(a: bv8, b: bv8, c: bv8, d: bv8)
    ensures Concat4(a as bv32, b as bv32, c as bv32, d as bv32) as int
            == ((a as int * 0x100 + b as int) * 0x100 + c as int) * 0x100 + d as int
  {
    hide Concat4;
    var two := (a as bv16 << 8) | b as bv16;
    var three := (two as bv24 << 8) | c as bv24;
    ConcatAppends(a, b, c, d);
    Append8(a, b);
    Append16(two, c);
    Append24(three, d);
  }

  lemma ByteInWord(x: byte)
    ensures x as bv32 == (x as bv8) as bv32 && (x as bv8) as int == x
  {}

  lemma ValueOfFour(s: seq<byte>)
    requires |s| == 4
    ensures var a: int, b: int, c: int, d: int := s[0], s[1], s[2], s[3];
            BigEndianValue(s) == ((a * 0x100 + b) * 0x100 + c) * 0x100 + d
  {
    assert s[..3][..2] == s[..2] && s[..2][..1] == s[..1] && s[..1][..0] == [];
    assert BigEndianValue(s[..1]) == s[0];
    assert BigEndianValue(s[..2]) == BigEndianValue(s[..1]) * 0x100 + s[1];
    assert BigEndianValue(s[..3]) == BigEndianValue(s[..2]) * 0x100 + s[2];
  }

  lemma FourBytesDenote(s: seq<byte>, a: bv8, b: bv8, c: bv8, d: bv8)
    requires s == [a as int, b as int, c as int, d as int]
    ensures BigEndianValue(s) == Concat4(a as bv32, b as bv32, c as bv32, d as bv32) as int
  {
    hide Concat4, BigEndianValue;
    Concat4Denotes(a, b, c, d);
    ValueOfFour(s);
  }

  lemma AsByte(x: byte) returns (v: bv8)
    ensures v as int == x && x as bv32 == v as bv32
  {
    v := x as bv8;
    ByteInWord(x);
  }

  lemma WordParts(w: bv32) returns (a: bv8, b: bv8, c: bv8, d: bv8)
    ensures WordBytes(w) == [a as int, b as int, c as int, d as int]
    ensures w == Concat4(a as bv32, b as bv32, c as bv32, d as bv32)
  {
    a, b, c, d := ((w >> 24) & 0xFF) as bv8, ((w >> 16) & 0xFF) as bv8, ((w >> 8) & 0xFF) as bv8, (w & 0xFF) as bv8;
  }

  /** The bytes of a digest word denote it. */
  lemma WordBytesDenote(w: bv32)
    ensures BigEndianValue(WordBytes(w)) == w as int
  {
    hide Concat4, BigEndianValue, WordBytes;
    var a, b, c, d := WordParts(w);
    FourBytesDenote(WordBytes(w), a, b, c, d);
  }

  lemma BlockParts(block: Block, t: nat) returns (a: bv8, b: bv8, c: bv8, d: bv8)
    requires t < 16
    ensures block[4 * t..4 * t + 4] == [a as int, b as int, c as int, d as int]
    ensures BlockWord(block, t) == Concat4(a as bv32, b as bv32, c as bv32, d as bv32)
  {
    hide Concat4;
    a := AsByte(block[4 * t]);
    b := AsByte(block[4 * t + 1]);
    c := AsByte(block[4 * t + 2]);
    d := AsByte(block[4 * t + 3]);
  }

  /** A block word is the number that its four bytes denote. */
  lemma BlockWordDenotes(block: Block, t: nat)
    requires t < 16
    ensures BigEndianValue(block[4 * t..4 * t + 4]) == BlockWord(block, t) as int
  {
    hide Concat4, BigEndianValue, BlockWord;
    var a, b, c, d := BlockParts(block, t);
    FourBytesDenote(block[4 * t..4 * t + 4], a, b, c, d);
  }
}
