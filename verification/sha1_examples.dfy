/** The digest of "abc" (RFC 3174 section 7.3) and of the sample handshake (RFC 6455 section 1.3). */
module Sha1Examples {
  import opened Words
  import opened Sha1Spec
  import opened Sha1Runs

  /** Words t to t + 15 of the schedule. */
  ghost predicate Sixteen(b: Block, t: nat,
                          w0: bv32, w1: bv32, w2: bv32, w3: bv32, w4: bv32, w5: bv32, w6: bv32, w7: bv32,
                          w8: bv32, w9: bv32, w10: bv32, w11: bv32, w12: bv32, w13: bv32, w14: bv32, w15: bv32)
  {
    && W(b, t) == w0 && W(b, t + 1) == w1 && W(b, t + 2) == w2 && W(b, t + 3) == w3
    && W(b, t + 4) == w4 && W(b, t + 5) == w5 && W(b, t + 6) == w6 && W(b, t + 7) == w7
    && W(b, t + 8) == w8 && W(b, t + 9) == w9 && W(b, t + 10) == w10 && W(b, t + 11) == w11
    && W(b, t + 12) == w12 && W(b, t + 13) == w13 && W(b, t + 14) == w14 && W(b, t + 15) == w15
  }

  lemma Later(b: Block, t: nat)
    requires t >= 16
    ensures W(b, t) == Expand(W(b, t - 3), W(b, t - 8), W(b, t - 14), W(b, t - 16))
  {}

  lemma EightRounds(b: Block, r: Regs, t: nat)
    ensures forall s :: t <= s < t + 8 ==> Rounds(b, r, s + 1) == Round(s, Rounds(b, r, s), W(b, s))
  {}

  lemma BackAndForth(x: bv8)
    ensures (x as int) as bv32 == x as bv32
  {
    assert (x as int) as bv8 == x;
  }

  lemma FirstWord(b: Block, t: nat, x0: bv8, x1: bv8, x2: bv8, x3: bv8)
    requires t < 16
    requires b[4 * t] == x0 as int && b[4 * t + 1] == x1 as int
    requires b[4 * t + 2] == x2 as int && b[4 * t + 3] == x3 as int
    ensures W(b, t) == Concat4(x0 as bv32, x1 as bv32, x2 as bv32, x3 as bv32)
  {
    hide Concat4;
    BackAndForth(x0);
    BackAndForth(x1);
    BackAndForth(x2);
    BackAndForth(x3);
  }

  lemma NoRounds(b: Block, r: Regs)
    ensures Rounds(b, r, 0) == r
  {}

  // ----- "abc" -----

  ghost predicate AbcWords0(b: Block) {
    Sixteen(b, 0,
            0x61626380, 0x00000000, 0x00000000, 0x00000000, 0x00000000, 0x00000000, 0x00000000, 0x00000000,
            0x00000000, 0x00000000, 0x00000000, 0x00000000, 0x00000000, 0x00000000, 0x00000000, 0x00000018)
  }

  ghost predicate AbcWords16(b: Block) {
    Sixteen(b, 16,
            0xC2C4C700, 0x00000000, 0x00000030, 0x85898E01, 0x00000000, 0x00000060, 0x0B131C03, 0x00000030,
            0x85898EC1, 0x16263806, 0x00000000, 0x00000180, 0x2C4C700C, 0x000000F0, 0x93AFB507, 0x5898E048)
  }

  ghost predicate AbcWords32(b: Block) {
    Sixteen(b, 32,
            0x8E9A9202, 0x00000600, 0xB131C0F0, 0x16263BC6, 0x4EBED41E, 0x626380A1, 0x16263806, 0x000018C0,
            0xD2E138C4, 0x00000F00, 0x3AFB5079, 0x898E04E5, 0xE2BA3C2B, 0x000060C0, 0x053A37CD, 0x74458547)
  }

  ghost predicate AbcWords48(b: Block) {
    Sixteen(b, 48,
            0xDA9415ED, 0x26380A16, 0x626383A1, 0x4EBF54DE, 0x3835B44B, 0x0000F600, 0x1E84C7A3, 0x98E04D98,
            0x651D16A0, 0x62658CA1, 0x458544D6, 0x44584CB7, 0x7BA06619, 0x6380AEA2, 0x0AE55269, 0x627B49A1)
  }

  ghost predicate AbcWords64(b: Block) {
    Sixteen(b, 64,
            0x7CD45C9D, 0x000F0000, 0xFB50753A, 0xEC6765E8, 0xBA3C2BE2, 0x0060C000, 0x3A37CD05, 0x458546F4,
            0xB8599DD6, 0x380A1A26, 0x01E02203, 0xE7CC3456, 0xE6E60B69, 0x00F60A00, 0x5795EF4F, 0x822E0879)
  }

  lemma AbcSchedule16(b: Block)
    requires AbcWords0(b)
    ensures AbcWords16(b)
  {
    hide W;
    Later(b, 16); Later(b, 17); Later(b, 18); Later(b, 19);
    Later(b, 20); Later(b, 21); Later(b, 22); Later(b, 23);
    Later(b, 24); Later(b, 25); Later(b, 26); Later(b, 27);
    Later(b, 28); Later(b, 29); Later(b, 30); Later(b, 31);
  }

  lemma AbcSchedule32(b: Block)
    requires AbcWords16(b)
    ensures AbcWords32(b)
  {
    hide W;
    Later(b, 32); Later(b, 33); Later(b, 34); Later(b, 35);
    Later(b, 36); Later(b, 37); Later(b, 38); Later(b, 39);
    Later(b, 40); Later(b, 41); Later(b, 42); Later(b, 43);
    Later(b, 44); Later(b, 45); Later(b, 46); Later(b, 47);
  }

  lemma AbcSchedule48(b: Block)
    requires AbcWords32(b)
    ensures AbcWords48(b)
  {
    hide W;
    Later(b, 48); Later(b, 49); Later(b, 50); Later(b, 51);
    Later(b, 52); Later(b, 53); Later(b, 54); Later(b, 55);
    Later(b, 56); Later(b, 57); Later(b, 58); Later(b, 59);
    Later(b, 60); Later(b, 61); Later(b, 62); Later(b, 63);
  }

  lemma AbcSchedule64(b: Block)
    requires AbcWords48(b)
    ensures AbcWords64(b)
  {
    hide W;
    Later(b, 64); Later(b, 65); Later(b, 66); Later(b, 67);
    Later(b, 68); Later(b, 69); Later(b, 70); Later(b, 71);
    Later(b, 72); Later(b, 73); Later(b, 74); Later(b, 75);
    Later(b, 76); Later(b, 77); Later(b, 78); Later(b, 79);
  }

  lemma AbcRounds16(b: Block, r: Regs)
    requires AbcWords0(b)
    requires Rounds(b, r, 0) == Regs(0x67452301, 0xEFCDAB89, 0x98BADCFE, 0x10325476, 0xC3D2E1F0)
    ensures Rounds(b, r, 16) == Regs(0x20BDD62F, 0x196BEE77, 0x644A3DA5, 0x1181ED99, 0x18C623F9)
  {
    hide W, Rounds;
    EightRounds(b, r, 0);
    assert Rounds(b, r, 8) == Regs(0x9E8C07D4, 0x993E30C1, 0x0FF1F290, 0xB3F52677, 0xF3763846);
    EightRounds(b, r, 8);
  }

  lemma AbcRounds32(b: Block, r: Regs)
    requires AbcWords16(b)
    requires Rounds(b, r, 16) == Regs(0x20BDD62F, 0x196BEE77, 0x644A3DA5, 0x1181ED99, 0x18C623F9)
    ensures Rounds(b, r, 32) == Regs(0x3B845D33, 0x1267B407, 0x717EEBD7, 0xA0DC2D4B, 0xD2AA1365)
  {
    hide W, Rounds;
    EightRounds(b, r, 16);
    assert Rounds(b, r, 24) == Regs(0xD541F12D, 0x21283486, 0x0CE88EFF, 0x868DEC32, 0x7F67875F);
    EightRounds(b, r, 24);
  }

  lemma AbcRounds48(b: Block, r: Regs)
    requires AbcWords32(b)
    requires Rounds(b, r, 32) == Regs(0x3B845D33, 0x1267B407, 0x717EEBD7, 0xA0DC2D4B, 0xD2AA1365)
    ensures Rounds(b, r, 48) == Regs(0xBEAD02CA, 0xA01B846C, 0x8714787C, 0x503CA382, 0xFB86C6AB)
  {
    hide W, Rounds;
    EightRounds(b, r, 32);
    assert Rounds(b, r, 40) == Regs(0x32DE1CBA, 0x4C986405, 0xF718E5CF, 0x03D447F6, 0xF72EEC32);
    EightRounds(b, r, 40);
  }

  lemma AbcRounds64(b: Block, r: Regs)
    requires AbcWords48(b)
    requires Rounds(b, r, 48) == Regs(0xBEAD02CA, 0xA01B846C, 0x8714787C, 0x503CA382, 0xFB86C6AB)
    ensures Rounds(b, r, 64) == Regs(0x6B61C9E1, 0xB66C020B, 0x9523272C, 0xF5D5B051, 0x8FD4B796)
  {
    hide W, Rounds;
    EightRounds(b, r, 48);
    assert Rounds(b, r, 56) == Regs(0x5E6456AF, 0x7B71F76D, 0x09FA7C76, 0x792410DB, 0x8E11EB59);
    EightRounds(b, r, 56);
  }

  lemma AbcRounds80(b: Block, r: Regs)
    requires AbcWords64(b)
    requires Rounds(b, r, 64) == Regs(0x6B61C9E1, 0xB66C020B, 0x9523272C, 0xF5D5B051, 0x8FD4B796)
    ensures Rounds(b, r, 80) == Regs(0x42541B35, 0x5738D5E1, 0x21834873, 0x681E6DF6, 0xD8FDF6AD)
  {
    hide W, Rounds;
    EightRounds(b, r, 64);
    assert Rounds(b, r, 72) == Regs(0x39859DE7, 0xC199F8C7, 0x8FC96230, 0x125C24F0, 0xDE37534A);
    EightRounds(b, r, 72);
  }

  lemma AbcBlock(b: Block)
    requires b[0] == 0x61 && b[1] == 0x62 && b[2] == 0x63 && b[3] == 0x80 && b[63] == 24
    requires forall i :: 4 <= i < 63 ==> b[i] == 0
    ensures AbcWords0(b)
  {
    hide W;
    FirstWord(b, 0, 0x61, 0x62, 0x63, 0x80);
    FirstWord(b, 1, 0, 0, 0, 0);
    FirstWord(b, 2, 0, 0, 0, 0);
    FirstWord(b, 3, 0, 0, 0, 0);
    FirstWord(b, 4, 0, 0, 0, 0);
    FirstWord(b, 5, 0, 0, 0, 0);
    FirstWord(b, 6, 0, 0, 0, 0);
    FirstWord(b, 7, 0, 0, 0, 0);
    FirstWord(b, 8, 0, 0, 0, 0);
    FirstWord(b, 9, 0, 0, 0, 0);
    FirstWord(b, 10, 0, 0, 0, 0);
    FirstWord(b, 11, 0, 0, 0, 0);
    FirstWord(b, 12, 0, 0, 0, 0);
    FirstWord(b, 13, 0, 0, 0, 0);
    FirstWord(b, 14, 0, 0, 0, 0);
    FirstWord(b, 15, 0, 0, 0, 0x18);
  }

  lemma AbcCompress(b: Block)
    requires AbcWords0(b)
    ensures Compress([0x67452301, 0xEFCDAB89, 0x98BADCFE, 0x10325476, 0xC3D2E1F0], b)
            == [0xA9993E36, 0x4706816A, 0xBA3E2571, 0x7850C26C, 0x9CD0D89D]
  {
    hide W, Rounds, AbcWords0, AbcWords16, AbcWords32, AbcWords48, AbcWords64;
    var r := Regs(0x67452301, 0xEFCDAB89, 0x98BADCFE, 0x10325476, 0xC3D2E1F0);
    NoRounds(b, r);
    AbcRounds16(b, r);
    AbcSchedule16(b);
    AbcRounds32(b, r);
    AbcSchedule32(b);
    AbcRounds48(b, r);
    AbcSchedule48(b);
    AbcRounds64(b, r);
    AbcSchedule64(b);
    AbcRounds80(b, r);
  }

  lemma AbcBytes()
    ensures DigestBytes([0xA9993E36, 0x4706816A, 0xBA3E2571, 0x7850C26C, 0x9CD0D89D])
            == [0xA9, 0x99, 0x3E, 0x36, 0x47, 0x06, 0x81, 0x6A, 0xBA, 0x3E,
             0x25, 0x71, 0x78, 0x50, 0xC2, 0x6C, 0x9C, 0xD0, 0xD8, 0x9D]
  {}

  lemma OneBlock(b: Block)
    ensures Fold(b) == Compress(INITIAL, b)
  {
    hide Compress;
    assert b[..0] == [] && b[0..] == b;
  }

  lemma SmallLength(n: byte)
    ensures BigEndian(n, 8) == [0, 0, 0, 0, 0, 0, 0, n]
  {
    ZeroBytes(7);
  }

  lemma {:induction false} ZeroBytes(n: nat)
    ensures BigEndian(0, n) == Zeros(n)
  {
    if n > 0 {
      ZeroBytes(n - 1);
    }
  }

  /** RFC 3174 section 7.3: the digest of "abc". */
  lemma AbcDigest()
    ensures Hash([0x61, 0x62, 0x63])
            == [0xA9, 0x99, 0x3E, 0x36, 0x47, 0x06, 0x81, 0x6A, 0xBA, 0x3E,
             0x25, 0x71, 0x78, 0x50, 0xC2, 0x6C, 0x9C, 0xD0, 0xD8, 0x9D]
  {
    hide Fold, Compress, DigestBytes, AbcWords0, BigEndian;
    var p: Block := [0x61, 0x62, 0x63] + [0x80] + Zeros(52) + BigEndian(24, 8);
    assert Pad([0x61, 0x62, 0x63]) == p;
    SmallLength(24);
    AbcBlock(p);
    AbcCompress(p);
    OneBlock(p);
    AbcBytes();
  }

  /** The same from the streaming code, in two updates. */
  method HashAbc() returns (hash: array<byte>)
    ensures hash[..]
            == [0xA9, 0x99, 0x3E, 0x36, 0x47, 0x06, 0x81, 0x6A, 0xBA, 0x3E,
             0x25, 0x71, 0x78, 0x50, 0xC2, 0x6C, 0x9C, 0xD0, 0xD8, 0x9D]
  {
    hide Hash, Fold, DigestBytes, PadWith;
    var chunks: seq<seq<byte>> := [[0x61], [0x62, 0x63]];
    hash := HashChunks(chunks);
    assert chunks[..1] == [[0x61]] && chunks[..1][..0] == [];
    assert Flatten(chunks) == [0x61, 0x62, 0x63];
    AbcDigest();
  }

  // ----- The key of the sample handshake, followed by the GUID -----

  ghost predicate SampleText(text: seq<byte>) {
    && |text| == 60
    && text[0] == 0x64 && text[1] == 0x47 && text[2] == 0x68 && text[3] == 0x6C && text[4] == 0x49
    && text[5] == 0x48 && text[6] == 0x4E && text[7] == 0x68 && text[8] == 0x62 && text[9] == 0x58
    && text[10] == 0x42 && text[11] == 0x73 && text[12] == 0x5A && text[13] == 0x53 && text[14] == 0x42
    && text[15] == 0x75 && text[16] == 0x62 && text[17] == 0x32 && text[18] == 0x35 && text[19] == 0x6A
    && text[20] == 0x5A && text[21] == 0x51 && text[22] == 0x3D && text[23] == 0x3D && text[24] == 0x32
    && text[25] == 0x35 && text[26] == 0x38 && text[27] == 0x45 && text[28] == 0x41 && text[29] == 0x46
    && text[30] == 0x41 && text[31] == 0x35 && text[32] == 0x2D && text[33] == 0x45 && text[34] == 0x39
    && text[35] == 0x31 && text[36] == 0x34 && text[37] == 0x2D && text[38] == 0x34 && text[39] == 0x37
    && text[40] == 0x44 && text[41] == 0x41 && text[42] == 0x2D && text[43] == 0x39 && text[44] == 0x35
    && text[45] == 0x43 && text[46] == 0x41 && text[47] == 0x2D && text[48] == 0x43 && text[49] == 0x35
    && text[50] == 0x41 && text[51] == 0x42 && text[52] == 0x30 && text[53] == 0x44 && text[54] == 0x43
    && text[55] == 0x38 && text[56] == 0x35 && text[57] == 0x42 && text[58] == 0x31 && text[59] == 0x31
  }

  ghost predicate TextWords0(b: Block) {
    Sixteen(b, 0,
            0x6447686C, 0x49484E68, 0x62584273, 0x5A534275, 0x6232356A, 0x5A513D3D, 0x32353845, 0x41464135,
            0x2D453931, 0x342D3437, 0x44412D39, 0x3543412D, 0x43354142, 0x30444338, 0x35423131, 0x80000000)
  }

  ghost predicate TextWords16(b: Block) {
    Sixteen(b, 16,
            0x363CA02C, 0x24E81236, 0x8856B441, 0x06FB3C92, 0x6FB4BCB6, 0x460B16E3, 0x599219AE, 0x35BF9369,
            0x3267458E, 0xF828FD04, 0x753A96A7, 0x6336F612, 0xC3D66383, 0x06EB86F9, 0x73B4FD42, 0xA503C5B8)
  }

  ghost predicate TextWords32(b: Block) {
    Sixteen(b, 32,
            0x15CDAE35, 0x531E5DC5, 0x6FB6B7D0, 0x6C16E4AC, 0x4DDD36BD, 0x35D36946, 0xE8AE8B9C, 0x4A933AD0,
            0xCE8628B4, 0x415DBA9E, 0x2792F049, 0x8E9B79E7, 0x79C425C5, 0x6353B49D, 0x00994218, 0x8A950ED1)
  }

  ghost predicate TextWords48(b: Block) {
    Sixteen(b, 48,
            0xAF5D0B99, 0xFD9883DE, 0x1ED8FFEB, 0xF007FF28, 0x425E3674, 0x059631C0, 0xAD6C3C31, 0x860B71D7,
            0x87BFC548, 0x3E64F92D, 0x8D0AB761, 0x34E1EE35, 0x0ACF5108, 0xC2B479DA, 0x6C93370A, 0xF7935BA1)
  }

  ghost predicate TextWords64(b: Block) {
    Sixteen(b, 64,
            0xE91C91C1, 0xBED165A2, 0x4C3E4ABE, 0x50D96238, 0xB6587DDE, 0x1A2EE6E6, 0x2D335896, 0xF3495D0B,
            0xF30E0A1D, 0x32CE5459, 0x7165E3B8, 0xAB05FF94, 0xC5949F0B, 0xBCD84E4A, 0x07720392, 0xFF3FF806)
  }

  lemma TextSchedule16(b: Block)
    requires TextWords0(b)
    ensures TextWords16(b)
  {
    hide W;
    Later(b, 16); Later(b, 17); Later(b, 18); Later(b, 19);
    Later(b, 20); Later(b, 21); Later(b, 22); Later(b, 23);
    Later(b, 24); Later(b, 25); Later(b, 26); Later(b, 27);
    Later(b, 28); Later(b, 29); Later(b, 30); Later(b, 31);
  }

  lemma TextSchedule32(b: Block)
    requires TextWords16(b)
    ensures TextWords32(b)
  {
    hide W;
    Later(b, 32); Later(b, 33); Later(b, 34); Later(b, 35);
    Later(b, 36); Later(b, 37); Later(b, 38); Later(b, 39);
    Later(b, 40); Later(b, 41); Later(b, 42); Later(b, 43);
    Later(b, 44); Later(b, 45); Later(b, 46); Later(b, 47);
  }

  lemma TextSchedule48(b: Block)
    requires TextWords32(b)
    ensures TextWords48(b)
  {
    hide W;
    Later(b, 48); Later(b, 49); Later(b, 50); Later(b, 51);
    Later(b, 52); Later(b, 53); Later(b, 54); Later(b, 55);
    Later(b, 56); Later(b, 57); Later(b, 58); Later(b, 59);
    Later(b, 60); Later(b, 61); Later(b, 62); Later(b, 63);
  }

  lemma TextSchedule64(b: Block)
    requires TextWords48(b)
    ensures TextWords64(b)
  {
    hide W;
    Later(b, 64); Later(b, 65); Later(b, 66); Later(b, 67);
    Later(b, 68); Later(b, 69); Later(b, 70); Later(b, 71);
    Later(b, 72); Later(b, 73); Later(b, 74); Later(b, 75);
    Later(b, 76); Later(b, 77); Later(b, 78); Later(b, 79);
  }

  lemma TextRounds16(b: Block, r: Regs)
    requires TextWords0(b)
    requires Rounds(b, r, 0) == Regs(0x67452301, 0xEFCDAB89, 0x98BADCFE, 0x10325476, 0xC3D2E1F0)
    ensures Rounds(b, r, 16) == Regs(0xA004C468, 0xE922CC9D, 0xAB86825B, 0xD86F6CAF, 0x8D33AE61)
  {
    hide W, Rounds;
    EightRounds(b, r, 0);
    assert Rounds(b, r, 8) == Regs(0x2E0CE601, 0x73553E84, 0x5CC82E5A, 0xB7631F04, 0x14F80E6B);
    EightRounds(b, r, 8);
  }

  lemma TextRounds32(b: Block, r: Regs)
    requires TextWords16(b)
    requires Rounds(b, r, 16) == Regs(0xA004C468, 0xE922CC9D, 0xAB86825B, 0xD86F6CAF, 0x8D33AE61)
    ensures Rounds(b, r, 32) == Regs(0xA6680A1F, 0xB7DABC8B, 0x4206D8F9, 0xC6AEC70D, 0x95C7DF60)
  {
    hide W, Rounds;
    EightRounds(b, r, 16);
    assert Rounds(b, r, 24) == Regs(0x250E26EF, 0xBEAFD554, 0xB44BC2D5, 0xD4611C28, 0x0246AE5F);
    EightRounds(b, r, 24);
  }

  lemma TextRounds48(b: Block, r: Regs)
    requires TextWords32(b)
    requires Rounds(b, r, 32) == Regs(0xA6680A1F, 0xB7DABC8B, 0x4206D8F9, 0xC6AEC70D, 0x95C7DF60)
    ensures Rounds(b, r, 48) == Regs(0xABE1748A, 0xDEE4B7A8, 0x5CBFCCD3, 0x97D7CD14, 0xDB71A8F5)
  {
    hide W, Rounds;
    EightRounds(b, r, 32);
    assert Rounds(b, r, 40) == Regs(0x2BA2C83E, 0xD0869081, 0x1A1D8209, 0xD3334889, 0x2779E4F2);
    EightRounds(b, r, 40);
  }

  lemma TextRounds64(b: Block, r: Regs)
    requires TextWords48(b)
    requires Rounds(b, r, 48) == Regs(0xABE1748A, 0xDEE4B7A8, 0x5CBFCCD3, 0x97D7CD14, 0xDB71A8F5)
    ensures Rounds(b, r, 64) == Regs(0x685E2FF6, 0x840054D3, 0xE43C0363, 0x3350802E, 0x921CB616)
  {
    hide W, Rounds;
    EightRounds(b, r, 48);
    assert Rounds(b, r, 56) == Regs(0x7E1242F2, 0x50C9104C, 0x131822B1, 0x49B1A4E5, 0x4439FD9C);
    EightRounds(b, r, 56);
  }

  lemma TextRounds80(b: Block, r: Regs)
    requires TextWords64(b)
    requires Rounds(b, r, 64) == Regs(0x685E2FF6, 0x840054D3, 0xE43C0363, 0x3350802E, 0x921CB616)
    ensures Rounds(b, r, 80) == Regs(0xF48A5426, 0x835995E1, 0x25C11EFB, 0x4A45C402, 0x9A73C2F2)
  {
    hide W, Rounds;
    EightRounds(b, r, 64);
    assert Rounds(b, r, 72) == Regs(0x7E65E044, 0x80D59773, 0x81CE06DF, 0xA59B8126, 0x33E1963B);
    EightRounds(b, r, 72);
  }

  lemma TextBlock(b: Block)
    requires SampleText(b[..60]) && b[60] == 0x80 && b[61] == 0 && b[62] == 0 && b[63] == 0
    ensures TextWords0(b)
  {
    hide W;
    FirstWord(b, 0, 0x64, 0x47, 0x68, 0x6C);
    FirstWord(b, 1, 0x49, 0x48, 0x4E, 0x68);
    FirstWord(b, 2, 0x62, 0x58, 0x42, 0x73);
    FirstWord(b, 3, 0x5A, 0x53, 0x42, 0x75);
    FirstWord(b, 4, 0x62, 0x32, 0x35, 0x6A);
    FirstWord(b, 5, 0x5A, 0x51, 0x3D, 0x3D);
    FirstWord(b, 6, 0x32, 0x35, 0x38, 0x45);
    FirstWord(b, 7, 0x41, 0x46, 0x41, 0x35);
    FirstWord(b, 8, 0x2D, 0x45, 0x39, 0x31);
    FirstWord(b, 9, 0x34, 0x2D, 0x34, 0x37);
    FirstWord(b, 10, 0x44, 0x41, 0x2D, 0x39);
    FirstWord(b, 11, 0x35, 0x43, 0x41, 0x2D);
    FirstWord(b, 12, 0x43, 0x35, 0x41, 0x42);
    FirstWord(b, 13, 0x30, 0x44, 0x43, 0x38);
    FirstWord(b, 14, 0x35, 0x42, 0x31, 0x31);
    FirstWord(b, 15, 0x80, 0, 0, 0);
  }

  lemma TextCompress(b: Block)
    requires TextWords0(b)
    ensures Compress([0x67452301, 0xEFCDAB89, 0x98BADCFE, 0x10325476, 0xC3D2E1F0], b)
            == [0x5BCF7727, 0x7327416A, 0xBE7BFBF9, 0x5A781878, 0x5E46A4E2]
  {
    hide W, Rounds, TextWords0, TextWords16, TextWords32, TextWords48, TextWords64;
    var r := Regs(0x67452301, 0xEFCDAB89, 0x98BADCFE, 0x10325476, 0xC3D2E1F0);
    NoRounds(b, r);
    TextRounds16(b, r);
    TextSchedule16(b);
    TextRounds32(b, r);
    TextSchedule32(b);
    TextRounds48(b, r);
    TextSchedule48(b);
    TextRounds64(b, r);
    TextSchedule64(b);
    TextRounds80(b, r);
  }

  ghost predicate TailWords0(b: Block) {
    Sixteen(b, 0,
            0x00000000, 0x00000000, 0x00000000, 0x00000000, 0x00000000, 0x00000000, 0x00000000, 0x00000000,
            0x00000000, 0x00000000, 0x00000000, 0x00000000, 0x00000000, 0x00000000, 0x00000000, 0x000001E0)
  }

  ghost predicate TailWords16(b: Block) {
    Sixteen(b, 16,
            0x00000000, 0x00000000, 0x000003C0, 0x00000000, 0x00000000, 0x00000780, 0x00000000, 0x000003C0,
            0x00000F00, 0x00000000, 0x00000000, 0x00001E00, 0x00000000, 0x00000CC0, 0x00003C00, 0x00000440)
  }

  ghost predicate TailWords32(b: Block) {
    Sixteen(b, 32,
            0x00000000, 0x00007800, 0x00000F00, 0x00003300, 0x0000F000, 0x00000F00, 0x00000000, 0x0001EF00,
            0x00000000, 0x0000CC00, 0x0003C000, 0x00004380, 0x00000000, 0x00078F00, 0x0000FF00, 0x00032680)
  }

  ghost predicate TailWords48(b: Block) {
    Sixteen(b, 48,
            0x000F0000, 0x0000F000, 0x00003300, 0x001EFF00, 0x00000000, 0x000CB800, 0x003C0000, 0x00040B00,
            0x0000F000, 0x0078FF00, 0x000FF000, 0x00338700, 0x00F00000, 0x000FC300, 0x0000F000, 0x01EFBB00)
  }

  ghost predicate TailWords64(b: Block) {
    Sixteen(b, 64,
            0x00000000, 0x00CC0000, 0x03C0F000, 0x00438000, 0x00000000, 0x078F0000, 0x00FF0000, 0x03269E00,
            0x0F000000, 0x00F0F000, 0x00333C00, 0x1EFF8800, 0x00000000, 0x0CB88800, 0x3C00F000, 0x040A4A00)
  }

  lemma TailSchedule16(b: Block)
    requires TailWords0(b)
    ensures TailWords16(b)
  {
    hide W;
    Later(b, 16); Later(b, 17); Later(b, 18); Later(b, 19);
    Later(b, 20); Later(b, 21); Later(b, 22); Later(b, 23);
    Later(b, 24); Later(b, 25); Later(b, 26); Later(b, 27);
    Later(b, 28); Later(b, 29); Later(b, 30); Later(b, 31);
  }

  lemma TailSchedule32(b: Block)
    requires TailWords16(b)
    ensures TailWords32(b)
  {
    hide W;
    Later(b, 32); Later(b, 33); Later(b, 34); Later(b, 35);
    Later(b, 36); Later(b, 37); Later(b, 38); Later(b, 39);
    Later(b, 40); Later(b, 41); Later(b, 42); Later(b, 43);
    Later(b, 44); Later(b, 45); Later(b, 46); Later(b, 47);
  }

  lemma TailSchedule48(b: Block)
    requires TailWords32(b)
    ensures TailWords48(b)
  {
    hide W;
    Later(b, 48); Later(b, 49); Later(b, 50); Later(b, 51);
    Later(b, 52); Later(b, 53); Later(b, 54); Later(b, 55);
    Later(b, 56); Later(b, 57); Later(b, 58); Later(b, 59);
    Later(b, 60); Later(b, 61); Later(b, 62); Later(b, 63);
  }

  lemma TailSchedule64(b: Block)
    requires TailWords48(b)
    ensures TailWords64(b)
  {
    hide W;
    Later(b, 64); Later(b, 65); Later(b, 66); Later(b, 67);
    Later(b, 68); Later(b, 69); Later(b, 70); Later(b, 71);
    Later(b, 72); Later(b, 73); Later(b, 74); Later(b, 75);
    Later(b, 76); Later(b, 77); Later(b, 78); Later(b, 79);
  }

  lemma TailRounds16(b: Block, r: Regs)
    requires TailWords0(b)
    requires Rounds(b, r, 0) == Regs(0x5BCF7727, 0x7327416A, 0xBE7BFBF9, 0x5A781878, 0x5E46A4E2)
    ensures Rounds(b, r, 16) == Regs(0x986DF268, 0x990B7BE7, 0xAB50FCE7, 0x195DB4B7, 0x4941806B)
  {
    hide W, Rounds;
    EightRounds(b, r, 0);
    assert Rounds(b, r, 8) == Regs(0x25C018BE, 0xB3BBCAFE, 0xE4E97BEE, 0xB90F74BC, 0xC5615548);
    EightRounds(b, r, 8);
  }

  lemma TailRounds32(b: Block, r: Regs)
    requires TailWords16(b)
    requires Rounds(b, r, 16) == Regs(0x986DF268, 0x990B7BE7, 0xAB50FCE7, 0x195DB4B7, 0x4941806B)
    ensures Rounds(b, r, 32) == Regs(0x3CF6EB58, 0xF4DDD7B7, 0xC90FB815, 0xBD5F2D4F, 0xE4C9F7DB)
  {
    hide W, Rounds;
    EightRounds(b, r, 16);
    assert Rounds(b, r, 24) == Regs(0x53C73650, 0x3E5179E7, 0x103EF3E6, 0xC48C56CA, 0x4A8022D4);
    EightRounds(b, r, 24);
  }

  lemma TailRounds48(b: Block, r: Regs)
    requires TailWords32(b)
    requires Rounds(b, r, 32) == Regs(0x3CF6EB58, 0xF4DDD7B7, 0xC90FB815, 0xBD5F2D4F, 0xE4C9F7DB)
    ensures Rounds(b, r, 48) == Regs(0xA3EF857E, 0xC8CDA3DA, 0xCEF6480E, 0xFF1EF4D7, 0xC7A4D2B3)
  {
    hide W, Rounds;
    EightRounds(b, r, 32);
    assert Rounds(b, r, 40) == Regs(0x6F698F1A, 0xC6FF0CD3, 0xDE5AB7BC, 0x5F6F3CBB, 0x1DA48A85);
    EightRounds(b, r, 40);
  }

  lemma TailRounds64(b: Block, r: Regs)
    requires TailWords48(b)
    requires Rounds(b, r, 48) == Regs(0xA3EF857E, 0xC8CDA3DA, 0xCEF6480E, 0xFF1EF4D7, 0xC7A4D2B3)
    ensures Rounds(b, r, 64) == Regs(0xA5937450, 0xD5EF1ED7, 0xC444CBE3, 0xDDD22788, 0x558467C6)
  {
    hide W, Rounds;
    EightRounds(b, r, 48);
    assert Rounds(b, r, 56) == Regs(0xA1B68141, 0x660DD0B1, 0x0B1CEF5E, 0xE795018D, 0xD7F8A8F6);
    EightRounds(b, r, 56);
  }

  lemma TailRounds80(b: Block, r: Regs)
    requires TailWords64(b)
    requires Rounds(b, r, 64) == Regs(0xA5937450, 0xD5EF1ED7, 0xC444CBE3, 0xDDD22788, 0x558467C6)
    ensures Rounds(b, r, 80) == Regs(0x57AAD805, 0x4D3B0DAC, 0xD27A4A0D, 0x74C040CD, 0x54782008)
  {
    hide W, Rounds;
    EightRounds(b, r, 64);
    assert Rounds(b, r, 72) == Regs(0xC90888CA, 0xF6D1AFEE, 0x6FCE9FE5, 0x538D8F6E, 0x025E9447);
    EightRounds(b, r, 72);
  }

  lemma TailBlock(b: Block)
    requires b[62] == 0x01 && b[63] == 0xE0 && forall i :: 0 <= i < 62 ==> b[i] == 0
    ensures TailWords0(b)
  {
    hide W;
    FirstWord(b, 0, 0, 0, 0, 0);
    FirstWord(b, 1, 0, 0, 0, 0);
    FirstWord(b, 2, 0, 0, 0, 0);
    FirstWord(b, 3, 0, 0, 0, 0);
    FirstWord(b, 4, 0, 0, 0, 0);
    FirstWord(b, 5, 0, 0, 0, 0);
    FirstWord(b, 6, 0, 0, 0, 0);
    FirstWord(b, 7, 0, 0, 0, 0);
    FirstWord(b, 8, 0, 0, 0, 0);
    FirstWord(b, 9, 0, 0, 0, 0);
    FirstWord(b, 10, 0, 0, 0, 0);
    FirstWord(b, 11, 0, 0, 0, 0);
    FirstWord(b, 12, 0, 0, 0, 0);
    FirstWord(b, 13, 0, 0, 0, 0);
    FirstWord(b, 14, 0, 0, 0, 0);
    FirstWord(b, 15, 0, 0, 0x01, 0xE0);
  }

  lemma TailCompress(b: Block)
    requires TailWords0(b)
    ensures Compress([0x5BCF7727, 0x7327416A, 0xBE7BFBF9, 0x5A781878, 0x5E46A4E2], b)
            == [0xB37A4F2C, 0xC0624F16, 0x90F64606, 0xCF385945, 0xB2BEC4EA]
  {
    hide W, Rounds, TailWords0, TailWords16, TailWords32, TailWords48, TailWords64;
    var r := Regs(0x5BCF7727, 0x7327416A, 0xBE7BFBF9, 0x5A781878, 0x5E46A4E2);
    NoRounds(b, r);
    TailRounds16(b, r);
    TailSchedule16(b);
    TailRounds32(b, r);
    TailSchedule32(b);
    TailRounds48(b, r);
    TailSchedule48(b);
    TailRounds64(b, r);
    TailSchedule64(b);
    TailRounds80(b, r);
  }

  lemma SampleBytes()
    ensures DigestBytes([0xB37A4F2C, 0xC0624F16, 0x90F64606, 0xCF385945, 0xB2BEC4EA])
            == [0xB3, 0x7A, 0x4F, 0x2C, 0xC0, 0x62, 0x4F, 0x16, 0x90, 0xF6,
             0x46, 0x06, 0xCF, 0x38, 0x59, 0x45, 0xB2, 0xBE, 0xC4, 0xEA]
  {}

  lemma TwoBlocks(b1: Block, b2: Block)
    ensures Fold(b1 + b2) == Compress(Compress(INITIAL, b1), b2)
  {
    hide Compress;
    OneBlock(b1);
    assert (b1 + b2)[..64] == b1 && (b1 + b2)[64..] == b2;
  }

  lemma SampleLength()
    ensures BigEndian(480, 8) == [0, 0, 0, 0, 0, 0, 0x01, 0xE0]
  {
    assert BigEndian(480, 8) == BigEndian(1, 7) + [0xE0];
    ZeroBytes(6);
  }

  lemma SampleDigest(text: seq<byte>)
    requires SampleText(text)
    ensures Hash(text)
            == [0xB3, 0x7A, 0x4F, 0x2C, 0xC0, 0x62, 0x4F, 0x16, 0x90, 0xF6,
             0x46, 0x06, 0xCF, 0x38, 0x59, 0x45, 0xB2, 0xBE, 0xC4, 0xEA]
  {
    hide Fold, Compress, DigestBytes, SampleText, TextWords0, TailWords0, BigEndian;
    SampleSize(text);
    var b1: Block := text + [0x80, 0, 0, 0];
    var b2: Block := Zeros(56) + BigEndian(480, 8);
    SampleLength();
    assert Pad(text) == b1 + b2;
    assert b1[..60] == text;
    TextBlock(b1);
    TextCompress(b1);
    TailBlock(b2);
    TailCompress(b2);
    TwoBlocks(b1, b2);
    SampleBytes();
  }

  lemma SampleSize(text: seq<byte>)
    requires SampleText(text)
    ensures |text| == 60
  {}
}
