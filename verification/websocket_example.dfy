/** The sample handshake of RFC 6455 section 1.3 and the sample frame of its section 5.7. */
module WebSocketExamples {
  import opened Words
  import opened WebSocketFrame
  import opened WebSocketHandshake
  import Base64
  import Sha1Spec
  import Sha1Examples

  const KEY := "dGhlIHNhbXBs" + "ZSBub25jZQ=="

  lemma AsciiAppend(s: string, t: string)
    ensures Ascii(s + t) == Ascii(s) + Ascii(t)
  {}

  lemma KeyBytes()
    ensures Ascii(KEY) == [0x64, 0x47, 0x68, 0x6C, 0x49, 0x48, 0x4E, 0x68, 0x62, 0x58, 0x42, 0x73]
                          + [0x5A, 0x53, 0x42, 0x75, 0x62, 0x32, 0x35, 0x6A, 0x5A, 0x51, 0x3D, 0x3D]
  {
    AsciiAppend("dGhlIHNhbXBs", "ZSBub25jZQ==");
    assert Ascii("dGhlIHNhbXBs") == [0x64, 0x47, 0x68, 0x6C, 0x49, 0x48, 0x4E, 0x68, 0x62, 0x58, 0x42, 0x73];
    assert Ascii("ZSBub25jZQ==") == [0x5A, 0x53, 0x42, 0x75, 0x62, 0x32, 0x35, 0x6A, 0x5A, 0x51, 0x3D, 0x3D];
  }

  lemma GuidBytes()
    ensures Ascii(GUID) == [0x32, 0x35, 0x38, 0x45, 0x41, 0x46, 0x41, 0x35, 0x2D, 0x45, 0x39, 0x31, 0x34, 0x2D]
                           + [0x34, 0x37, 0x44, 0x41, 0x2D, 0x39, 0x35, 0x43, 0x41, 0x2D]
                           + [0x43, 0x35, 0x41, 0x42, 0x30, 0x44, 0x43, 0x38, 0x35, 0x42, 0x31, 0x31]
  {
    AsciiAppend("258EAFA5-E914-", "47DA-95CA-");
    AsciiAppend("258EAFA5-E914-" + "47DA-95CA-", "C5AB0DC85B11");
    assert Ascii("258EAFA5-E914-")
        == [0x32, 0x35, 0x38, 0x45, 0x41, 0x46, 0x41, 0x35, 0x2D, 0x45, 0x39, 0x31, 0x34, 0x2D];
    assert Ascii("47DA-95CA-") == [0x34, 0x37, 0x44, 0x41, 0x2D, 0x39, 0x35, 0x43, 0x41, 0x2D];
    assert Ascii("C5AB0DC85B11") == [0x43, 0x35, 0x41, 0x42, 0x30, 0x44, 0x43, 0x38, 0x35, 0x42, 0x31, 0x31];
  }

  lemma KeyAndGuid()
    ensures Sha1Examples.SampleText(Ascii(KEY) + Ascii(GUID))
  {
    hide Ascii;
    KeyBytes();
    GuidBytes();
  }

  lemma EncodeGroup(a: byte, b: byte, c: byte, rest: seq<byte>)
    ensures Base64.Encode([a, b, c] + rest) == Base64.Quad(a, b, c) + Base64.Encode(rest)
  {
    assert ([a, b, c] + rest)[3..] == rest;
  }

  lemma Groups()
    ensures Base64.Quad(0xB3, 0x7A, 0x4F) == "s3pP" && Base64.Quad(0x2C, 0xC0, 0x62) == "LMBi"
    ensures Base64.Quad(0x4F, 0x16, 0x90) == "TxaQ" && Base64.Quad(0xF6, 0x46, 0x06) == "9kYG"
    ensures Base64.Quad(0xCF, 0x38, 0x59) == "zzhZ" && Base64.Quad(0x45, 0xB2, 0xBE) == "RbK+"
    ensures Base64.Encode([0xC4, 0xEA]) == "xOo="
  {}

  lemma DigestEncoded()
    ensures Base64.Encode([0xB3, 0x7A, 0x4F, 0x2C, 0xC0, 0x62, 0x4F, 0x16, 0x90, 0xF6,
                           0x46, 0x06, 0xCF, 0x38, 0x59, 0x45, 0xB2, 0xBE, 0xC4, 0xEA])
            == "s3pPLMBiTxaQ" + "9kYGzzhZRbK+" + "xOo="
  {
    hide Base64.Encode, Base64.Quad;
    Groups();
    var g7: seq<byte> := [0xC4, 0xEA];
    var g6: seq<byte> := [0x45, 0xB2, 0xBE] + g7;
    var g5: seq<byte> := [0xCF, 0x38, 0x59] + g6;
    var g4: seq<byte> := [0xF6, 0x46, 0x06] + g5;
    var g3: seq<byte> := [0x4F, 0x16, 0x90] + g4;
    var g2: seq<byte> := [0x2C, 0xC0, 0x62] + g3;
    EncodeGroup(0x45, 0xB2, 0xBE, g7);
    EncodeGroup(0xCF, 0x38, 0x59, g6);
    EncodeGroup(0xF6, 0x46, 0x06, g5);
    EncodeGroup(0x4F, 0x16, 0x90, g4);
    EncodeGroup(0x2C, 0xC0, 0x62, g3);
    EncodeGroup(0xB3, 0x7A, 0x4F, g2);
    assert [0xB3, 0x7A, 0x4F] + g2 == [0xB3, 0x7A, 0x4F, 0x2C, 0xC0, 0x62, 0x4F, 0x16, 0x90, 0xF6,
                                       0x46, 0x06, 0xCF, 0x38, 0x59, 0x45, 0xB2, 0xBE, 0xC4, 0xEA];
    assert "s3pP" + ("LMBi" + ("TxaQ" + ("9kYG" + ("zzhZ" + ("RbK+" + "xOo=")))))
        == ("s3pP" + "LMBi" + "TxaQ") + ("9kYG" + "zzhZ" + "RbK+") + "xOo=";
    assert "s3pP" + "LMBi" + "TxaQ" == "s3pPLMBiTxaQ" && "9kYG" + "zzhZ" + "RbK+" == "9kYGzzhZRbK+";
  }

  /** The accept value that the standard gives for its sample key. */
  lemma SampleKeyIsAccepted()
    ensures AcceptValue(Ascii(KEY)) == "s3pPLMBiTxaQ" + "9kYGzzhZRbK+" + "xOo="
  {
    hide Ascii, Base64.Encode, Sha1Spec.Hash, Sha1Examples.SampleText;
    KeyAndGuid();
    Sha1Examples.SampleDigest(Ascii(KEY) + Ascii(GUID));
    DigestEncoded();
  }

  lemma XorHalf(a: nat, b: nat, n: nat)
    requires n > 0
    ensures XorBits(a, b, n) == 2 * XorBits(a / 2, b / 2, n - 1) + (a + b) % 2
  {}

  lemma XorEnds(a: nat, b: nat)
    ensures XorBits(a, b, 0) == 0
  {}

  /** Eight bits, one by one. */
  lemma XorIs(a: byte, b: byte, a1: nat, b1: nat, a2: nat, b2: nat, a3: nat, b3: nat,
              a4: nat, b4: nat, a5: nat, b5: nat, a6: nat, b6: nat, a7: nat, b7: nat, r: nat)
    requires a1 == a / 2 && a2 == a1 / 2 && a3 == a2 / 2 && a4 == a3 / 2 && a5 == a4 / 2 && a6 == a5 / 2 && a7 == a6 / 2
    requires b1 == b / 2 && b2 == b1 / 2 && b3 == b2 / 2 && b4 == b3 / 2 && b5 == b4 / 2 && b6 == b5 / 2 && b7 == b6 / 2
    requires r == (a + b) % 2 + 2 * ((a1 + b1) % 2) + 4 * ((a2 + b2) % 2) + 8 * ((a3 + b3) % 2)
                  + 16 * ((a4 + b4) % 2) + 32 * ((a5 + b5) % 2) + 64 * ((a6 + b6) % 2) + 128 * ((a7 + b7) % 2)
    ensures Xor(a, b) == r
  {
    XorIsBits(a, b);
    hide Xor, XorBits;
    XorHalf(a, b, 8);
    XorHalf(a1, b1, 7);
    XorHalf(a2, b2, 6);
    XorHalf(a3, b3, 5);
    XorHalf(a4, b4, 4);
    XorHalf(a5, b5, 3);
    XorHalf(a6, b6, 2);
    XorHalf(a7, b7, 1);
    XorEnds(a7 / 2, b7 / 2);
  }

  lemma XorIsBits(a: byte, b: byte)
    ensures Xor(a, b) == XorBits(a, b, 8)
  {}

  lemma MaskedHello(hello: seq<byte>, mask: seq<byte>)
    requires hello == [0x48, 0x65, 0x6C, 0x6C, 0x6F] && mask == [0x37, 0xFA, 0x21, 0x3D]
    ensures Masked(hello, mask) == [0x7F, 0x9F, 0x4D, 0x51, 0x58]
  {
    hide Xor, XorBits;
    XorIs(hello[0], mask[0], 36, 27, 18, 13, 9, 6, 4, 3, 2, 1, 1, 0, 0, 0, 0x7F);
    XorIs(hello[1], mask[1], 50, 125, 25, 62, 12, 31, 6, 15, 3, 7, 1, 3, 0, 1, 0x9F);
    XorIs(hello[2], mask[2], 54, 16, 27, 8, 13, 4, 6, 2, 3, 1, 1, 0, 0, 0, 0x4D);
    XorIs(hello[3], mask[3], 54, 30, 27, 15, 13, 7, 6, 3, 3, 1, 1, 0, 0, 0, 0x51);
    XorIs(hello[4], mask[0], 55, 27, 27, 13, 13, 6, 6, 3, 3, 1, 1, 0, 0, 0, 0x58);
  }

  /** The masked text frame that the standard gives for "Hello" delivers it. */
  lemma SampleFrameIsHello(rest: seq<byte>)
    ensures var frame := [0x81, 0x85, 0x37, 0xFA, 0x21, 0x3D, 0x7F, 0x9F, 0x4D, 0x51, 0x58];
            && PayloadInBuffer(frame + rest, 11)
            && FrameAction(frame + rest, 11) == Deliver(1, [0x48, 0x65, 0x6C, 0x6C, 0x6F])
  {
    hide Masked, FrameAction, PayloadInBuffer;
    var hello: seq<byte>, mask: seq<byte> := [0x48, 0x65, 0x6C, 0x6C, 0x6F], [0x37, 0xFA, 0x21, 0x3D];
    MaskedHello(hello, mask);
    assert ClientFrame(1, mask, hello) == [0x81, 0x85, 0x37, 0xFA, 0x21, 0x3D, 0x7F, 0x9F, 0x4D, 0x51, 0x58];
    ClientFrameDelivered(1, mask, hello, rest);
  }
}
