/** The WebSocket frame codec of src/websocket.cpp, against RFC 6455 section 5. */
module WebSocketFrame {
  import opened Words

  const OP_CLOSE: byte := 0x8
  const OP_PING: byte := 0x9
  const OP_PONG: byte := 0xA

  /** Exclusive or of the n low-order bits. */
  function XorBits(a: nat, b: nat, n: nat): (r: nat) {
    if n == 0 then 0 else 2 * XorBits(a / 2, b / 2, n - 1) + (a + b) % 2
  }

  function Pow2(n: nat): (r: nat)
    ensures r > 0
  {
    if n == 0 then 1 else 2 * Pow2(n - 1)
  }

  lemma {:induction false} XorBitsTwice(k: nat, x: nat, n: nat)
    requires x < Pow2(n)
    ensures XorBits(k, x, n) < Pow2(n)
    ensures XorBits(k, XorBits(k, x, n), n) == x && XorBits(x, k, n) == XorBits(k, x, n)
  {
    if n > 0 {
      XorBitsTwice(k / 2, x / 2, n - 1);
      var r := XorBits(k / 2, x / 2, n - 1);
      LastBit(k, x, r);
      LastBit(x, k, XorBits(x / 2, k / 2, n - 1));
      assert Pow2(n) == 2 * Pow2(n - 1);
      var y := XorBits(k, x, n);
      assert y == 2 * r + (k + x) % 2 && y / 2 == r;
      assert XorBits(k, y, n) == 2 * XorBits(k / 2, r, n - 1) + (k + y) % 2 == 2 * (x / 2) + x % 2;
    }
  }

  lemma LastBit(k: nat, x: nat, r: nat)
    ensures (2 * r + (k + x) % 2) / 2 == r
    ensures (k + (2 * r + (k + x) % 2)) % 2 == x % 2
  {
    var b := (k + x) % 2;
    assert k + x == 2 * ((k + x) / 2) + b;
  }

  function Xor(a: byte, b: byte): (r: byte) {
    XorBitsTwice(a, b, 8);
    assert Pow2(8) == 0x100;
    XorBits(a, b, 8)
  }

  lemma XorTwice(k: byte, x: byte)
    ensures Xor(k, Xor(k, x)) == x && Xor(x, k) == Xor(k, x)
  {
    assert Pow2(8) == 0x100;
    XorBitsTwice(k, x, 8);
  }

  /** Bit i of a number. */
  function Bit(x: nat, i: nat): nat {
    x / Pow2(i) % 2
  }

  /** Each bit of the result is one exactly when the bits of the arguments differ. */
  lemma {:induction false} XorIsBitwise(a: nat, b: nat, n: nat, i: nat)
    requires i < n
    ensures Bit(XorBits(a, b, n), i) == if Bit(a, i) == Bit(b, i) then 0 else 1
    decreases n
  {
    var r := XorBits(a / 2, b / 2, n - 1);
    XorStep(a, b, r);
    if i > 0 {
      XorIsBitwise(a / 2, b / 2, n - 1, i - 1);
      BitOfHalf(a, i);
      BitOfHalf(b, i);
      BitOfHalf(XorBits(a, b, n), i);
    }
  }

  lemma XorStep(a: nat, b: nat, r: nat)
    ensures (2 * r + (a + b) % 2) / 2 == r
    ensures (2 * r + (a + b) % 2) % 2 == if a % 2 == b % 2 then 0 else 1
  {}

  lemma BitOfHalf(x: nat, i: nat)
    requires i > 0
    ensures Bit(x, i) == Bit(x / 2, i - 1)
  {
    DivideByTwice(x, Pow2(i - 1));
  }

  lemma DivideByTwice(x: nat, p: nat)
    requires p > 0
    ensures x / (2 * p) == x / 2 / p
  {
    var y, q := x / 2, x / 2 / p;
    assert q * p <= y < q * p + p;
    assert 2 * (q * p) <= 2 * y <= x < 2 * y + 2 <= 2 * (q * p + p);
    QuotientUnique(x, 2 * p, q);
  }

  // ----- Reading a received frame -----

  /** The low seven bits of the second byte. */
  function Len7(msg: seq<byte>): nat
    requires |msg| >= 2
  {
    msg[1] % 0x80
  }

  function IsMasked(msg: seq<byte>): bool
    requires |msg| >= 2
  {
    msg[1] >= 0x80
  }

  function IsFin(msg: seq<byte>): bool
    requires |msg| >= 1
  {
    msg[0] >= 0x80
  }

  function Opcode(msg: seq<byte>): byte
    requires |msg| >= 1
  {
    msg[0] % 0x10
  }

  /** `required` of `handle_frame`. */
  function HeaderLen(msg: seq<byte>): (n: nat)
    requires |msg| >= 2
    ensures n == PayloadOffset(msg)
  {
    (if Len7(msg) == 126 then 4 else if Len7(msg) == 127 then 10 else 2) + (if IsMasked(msg) then 4 else 0)
  }

  /** `get_message_len`; the 64-bit form reads as zero. */
  function MessageLen(msg: seq<byte>): (n: nat)
    requires |msg| >= 2 && (Len7(msg) == 126 ==> |msg| >= 4)
  {
    if Len7(msg) == 126 then msg[2] * 0x100 + msg[3]
    else if Len7(msg) == 127 then 0
    else Len7(msg)
  }

  /** `get_mask`, as an offset. */
  function MaskOffset(msg: seq<byte>): nat
    requires |msg| >= 2
  {
    if Len7(msg) == 126 then 4 else if Len7(msg) == 127 then 10 else 2
  }

  /** `get_payload_ptr`, as an offset. */
  function PayloadOffset(msg: seq<byte>): nat
    requires |msg| >= 2
  {
    var p := if Len7(msg) == 126 then 4 else if Len7(msg) == 127 then 10 else 2;
    if IsMasked(msg) then p + 4 else p
  }

  // ----- Writing a frame -----

  /** The bytes `set_size_to_frame` writes. */
  function SizeField(size: nat): seq<byte> {
    if size < 126 then [size]
    else if size < TWO16 then [126, size / 0x100, size % 0x100]
    else [127, 0, 0, 0, 0, 0, 0, size / 0x100 % 0x100, size % 0x100]
  }

  /** `set_size_to_frame`: writes at offset `at`, returns the offset after the field. */
  method SetSizeToFrame(size: nat, out: array<byte>, at: nat) returns (next: nat)
    requires at + |SizeField(size)| <= out.Length
    modifies out
    ensures next == at + |SizeField(size)|
    ensures out[..next] == old(out[..at]) + SizeField(size)
    ensures out[next..] == old(out[next..])
  {
    hide SizeField;
    ghost var was, field := out[..], SizeField(size);
    SizeFieldIs(size);
    if size < 126 {
      out[at] := size;
      next := at + 1;
    } else if size < 65536 {
      out[at] := 126;
      out[at + 1] := size / 0x100 % 0x100;
      out[at + 2] := size % 0x100;
      next := at + 3;
    } else {
      out[at] := 127;
      forall i | 1 <= i < 7 {
        out[at + i] := 0;
      }
      out[at + 7] := size / 0x100 % 0x100;
      out[at + 8] := size % 0x100;
      next := at + 9;
    }
    ghost var now := out[..];
    assert forall k :: 0 <= k < |field| ==> now[at + k] == field[k];
    WrittenAt(was, now, at, field);
    assert out[..next] == now[..next] && out[next..] == now[next..] == was[next..];
  }

  lemma SizeFieldIs(size: nat)
    ensures var f := SizeField(size);
            if size < 126 then |f| == 1 && f[0] == size
            else if size < TWO16
            then |f| == 3 && f[0] == 126 && f[1] == size / 0x100 % 0x100 && f[2] == size % 0x100
            else |f| == 9 && f[0] == 127 && (forall k :: 1 <= k < 7 ==> f[k] == 0)
                 && f[7] == size / 0x100 % 0x100 && f[8] == size % 0x100
  {}

  /** `set_data_to_frame`. */
  method SetDataToFrame(data: seq<byte>, out: array<byte>, at: nat) returns (next: nat)
    requires at + |data| <= out.Length
    modifies out
    ensures next == at + |data|
    ensures out[..next] == old(out[..at]) + data
  {
    forall i | 0 <= i < |data| {
      out[at + i] := data[i];
    }
    next := at + |data|;
  }

  /** The unmasked single frame of RFC 6455 that `send_message` builds. */
  function ServerFrame(op: byte, payload: seq<byte>): seq<byte>
    requires op < 0x10
  {
    [0x80 + op] + SizeField(|payload|) + payload
  }

  /** `send_message` up to the socket call: the packet is a prefix of the send buffer. */
  method BuildFrame(op: byte, payload: seq<byte>, sendBuf: array<byte>) returns (packetSize: nat)
    requires op < 0x10 && |payload| + 10 <= sendBuf.Length
    modifies sendBuf
    ensures packetSize <= sendBuf.Length
    ensures sendBuf[..packetSize] == ServerFrame(op, payload)
  {
    forall i | 0 <= i < sendBuf.Length {
      sendBuf[i] := 0;
    }
    sendBuf[0] := 0x80 + op;
    var p := SetSizeToFrame(|payload|, sendBuf, 1);
    p := SetDataToFrame(payload, sendBuf, p);
    packetSize := p;
    assert sendBuf[..packetSize] == [0x80 + op] + SizeField(|payload|) + payload;
  }

  // ----- Unmasking -----

  /** RFC 6455 section 5.3. */
  function Masked(payload: seq<byte>, mask: seq<byte>): (r: seq<byte>)
    requires |mask| == 4
    ensures |r| == |payload|
  {
    seq(|payload|, i requires 0 <= i < |payload| => Xor(payload[i], mask[i % 4]))
  }

  /** `unmask_message_payload`: in place over `len` bytes from offset `at`. */
  method Unmask(buf: array<byte>, at: nat, len: nat, mask: seq<byte>)
    requires at + len <= buf.Length && |mask| == 4
    modifies buf
    ensures buf[at..at + len] == Masked(old(buf[at..at + len]), mask)
    ensures buf[..at] == old(buf[..at]) && buf[at + len..] == old(buf[at + len..])
  {
    hide Xor;
    ghost var was := buf[..];
    for i := 0 to len
      invariant forall k :: at <= k < at + i ==> buf[k] == Xor(was[k], mask[(k - at) % 4])
      invariant forall k :: 0 <= k < at || at + i <= k < buf.Length ==> buf[k] == was[k]
    {
      XorTwice(mask[i % 4], buf[at + i]);
      buf[at + i] := Xor(mask[i % 4], buf[at + i]);
    }
    ghost var part := was[at..at + len];
    assert |buf[at..at + len]| == |Masked(part, mask)| == len;
    forall k | 0 <= k < len
      ensures buf[at..at + len][k] == Masked(part, mask)[k]
    {
      assert buf[at..at + len][k] == buf[at + k] && part[k] == was[at + k] && (at + k) - at == k;
    }
    assert buf[at..at + len] == Masked(part, mask);
    assert buf[..at] == was[..at] && buf[at + len..] == was[at + len..];
  }

  lemma UnmaskMasked(payload: seq<byte>, mask: seq<byte>)
    requires |mask| == 4
    ensures Masked(Masked(payload, mask), mask) == payload
  {
    forall i | 0 <= i < |payload|
      ensures Xor(Xor(payload[i], mask[i % 4]), mask[i % 4]) == payload[i]
    {
      XorTwice(mask[i % 4], payload[i]);
      XorTwice(mask[i % 4], Xor(mask[i % 4], payload[i]));
    }
  }

  // ----- What one received frame makes the server do -----

  datatype Action =
    | Ignore
    | Pong
    | CloseReply
    | Deliver(op: byte, payload: seq<byte>)

  /** `handle_frame` on the first `length` bytes of the receive buffer. */
  function FrameAction(buf: seq<byte>, length: int): Action
    requires length <= |buf| && PayloadInBuffer(buf, length)
  {
    if length < 2 || length < HeaderLen(buf) then Ignore
    else if Opcode(buf) == OP_PING then Pong
    else if Opcode(buf) == OP_PONG then Ignore
    else if Opcode(buf) == OP_CLOSE then CloseReply
    else if IsFin(buf) then
      var raw := buf[PayloadOffset(buf)..PayloadOffset(buf) + MessageLen(buf)];
      if IsMasked(buf)
      then Deliver(Opcode(buf), Masked(raw, buf[MaskOffset(buf)..MaskOffset(buf) + 4]))
      else Deliver(Opcode(buf), raw)
    else Ignore
  }

  predicate IsControl(msg: seq<byte>)
    requires |msg| >= 1
  {
    Opcode(msg) == OP_PING || Opcode(msg) == OP_PONG || Opcode(msg) == OP_CLOSE
  }

  /** A payload that is read or unmasked, which only a final data frame's is, lies inside the receive buffer. */
  predicate PayloadInBuffer(buf: seq<byte>, length: int)
    requires length <= |buf|
  {
    2 <= length && HeaderLen(buf) <= length && !IsControl(buf) && IsFin(buf)
    ==> PayloadOffset(buf) + MessageLen(buf) <= |buf|
  }

  // ----- The same by the bits of RFC 6455 section 5.2 -----

  /** The length bytes and the mask announced by the second byte have arrived. */
  predicate HeaderComplete(buf: seq<byte>, length: int)
    requires length <= |buf|
  {
    && length >= 2
    && length >= 2 + (if buf[1] % 0x80 == 126 then 2 else if buf[1] % 0x80 == 127 then 8 else 0)
                 + (if buf[1] >= 0x80 then 4 else 0)
  }

  /** The payload of a frame with a complete header; the 64-bit length is not read. */
  ghost predicate HasPayload(buf: seq<byte>, payload: seq<byte>)
    requires |buf| >= 14
  {
    var field: nat := buf[1] % 0x80;
    var start := if field == 126 then 4 else if field == 127 then 10 else 2;
    && |payload| == (if field == 126 then BigEndianValue(buf[2..4]) else if field == 127 then 0 else field)
    && if buf[1] < 0x80 then start + |payload| <= |buf| && payload == buf[start..start + |payload|]
       else start + 4 + |payload| <= |buf|
            && forall i :: 0 <= i < |payload| ==> payload[i] == Xor(buf[start + 4 + i], buf[start + i % 4])
  }

  /** What a frame does, by the low four bits and the top bit of its first byte. */
  lemma FrameByOpcode(buf: seq<byte>, length: int)
    requires 14 <= |buf| && length <= |buf| && PayloadInBuffer(buf, length)
    ensures var action := FrameAction(buf, length);
            && (!HeaderComplete(buf, length) ==> action == Ignore)
            && (HeaderComplete(buf, length) && buf[0] % 0x10 == 0x9 ==> action == Pong)
            && (HeaderComplete(buf, length) && buf[0] % 0x10 == 0xA ==> action == Ignore)
            && (HeaderComplete(buf, length) && buf[0] % 0x10 == 0x8 ==> action == CloseReply)
            && (HeaderComplete(buf, length) && buf[0] % 0x10 !in {0x8, 0x9, 0xA} ==>
                  if buf[0] < 0x80 then action == Ignore
                  else action.Deliver? && action.op == buf[0] % 0x10 && HasPayload(buf, action.payload))
  {
    hide Xor, BigEndianValue;
    LengthByValue(buf);
  }

  lemma LengthByValue(buf: seq<byte>)
    requires |buf| >= 4
    ensures BigEndianValue(buf[2..4]) == ((buf[2] as int) * 0x100) + buf[3]
  {
    ValueOfTwo(buf[2], buf[3]);
    assert buf[2..4] == [buf[2], buf[3]];
  }

  /** A final masked frame as RFC 6455 sections 5.2 and 5.3 have a client send it. */
  function ClientFrame(op: byte, mask: seq<byte>, payload: seq<byte>): seq<byte>
    requires op < 0x10 && |mask| == 4 && |payload| < TWO16
  {
    var size := SizeField(|payload|);
    [0x80 + op, 0x80 + size[0]] + size[1..] + mask + Masked(payload, mask)
  }

  /** The length a standard reader (RFC 6455 section 5.2) finds in a size field. */
  function StandardLength(field: seq<byte>): nat
    requires |field| >= 1
  {
    if field[0] < 126 then field[0] else BigEndianValue(field[1..])
  }

  /** A length is written so that it reads back exactly when it fits 16 bits. */
  lemma SizeFieldExactIff(size: nat)
    ensures StandardLength(SizeField(size)) == size <==> size < TWO16
  {
    var field := SizeField(size);
    if 126 <= size < TWO16 {
      assert field[1..] == [size / 0x100, size % 0x100];
      ValueOfTwo(size / 0x100, size % 0x100);
    } else if TWO16 <= size {
      assert field[1..] == Zeros(6) + [size / 0x100 % 0x100, size % 0x100];
      ValueOfTwo(size / 0x100 % 0x100, size % 0x100);
      LeadingZeros(6, [size / 0x100 % 0x100, size % 0x100]);
    }
  }

  lemma ValueOfTwo(a: byte, b: byte)
    ensures BigEndianValue([a, b]) == a * 0x100 + b
  {
    assert [a, b][..1] == [a] && BigEndianValue([a]) == a;
  }

  lemma {:induction false} LeadingZeros(n: nat, s: seq<byte>)
    ensures BigEndianValue(Zeros(n) + s) == BigEndianValue(s)
  {
    var t := Zeros(n) + s;
    if s != [] {
      assert t[..|t| - 1] == Zeros(n) + s[..|s| - 1];
      LeadingZeros(n, s[..|s| - 1]);
    } else if n > 0 {
      assert t[..|t| - 1] == Zeros(n - 1) + s;
      LeadingZeros(n - 1, s);
    }
  }

  /** A length field of RFC 6455 section 5.2, in any of its three forms. */
  predicate LengthField(field: seq<byte>) {
    && |field| >= 1 && field[0] < 0x80
    && |field| == if field[0] < 126 then 1 else if field[0] == 126 then 3 else 9
  }

  /** Among all fields that denote a 16-bit length the one written is the shortest, and the only one that short. */
  lemma SizeFieldMinimal(size: nat, field: seq<byte>)
    requires size < TWO16 && LengthField(field) && StandardLength(field) == size
    ensures |SizeField(size)| <= |field|
    ensures |SizeField(size)| == |field| ==> field == SizeField(size)
  {
    if |field| == 3 {
      assert field[1..] == [field[1], field[2]];
      ValueOfTwo(field[1], field[2]);
    }
  }

  /** Reading back what the server writes, for every payload with a 16-bit length and no other. */
  lemma ServerFrameReadsBack(op: byte, payload: seq<byte>)
    requires op < 0x10
    ensures var f := ServerFrame(op, payload);
            && |f| >= 2 && IsFin(f) && !IsMasked(f) && Opcode(f) == op
            && f[PayloadOffset(f)..] == payload
            && (MessageLen(f) == |payload| <==> |payload| < TWO16)
  {
    var f := ServerFrame(op, payload);
    var n := |SizeField(|payload|)|;
    assert f[1..1 + n] == SizeField(|payload|);
    assert f[1] == SizeField(|payload|)[0];
    if n > 1 {
      assert f[2] == SizeField(|payload|)[1] && f[3] == SizeField(|payload|)[2];
    }
    assert f[1 + n..] == payload;
  }

  /** Every complete masked data frame is delivered with its own opcode and payload,
      whatever follows it in the buffer. */
  lemma ClientFrameDelivered(op: byte, mask: seq<byte>, payload: seq<byte>, rest: seq<byte>)
    requires op < 0x10 && op != OP_PING && op != OP_PONG && op != OP_CLOSE
    requires |mask| == 4 && |payload| < TWO16
    ensures var f := ClientFrame(op, mask, payload);
            && PayloadInBuffer(f + rest, |f|)
            && FrameAction(f + rest, |f|) == Deliver(op, payload)
  {
    var size, body := SizeField(|payload|), Masked(payload, mask);
    var f := ClientFrame(op, mask, payload);
    var buf := f + rest;
    var m := 1 + |size|;
    ClientFrameLayout(op, mask, payload, rest);
    UnmaskMasked(payload, mask);
    assert buf[m..m + 4] == mask && buf[m + 4..m + 4 + |payload|] == body;
  }

  lemma ClientFrameLayout(op: byte, mask: seq<byte>, payload: seq<byte>, rest: seq<byte>)
    requires op < 0x10 && |mask| == 4 && |payload| < TWO16
    ensures var f := ClientFrame(op, mask, payload);
            var buf := f + rest;
            var m := 1 + |SizeField(|payload|)|;
            && |f| == m + 4 + |payload|
            && IsFin(buf) && IsMasked(buf) && Opcode(buf) == op
            && MaskOffset(buf) == m && PayloadOffset(buf) == m + 4 && MessageLen(buf) == |payload|
            && buf[m..m + 4] == mask && buf[m + 4..m + 4 + |payload|] == Masked(payload, mask)
  {
    var size := SizeField(|payload|);
    var f := ClientFrame(op, mask, payload);
    var buf := f + rest;
    assert buf[0] == 0x80 + op && buf[1] == 0x80 + size[0];
    if |size| == 3 {
      assert buf[2] == size[1] && buf[3] == size[2];
    }
  }
}
