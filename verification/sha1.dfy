/**
 SHA-1 as src/crypto.cpp computes it, against the definition of RFC 3174.
 The first half states the standard; the second half is the streaming code.
 */
module Sha1Spec {
  import opened Words

  /** RFC 3174 section 5: the logical functions and constants of round t. */
  function Choose(b: bv32, c: bv32, d: bv32): bv32 {
    (b & c) | (!b & d)
  }

  function Parity(b: bv32, c: bv32, d: bv32): bv32 {
    b ^ c ^ d
  }

  function Majority(b: bv32, c: bv32, d: bv32): bv32 {
    (b & c) | (b & d) | (c & d)
  }

  function F(t: nat, b: bv32, c: bv32, d: bv32): bv32 {
    if t < 20 then Choose(b, c, d)
    else if t < 40 then Parity(b, c, d)
    else if t < 60 then Majority(b, c, d)
    else Parity(b, c, d)
  }

  function K(t: nat): bv32 {
    if t < 20 then 0x5A827999
    else if t < 40 then 0x6ED9EBA1
    else if t < 60 then 0x8F1BBCDC
    else 0xCA62C1D6
  }

  type Block = b: seq<byte> | |b| == 64 witness seq(64, i => 0)
  type Digest = h: seq<bv32> | |h| == 5 witness [0, 0, 0, 0, 0]

  /** Big-endian word t of a block. */
  function BlockWord(block: Block, t: nat): bv32
    requires t < 16
  {
    Concat4(block[4 * t] as bv32, block[4 * t + 1] as bv32, block[4 * t + 2] as bv32, block[4 * t + 3] as bv32)
  }

  function Concat4(b0: bv32, b1: bv32, b2: bv32, b3: bv32): bv32 {
    (b0 << 24) | (b1 << 16) | (b2 << 8) | b3
  }

  /** RFC 3174 section 6.1 steps a and b: the message schedule. */
  function W(block: Block, t: nat): bv32 {
    if t < 16 then BlockWord(block, t)
    else Expand(W(block, t - 3), W(block, t - 8), W(block, t - 14), W(block, t - 16))
  }

  function Expand(x: bv32, y: bv32, z: bv32, u: bv32): bv32 {
    (x ^ y ^ z ^ u).RotateLeft(1)
  }

  datatype Regs = Regs(a: bv32, b: bv32, c: bv32, d: bv32, e: bv32)

  /** RFC 3174 section 6.1 step d, one round. */
  function Round(t: nat, r: Regs, w: bv32): Regs {
    Regs(Temp(r.a, F(t, r.b, r.c, r.d), r.e, w, K(t)), r.a, Turn(r.b), r.c, r.d)
  }

  function Temp(a: bv32, f: bv32, e: bv32, w: bv32, k: bv32): bv32 {
    a.RotateLeft(5) + f + e + w + k
  }

  function Turn(b: bv32): bv32 {
    b.RotateLeft(30)
  }

  function Rounds(block: Block, r: Regs, t: nat): Regs {
    if t == 0 then r else Round(t - 1, Rounds(block, r, t - 1), W(block, t - 1))
  }

  /** RFC 3174 section 6.1 steps c to e: one block. */
  function Compress(h: Digest, block: Block): Digest {
    var r := Rounds(block, Regs(h[0], h[1], h[2], h[3], h[4]), 80);
    [Plus(h[0], r.a), Plus(h[1], r.b), Plus(h[2], r.c), Plus(h[3], r.d), Plus(h[4], r.e)]
  }

  /** Addition modulo 2^32. */
  function Plus(x: bv32, y: bv32): bv32 {
    x + y
  }

  const INITIAL: Digest := [0x67452301, 0xEFCDAB89, 0x98BADCFE, 0x10325476, 0xC3D2E1F0]

  /** The chaining value after all blocks of `text`. */
  function Fold(text: seq<byte>): Digest
    requires |text| % 64 == 0
  {
    if text == [] then INITIAL
    else Compress(Fold(text[..|text| - 64]), text[|text| - 64..])
  }

  /** The n low-order bytes of x, most significant first. */
  function BigEndian(x: nat, n: nat): (s: seq<byte>)
    ensures |s| == n
  {
    if n == 0 then [] else BigEndian(x / 256, n - 1) + [x % 256]
  }

  function Pow256(n: nat): (r: nat)
    ensures r > 0
  {
    if n == 0 then 1 else 256 * Pow256(n - 1)
  }

  /** The two-word length field of RFC 3174 section 4 step c denotes its argument. */
  lemma {:induction false} BigEndianRoundTrip(x: nat, n: nat)
    requires x < Pow256(n)
    ensures BigEndianValue(BigEndian(x, n)) == x
  {
    if n > 0 {
      QuotientBelow(x, Pow256(n - 1));
      BigEndianRoundTrip(x / 256, n - 1);
      ValueAppend(BigEndian(x / 256, n - 1), x % 256);
    }
  }

  lemma QuotientBelow(x: nat, p: nat)
    requires x < 256 * p
    ensures x / 256 < p && x == x / 256 * 256 + x % 256
  {}

  lemma ValueAppend(s: seq<byte>, b: byte)
    ensures BigEndianValue(s + [b]) == BigEndianValue(s) * 0x100 + b
  {
    assert (s + [b])[..|s|] == s;
  }

  /** RFC 3174 section 4 with an arbitrary value in the length field. */
  function PadWith(m: seq<byte>, bits: nat): (p: seq<byte>)
    ensures |p| % 64 == 0
  {
    PaddedLength(|m|);
    m + [0x80] + Zeros((55 - |m|) % 64) + BigEndian(bits, 8)
  }

  lemma PaddedLength(n: nat)
    ensures (n + 1 + (55 - n) % 64 + 8) % 64 == 0
  {
    var q, r := (55 - n) / 64, (55 - n) % 64;
    assert 55 - n == 64 * q + r;
    assert n + 1 + r + 8 == 64 * (1 - q);
  }

  /** RFC 3174 section 4: the padded message. */
  function Pad(m: seq<byte>): (p: seq<byte>)
    ensures |p| % 64 == 0
  {
    PadWith(m, 8 * |m|)
  }

  /** RFC 3174 section 6.1: the five digest words written most significant byte first. */
  function WordBytes(w: bv32): (s: seq<byte>)
    ensures |s| == 4
  {
    [((w >> 24) & 0xFF) as bv8 as int, ((w >> 16) & 0xFF) as bv8 as int,
     ((w >> 8) & 0xFF) as bv8 as int, (w & 0xFF) as bv8 as int]
  }

  function DigestBytes(h: Digest): (s: seq<byte>)
    ensures |s| == 20
  {
    WordBytes(h[0]) + WordBytes(h[1]) + WordBytes(h[2]) + WordBytes(h[3]) + WordBytes(h[4])
  }

  function Hash(m: seq<byte>): (s: seq<byte>)
    ensures |s| == 20
  {
    DigestBytes(Fold(Pad(m)))
  }
}

/** The streaming implementation. */
module Sha1 {
  import opened Words
  import opened Sha1Spec

  /** Shifts and a reordered sum, as the code writes the rotations and TEMP of the standard. */
  lemma TempByShifts(a: bv32, f: bv32, e: bv32, w: bv32, k: bv32)
    ensures ((a << 5) | (a >> 27)) + f + e + k + w == Temp(a, f, e, w, k)
  {}

  lemma TurnByShifts(b: bv32)
    ensures (b << 30) | (b >> 2) == Turn(b)
  {}

  lemma ExpandByShifts(x: bv32, y: bv32, z: bv32, u: bv32)
    ensures ((x ^ y ^ z ^ u) << 1) | ((x ^ y ^ z ^ u) >> 31) == Expand(x, y, z, u)
  {}

  /** The choice of f and k at the head of the 80-round loop. */
  method SelectRound(i: nat, b: bv32, c: bv32, d: bv32) returns (f: bv32, k: bv32)
    ensures f == F(i, b, c, d) && k == K(i)
  {
    if i < 20 {
      f, k := Choose(b, c, d), 0x5A827999;
    } else if i < 40 {
      f, k := Parity(b, c, d), 0x6ED9EBA1;
    } else if i < 60 {
      f, k := Majority(b, c, d), 0x8F1BBCDC;
    } else {
      f, k := Parity(b, c, d), 0xCA62C1D6;
    }
  }

  /** The body of the 80-round loop of `sha1_transform`. */
  method OneRound(i: nat, a0: bv32, b0: bv32, c0: bv32, d0: bv32, e0: bv32, wi: bv32)
    returns (a: bv32, b: bv32, c: bv32, d: bv32, e: bv32)
    ensures Regs(a, b, c, d, e) == Round(i, Regs(a0, b0, c0, d0, e0), wi)
  {
    a, b, c, d, e := a0, b0, c0, d0, e0;
    var f, k := SelectRound(i, b, c, d);
    var temp := ((a << 5) | (a >> 27)) + f + e + k + wi;
    TempByShifts(a, f, e, wi, k);
    TurnByShifts(b);
    e := d;
    d := c;
    c := (b << 30) | (b >> 2);
    b := a;
    a := temp;
  }

  /** `w[i] = ...; w[i] = (w[i] << 1) | (w[i] >> 31)`. */
  method ExpandWord(x: bv32, y: bv32, z: bv32, u: bv32) returns (w: bv32)
    ensures w == Expand(x, y, z, u)
  {
    w := x ^ y ^ z ^ u;
    ExpandByShifts(x, y, z, u);
    w := (w << 1) | (w >> 31);
  }

  /** The two schedule loops of `sha1_transform`. */
  method Schedule(block: array<byte>) returns (w: array<bv32>)
    requires block.Length == 64
    ensures fresh(w) && w.Length == 80
    ensures forall j :: 0 <= j < 80 ==> w[j] == W(block[..], j)
  {
    hide BlockWord, Concat4, Expand;
    w := new bv32[80];
    for i := 0 to 16
      invariant forall j :: 0 <= j < i ==> w[j] == W(block[..], j)
    {
      w[i] := BlockWord(block[..], i);
    }
    for i := 16 to 80
      invariant forall j :: 0 <= j < i ==> w[j] == W(block[..], j)
    {
      var x := ExpandWord(w[i - 3], w[i - 8], w[i - 14], w[i - 16]);
      assert x == W(block[..], i);
      w[i] := x;
    }
  }

  /** `sha1_transform`: updates the chaining value in place with one block. */
  method Transform(state: array<bv32>, block: array<byte>)
    requires state.Length == 5 && block.Length == 64
    modifies state
    ensures state[..] == Compress(old(state[..]), block[..])
  {
    hide F, K, Temp, Turn, Plus, Round, W, Compress;
    ghost var blk: Block := block[..];
    var w := Schedule(block);
    var a, b, c, d, e := state[0], state[1], state[2], state[3], state[4];
    ghost var start := Regs(a, b, c, d, e);
    for i := 0 to 80
      invariant Regs(a, b, c, d, e) == Rounds(blk, start, i)
      invariant state[..] == old(state[..])
      invariant forall j :: 0 <= j < 80 ==> w[j] == W(blk, j)
    {
      assert w[i] == W(blk, i);
      a, b, c, d, e := OneRound(i, a, b, c, d, e, w[i]);
    }
    AddTo(state, 0, a);
    AddTo(state, 1, b);
    AddTo(state, 2, c);
    AddTo(state, 3, d);
    AddTo(state, 4, e);
    CompressFrom(old(state[..]), blk, Regs(a, b, c, d, e), state[..]);
  }

  lemma CompressFrom(h: Digest, block: Block, r: Regs, s: Digest)
    requires r == Rounds(block, Regs(h[0], h[1], h[2], h[3], h[4]), 80)
    requires s[0] == Plus(h[0], r.a) && s[1] == Plus(h[1], r.b) && s[2] == Plus(h[2], r.c)
    requires s[3] == Plus(h[3], r.d) && s[4] == Plus(h[4], r.e)
    ensures s == Compress(h, block)
  {}

  /** `state[i] += x`. */
  method AddTo(state: array<bv32>, i: nat, x: bv32)
    requires i < state.Length
    modifies state
    ensures state[i] == Plus(old(state[i]), x)
    ensures forall j :: 0 <= j < state.Length && j != i ==> state[j] == old(state[j])
  {
    state[i] := state[i] + x;
  }

  lemma FoldAppend(done: seq<byte>, block: Block)
    requires |done| % 64 == 0
    ensures |done + block| % 64 == 0
    ensures Fold(done + block) == Compress(Fold(done), block)
  {
    var text := done + block;
    assert text[..|text| - 64] == done && text[|text| - 64..] == block;
  }

  /** The chaining value covers the whole blocks of the text; the buffer holds the rest. */
  ghost predicate Absorbed(h: seq<bv32>, buf: seq<byte>, bufLen: nat, msg: seq<byte>) {
    && |h| == 5 && |buf| == 64 && bufLen < 64
    && |msg| % 64 == bufLen
    && h == Fold(msg[..|msg| - bufLen])
    && buf[..bufLen] == msg[|msg| - bufLen..]
  }

  lemma AbsorbPartial(h: seq<bv32>, buf: seq<byte>, bufLen: nat, msg: seq<byte>, chunk: seq<byte>, buf': seq<byte>)
    requires Absorbed(h, buf, bufLen, msg) && |chunk| < 64 - bufLen
    requires |buf'| == 64 && buf'[..bufLen + |chunk|] == buf[..bufLen] + chunk
    ensures Absorbed(h, buf', bufLen + |chunk|, msg + chunk)
  {
    var done := msg[..|msg| - bufLen];
    assert msg == done + buf[..bufLen];
    assert msg + chunk == done + buf'[..bufLen + |chunk|];
    assert (msg + chunk)[..|done|] == done;
  }

  lemma AbsorbFull(h: seq<bv32>, buf: seq<byte>, bufLen: nat, msg: seq<byte>, chunk: seq<byte>, buf': seq<byte>)
    requires Absorbed(h, buf, bufLen, msg) && |chunk| == 64 - bufLen
    requires buf' == buf[..bufLen] + chunk
    ensures Absorbed(Compress(h, buf'), buf', 0, msg + chunk)
  {
    var done := msg[..|msg| - bufLen];
    assert msg == done + buf[..bufLen];
    assert msg + chunk == done + buf';
    FoldAppend(done, buf');
    assert (msg + chunk)[..|msg + chunk|] == msg + chunk;
  }

  /** `sha1_ctx_t`. `msg` is the text absorbed so far. */
  class Context {
    const h: array<bv32>
    var len: nat
    const buf: array<byte>
    var bufLen: nat
    ghost var msg: seq<byte>

    /** What holds between calls, whatever was absorbed. */
    ghost predicate Valid()
      reads this, h, buf
    {
      && h.Length == 5 && buf.Length == 64 && len < TWO64
      && Absorbed(h[..], buf[..], bufLen, msg)
    }

    /** `sha1_init`. */
    constructor ()
      ensures Valid() && fresh(h) && fresh(buf)
      ensures msg == [] && len == 0
    {
      h := new bv32[5];
      buf := new byte[64];
      len := 0;
      bufLen := 0;
      msg := [];
      new;
      h[0], h[1], h[2], h[3], h[4] := 0x67452301, 0xEFCDAB89, 0x98BADCFE, 0x10325476, 0xC3D2E1F0;
      assert h[..] == INITIAL;
    }

    /** `sha1_update`. The bit count of one call is a 32-bit product. */
    method Update(data: seq<byte>)
      requires Valid() && |data| < TWO32
      modifies this, h, buf
      ensures Valid()
      ensures msg == old(msg) + data
      ensures len == (old(len) + U32(8 * |data|)) % TWO64
    {
      hide Fold, Absorbed;
      len := (len + U32(|data| * 8)) % TWO64;
      var pos, left := 0, |data|;
      while left > 0
        invariant 0 <= pos <= |data| && left == |data| - pos
        invariant Valid()
        invariant msg == old(msg) + data[..pos]
        invariant len == (old(len) + U32(8 * |data|)) % TWO64
      {
        AbsorbedFits(h[..], buf[..], bufLen, msg);
        var toCopy := 64 - bufLen;
        if toCopy > left {
          toCopy := left;
        }
        NextPart(old(msg), data, pos, pos + toCopy);
        Absorb(data[pos..pos + toCopy]);
        pos := pos + toCopy;
        left := left - toCopy;
      }
      assert data[..pos] == data;
    }

    /** One turn of the loop of `sha1_update`: copy a chunk that fits, hash the buffer when full. */
    method Absorb(chunk: seq<byte>)
      requires Valid() && 0 < |chunk| <= 64 - bufLen
      modifies this, h, buf
      ensures Valid()
      ensures msg == old(msg) + chunk && len == old(len)
    {
      CopyIn(chunk);
      bufLen := bufLen + |chunk|;
      msg := msg + chunk;
      ghost var buf' := buf[..];
      if bufLen == 64 {
        AbsorbFull(old(h[..]), old(buf[..]), old(bufLen), old(msg), chunk, buf');
        Transform(h, buf);
        bufLen := 0;
      } else {
        AbsorbPartial(old(h[..]), old(buf[..]), old(bufLen), old(msg), chunk, buf');
      }
    }

    /** `memcpy(buf + buf_len, data, to_copy)`. */
    method CopyIn(chunk: seq<byte>)
      requires bufLen + |chunk| <= buf.Length
      modifies buf
      ensures buf[..bufLen + |chunk|] == old(buf[..bufLen]) + chunk
    {
      forall k | 0 <= k < |chunk| {
        buf[bufLen + k] := chunk[k];
      }
    }

    /** `sha1_final`. */
    method Final() returns (hash: array<byte>)
      requires Valid()
      modifies this, h, buf
      ensures fresh(hash) && hash[..] == DigestBytes(Fold(PadWith(old(msg), old(len))))
    {
      hide Fold, Compress, PadWith, DigestBytes, Absorbed;
      AbsorbedFits(h[..], buf[..], bufLen, msg);
      ghost var h0, buf0, n := h[..], buf[..], bufLen;
      buf[bufLen] := 0x80;
      bufLen := bufLen + 1;
      assert buf[..bufLen] == buf0[..n] + [0x80];
      if bufLen > 56 {
        PadIntoTwoBlocks(h0, buf0, n, msg);
      } else {
        PadIntoOneBlock(h0, buf0, n, msg);
      }
      Transform(h, buf);
      hash := EmitDigest(h);
    }

    /** The branch of `sha1_final` in which the length needs a block of its own. */
    method PadIntoTwoBlocks(ghost h0: seq<bv32>, ghost buf0: seq<byte>, ghost n: nat, ghost msg0: seq<byte>)
      requires h.Length == 5 && buf.Length == 64 && 56 < bufLen <= 64 && h[..] == h0
      requires Absorbed(h0, buf0, n, msg0) && bufLen == n + 1 && buf[..bufLen] == buf0[..n] + [0x80]
      modifies this`bufLen, h, buf
      ensures Compress(h[..], buf[..]) == Fold(PadWith(msg0, len))
    {
      hide Fold, Compress, PadWith, Absorbed, BigEndian;
      ZeroTo(64);
      assert buf[..64] == buf[..];
      ghost var buf1 := buf[..];
      Transform(h, buf);
      bufLen := 0;
      ZeroTo(56);
      assert buf[..56] == [] + Zeros(56) == Zeros(56);
      WriteLength();
      FinalTwoBlocks(h0, buf0, n, msg0, len, buf1, buf[..]);
    }

    /** The other branch. */
    method PadIntoOneBlock(ghost h0: seq<bv32>, ghost buf0: seq<byte>, ghost n: nat, ghost msg0: seq<byte>)
      requires h.Length == 5 && buf.Length == 64 && bufLen <= 56 && h[..] == h0
      requires Absorbed(h0, buf0, n, msg0) && bufLen == n + 1 && buf[..bufLen] == buf0[..n] + [0x80]
      modifies this`bufLen, buf
      ensures Compress(h[..], buf[..]) == Fold(PadWith(msg0, len))
    {
      hide Fold, Compress, PadWith, Absorbed, BigEndian;
      ZeroTo(56);
      WriteLength();
      FinalOneBlock(h0, buf0, n, msg0, len, buf[..]);
    }

    /** `while (buf_len < n) buf[buf_len++] = 0`. */
    method ZeroTo(n: nat)
      requires buf.Length == 64 && bufLen <= n <= 64
      modifies this`bufLen, buf
      ensures bufLen == n
      ensures buf[..n] == old(buf[..bufLen]) + Zeros(n - old(bufLen))
    {
      ghost var start := bufLen;
      while bufLen < n
        invariant start <= bufLen <= n
        invariant buf[..bufLen] == old(buf[..bufLen]) + Zeros(bufLen - start)
      {
        buf[bufLen] := 0;
        bufLen := bufLen + 1;
        assert buf[..bufLen] == old(buf[..bufLen]) + Zeros(bufLen - 1 - start) + [0];
      }
    }

    /** The loop that appends the 64-bit length, most significant byte first. */
    method WriteLength()
      requires buf.Length == 64 && bufLen == 56
      modifies this`bufLen, buf
      ensures bufLen == 64
      ensures buf[..] == old(buf[..56]) + BigEndian(len, 8)
    {
      var i := 7;
      while i >= 0
        invariant -1 <= i <= 7 && bufLen == 63 - i
        invariant buf[..56] == old(buf[..56])
        invariant forall j :: 56 <= j < bufLen ==> buf[j] == BigEndian(len, 8)[j - 56]
      {
        BigEndianByte(len, 8, i);
        buf[bufLen] := (len / Pow256(i)) % 0x100;
        bufLen := bufLen + 1;
        i := i - 1;
      }
    }
  }

  lemma NextPart(front: seq<byte>, data: seq<byte>, from: nat, to: nat)
    requires from <= to <= |data|
    ensures (front + data[..from]) + data[from..to] == front + data[..to]
  {
    assert data[..from] + data[from..to] == data[..to];
  }

  lemma AbsorbedFits(h: seq<bv32>, buf: seq<byte>, bufLen: nat, msg: seq<byte>)
    requires Absorbed(h, buf, bufLen, msg)
    ensures bufLen < 64
  {}

  lemma FinalOneBlock(h: seq<bv32>, buf: seq<byte>, n: nat, msg: seq<byte>, len: nat, last: seq<byte>)
    requires Absorbed(h, buf, n, msg) && n < 56
    requires last == buf[..n] + [0x80] + Zeros(55 - n) + BigEndian(len, 8)
    ensures Compress(h, last) == Fold(PadWith(msg, len))
  {
    hide Fold, Compress, BigEndian, Zeros;
    var done := msg[..|msg| - n];
    assert msg == done + buf[..n];
    assert (55 - |msg|) % 64 == 55 - n;
    Regroup(done, buf[..n], [0x80], Zeros(55 - n), BigEndian(len, 8));
    FoldAppend(done, last);
  }

  lemma Regroup(a: seq<byte>, b: seq<byte>, c: seq<byte>, d: seq<byte>, e: seq<byte>)
    ensures (a + b) + c + d + e == a + (b + c + d + e)
  {}

  lemma FinalTwoBlocks(h: seq<bv32>, buf: seq<byte>, n: nat, msg: seq<byte>, len: nat, b1: seq<byte>, b2: seq<byte>)
    requires Absorbed(h, buf, n, msg) && 56 <= n
    requires b1 == buf[..n] + [0x80] + Zeros(63 - n) && b2 == Zeros(56) + BigEndian(len, 8)
    ensures Compress(Compress(h, b1), b2) == Fold(PadWith(msg, len))
  {
    hide Fold, Compress, BigEndian;
    var done := msg[..|msg| - n];
    assert msg == done + buf[..n];
    assert Zeros(119 - n) == Zeros(63 - n) + Zeros(56);
    assert (55 - |msg|) % 64 == 119 - n;
    hide Zeros;
    Regroup(done, buf[..n], [0x80], Zeros(119 - n), BigEndian(len, 8));
    assert buf[..n] + [0x80] + Zeros(119 - n) + BigEndian(len, 8) == b1 + b2;
    assert (done + b1) + b2 == done + (b1 + b2);
    FoldAppend(done, b1);
    FoldAppend(done + b1, b2);
  }

  /** The last loop of `sha1_final`. */
  method EmitDigest(h: array<bv32>) returns (hash: array<byte>)
    requires h.Length == 5
    ensures fresh(hash) && hash[..] == DigestBytes(h[..])
  {
    hide WordBytes, DigestBytes;
    hash := new byte[20];
    ghost var state: Digest := h[..];
    for i := 0 to 5
      invariant forall k :: 0 <= k < 4 * i ==> hash[k] == DigestBytes(state)[k]
    {
      var word := WordBytes(h[i]);
      DigestWord(state, i);
      hash[i * 4 + 0] := word[0];
      hash[i * 4 + 1] := word[1];
      hash[i * 4 + 2] := word[2];
      hash[i * 4 + 3] := word[3];
    }
    assert hash[..] == DigestBytes(state);
  }

  lemma DigestWord(h: Digest, i: nat)
    requires i < 5
    ensures var d, w := DigestBytes(h), WordBytes(h[i]);
            d[4 * i] == w[0] && d[4 * i + 1] == w[1] && d[4 * i + 2] == w[2] && d[4 * i + 3] == w[3]
  {
    hide WordBytes;
  }

  lemma DivideTwice(x: nat, p: nat)
    requires p > 0
    ensures x / (256 * p) == (x / 256) / p
  {
    var q := (x / 256) / p;
    var y := x / 256;
    assert q * p <= y < q * p + p;
    assert 256 * (q * p) <= 256 * y <= x < 256 * y + 256 <= 256 * (q * p + p);
    QuotientUnique(x, 256 * p, q);
  }

  /** Byte n - 1 - i of the big-endian form is the byte that shifting by 8 i bits exposes. */
  lemma {:induction false} BigEndianByte(x: nat, n: nat, i: nat)
    requires i < n
    ensures BigEndian(x, n)[n - 1 - i] == (x / Pow256(i)) % 256
  {
    if i > 0 {
      BigEndianByte(x / 256, n - 1, i - 1);
      DivideTwice(x, Pow256(i - 1));
    }
  }
}

/** Whole runs: `sha1_init`, any sequence of `sha1_update` calls, `sha1_final`. */
module Sha1Runs {
  import opened Words
  import opened Sha1Spec
  import opened Sha1

  /** From 2^29 bytes on, the bit count of one call no longer fits the 32-bit product. */
  const CHUNK_LIMIT: nat := 0x2000_0000

  /** What the `len` field holds after the calls. */
  function LengthField(chunks: seq<seq<byte>>): nat {
    if chunks == [] then 0
    else (LengthField(chunks[..|chunks| - 1]) + U32(8 * |chunks[|chunks| - 1]|)) % TWO64
  }

  ghost predicate AllBelow(chunks: seq<seq<byte>>, limit: nat) {
    forall i :: 0 <= i < |chunks| ==> |chunks[i]| < limit
  }

  lemma {:induction false} LengthFieldBound(chunks: seq<seq<byte>>)
    requires AllBelow(chunks, TWO32) && 8 * |Flatten(chunks)| < TWO64
    ensures LengthField(chunks) <= 8 * |Flatten(chunks)|
    ensures LengthField(chunks) == 8 * |Flatten(chunks)| <==> AllBelow(chunks, CHUNK_LIMIT)
  {
    if chunks == [] {
    } else {
      var front, last := chunks[..|chunks| - 1], chunks[|chunks| - 1];
      LengthFieldBound(front);
      assert U32(8 * |last|) == 8 * |last| <==> |last| < CHUNK_LIMIT;
      assert AllBelow(chunks, CHUNK_LIMIT) <==> AllBelow(front, CHUNK_LIMIT) && |last| < CHUNK_LIMIT;
    }
  }

  /** The padding is that of RFC 3174 exactly when no single call reaches 2^29 bytes. */
  lemma PaddingExactIff(chunks: seq<seq<byte>>)
    requires AllBelow(chunks, TWO32) && 8 * |Flatten(chunks)| < TWO64
    ensures PadWith(Flatten(chunks), LengthField(chunks)) == Pad(Flatten(chunks))
            <==> AllBelow(chunks, CHUNK_LIMIT)
  {
    hide LengthField, Flatten, PadWith, BigEndian, AllBelow;
    LengthFieldBound(chunks);
    var m, l := Flatten(chunks), LengthField(chunks);
    assert Pow256(8) == TWO64;
    hide Pow256;
    BigEndianRoundTrip(l, 8);
    BigEndianRoundTrip(8 * |m|, 8);
    if PadWith(m, l) == Pad(m) {
      PadEndsWith(m, l);
      PadEndsWith(m, 8 * |m|);
    }
  }

  lemma PadEndsWith(m: seq<byte>, bits: nat)
    ensures var p := PadWith(m, bits);
            |p| >= 8 && p[|p| - 8..] == BigEndian(bits, 8)
  {
    hide BigEndian;
  }

  /** The text of RFC 3174 section 4: message, a one bit, fewest zero bits, 64-bit length. */
  lemma PadMeetsStandard(m: seq<byte>)
    requires 8 * |m| < TWO64
    ensures var p := Pad(m);
            && |p| % 64 == 0 && |m| + 9 <= |p| < |m| + 9 + 64
            && p[..|m|] == m && p[|m|] == 0x80
            && (forall i :: |m| < i < |p| - 8 ==> p[i] == 0)
            && BigEndianValue(p[|p| - 8..]) == 8 * |m|
  {
    var p := Pad(m);
    assert Pow256(8) == TWO64;
    BigEndianRoundTrip(8 * |m|, 8);
    assert p[|p| - 8..] == BigEndian(8 * |m|, 8);
  }

  /** With exact padding the streamed digest is the hash of the standard. */
  lemma ExactPaddingHashes(m: seq<byte>, bits: nat)
    requires PadWith(m, bits) == Pad(m)
    ensures DigestBytes(Fold(PadWith(m, bits))) == Hash(m)
  {}

  method HashChunks(chunks: seq<seq<byte>>) returns (hash: array<byte>)
    requires AllBelow(chunks, TWO32)
    ensures hash[..] == DigestBytes(Fold(PadWith(Flatten(chunks), LengthField(chunks))))
    ensures AllBelow(chunks, CHUNK_LIMIT) && 8 * |Flatten(chunks)| < TWO64 ==> hash[..] == Hash(Flatten(chunks))
  {
    hide Fold, DigestBytes, PadWith, Pad, Flatten, LengthField, Absorbed;
    var ctx := new Context();
    NoChunks(chunks);
    for i := 0 to |chunks|
      invariant ctx.Valid() && fresh(ctx) && fresh(ctx.h) && fresh(ctx.buf)
      invariant ctx.msg == Flatten(chunks[..i]) && ctx.len == LengthField(chunks[..i])
    {
      OneMoreChunk(chunks, i);
      ctx.Update(chunks[i]);
    }
    assert chunks[..|chunks|] == chunks;
    hash := ctx.Final();
    StandardIfBelow(chunks);
  }

  lemma NoChunks(chunks: seq<seq<byte>>)
    ensures Flatten(chunks[..0]) == [] && LengthField(chunks[..0]) == 0
  {}

  lemma OneMoreChunk(chunks: seq<seq<byte>>, i: nat)
    requires i < |chunks|
    ensures Flatten(chunks[..i + 1]) == Flatten(chunks[..i]) + chunks[i]
    ensures LengthField(chunks[..i + 1]) == (LengthField(chunks[..i]) + U32(8 * |chunks[i]|)) % TWO64
  {
    assert chunks[..i + 1][..i] == chunks[..i];
  }

  lemma StandardIfBelow(chunks: seq<seq<byte>>)
    requires AllBelow(chunks, TWO32)
    ensures AllBelow(chunks, CHUNK_LIMIT) && 8 * |Flatten(chunks)| < TWO64
            ==> DigestBytes(Fold(PadWith(Flatten(chunks), LengthField(chunks)))) == Hash(Flatten(chunks))
  {
    hide Fold, DigestBytes, PadWith, Pad, Flatten, LengthField, AllBelow, Hash;
    if AllBelow(chunks, CHUNK_LIMIT) && 8 * |Flatten(chunks)| < TWO64 {
      PaddingExactIff(chunks);
      ExactPaddingHashes(Flatten(chunks), LengthField(chunks));
    }
  }
}
