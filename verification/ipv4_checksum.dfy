/**
 The IPv4 header checksum of lwip_patch/ip4.c on a little-endian host: built while the header is
 written, tested on input, updated on forwarding. Standards: RFC 791 section 3.1, RFC 1071, RFC 1624.
 */
module Ipv4Checksum {
  import opened Words

  // ----- Ones'-complement arithmetic -----

  /** A 16-bit word from its low and high byte. */
  function Word(lo: byte, hi: byte): (w: nat)
    ensures w < TWO16
  {
    var l: int, h: int := lo, hi;
    l + 0x100 * h
  }

  /** The sum of the 16-bit words as a little-endian host reads them. */
  function SumLE(h: seq<byte>): nat {
    if |h| < 2 then 0 else SumLE(h[..|h| - 2]) + Word(h[|h| - 2], h[|h| - 1])
  }

  /** The sum of the 16-bit words in network byte order. */
  function SumBE(h: seq<byte>): nat {
    if |h| < 2 then 0 else SumBE(h[..|h| - 2]) + Word(h[|h| - 1], h[|h| - 2])
  }

  /** RFC 1071: carries are added back until none is left. */
  function Fold(x: nat): (r: nat)
    ensures r < TWO16
    decreases x
  {
    if x < TWO16 then x else Fold(x / TWO16 + x % TWO16)
  }

  lemma {:induction false} FoldMeans(x: nat)
    ensures Fold(x) % 0xFFFF == x % 0xFFFF
    ensures Fold(x) == 0 <==> x == 0
    decreases x
  {
    if x >= TWO16 {
      var q, r := x / TWO16, x % TWO16;
      FoldMeans(q + r);
      assert x == (q + r) + 0xFFFF * q;
      ModShift(q + r, q);
    }
  }

  lemma {:induction false} ModShift(a: nat, k: nat)
    ensures (a + 0xFFFF * k) % 0xFFFF == a % 0xFFFF
  {
    if k > 0 {
      ModShift(a, k - 1);
    }
  }

  /** `inet_chksum`: the complement of the folded sum. */
  function InetChksum(h: seq<byte>): nat {
    0xFFFF - Fold(SumLE(h))
  }

  /** The test of `ip4_input`. */
  predicate Accepts(h: seq<byte>) {
    InetChksum(h) == 0
  }

  lemma AcceptsIff(h: seq<byte>)
    ensures Accepts(h) <==> SumLE(h) > 0 && SumLE(h) % 0xFFFF == 0
  {
    FoldMeans(SumLE(h));
  }

  /** RFC 1071 section 2(B): the test does not depend on byte order. */
  lemma AcceptsInNetworkOrder(h: seq<byte>)
    ensures Accepts(h) <==> Fold(SumBE(h)) == 0xFFFF
  {
    hide SumLE, SumBE, Fold;
    AcceptsIff(h);
    FoldMeans(SumBE(h));
    var k := SwapSum(h);
    SwapKeepsMultiples(SumLE(h), SumBE(h), k);
  }

  lemma SwapKeepsMultiples(a: nat, b: nat, k: int)
    requires b == 0x100 * a - 0xFFFF * k
    ensures a % 0xFFFF == 0 <==> b % 0xFFFF == 0
  {
    if a % 0xFFFF == 0 {
      var n := a / 0xFFFF;
      assert b == 0xFFFF * (0x100 * n - k);
      MultipleOfMax(b, 0x100 * n - k);
    }
    if b % 0xFFFF == 0 {
      var n := b / 0xFFFF;
      assert 0x100 * b == 0x10000 * a - 0xFFFF * (0x100 * k);
      assert a == 0xFFFF * (0x100 * n - a + 0x100 * k);
      MultipleOfMax(a, 0x100 * n - a + 0x100 * k);
    }
  }

  lemma MultipleOfMax(a: nat, k: int)
    requires a == 0xFFFF * k
    ensures a % 0xFFFF == 0
  {}

  /** Swapping the bytes of every word multiplies the sum by 256 modulo 65,535. */
  lemma {:induction false} SwapSum(h: seq<byte>) returns (k: nat)
    ensures SumBE(h) == 0x100 * SumLE(h) - 0xFFFF * k
    ensures SumBE(h) == 0 <==> SumLE(h) == 0
  {
    if |h| < 2 {
      k := 0;
    } else {
      var j := SwapSum(h[..|h| - 2]);
      var hi: int := h[|h| - 1];
      k := j + hi;
    }
  }

  /** The weight of byte i in its word, times the difference. */
  function Change(was: int, is_: int, i: nat): int {
    (is_ - was) * if i % 2 == 0 then 1 else 0x100
  }

  /** Changing one byte changes the sum by the difference at that byte's weight. */
  lemma {:induction false} SumChange(h: seq<byte>, i: nat, v: byte)
    requires |h| % 2 == 0 && i < |h|
    ensures SumLE(h[i := v]) == SumLE(h) + Change(h[i], v, i)
  {
    var front, n := h[..|h| - 2], |h| - 2;
    if i < n {
      SumChange(front, i, v);
      assert h[i := v][..n] == front[i := v];
    } else {
      assert h[i := v][..n] == front;
    }
  }

  lemma {:induction false} SumAppend(a: seq<byte>, b: seq<byte>)
    requires |b| % 2 == 0
    ensures SumLE(a + b) == SumLE(a) + SumLE(b)
  {
    if |b| == 0 {
      assert a + b == a;
    } else {
      SumAppend(a, b[..|b| - 2]);
      assert (a + b)[..|a + b| - 2] == a + b[..|b| - 2];
    }
  }

  /** The example of RFC 1071 section 3. */
  lemma SampleSum()
    ensures SumBE([0x00, 0x01, 0xF2, 0x03, 0xF4, 0xF5, 0xF6, 0xF7]) == 0x2DDF0 && Fold(0x2DDF0) == 0xDDF2
  {
    var h: seq<byte> := [0x00, 0x01, 0xF2, 0x03, 0xF4, 0xF5, 0xF6, 0xF7];
    assert h[..6] == [0x00, 0x01, 0xF2, 0x03, 0xF4, 0xF5] && h[..6][..4] == [0x00, 0x01, 0xF2, 0x03];
    assert h[..6][..4][..2] == [0x00, 0x01];
    assert SumBE([0x00, 0x01]) == 1;
  }

  // ----- Building a header -----

  /** `PP_HTONS`/`PP_NTOHS` on a little-endian host. */
  function Swap16(x: nat): (r: nat)
    requires x < TWO16
    ensures r < TWO16
  {
    x % 0x100 * 0x100 + x / 0x100
  }

  type Address = a: seq<byte> | |a| == 4 witness [0, 0, 0, 0]

  function LowWord(a: Address): nat {
    Word(a[0], a[1])
  }

  function HighWord(a: Address): nat {
    Word(a[2], a[3])
  }

  /** The fixed part of an IPv4 header. */
  function FixedHeader(ihl: nat, tos: byte, len: nat, id: nat, ttl: byte, proto: byte, chk: nat,
                       src: Address, dest: Address): (h: seq<byte>)
    requires ihl < 16 && len < TWO16 && id < TWO16 && chk < TWO16
    ensures |h| == 20
  {
    [0x40 + ihl, tos, len / 0x100, len % 0x100, id / 0x100, id % 0x100, 0, 0,
     ttl, proto, chk % 0x100, chk / 0x100] + src + dest
  }

  /** The length of options with their padding. */
  function Aligned(n: nat): (a: nat)
    ensures a % 4 == 0 && a % 2 == 0 && n <= a < n + 4
  {
    var words := (n + 3) / 4;
    Fourfold(words);
    Twofold(2 * words);
    words * 4
  }

  lemma Fourfold(k: nat)
    ensures k * 4 % 4 == 0
  {}

  lemma Twofold(k: nat)
    ensures k * 2 % 2 == 0
  {}

  /** Options padded with zeros to a multiple of four bytes. */
  function Padded(options: seq<byte>): (p: seq<byte>)
    ensures |p| == Aligned(|options|)
  {
    options + Zeros(Aligned(|options|) - |options|)
  }

  /** RFC 791 section 3.1, by offset: a header with its fields, its options, and zeros up to a multiple
      of four bytes. */
  ghost predicate HeaderFields(h: seq<byte>, tos: byte, len: nat, id: nat, ttl: byte, proto: byte,
                               src: Address, dest: Address, options: seq<byte>)
  {
    && |h| % 4 == 0 && 20 + |options| <= |h| < 24 + |options|
    && h[0] == 0x40 + |h| / 4 && h[1] == tos
    && BigEndianValue(h[2..4]) == len && BigEndianValue(h[4..6]) == id && h[6] == 0 && h[7] == 0
    && h[8] == ttl && h[9] == proto && h[12..16] == src && h[16..20] == dest
    && h[20..20 + |options|] == options && forall i :: 20 + |options| <= i < |h| ==> h[i] == 0
  }

  lemma FieldsStand(ihl: nat, tos: byte, len: nat, id: nat, ttl: byte, proto: byte, chk: nat,
                    src: Address, dest: Address, options: seq<byte>)
    requires 4 * ihl == 20 + |Padded(options)| && ihl < 16 && len < TWO16 && id < TWO16 && chk < TWO16
    ensures HeaderFields(FixedHeader(ihl, tos, len, id, ttl, proto, chk, src, dest) + Padded(options),
                         tos, len, id, ttl, proto, src, dest, options)
  {
    var fixed := FixedHeader(ihl, tos, len, id, ttl, proto, chk, src, dest);
    var h := fixed + Padded(options);
    FixedFields(ihl, tos, len, id, ttl, proto, chk, src, dest);
    hide FixedHeader, BigEndianValue;
    assert h[2..4] == fixed[2..4] && h[4..6] == fixed[4..6] && h[12..16] == fixed[12..16] && h[16..20] == fixed[16..20];
    assert h[20..20 + |options|] == options;
    Fourfold(ihl);
  }

  lemma FixedFields(ihl: nat, tos: byte, len: nat, id: nat, ttl: byte, proto: byte, chk: nat,
                    src: Address, dest: Address)
    requires ihl < 16 && len < TWO16 && id < TWO16 && chk < TWO16
    ensures var h := FixedHeader(ihl, tos, len, id, ttl, proto, chk, src, dest);
            && h[0] == 0x40 + ihl && h[1] == tos && BigEndianValue(h[2..4]) == len
            && BigEndianValue(h[4..6]) == id && h[6] == 0 && h[7] == 0
            && h[8] == ttl && h[9] == proto && h[12..16] == src && h[16..20] == dest
  {
    hide BigEndianValue;
    var h := FixedHeader(ihl, tos, len, id, ttl, proto, chk, src, dest);
    TwoBytes(len);
    TwoBytes(id);
    assert h[2..4] == [len / 0x100, len % 0x100] && h[4..6] == [id / 0x100, id % 0x100];
    assert h[12..16] == src && h[16..20] == dest;
  }

  lemma TwoBytes(x: nat)
    requires x < TWO16
    ensures BigEndianValue([x / 0x100, x % 0x100]) == x
  {
    assert [x / 0x100, x % 0x100][..1] == [x / 0x100] && BigEndianValue([x / 0x100]) == x / 0x100;
  }

  /** The sum of ten words. */
  lemma SumOfFixedHeader(h: seq<byte>)
    requires |h| == 20
    ensures SumLE(h) == Word(h[0], h[1]) + Word(h[2], h[3]) + Word(h[4], h[5]) + Word(h[6], h[7]) + Word(h[8], h[9])
                        + Word(h[10], h[11]) + Word(h[12], h[13]) + Word(h[14], h[15]) + Word(h[16], h[17])
                        + Word(h[18], h[19])
  {
    SumOfFiveWords(h[..10]);
    SumOfFiveWords(h[10..]);
    SumAppend(h[..10], h[10..]);
    assert h == h[..10] + h[10..];
  }

  lemma SumOfFiveWords(w: seq<byte>)
    requires |w| == 10
    ensures SumLE(w) == Word(w[0], w[1]) + Word(w[2], w[3]) + Word(w[4], w[5]) + Word(w[6], w[7]) + Word(w[8], w[9])
  {
    assert w[..8][..6] == w[..6] && w[..6][..4] == w[..4] && w[..4][..2] == w[..2];
    assert SumLE(w[..2]) == Word(w[0], w[1]);
    assert SumLE(w[..4]) == SumLE(w[..2]) + Word(w[2], w[3]);
    assert SumLE(w[..6]) == SumLE(w[..4]) + Word(w[4], w[5]);
    assert SumLE(w[..8]) == SumLE(w[..6]) + Word(w[6], w[7]);
  }

  /** Two folds, the second without a mask, are enough for every 32-bit sum. */
  lemma TwoFoldsSuffice(sum: nat)
    requires sum < TWO32
    ensures var once := sum / TWO16 + sum % TWO16;
            (once / TWO16 + once) % TWO16 == Fold(sum)
  {
    hide Fold;
    var once := sum / TWO16 + sum % TWO16;
    FoldOnce(sum);
    FoldOnce(once);
    if once >= TWO16 {
      CarryIsOne(once);
      FoldOnce(once - TWO16 + 1);
    }
  }

  lemma FoldOnce(x: nat)
    ensures Fold(x) == if x < TWO16 then x else Fold(x / TWO16 + x % TWO16)
  {}

  lemma CarryIsOne(x: nat)
    requires TWO16 <= x < 2 * TWO16 - 1
    ensures x / TWO16 == 1 && x % TWO16 == x - TWO16 && (1 + x) % TWO16 == x - TWO16 + 1
  {}

  datatype Err = Ok | ErrVal | ErrBuf

  /** The part of `struct pbuf` the code uses: headers are added below `payload`. */
  class Pbuf {
    const buf: array<byte>
    var payload: nat
    var totLen: nat

    ghost predicate Valid()
      reads this
    {
      payload <= buf.Length && totLen < TWO16
    }

    /** `pbuf_add_header`. */
    method AddHeader(n: nat) returns (failed: bool)
      requires Valid()
      modifies this`payload, this`totLen
      ensures Valid()
      ensures failed <==> n > old(payload) || old(totLen) + n >= TWO16
      ensures if failed then payload == old(payload) && totLen == old(totLen)
              else payload == old(payload) - n && totLen == old(totLen) + n
    {
      if n > payload || totLen + n >= TWO16 {
        return true;
      }
      payload := payload - n;
      totLen := totLen + n;
      return false;
    }
  }

  /** The option block: copied, zero-padded, and summed word by word. */
  method WriteOptions(p: Pbuf, options: seq<byte>) returns (chkSum: nat)
    requires p.Valid() && p.payload + |Padded(options)| <= p.buf.Length
    modifies p.buf
    ensures p.buf[p.payload..p.payload + |Padded(options)|] == Padded(options)
    ensures chkSum == SumLE(Padded(options))
  {
    hide SumLE, Padded, Aligned;
    var aligned := Aligned(|options|);
    forall i | 0 <= i < |options| {
      p.buf[p.payload + i] := options[i];
    }
    forall i | |options| <= i < aligned {
      p.buf[p.payload + i] := 0;
    }
    ghost var block := p.buf[p.payload..p.payload + aligned];
    forall i | 0 <= i < aligned
      ensures block[i] == if i < |options| then options[i] else 0
    {
      assert block[i] == p.buf[p.payload + i];
    }
    PaddedIs(options, block);
    chkSum := SumWords(p, aligned, Padded(options));
  }

  lemma PaddedIs(options: seq<byte>, block: seq<byte>)
    requires |block| == Aligned(|options|)
    requires forall i :: 0 <= i < |options| ==> block[i] == options[i]
    requires forall i :: |options| <= i < |block| ==> block[i] == 0
    ensures block == Padded(options)
  {}

  /** The loop that adds up the option words. */
  method SumWords(p: Pbuf, aligned: nat, ghost words: seq<byte>) returns (chkSum: nat)
    requires p.payload + aligned <= p.buf.Length && |words| == aligned && aligned % 2 == 0
    requires p.buf[p.payload..p.payload + aligned] == words
    ensures chkSum == SumLE(words)
  {
    hide SumLE, Word;
    SumFirstWords(words, 0);
    chkSum := 0;
    for i := 0 to aligned / 2
      invariant chkSum == SumLE(words[..2 * i])
    {
      var lo, hi := p.buf[p.payload + 2 * i], p.buf[p.payload + 2 * i + 1];
      assert lo == words[2 * i] && hi == words[2 * i + 1];
      SumFirstWords(words, i);
      chkSum := chkSum + Word(lo, hi);
    }
    assert words[..2 * (aligned / 2)] == words;
  }

  lemma SumFirstWords(words: seq<byte>, i: nat)
    requires 2 * i <= |words|
    ensures SumLE(words[..0]) == 0
    ensures 2 * i + 2 <= |words|
            ==> SumLE(words[..2 * (i + 1)]) == SumLE(words[..2 * i]) + Word(words[2 * i], words[2 * i + 1])
  {
    if 2 * i + 2 <= |words| {
      assert words[..2 * (i + 1)][..2 * i] == words[..2 * i];
    }
  }

  lemma NoOptions()
    ensures Padded([]) == [] && SumLE([]) == 0
  {}

  /** Header generation in `ip4_output_if_opt_src`; `ipId` is the global counter. */
  method OutputHeader(p: Pbuf, src: Address, dest: Address, ttl: byte, tos: byte, proto: byte,
                      options: seq<byte>, ipId: nat)
    returns (err: Err, nextId: nat, ghost chk: nat)
    requires p.Valid() && ipId < TWO16
    modifies p, p.buf
    ensures p.Valid()
    ensures err == if |options| > 40 then ErrVal
                   else if 20 + |Padded(options)| > old(p.payload) || old(p.totLen) + 20 + |Padded(options)| >= TWO16
                   then ErrBuf
                   else Ok
    ensures nextId == if err == Ok then (ipId + 1) % TWO16 else ipId
    ensures err == Ok ==>
              var n := 20 + |Padded(options)|;
              && p.payload == old(p.payload) - n && p.totLen == old(p.totLen) + n
              && Accepts(p.buf[p.payload..p.payload + n]) && chk < TWO16
              && p.buf[p.payload..p.payload + n]
                 == FixedHeader(n / 4, tos, p.totLen, ipId, ttl, proto, chk, src, dest) + Padded(options)
    ensures err == Ok ==>
              HeaderFields(p.buf[p.payload..p.payload + p.totLen - old(p.totLen)],
                           tos, p.totLen, ipId, ttl, proto, src, dest, options)
  {
    hide SumLE, Accepts, FixedHeader, Padded, Aligned, HeaderFields;
    nextId, chk := ipId, 0;
    var chkSum, ipHlen := 0, 20;
    if |options| != 0 {
      if |options| > 40 {
        return ErrVal, ipId, 0;
      }
      var aligned := Aligned(|options|);
      ipHlen := ipHlen + aligned;
      var failed := p.AddHeader(aligned);
      if failed {
        return ErrBuf, ipId, 0;
      }
      chkSum := WriteOptions(p, options);
    }
    NoOptions();
    assert Padded(options) == p.buf[p.payload..p.payload + |Padded(options)|];
    var failed := p.AddHeader(20);
    if failed {
      return ErrBuf, ipId, 0;
    }
    ghost var tail := p.buf[p.payload + 20..p.payload + ipHlen];
    assert tail == Padded(options);
    nextId, chk := WriteFixed(p, src, dest, ttl, tos, proto, ipHlen, ipId, chkSum, tail);
    FieldsStand(ipHlen / 4, tos, p.totLen, ipId, ttl, proto, chk, src, dest, options);
    err := Ok;
  }

  /** The values the code adds up, in its order, starting from the sum of the options. */
  method SumFields(optionSum: nat, src: Address, dest: Address, ttl: byte, tos: byte, proto: byte,
                   vhl: byte, totLen: nat, ipId: nat) returns (chkSum: nat)
    requires totLen < TWO16 && ipId < TWO16
    ensures chkSum == optionSum + FieldSum(src, dest, ttl, tos, proto, vhl, totLen, ipId)
  {
    chkSum := optionSum;
    chkSum := chkSum + Swap16(Word(proto, ttl));
    chkSum := chkSum + LowWord(dest);
    chkSum := chkSum + HighWord(dest);
    chkSum := chkSum + Swap16(Word(tos, vhl));
    chkSum := chkSum + Swap16(totLen);
    chkSum := chkSum + Swap16(ipId);
    chkSum := chkSum + LowWord(src);
    chkSum := chkSum + HighWord(src);
    SwapWord(proto, ttl);
    SwapWord(tos, vhl);
  }

  /** The sum of the fixed header with a zero checksum field. */
  function FieldSum(src: Address, dest: Address, ttl: byte, tos: byte, proto: byte, vhl: byte,
                    totLen: nat, ipId: nat): (r: nat)
    requires totLen < TWO16 && ipId < TWO16
    ensures r < 9 * TWO16
  {
    Word(ttl, proto) + LowWord(dest) + HighWord(dest) + Word(vhl, tos) + Swap16(totLen) + Swap16(ipId)
    + LowWord(src) + HighWord(src)
  }

  /** The two folds and the complement. */
  method FoldAndComplement(sum: nat) returns (chk: nat)
    requires sum < TWO32
    ensures chk == 0xFFFF - Fold(sum)
  {
    var chkSum := sum;
    chkSum := chkSum / TWO16 + chkSum % TWO16;
    chkSum := chkSum / TWO16 + chkSum;
    chk := 0xFFFF - chkSum % TWO16;
    TwoFoldsSuffice(sum);
  }

  /** The twenty fixed bytes with the checksum field. */
  method WriteFixed(p: Pbuf, src: Address, dest: Address, ttl: byte, tos: byte, proto: byte,
                    ipHlen: nat, ipId: nat, optionSum: nat, ghost tail: seq<byte>)
    returns (nextId: nat, ghost chk: nat)
    requires p.Valid() && ipId < TWO16 && 20 <= ipHlen <= 60 && ipHlen % 4 == 0
    requires p.payload + ipHlen <= p.buf.Length
    requires tail == p.buf[p.payload + 20..p.payload + ipHlen] && optionSum == SumLE(tail)
    modifies p.buf
    ensures nextId == (ipId + 1) % TWO16 && chk < TWO16
    ensures p.buf[p.payload..p.payload + ipHlen]
            == FixedHeader(ipHlen / 4, tos, p.totLen, ipId, ttl, proto, chk, src, dest) + tail
    ensures Accepts(p.buf[p.payload..p.payload + ipHlen])
  {
    hide SumLE, Fold, FieldSum, Accepts;
    var sum := SumFields(optionSum, src, dest, ttl, tos, proto, 0x40 + ipHlen / 4, p.totLen, ipId);
    SumBound(tail);
    var check := FoldAndComplement(sum);
    chk := check;
    nextId := (ipId + 1) % TWO16;
    var fixed := FixedHeader(ipHlen / 4, tos, p.totLen, ipId, ttl, proto, check, src, dest);
    HeaderVerifies(ipHlen / 4, tos, p.totLen, ipId, ttl, proto, src, dest, tail, sum, check);
    ghost var was := p.buf[p.payload..p.payload + ipHlen];
    forall i | 0 <= i < 20 {
      p.buf[p.payload + i] := fixed[i];
    }
    ghost var now := p.buf[p.payload..p.payload + ipHlen];
    HeaderThenTail(now, fixed, tail, was);
  }

  lemma HeaderThenTail(now: seq<byte>, fixed: seq<byte>, tail: seq<byte>, was: seq<byte>)
    requires |now| == |was| == 20 + |tail| && |fixed| == 20 && tail == was[20..]
    requires forall i :: 0 <= i < 20 ==> now[i] == fixed[i]
    requires forall i :: 20 <= i < |now| ==> now[i] == was[i]
    ensures now == fixed + tail
  {}

  lemma {:induction false} SumBound(h: seq<byte>)
    ensures SumLE(h) <= |h| / 2 * 0xFFFF
  {
    if |h| >= 2 {
      SumBound(h[..|h| - 2]);
      OneWordLess(|h|);
    }
  }

  lemma OneWordLess(n: nat)
    requires n >= 2
    ensures (n - 2) / 2 + 1 == n / 2
  {}

  lemma SwapWord(lo: byte, hi: byte)
    ensures Swap16(Word(lo, hi)) == Word(hi, lo)
  {}

  lemma SplitWord(x: nat)
    requires x < TWO16
    ensures Word(x / 0x100, x % 0x100) == Swap16(x) && Word(x % 0x100, x / 0x100) == x
  {}

  lemma SumOfHeader(ihl: nat, tos: byte, len: nat, id: nat, ttl: byte, proto: byte, chk: nat,
                    src: Address, dest: Address)
    requires ihl < 16 && len < TWO16 && id < TWO16 && chk < TWO16
    ensures SumLE(FixedHeader(ihl, tos, len, id, ttl, proto, chk, src, dest))
            == FieldSum(src, dest, ttl, tos, proto, 0x40 + ihl, len, id) + chk
  {
    SumOfFixedHeader(FixedHeader(ihl, tos, len, id, ttl, proto, chk, src, dest));
    SplitWord(len);
    SplitWord(id);
    SplitWord(chk);
  }

  /** The sum the code accumulates is that of the header with a zero checksum field, and writing the
      complement of its fold makes the header verify. */
  lemma HeaderVerifies(ihl: nat, tos: byte, len: nat, id: nat, ttl: byte, proto: byte, src: Address, dest: Address,
                       tail: seq<byte>, sum: nat, chk: nat)
    requires ihl < 16 && len < TWO16 && id < TWO16 && |tail| % 2 == 0
    requires sum == SumLE(tail) + FieldSum(src, dest, ttl, tos, proto, 0x40 + ihl, len, id) && chk == 0xFFFF - Fold(sum)
    ensures SumLE(FixedHeader(ihl, tos, len, id, ttl, proto, 0, src, dest) + tail) == sum
    ensures Accepts(FixedHeader(ihl, tos, len, id, ttl, proto, chk, src, dest) + tail)
  {
    SumOfHeader(ihl, tos, len, id, ttl, proto, 0, src, dest);
    SumOfHeader(ihl, tos, len, id, ttl, proto, chk, src, dest);
    Completed(FixedHeader(ihl, tos, len, id, ttl, proto, 0, src, dest),
              FixedHeader(ihl, tos, len, id, ttl, proto, chk, src, dest), tail,
              FieldSum(src, dest, ttl, tos, proto, 0x40 + ihl, len, id), sum);
  }

  lemma Completed(h0: seq<byte>, h: seq<byte>, tail: seq<byte>, fields: nat, sum: nat)
    requires |tail| % 2 == 0 && SumLE(h0) == fields && sum == SumLE(tail) + fields
    requires SumLE(h) == fields + 0xFFFF - Fold(sum)
    ensures SumLE(h0 + tail) == sum && Accepts(h + tail)
  {
    hide SumLE, Fold, Accepts;
    SumAppend(h0, tail);
    SumAppend(h, tail);
    FoldMeans(sum);
    AcceptsIff(h + tail);
    CompletesToMultiple(sum, Fold(sum));
  }

  lemma CompletesToMultiple(sum: nat, fold: nat)
    requires fold <= 0xFFFF && fold % 0xFFFF == sum % 0xFFFF
    ensures (sum + 0xFFFF - fold) % 0xFFFF == 0
  {
    var q, r := sum / 0xFFFF, fold / 0xFFFF;
    assert sum + 0xFFFF - fold == 0xFFFF * (q + 1 - r);
  }

  // ----- Forwarding -----

  /** `IPH_TTL(iphdr) - 1` stored in a byte. */
  function Decrement(ttl: int): byte {
    (ttl - 1) % 0x100
  }

  /** TTL and checksum in `ip4_forward`, up to the end of the incremental update. */
  method Forward(h: array<byte>) returns (forwarded: bool)
    requires h.Length >= 20
    modifies h
    ensures forwarded <==> old(h[8]) != 1
    ensures forwarded ==> h[..] == Forwarded(old(h[..]))
    ensures forwarded && old(h[8]) > 0 ==> h[8] == old(h[8]) - 1
    ensures forall i :: 0 <= i < h.Length && i !in {8, 10, 11} ==> h[i] == old(h[i])
    ensures !forwarded ==> h[..] == old(h[..])[8 := 0]
  {
    hide Word, NextChecksum;
    ghost var was := h[..];
    h[8] := Decrement(h[8]);
    if h[8] == 0 {
      assert h[..] == was[8 := 0];
      return false;
    }
    var chk := Word(h[10], h[11]);
    chk := UpdateChecksum(chk);
    h[10], h[11] := chk % 0x100, chk / 0x100;
    assert h[..] == was[8 := Decrement(was[8])][10 := chk % 0x100][11 := chk / 0x100];
    return true;
  }

  /** The two branches of the incremental update. */
  method UpdateChecksum(was: nat) returns (chk: nat)
    requires was < TWO16
    ensures chk == NextChecksum(was)
  {
    chk := was;
    if chk >= Swap16(0xFFFF - 0x100) {
      chk := U16(chk + Swap16(0x100) + 1);
    } else {
      chk := U16(chk + Swap16(0x100));
    }
  }

  function NextChecksum(chk: nat): (r: nat)
    requires chk < TWO16
    ensures r < TWO16
  {
    if chk >= 0xFFFE then chk + 2 - TWO16 else chk + 1
  }

  /** The header after the update. */
  function Forwarded(h: seq<byte>): (r: seq<byte>)
    requires |h| >= 20
    ensures |r| == |h|
  {
    var chk := NextChecksum(Word(h[10], h[11]));
    h[8 := Decrement(h[8])][10 := chk % 0x100][11 := chk / 0x100]
  }

  /** A header that verifies still verifies after the update exactly when its TTL was not zero,
      for every checksum value. */
  lemma ForwardedVerifiesIff(h: seq<byte>)
    requires |h| >= 20 && |h| % 2 == 0 && Accepts(h) && h[8] != 1
    ensures Accepts(Forwarded(h)) <==> h[8] >= 1
  {
    var was := Word(h[10], h[11]);
    var chk := NextChecksum(was);
    var ttl := Decrement(h[8]);
    var h1 := h[8 := ttl];
    var h2 := h1[10 := chk % 0x100];
    SumChange(h, 8, ttl);
    SumChange(h1, 10, chk % 0x100);
    SumChange(h2, 11, chk / 0x100);
    SplitWord(chk);
    var s, s' := SumLE(h), SumLE(Forwarded(h));
    ChecksumBytesChange(h[10], h[11], chk);
    var ttl': int, ttl0: int := ttl, h[8];
    assert s' == s + (ttl' - ttl0) + (chk as int - was);
    AcceptsIff(h);
    AcceptsIff(Forwarded(h));
    SumAtLeast(Forwarded(h), 8);
    StillMultipleIff(s, ttl0, was, s');
  }

  lemma ChecksumBytesChange(lo: byte, hi: byte, chk: nat)
    requires chk < TWO16
    ensures Change(lo, chk % 0x100, 10) + Change(hi, chk / 0x100, 11) == chk - Word(lo, hi)
  {}

  lemma StillMultipleIff(s: nat, ttl: int, was: nat, s': nat)
    requires s > 0 && s % 0xFFFF == 0 && 0 <= ttl < 0x100 && ttl != 1 && was < TWO16
    requires s' == s + (Decrement(ttl) as int - ttl) + (NextChecksum(was) as int - was)
    requires s' >= Decrement(ttl)
    ensures s' > 0 && s' % 0xFFFF == 0 <==> ttl >= 1
  {
    if ttl >= 1 {
      assert s' == s || s' == s - 0xFFFF;
    } else {
      assert s' == s + 0x100 || s' == s + 0x100 - 0xFFFF;
    }
  }

  lemma {:induction false} SumAtLeast(h: seq<byte>, i: nat)
    requires |h| % 2 == 0 && i < |h|
    ensures SumLE(h) >= h[i]
  {
    if i < |h| - 2 {
      SumAtLeast(h[..|h| - 2], i);
    }
  }
}
