/** Base64 as src/crypto.cpp encodes it, against a decoder for RFC 4648 section 4. */
module Base64 {
  import opened Words

  type sextet = x: int | 0 <= x < 64

  /** `b64_table`. */
  const TABLE: string :=
    "ABCDEFGHIJKLM" + "NOPQRSTUVWXYZ" + "abcdefghijklm" + "nopqrstuvwxyz" + "0123456789+/"

  /** Table 1 of RFC 4648: the character for a 6-bit value. */
  function Char64(v: sextet): char
  {
    if v < 26 then ('A' as int + v) as char
    else if v < 52 then ('a' as int + (v - 26)) as char
    else if v < 62 then ('0' as int + (v - 52)) as char
    else if v == 62 then '+'
    else '/'
  }

  /** The literal table of the source is that of the standard. */
  lemma TableIsStandard(v: sextet)
    ensures |TABLE| == 64 && TABLE[v] == Char64(v)
  {
    assert |TABLE| == 64;
  }

  /** `b64_table[v]`. */
  method Lookup(v: sextet) returns (c: char)
    ensures c == Char64(v)
  {
    TableIsStandard(v);
    c := TABLE[v];
  }

  /** Table 1 of RFC 4648: the value of a character of the alphabet. */
  function Value(c: char): Option<sextet> {
    if 'A' <= c <= 'Z' then Some((c - 'A') as nat)
    else if 'a' <= c <= 'z' then Some((c - 'a') as nat + 26)
    else if '0' <= c <= '9' then Some((c - '0') as nat + 52)
    else if c == '+' then Some(62)
    else if c == '/' then Some(63)
    else None
  }

  /** RFC 4648 section 4 for one group of four characters without padding. */
  function DecodeQuad(q: string): Option<seq<byte>>
    requires |q| == 4
  {
    match (Value(q[0]), Value(q[1]), Value(q[2]), Value(q[3]))
    case (Some(a), Some(b), Some(c), Some(d)) => Some(Join(a, b, c, d))
    case _ => None
  }

  /** 24 bits regrouped from four sextets to three bytes, and back. */
  function Join(w: sextet, x: sextet, y: sextet, z: sextet): (s: seq<byte>)
    ensures |s| == 3
  {
    [w * 4 + x / 16, (x % 16) * 16 + y / 4, (y % 4) * 64 + z]
  }

  function Split(a: byte, b: byte, c: byte): (sextet, sextet, sextet, sextet) {
    (a / 4, (a % 4) * 16 + b / 16, (b % 16) * 4 + c / 64, c % 64)
  }

  lemma Halves4(hi: nat, lo: nat)
    requires lo < 4
    ensures (hi * 4 + lo) / 4 == hi && (hi * 4 + lo) % 4 == lo
  {}

  lemma Halves16(hi: nat, lo: nat)
    requires lo < 16
    ensures (hi * 16 + lo) / 16 == hi && (hi * 16 + lo) % 16 == lo
  {}

  lemma Halves64(hi: nat, lo: nat)
    requires lo < 64
    ensures (hi * 64 + lo) / 64 == hi && (hi * 64 + lo) % 64 == lo
  {}

  lemma JoinSplit(a: byte, b: byte, c: byte)
    ensures var (w, x, y, z) := Split(a, b, c); Join(w, x, y, z) == [a, b, c]
  {
    Halves16(a % 4, b / 16);
    Halves4(b % 16, c / 64);
  }

  lemma JoinBytes(w: sextet, x: sextet, y: sextet, z: sextet)
    ensures var s := Join(w, x, y, z);
            s[0] == w * 4 + x / 16 && s[1] == (x % 16) * 16 + y / 4 && s[2] == (y % 4) * 64 + z
  {}

  lemma Regrouped(w: nat, x: nat, y: nat, z: nat)
    requires x < 64 && y < 64 && z < 64
    ensures (w * 4 + x / 16) / 4 == w
    ensures (w * 4 + x / 16) % 4 * 16 + ((x % 16) * 16 + y / 4) / 16 == x
    ensures ((x % 16) * 16 + y / 4) % 16 * 4 + ((y % 4) * 64 + z) / 64 == y
    ensures ((y % 4) * 64 + z) % 64 == z
  {
    Halves4(w, x / 16);
    Halves16(x % 16, y / 4);
    Halves64(y % 4, z);
  }

  lemma SplitJoin(w: sextet, x: sextet, y: sextet, z: sextet)
    ensures var s := Join(w, x, y, z); Split(s[0], s[1], s[2]) == (w, x, y, z)
  {
    hide Join;
    JoinBytes(w, x, y, z);
    Regrouped(w, x, y, z);
  }

  /** The final group; unused bits must be zero (section 3.5). */
  function DecodeLast(q: string): Option<seq<byte>>
    requires |q| == 4
  {
    if q[3] != '=' then DecodeQuad(q)
    else if q[2] != '=' then
      match DecodeQuad([q[0], q[1], q[2], 'A'])
      case Some(bytes) => if bytes[2] == 0 then Some(bytes[..2]) else None
      case None => None
    else
      match DecodeQuad([q[0], q[1], 'A', 'A'])
      case Some(bytes) => if bytes[1] == 0 then Some(bytes[..1]) else None
      case None => None
  }

  function Decode(s: string): Option<seq<byte>> {
    if s == "" then Some([])
    else if |s| < 4 then None
    else if |s| == 4 then DecodeLast(s)
    else
      match (DecodeQuad(s[..4]), Decode(s[4..]))
      case (Some(head), Some(tail)) => Some(head + tail)
      case _ => None
  }

  /** The four characters of a full group, with the shifts and masks of the source as arithmetic. */
  function Quad(a: byte, b: byte, c: byte): (q: string)
    ensures |q| == 4
  {
    var (w, x, y, z) := Split(a, b, c);
    [Char64(w), Char64(x), Char64(y), Char64(z)]
  }

  function Encode(s: seq<byte>): (r: string) {
    if |s| == 0 then "" else if |s| < 3 then EncodeLast(s) else Quad(s[0], s[1], s[2]) + Encode(s[3..])
  }

  /** The padded last group. */
  function EncodeLast(s: seq<byte>): (r: string)
    requires 1 <= |s| <= 2
    ensures |r| == 4
  {
    if |s| == 1 then Quad(s[0], 0, 0)[..2] + "==" else Quad(s[0], s[1], 0)[..3] + "="
  }

  /** Four characters for every group of three bytes or part of one. */
  lemma {:induction false} EncodeLength(s: seq<byte>)
    ensures |Encode(s)| == (|s| + 2) / 3 * 4
  {
    if |s| >= 3 {
      EncodeLength(s[3..]);
      assert (|s| + 2) / 3 == (|s| - 3 + 2) / 3 + 1;
    }
  }

  /** One turn of the main loop of `base64_encode`. */
  method WriteGroup(a: byte, b: byte, c: byte, out: array<char>, o: nat)
    requires o + 4 <= out.Length
    modifies out
    ensures out[..o + 4] == old(out[..o]) + Quad(a, b, c)
    ensures out[o + 4..] == old(out[o + 4..])
  {
    out[o] := Lookup(a / 4);
    out[o + 1] := Lookup((a % 4) * 16 + b / 16);
    out[o + 2] := Lookup((b % 16) * 4 + c / 64);
    out[o + 3] := Lookup(c % 64);
  }

  /** The padded group after the main loop. */
  method WriteLast(rest: seq<byte>, out: array<char>, o: nat)
    requires 1 <= |rest| <= 2 && o + 4 <= out.Length
    modifies out
    ensures out[..o + 4] == old(out[..o]) + EncodeLast(rest)
    ensures out[o + 4..] == old(out[o + 4..])
  {
    out[o] := Lookup(rest[0] / 4);
    if 1 < |rest| {
      out[o + 1] := Lookup((rest[0] % 4) * 16 + rest[1] / 16);
      out[o + 2] := Lookup((rest[1] % 16) * 4);
    } else {
      out[o + 1] := Lookup((rest[0] % 4) * 16);
      out[o + 2] := '=';
    }
    out[o + 3] := '=';
  }

  /** The main loop of `base64_encode`. */
  method EncodeGroups(data: seq<byte>, out: array<char>) returns (i: nat, o: nat)
    requires out.Length > |Encode(data)|
    modifies out
    ensures i <= |data| <= i + 2 && o <= |Encode(data)|
    ensures out[..o] + Encode(data[i..]) == Encode(data)
    ensures out[o..] == old(out[o..])
  {
    i, o := 0, 0;
    assert data[0..] == data;
    while i + 2 < |data|
      invariant 0 <= i <= |data| && 0 <= o <= |Encode(data)|
      invariant out[..o] + Encode(data[i..]) == Encode(data)
      invariant out[o..] == old(out[o..])
    {
      EncodeStep(data, i, out[..o]);
      WriteGroup(data[i], data[i + 1], data[i + 2], out, o);
      o := o + 4;
      i := i + 3;
    }
  }

  /** `base64_encode`: writes the text and its terminator at the start of `out`. */
  method EncodeInto(data: seq<byte>, out: array<char>)
    requires out.Length > |Encode(data)|
    modifies out
    ensures var n := |Encode(data)|;
            out[..n] == Encode(data) && out[n] == '\0' && out[n + 1..] == old(out[n + 1..])
  {
    var i, o := EncodeGroups(data, out);
    if i < |data| {
      assert Encode(data[i..]) == EncodeLast(data[i..]);
      WriteLast(data[i..], out, o);
      o := o + 4;
    } else {
      assert out[..o] + Encode(data[i..]) == out[..o];
    }
    assert o == |Encode(data)| && out[..o] == Encode(data) && out[o..] == old(out[o..]);
    assert out[o + 1..] == out[o..][1..] && old(out[o + 1..]) == old(out[o..])[1..];
    out[o] := '\0';
  }

  lemma EncodeStep(data: seq<byte>, i: nat, done: string)
    requires i + 2 < |data|
    ensures done + Encode(data[i..])
            == (done + Quad(data[i], data[i + 1], data[i + 2])) + Encode(data[i + 3..])
    ensures |done + Encode(data[i..])| >= |done + Quad(data[i], data[i + 1], data[i + 2])|
  {
    assert data[i..][3..] == data[i + 3..];
    EncodeGroup(data[i..]);
  }

  /** The decoder's ranges invert the table, in both directions. */
  lemma TableHasValue(v: sextet)
    ensures Value(Char64(v)) == Some(v)
  {}

  lemma ValueIsInTable(c: char)
    requires Value(c).Some?
    ensures Char64(Value(c).value) == c
  {}

  lemma QuadDecodes(a: byte, b: byte, c: byte)
    ensures DecodeQuad(Quad(a, b, c)) == Some([a, b, c])
  {
    var (w, x, y, z) := Split(a, b, c);
    TableHasValue(w);
    TableHasValue(x);
    TableHasValue(y);
    TableHasValue(z);
    JoinSplit(a, b, c);
  }

  lemma DecodedQuadEncodes(q: string)
    requires |q| == 4 && DecodeQuad(q).Some?
    ensures var b := DecodeQuad(q).value; |b| == 3 && Quad(b[0], b[1], b[2]) == q
  {
    ValueIsInTable(q[0]);
    ValueIsInTable(q[1]);
    ValueIsInTable(q[2]);
    ValueIsInTable(q[3]);
    SplitJoin(Value(q[0]).value, Value(q[1]).value, Value(q[2]).value, Value(q[3]).value);
  }

  /** Decoding an encoding returns the input, whatever its length. */
  lemma {:induction false} RoundTrip(s: seq<byte>)
    ensures Decode(Encode(s)) == Some(s)
  {
    if |s| == 0 {
    } else if |s| == 1 {
      assert s == [s[0]];
      LastRoundTrip1(s[0]);
    } else if |s| == 2 {
      assert s == [s[0], s[1]];
      LastRoundTrip2(s[0], s[1]);
    } else {
      RoundTrip(s[3..]);
      GroupDecodes(s[0], s[1], s[2], Encode(s[3..]), s[3..]);
      EncodeGroup(s);
      GroupSplits(s);
    }
  }

  lemma EncodeGroup(s: seq<byte>)
    requires |s| >= 3
    ensures Encode(s) == Quad(s[0], s[1], s[2]) + Encode(s[3..])
  {}

  lemma GroupSplits(s: seq<byte>)
    requires |s| >= 3
    ensures s == [s[0], s[1], s[2]] + s[3..]
  {}

  lemma GroupDecodes(a: byte, b: byte, c: byte, t: string, rest: seq<byte>)
    requires Decode(t) == Some(rest)
    ensures Decode(Quad(a, b, c) + t) == Some([a, b, c] + rest)
  {
    QuadDecodes(a, b, c);
    TableHasValue(c % 64);
    var r := Quad(a, b, c) + t;
    if t == "" {
      assert r == Quad(a, b, c) && [a, b, c] + rest == [a, b, c];
    } else {
      assert r[..4] == Quad(a, b, c) && r[4..] == t;
    }
  }

  lemma LastRoundTrip1(a: byte)
    ensures Decode(Encode([a])) == Some([a])
  {
    QuadDecodes(a, 0, 0);
    var q, e := Quad(a, 0, 0), Encode([a]);
    assert e == q[..2] + "==" && [e[0], e[1], 'A', 'A'] == q;
    assert DecodeQuad([e[0], e[1], 'A', 'A']) == Some([a, 0, 0]) && [a, 0, 0][..1] == [a];
  }

  lemma LastRoundTrip2(a: byte, b: byte)
    ensures Decode(Encode([a, b])) == Some([a, b])
  {
    QuadDecodes(a, b, 0);
    var q, e := Quad(a, b, 0), Encode([a, b]);
    assert e == q[..3] + "=" && [e[0], e[1], e[2], 'A'] == q;
    TableHasValue(Split(a, b, 0).2);
    assert DecodeQuad([e[0], e[1], e[2], 'A']) == Some([a, b, 0]) && [a, b, 0][..2] == [a, b];
  }

  /** The decoder accepts nothing but encodings: every text that decodes to s is Encode(s). */
  lemma {:induction false} DecodeIsCanonical(t: string)
    requires Decode(t).Some?
    ensures Encode(Decode(t).value) == t
  {
    if t == "" {
    } else if |t| == 4 {
      LastIsCanonical(t);
    } else {
      DecodedQuadEncodes(t[..4]);
      DecodeIsCanonical(t[4..]);
      var head, tail := DecodeQuad(t[..4]).value, Decode(t[4..]).value;
      assert (head + tail)[3..] == tail;
      assert t == t[..4] + t[4..];
    }
  }

  lemma LastIsCanonical(q: string)
    requires |q| == 4 && DecodeLast(q).Some?
    ensures Encode(DecodeLast(q).value) == q
  {
    if q[3] != '=' {
      DecodedQuadEncodes(q);
      QuadIsEncoding(DecodeQuad(q).value);
    } else if q[2] != '=' {
      DecodedQuadEncodes([q[0], q[1], q[2], 'A']);
      TailOfTwo(q, DecodeQuad([q[0], q[1], q[2], 'A']).value);
    } else {
      DecodedQuadEncodes([q[0], q[1], 'A', 'A']);
      JoinedZeros(q[0], q[1]);
      TailOfOne(q, DecodeQuad([q[0], q[1], 'A', 'A']).value);
    }
  }

  lemma TailOfTwo(q: string, b: seq<byte>)
    requires |q| == 4 && |b| == 3 && q[3] == '=' && b[2] == 0
    requires Quad(b[0], b[1], b[2]) == [q[0], q[1], q[2], 'A']
    ensures Encode(b[..2]) == q
  {
    var quad := Quad(b[0], b[1], 0);
    assert quad[0] == q[0] && quad[1] == q[1] && quad[2] == q[2];
    assert Encode(b[..2]) == quad[..3] + "=";
  }

  lemma TailOfOne(q: string, b: seq<byte>)
    requires |q| == 4 && |b| == 3 && q[2] == q[3] == '=' && b[1] == b[2] == 0
    requires Quad(b[0], b[1], b[2]) == [q[0], q[1], 'A', 'A']
    ensures Encode(b[..1]) == q
  {
    var quad := Quad(b[0], 0, 0);
    assert quad[0] == q[0] && quad[1] == q[1];
    assert Encode(b[..1]) == quad[..2] + "==";
  }

  lemma QuadIsEncoding(b: seq<byte>)
    requires |b| == 3
    ensures Encode(b) == Quad(b[0], b[1], b[2])
  {
    assert b[3..] == [] && Encode([]) == "";
    assert Quad(b[0], b[1], b[2]) + "" == Quad(b[0], b[1], b[2]);
  }

  lemma JoinedZeros(c: char, d: char)
    requires DecodeQuad([c, d, 'A', 'A']).Some?
    ensures DecodeQuad([c, d, 'A', 'A']).value[2] == 0
  {
    assert Value('A') == Some(0);
  }

  /** Distinct inputs have distinct encodings. */
  lemma EncodeIsInjective(s: seq<byte>, t: seq<byte>)
    requires Encode(s) == Encode(t)
    ensures s == t
  {
    RoundTrip(s);
    RoundTrip(t);
  }
}
