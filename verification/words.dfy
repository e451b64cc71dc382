/** Fixed-width arithmetic shared by the models of the firmware's C code. */
module Words {
  datatype Option<+T> = None | Some(value: T)

  /** An 8-bit unsigned value (uint8_t). */
  type byte = x: int | 0 <= x < 0x100

  const TWO16: nat := 0x1_0000
  const TWO32: nat := 0x1_0000_0000
  const TWO64: nat := 0x1_0000_0000_0000_0000

  /** Truncation to uint16_t. */
  function U16(x: int): (r: nat) {
    x % TWO16
  }

  /** Truncation to uint32_t. */
  function U32(x: int): (r: nat) {
    x % TWO32
  }

  /** Reinterpretation of a 32-bit pattern as int32_t (two's complement). */
  function ToInt32(x: int): (r: int) {
    var u := U32(x);
    if u < 0x8000_0000 then u else u - TWO32
  }

  function Min(a: int, b: int): int {
    if a < b then a else b
  }

  function Zeros(n: nat): (z: seq<byte>)
    ensures |z| == n
  {
    seq(n, i => 0)
  }

  /** The number that bytes denote, most significant first. */
  function BigEndianValue(s: seq<byte>): nat {
    if s == [] then 0 else BigEndianValue(s[..|s| - 1]) * 0x100 + s[|s| - 1]
  }

  /** The concatenation of the parts, in order. */
  function Flatten<T>(parts: seq<seq<T>>): seq<T> {
    if parts == [] then [] else Flatten(parts[..|parts| - 1]) + parts[|parts| - 1]
  }

  lemma QuotientUnique(x: nat, d: nat, q: nat)
    requires d > 0 && d * q <= x < d * q + d
    ensures x / d == q
  {
    var q' := x / d;
    assert d * q' <= x < d * q' + d;
    assert q' < q ==> d * (q' + 1) <= d * q;
    assert q < q' ==> d * (q + 1) <= d * q';
  }

  /** A slice of a part of s, as a slice of s. */
  lemma Within<T>(s: seq<T>, i: nat, part: seq<T>, from: nat, to: nat)
    requires i + |part| <= |s| && s[i..i + |part|] == part && from <= to <= |part|
    ensures s[i + from..i + to] == part[from..to]
  {
    var a, b := s[i..i + |part|], s[i + from..i + to];
    forall k | 0 <= k < to - from
      ensures a[from..to][k] == b[k]
    {
      assert a[from..to][k] == a[from + k] == s[i + (from + k)];
    }
    assert a[from..to] == b;
  }

  lemma AppendOne<T>(a: seq<T>, b: seq<T>, c: T)
    ensures (a + b) + [c] == a + (b + [c])
  {}

  /** A write over `part` at one place of a buffer leaves the front of the buffer followed by `part`. */
  lemma WrittenAt<T>(was: seq<T>, now: seq<T>, at: nat, part: seq<T>)
    requires |was| == |now| && at + |part| <= |now|
    requires forall k :: 0 <= k < at ==> now[k] == was[k]
    requires forall k :: 0 <= k < |part| ==> now[at + k] == part[k]
    ensures now[..at + |part|] == was[..at] + part
  {
    forall k | 0 <= k < at + |part|
      ensures now[..at + |part|][k] == (was[..at] + part)[k]
    {
      if at <= k {
        assert now[at + (k - at)] == part[k - at];
      }
    }
  }
}
