/** Byte-level vocabulary shared by the models: unsigned machine words of the
    widths the C sources use, big-endian reads, and the wrap-around of `ulong`
    arithmetic where it matters. */
module Bytes {

  type byte = x: int | 0 <= x < 0x100

  const UshortMax: nat := 0xFFFF
  const UintMax: nat := 0xFFFF_FFFF
  const UlongMax: nat := 0xFFFF_FFFF_FFFF_FFFF
  const LongMax: nat := 0x7FFF_FFFF_FFFF_FFFF

  /** 2^64: the modulus of C `ulong` arithmetic. */
  const UlongMod: nat := 0x1_0000_0000_0000_0000

  /** The big-endian 16-bit value stored at `s[i..i+2]`. */
  function Be16(s: seq<byte>, i: nat): (v: nat)
    requires i + 2 <= |s|
    ensures v < 0x1_0000
    ensures v / 0x100 == s[i] && v % 0x100 == s[i + 1]
  {
    (s[i] as int) * 0x100 + (s[i + 1] as int)
  }

  /** The big-endian 24-bit value stored at `s[i..i+3]`. */
  function Be24(s: seq<byte>, i: nat): (v: nat)
    requires i + 3 <= |s|
    ensures v < 0x100_0000
  {
    (s[i] as int) * 0x1_0000 + (s[i + 1] as int) * 0x100 + (s[i + 2] as int)
  }

  /** The two big-endian bytes of a 16-bit value. */
  function U16Bytes(v: nat): (b: seq<byte>)
    requires v < 0x1_0000
    ensures |b| == 2
  {
    [v / 0x100, v % 0x100]
  }

  /** The three big-endian bytes of a 24-bit value. */
  function U24Bytes(v: nat): (b: seq<byte>)
    requires v < 0x100_0000
    ensures |b| == 3
  {
    [v / 0x1_0000, (v / 0x100) % 0x100, v % 0x100]
  }

  /** Reading back the bytes of a 16-bit value gives the value. */
  lemma Be16RoundTrip(v: nat, s: seq<byte>, i: nat)
    requires v < 0x1_0000 && i + 2 <= |s| && s[i..i + 2] == U16Bytes(v)
    ensures Be16(s, i) == v
  {
    assert s[i] == v / 0x100 && s[i + 1] == v % 0x100;
  }

  /** Reading back the bytes of a 24-bit value gives the value. */
  lemma Be24RoundTrip(v: nat, s: seq<byte>, i: nat)
    requires v < 0x100_0000 && i + 3 <= |s| && s[i..i + 3] == U24Bytes(v)
    ensures Be24(s, i) == v
  {
    assert s[i] == v / 0x1_0000 && s[i + 1] == (v / 0x100) % 0x100 && s[i + 2] == v % 0x100;
    var hi := v / 0x1_0000;
    var r := v % 0x1_0000;
    var mid := r / 0x100;
    var lo := r % 0x100;
    Div16(v, hi, r);
    Div8(r, mid, lo);
    Div8(v, hi * 0x100 + mid, lo);
    Div8(hi * 0x100 + mid, hi, mid);
  }

  /** Writing the value read from two bytes gives the bytes back. */
  lemma U16BytesOfBe16(s: seq<byte>, i: nat)
    requires i + 2 <= |s|
    ensures U16Bytes(Be16(s, i)) == s[i..i + 2]
  {
  }

  /** Writing the value read from three bytes gives the bytes back. */
  lemma U24BytesOfBe24(s: seq<byte>, i: nat)
    requires i + 3 <= |s|
    ensures U24Bytes(Be24(s, i)) == s[i..i + 3]
  {
    var v := Be24(s, i);
    var a, b, c := s[i] as int, s[i + 1] as int, s[i + 2] as int;
    Div8(v, a * 0x100 + b, c);
    Div8(a * 0x100 + b, a, b);
    Div16(v, a, b * 0x100 + c);
  }

  /** The low three bytes of `x`, high first, as three `(uchar)` casts of
      `x >> 16`, `x >> 8` and `x` produce them, are the bytes of `x` modulo
      2^24. */
  lemma LowBytes24(x: nat)
    ensures [LowByte(x / 0x1_0000), LowByte(x / 0x100), LowByte(x)] == U24Bytes(x % 0x100_0000)
  {
    HighByteOf24(x);
    MiddleByteOf24(x);
    LowByteOf24(x);
  }

  lemma HighByteOf24(x: nat)
    ensures (x / 0x1_0000) % 0x100 == (x % 0x100_0000) / 0x1_0000
  {
    var q := x / 0x100_0000;
    var v := x % 0x100_0000;
    Div24(x, q, v);
    var a := v / 0x1_0000;
    var lo := v % 0x1_0000;
    Div16(v, a, lo);
    Div16(x, q * 0x100 + a, lo);
    Div8(q * 0x100 + a, q, a);
  }
  lemma MiddleByteOf24(x: nat)
    ensures (x / 0x100) % 0x100 == ((x % 0x100_0000) / 0x100) % 0x100
  {
    var q := x / 0x100_0000;
    var v := x % 0x100_0000;
    Div24(x, q, v);
    var b := v / 0x100;
    var c := v % 0x100;
    Div8(v, b, c);
    Div8(x, q * 0x1_0000 + b, c);
    var m := b % 0x100;
    Div8(b, b / 0x100, m);
    Div8(q * 0x1_0000 + b, q * 0x100 + b / 0x100, m);
  }
  lemma LowByteOf24(x: nat)
    ensures x % 0x100 == (x % 0x100_0000) % 0x100
  {
    var q := x / 0x100_0000;
    var v := x % 0x100_0000;
    Div24(x, q, v);
    Div8(v, v / 0x100, v % 0x100);
    Div8(x, q * 0x1_0000 + v / 0x100, v % 0x100);
  }

  /** Division by 2^8 from a quotient and remainder. */
  lemma Div8(x: int, q: int, r: int)
    requires 0 <= r < 0x100 && x == q * 0x100 + r
    ensures x / 0x100 == q && x % 0x100 == r
  {
  }
  /** Division by 2^16 from a quotient and remainder. */
  lemma Div16(x: int, q: int, r: int)
    requires 0 <= r < 0x1_0000 && x == q * 0x1_0000 + r
    ensures x / 0x1_0000 == q && x % 0x1_0000 == r
  {
  }
  /** Division by 2^24 from a quotient and remainder. */
  lemma Div24(x: int, q: int, r: int)
    requires 0 <= r < 0x100_0000 && x == q * 0x100_0000 + r
    ensures x / 0x100_0000 == q && x % 0x100_0000 == r
  {
  }
  /** The pieces of `s[pos..pos+|a|+|b|] == a + b`. */
  lemma SplitSlice(s: seq<byte>, pos: nat, a: seq<byte>, b: seq<byte>)
    requires pos + |a| + |b| <= |s| && s[pos..pos + |a| + |b|] == a + b
    ensures s[pos..pos + |a|] == a && s[pos + |a|..pos + |a| + |b|] == b
  {
    var m := s[pos..pos + |a| + |b|];
    assert s[pos..pos + |a|] == m[..|a|];
    assert s[pos + |a|..pos + |a| + |b|] == m[|a|..];
  }

  /** A list written after its 16-bit length reads back as that length
      followed by the list. */
  lemma LengthPrefixed(body: seq<byte>, rest: seq<byte>)
    requires |body| < 0x1_0000
    ensures Be16(U16Bytes(|body|) + body + rest, 0) == |body|
    ensures (U16Bytes(|body|) + body + rest)[2..2 + |body|] == body
  {
    var w := U16Bytes(|body|) + body + rest;
    assert w[0..2] == U16Bytes(|body|);
    Be16RoundTrip(|body|, w, 0);
    assert w[2..2 + |body|] == body;
  }

  /** The low byte of `x`, as a C `(uchar)` cast produces it. */
  function LowByte(x: nat): (b: byte)
    ensures (x - b) % 0x100 == 0
  {
    x % 0x100
  }

  /** C `ulong` addition: the sum modulo 2^64. */
  function AddWrap(a: nat, b: nat): (r: nat)
    requires a <= UlongMax && b <= UlongMax
    ensures r <= UlongMax
    ensures a + b <= UlongMax ==> r == a + b
    ensures a + b > UlongMax ==> r + UlongMod == a + b && r < a
  {
    (a + b) % UlongMod
  }

  /** `fd_seq_dec(x, 1)`: the sequence number one before `x`, modulo 2^64. */
  function SeqDec(x: nat): (r: nat)
    requires x <= UlongMax
    ensures r <= UlongMax && r != x
    ensures x > 0 ==> r + 1 == x
    ensures x == 0 ==> r == UlongMax
  {
    (x + UlongMax) % UlongMod
  }

  /** C `ulong` subtraction: the difference modulo 2^64. */
  function SubWrap(a: nat, b: nat): (r: nat)
    requires a <= UlongMax && b <= UlongMax
    ensures r <= UlongMax
    ensures b <= a ==> r == a - b
    ensures a < b ==> r + (b - a) == UlongMod
  {
    (a - b + UlongMod) % UlongMod
  }

  /** `fd_ulong_sat_add`: the sum, clamped at ULONG_MAX. */
  function SatAdd(a: nat, b: nat): (r: nat)
    requires a <= UlongMax && b <= UlongMax
    ensures r <= UlongMax
    ensures r == a + b || (r == UlongMax && a + b > UlongMax)
  {
    if a + b > UlongMax then UlongMax else a + b
  }

  /** `fd_ulong_sat_mul`: the product, clamped at ULONG_MAX. */
  function SatMul(a: nat, b: nat): (r: nat)
    requires a <= UlongMax && b <= UlongMax
    ensures r <= UlongMax
    ensures r == a * b || (r == UlongMax && a * b > UlongMax)
  {
    if a * b > UlongMax then UlongMax else a * b
  }

  /** `fd_ulong_sat_sub`: the difference, clamped at zero. */
  function SatSub(a: nat, b: nat): (r: nat)
    ensures a >= b ==> r + b == a
    ensures a < b ==> r == 0
  {
    if a >= b then a - b else 0
  }
}

/** The optional value used where the C code returns a pointer that may be
    NULL. */
module Wrappers {
  datatype Option<+T> = None | Some(value: T)
}
