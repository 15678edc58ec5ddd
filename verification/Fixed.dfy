/** Fixed-width little-endian integers. */
module Fixed {

  type byte = bv8
  type Bytes = seq<byte>

  const TWO_32: nat := 0x1_0000_0000
  const TWO_64: nat := 0x1_0000_0000_0000_0000

  // ---------- bytes and numbers ----------

  lemma NextByte(b: byte)
    requires b != 255
    ensures (b + 1) as nat == b as nat + 1
  {}

  /** The byte of value n, counted up from zero. */
  function ByteOf(n: nat): (b: byte)
    requires n < 256
    ensures b as nat == n
  {
    if n == 0 then 0
    else
      var b := ByteOf(n - 1);
      NextByte(b);
      b + 1
  }

  /** It is what a cast gives. */
  lemma ByteRoundTrip(n: nat)
    requires n < 256
    ensures n as byte == ByteOf(n) && (n as byte) as nat == n
  {
    ValueDetermines(ByteOf(n), n);
  }

  lemma ValueDetermines(b: byte, n: nat)
    requires b as nat == n
    ensures n < 256 && n as byte == b
  {}

  // ---------- fixed-width words ----------

  function Join32(b0: byte, b1: byte, b2: byte, b3: byte): bv32 {
    (b0 as bv32) | ((b1 as bv32) << 8) | ((b2 as bv32) << 16) | ((b3 as bv32) << 24)
  }

  function DecodeFixed32(s: seq<byte>): bv32
    requires |s| >= 4
  {
    Join32(s[0], s[1], s[2], s[3])
  }

  function Fixed32(v: bv32): (s: seq<byte>)
    ensures |s| == 4
  {
    [(v & 0xff) as byte, ((v >> 8) & 0xff) as byte, ((v >> 16) & 0xff) as byte, ((v >> 24) & 0xff) as byte]
  }

  lemma Word32(v: bv32)
    ensures (((v & 0xff) as byte) as bv32) | (((((v >> 8) & 0xff) as byte) as bv32) << 8)
            | (((((v >> 16) & 0xff) as byte) as bv32) << 16) | (((((v >> 24) & 0xff) as byte) as bv32) << 24) == v
  {}

  lemma Fixed32RoundTrip(v: bv32, rest: seq<byte>)
    ensures DecodeFixed32(Fixed32(v) + rest) == v
  {
    Word32(v);
  }

  /** The lowest byte of a word comes first. */
  lemma Fixed32Bytes(b0: byte, b1: byte, b2: byte, b3: byte)
    ensures Fixed32(((b3 as bv32) << 24) | ((b2 as bv32) << 16) | ((b1 as bv32) << 8) | (b0 as bv32)) == [b0, b1, b2, b3]
  {}

  method EncodeFixed32(dst: array<byte>, at: nat, v: bv32)
    requires at + 4 <= dst.Length
    modifies dst
    ensures dst[..] == old(dst[..at]) + Fixed32(v) + old(dst[at + 4..])
  {
    dst[at] := (v & 0xff) as byte;
    dst[at + 1] := ((v >> 8) & 0xff) as byte;
    dst[at + 2] := ((v >> 16) & 0xff) as byte;
    dst[at + 3] := ((v >> 24) & 0xff) as byte;
  }

  // 64-bit words are naturals here: shifts are divisions, disjoint bits are added.

  function Low(v: nat): (b: byte) {
    ByteOf(v % 0x100)
  }

  lemma LowValue(v: nat)
    ensures Low(v) as nat == v % 0x100
  {}

  function Fixed64(v: nat): (s: seq<byte>)
    ensures |s| == 8
  {
    [Low(v), Low(v / 0x100), Low(v / 0x1_0000), Low(v / 0x100_0000), Low(v / 0x1_0000_0000),
     Low(v / 0x100_0000_0000), Low(v / 0x1_0000_0000_0000), Low(v / 0x100_0000_0000_0000)]
  }

  /** Eight digits, lowest first. */
  function Join64(d0: nat, d1: nat, d2: nat, d3: nat, d4: nat, d5: nat, d6: nat, d7: nat): nat {
    d0 + 0x100 * d1 + 0x1_0000 * d2 + 0x100_0000 * d3 + 0x1_0000_0000 * d4 + 0x100_0000_0000 * d5
    + 0x1_0000_0000_0000 * d6 + 0x100_0000_0000_0000 * d7
  }

  function DecodeFixed64(s: seq<byte>): nat
    requires |s| >= 8
  {
    Join64(s[0] as nat, s[1] as nat, s[2] as nat, s[3] as nat, s[4] as nat, s[5] as nat, s[6] as nat, s[7] as nat)
  }

  lemma OneLess(a: nat, b: nat, m: nat)
    ensures a < b ==> a * m + m <= b * m
  {
    if a < b { assert (a + 1) * m <= b * m; }
  }

  lemma Quotient(q: nat, m: nat, r: nat)
    requires r < m
    ensures (q * m + r) / m == q
  {
    var x := q * m + r;
    OneLess(x / m, q, m);
    OneLess(q, x / m, m);
  }

  lemma Remainder(r: nat, m: nat, q: nat)
    requires r < m
    ensures (q * m + r) % m == r
  {
    Quotient(q, m, r);
  }

  lemma Nested(p: nat, b: nat, s: nat, a: nat)
    ensures (p * b + s) * a == p * (a * b) + s * a
  {}

  lemma DivideTwice(a: nat, b: nat, p: nat, s: nat, r: nat)
    requires r < a && s < b
    ensures a * b > 0 && ((p * b + s) * a + r) / (a * b) == p
  {
    Nested(p, b, s, a);
    OneLess(s, b, a);
    OneLess(0, b, a);
    Quotient(p, a * b, s * a + r);
  }

  lemma DivDiv(v: nat, a: nat, b: nat)
    requires a > 0 && b > 0
    ensures a * b > 0 && v / a / b == v / (a * b)
  {
    var q := v / a;
    DivideTwice(a, b, q / b, q % b, v % a);
    assert q / b * b + q % b == q;
    assert q * a + v % a == v;
  }

  /** Cutting one digit off a number already shifted. */
  lemma Digit(v: nat, w: nat)
    requires w > 0
    ensures w * 0x100 > 0 && v / w == v / w % 0x100 + 0x100 * (v / (w * 0x100))
  {
    DivDiv(v, w, 0x100);
  }

  /** Digits put back, the highest first. */
  lemma Horner(q0: nat, q1: nat, q2: nat, q3: nat, q4: nat, q5: nat, q6: nat, q7: nat)
    requires q0 == q0 % 0x100 + 0x100 * q1 && q1 == q1 % 0x100 + 0x100 * q2
    requires q2 == q2 % 0x100 + 0x100 * q3 && q3 == q3 % 0x100 + 0x100 * q4
    requires q4 == q4 % 0x100 + 0x100 * q5 && q5 == q5 % 0x100 + 0x100 * q6
    requires q6 == q6 % 0x100 + 0x100 * q7 && q7 < 0x100
    ensures q0 == Join64(q0 % 0x100, q1 % 0x100, q2 % 0x100, q3 % 0x100, q4 % 0x100, q5 % 0x100, q6 % 0x100, q7 % 0x100)
  {
    assert q7 % 0x100 == q7;
  }

  lemma DigitSum(v: nat)
    requires v < TWO_64
    ensures v == Join64(v % 0x100, v / 0x100 % 0x100, v / 0x1_0000 % 0x100, v / 0x100_0000 % 0x100,
                        v / 0x1_0000_0000 % 0x100, v / 0x100_0000_0000 % 0x100,
                        v / 0x1_0000_0000_0000 % 0x100, v / 0x100_0000_0000_0000 % 0x100)
  {
    Digit(v, 1);
    Digit(v, 0x100);
    Digit(v, 0x1_0000);
    Digit(v, 0x100_0000);
    Digit(v, 0x1_0000_0000);
    Digit(v, 0x100_0000_0000);
    Digit(v, 0x1_0000_0000_0000);
    hide Join64;
    Horner(v, v / 0x100, v / 0x1_0000, v / 0x100_0000, v / 0x1_0000_0000, v / 0x100_0000_0000,
           v / 0x1_0000_0000_0000, v / 0x100_0000_0000_0000);
  }

  function Power256(i: nat): (p: nat)
    ensures p >= 1
  {
    if i == 0 then 1 else 256 * Power256(i - 1)
  }

  /** The lowest byte comes first. */
  lemma Fixed64Digits(v: nat, i: nat)
    requires i < 8
    ensures Fixed64(v)[i] as nat == v / Power256(i) % 256
  {
    assert Power256(3) == 0x100_0000 && Power256(5) == 0x100_0000 * Power256(2);
    assert Power256(6) == 0x100_0000 * Power256(3) && Power256(7) == 0x100_0000 * Power256(4);
  }

  lemma Fixed64RoundTrip(v: nat, rest: seq<byte>)
    requires v < TWO_64
    ensures DecodeFixed64(Fixed64(v) + rest) == v
  {
    LowValue(v);
    LowValue(v / 0x100);
    LowValue(v / 0x1_0000);
    LowValue(v / 0x100_0000);
    LowValue(v / 0x1_0000_0000);
    LowValue(v / 0x100_0000_0000);
    LowValue(v / 0x1_0000_0000_0000);
    LowValue(v / 0x100_0000_0000_0000);
    DigitSum(v);
    hide Low;
    hide Join64;
  }

  /** The lowest byte of a word is the first one stored. */
  lemma LowByte(s: seq<byte>)
    requires |s| >= 8
    ensures DecodeFixed64(s) % 0x100 == s[0] as nat
  {
    LowDigit(s[0] as nat, s[1] as nat, s[2] as nat, s[3] as nat, s[4] as nat, s[5] as nat, s[6] as nat, s[7] as nat);
    hide Join64;
  }

  lemma LowDigit(d0: nat, d1: nat, d2: nat, d3: nat, d4: nat, d5: nat, d6: nat, d7: nat)
    requires d0 < 0x100
    ensures Join64(d0, d1, d2, d3, d4, d5, d6, d7) % 0x100 == d0
  {
    var q := d1 + 0x100 * d2 + 0x1_0000 * d3 + 0x100_0000 * d4 + 0x1_0000_0000 * d5 + 0x100_0000_0000 * d6
             + 0x1_0000_0000_0000 * d7;
    assert Join64(d0, d1, d2, d3, d4, d5, d6, d7) == q * 0x100 + d0;
    hide Join64;
    Remainder(d0, 0x100, q);
  }

  method EncodeFixed64(dst: array<byte>, at: nat, v: nat)
    requires at + 8 <= dst.Length
    modifies dst
    ensures dst[..] == old(dst[..at]) + Fixed64(v) + old(dst[at + 8..])
  {
    hide Low;
    dst[at] := Low(v);
    dst[at + 1] := Low(v / 0x100);
    dst[at + 2] := Low(v / 0x1_0000);
    dst[at + 3] := Low(v / 0x100_0000);
    dst[at + 4] := Low(v / 0x1_0000_0000);
    dst[at + 5] := Low(v / 0x100_0000_0000);
    dst[at + 6] := Low(v / 0x1_0000_0000_0000);
    dst[at + 7] := Low(v / 0x100_0000_0000_0000);
  }
}
