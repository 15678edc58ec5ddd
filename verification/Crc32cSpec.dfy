/**
 CRC-32C from first principles: one shift register, one message bit at a time.

 Everything the table-driven code relies on is derived here from that definition:
 the register step is linear and injective, and up to 32 message bits can be folded
 into the register at once, so any error burst of at most 32 bits changes the checksum.
 */
module Crc32cSpec {

  import opened Fixed

  /** The Castagnoli polynomial 0x1EDC6F41 with its bits reversed. */
  const POLYNOMIAL: bv32 := 0x82f63b78

  /** CRCs are complemented before and after. */
  const ALL_ONES: bv32 := 0xffffffff

  // ---------- the register ----------

  function Xor(a: bv32, b: bv32): bv32 {
    a ^ b
  }

  /** One clock of the reflected shift register. */
  function Step(c: bv32): bv32 {
    if c & 1 == 1 then (c >> 1) ^ POLYNOMIAL else c >> 1
  }

  function Steps(n: nat, c: bv32): bv32 {
    if n == 0 then c else Steps(n - 1, Step(c))
  }

  /** A message bit as a register value. */
  function Bit(b: bool): bv32 {
    if b then 1 else 0
  }

  /** Feeds the message bits to the register, first bit first. */
  function BitSerial(r: bv32, bits: seq<bool>): bv32
    decreases |bits|
  {
    if |bits| == 0 then r else BitSerial(Step(Xor(r, Bit(bits[0]))), bits[1..])
  }

  /** The bits of one byte in the order they enter the register: least significant first. */
  function ByteBits(b: bv8): (bits: seq<bool>)
    ensures |bits| == 8
  {
    LowBits(8, Byte(b))
  }

  function Bits(data: seq<bv8>): (bits: seq<bool>)
    ensures |bits| == 8 * |data|
  {
    if |data| == 0 then [] else ByteBits(data[0]) + Bits(data[1..])
  }

  /** The register after the whole message. */
  function Register(r: bv32, data: seq<bv8>): bv32 {
    BitSerial(r, Bits(data))
  }

  /** The CRC-32C of A + data, where crc is the CRC-32C of A. */
  function Crc(crc: bv32, data: seq<bv8>): bv32 {
    Xor(Register(Xor(crc, ALL_ONES), data), ALL_ONES)
  }

  // ---------- exclusive or ----------

  lemma XorCommutes(a: bv32, b: bv32)
    ensures Xor(a, b) == Xor(b, a)
  {}

  lemma XorAssociates(a: bv32, b: bv32, c: bv32)
    ensures Xor(Xor(a, b), c) == Xor(a, Xor(b, c))
  {
    XorAssociatesPure(a, b, c);
  }

  lemma XorAssociatesPure(a: bv32, b: bv32, c: bv32)
    ensures (a ^ b) ^ c == a ^ (b ^ c)
  {}

  lemma XorZero(a: bv32)
    ensures Xor(a, 0) == a
  {}

  lemma XorCancels(a: bv32, b: bv32)
    ensures Xor(Xor(a, b), b) == a
  {}

  // ---------- the step is linear and injective ----------

  lemma ShiftXor(a: bv32, b: bv32)
    ensures (a ^ b) >> 1 == (a >> 1) ^ (b >> 1)
  {}

  lemma ShiftXorLeft(a: bv32, b: bv32)
    ensures ((a >> 1) ^ POLYNOMIAL) ^ (b >> 1) == ((a ^ b) >> 1) ^ POLYNOMIAL
  {}

  lemma ShiftXorRight(a: bv32, b: bv32)
    ensures (a >> 1) ^ ((b >> 1) ^ POLYNOMIAL) == ((a ^ b) >> 1) ^ POLYNOMIAL
  {}

  lemma ShiftXorBoth(a: bv32, b: bv32)
    ensures ((a >> 1) ^ POLYNOMIAL) ^ ((b >> 1) ^ POLYNOMIAL) == (a ^ b) >> 1
  {}

  lemma LowBit(a: bv32, b: bv32)
    ensures (a ^ b) & 1 == (a & 1) ^ (b & 1)
  {}

  lemma LowBitCases(a: bv32)
    ensures a & 1 == 0 || a & 1 == 1
  {}

  lemma StepXor(a: bv32, b: bv32)
    ensures Step(a ^ b) == Step(a) ^ Step(b)
  {
    LowBit(a, b);
    LowBitCases(a);
    LowBitCases(b);
    if a & 1 == 1 {
      if b & 1 == 1 { ShiftXorBoth(a, b); } else { ShiftXorLeft(a, b); }
    } else {
      if b & 1 == 1 { ShiftXorRight(a, b); } else { ShiftXor(a, b); }
    }
  }

  lemma StepIsLinear(a: bv32, b: bv32)
    ensures Step(Xor(a, b)) == Xor(Step(a), Step(b))
  {
    StepXor(a, b);
  }

  lemma {:induction false} StepsAreLinear(n: nat, a: bv32, b: bv32)
    ensures Steps(n, Xor(a, b)) == Xor(Steps(n, a), Steps(n, b))
  {
    if n > 0 {
      StepIsLinear(a, b);
      StepsAreLinear(n - 1, Step(a), Step(b));
    }
  }

  lemma {:induction false} StepsCompose(m: nat, n: nat, c: bv32)
    ensures Steps(m + n, c) == Steps(m, Steps(n, c))
  {
    if n > 0 { StepsCompose(m, n - 1, Step(c)); }
  }

  lemma XorIsZero(a: bv32, b: bv32)
    requires a ^ b == 0
    ensures a == b
  {}

  lemma XorSelf(a: bv32)
    ensures Xor(a, a) == 0
  {}

  /** Only zero steps to zero, because the polynomial's top bit is set. */
  lemma StepKernel(c: bv32)
    requires Step(c) == 0
    ensures c == 0
  {}

  lemma StepInjective(a: bv32, b: bv32)
    requires Step(a) == Step(b)
    ensures a == b
  {
    StepIsLinear(a, b);
    XorSelf(Step(b));
    StepKernel(Xor(a, b));
    XorIsZero(a, b);
  }

  lemma {:induction false} StepsInjective(n: nat, a: bv32, b: bv32)
    requires Steps(n, a) == Steps(n, b)
    ensures a == b
  {
    if n > 0 {
      StepsInjective(n - 1, Step(a), Step(b));
      StepInjective(a, b);
    }
  }

  // ---------- many bits at once ----------

  function Half(w: bv32): bv32 {
    w >> 1
  }

  function Double(w: bv32): bv32 {
    w << 1
  }

  predicate IsOdd(w: bv32) {
    w & 1 == 1
  }

  /** The low n bits of w, lowest first. */
  function LowBits(n: nat, w: bv32): (bits: seq<bool>)
    ensures |bits| == n
  {
    if n == 0 then [] else [IsOdd(w)] + LowBits(n - 1, Half(w))
  }

  /** w without its low n bits. */
  function Rest(n: nat, w: bv32): bv32 {
    if n == 0 then w else Rest(n - 1, Half(w))
  }

  lemma SplitPure(w: bv32)
    ensures w == (w & 1) ^ ((w >> 1) << 1)
  {}

  lemma Split(w: bv32)
    ensures w == Xor(Bit(IsOdd(w)), Double(Half(w)))
  {
    SplitPure(w);
    LowBitCases(w);
  }

  lemma StepDouble(w: bv32)
    ensures Step(Double(Half(w))) == Half(w)
  {}

  lemma OneBit(r: bv32, w: bv32)
    ensures Step(Xor(r, w)) == Xor(Step(Xor(r, Bit(IsOdd(w)))), Half(w))
  {
    var b, t := Bit(IsOdd(w)), Double(Half(w));
    Split(w);
    XorAssociates(r, b, t);
    StepIsLinear(Xor(r, b), t);
    StepDouble(w);
  }

  /** Clocking the register with a whole word folded in is feeding the word's bits one at a time. */
  lemma {:induction false} FoldedWord(n: nat, r: bv32, w: bv32)
    ensures Steps(n, Xor(r, w)) == Xor(BitSerial(r, LowBits(n, w)), Rest(n, w))
  {
    if n > 0 {
      OneBit(r, w);
      var bits := LowBits(n, w);
      assert bits[1..] == LowBits(n - 1, Half(w));
      FoldedWord(n - 1, Step(Xor(r, Bit(bits[0]))), Half(w));
    }
  }

  // ---------- bytes and words ----------

  lemma {:induction false} BitSerialAppend(r: bv32, a: seq<bool>, b: seq<bool>)
    ensures BitSerial(r, a + b) == BitSerial(BitSerial(r, a), b)
    decreases |a|
  {
    if |a| == 0 {
      assert a + b == b;
    } else {
      assert (a + b)[1..] == a[1..] + b;
      BitSerialAppend(Step(Xor(r, Bit(a[0]))), a[1..], b);
    }
  }

  lemma {:induction false} BitsAppend(a: seq<bv8>, b: seq<bv8>)
    ensures Bits(a + b) == Bits(a) + Bits(b)
  {
    if |a| == 0 {
      assert a + b == b;
    } else {
      assert (a + b)[1..] == a[1..] + b;
      BitsAppend(a[1..], b);
    }
  }

  lemma RegisterAppend(r: bv32, a: seq<bv8>, b: seq<bv8>)
    ensures Register(r, a + b) == Register(Register(r, a), b)
  {
    BitsAppend(a, b);
    BitSerialAppend(r, Bits(a), Bits(b));
  }

  function Byte(b: bv8): bv32 {
    b as bv32
  }

  lemma {:induction false} RestCompose(m: nat, n: nat, w: bv32)
    ensures Rest(m + n, w) == Rest(n, Rest(m, w))
  {
    if m > 0 { RestCompose(m - 1, n, w >> 1); }
  }

  lemma {:induction false} LowBitsCompose(m: nat, n: nat, w: bv32)
    ensures LowBits(m + n, w) == LowBits(m, w) + LowBits(n, Rest(m, w))
  {
    if m > 0 { LowBitsCompose(m - 1, n, w >> 1); }
  }


  function And(w: bv32, m: bv32): bv32 {
    w & m
  }

  /** The low n bits of m are all ones. */
  predicate Ones(n: nat, m: bv32) {
    n == 0 || (IsOdd(m) && Ones(n - 1, Half(m)))
  }

  lemma EightOnes()
    ensures Ones(8, 0xff)
  {
    assert Half(0xff) == 0x7f && Half(0x7f) == 0x3f && Half(0x3f) == 0x1f && Half(0x1f) == 0xf;
    assert Half(0xf) == 7 && Half(7) == 3 && Half(3) == 1;
    assert Ones(1, 1);
    assert Ones(2, 3);
    assert Ones(3, 7);
    assert Ones(4, 0xf);
    assert Ones(5, 0x1f);
    assert Ones(6, 0x3f);
    assert Ones(7, 0x7f);
  }

  lemma HalfAnd(w: bv32, m: bv32)
    ensures Half(And(w, m)) == And(Half(w), Half(m))
  {
    HalfAndPure(w, m);
  }

  lemma HalfAndPure(w: bv32, m: bv32)
    ensures (w & m) >> 1 == (w >> 1) & (m >> 1)
  {}

  lemma OddAnd(w: bv32, m: bv32)
    requires m & 1 == 1
    ensures IsOdd(And(w, m)) == IsOdd(w)
  {}

  lemma {:induction false} LowBitsMasked(n: nat, w: bv32, m: bv32)
    requires Ones(n, m)
    ensures LowBits(n, And(w, m)) == LowBits(n, w)
  {
    if n > 0 {
      HalfAnd(w, m);
      OddAnd(w, m);
      LowBitsMasked(n - 1, Half(w), Half(m));
    }
  }

  lemma RestNext(n: nat, w: bv32)
    ensures Rest(n + 1, w) == Half(Rest(n, w))
  {
    RestCompose(n, 1, w);
    assert Rest(1, Rest(n, w)) == Rest(0, Half(Rest(n, w)));
  }

  function Shr8(w: bv32): bv32 {
    w >> 8
  }

  lemma EightHalves(w: bv32)
    ensures Half(Half(Half(Half(Half(Half(Half(Half(w)))))))) == Shr8(w)
  {}

  lemma Rest8(w: bv32)
    ensures Rest(8, w) == Shr8(w)
  {
    assert Rest(0, w) == w;
    EightHalves(w);
    hide Rest;
    hide Half;
    hide Shr8;
    RestNext(0, w);
    RestNext(1, w);
    RestNext(2, w);
    RestNext(3, w);
    RestNext(4, w);
    RestNext(5, w);
    RestNext(6, w);
    RestNext(7, w);
  }

  lemma ByteShr8(b: bv8)
    ensures Shr8(Byte(b)) == 0
  {}

  /** Feeding one byte is folding it in and clocking eight times. */
  lemma RegisterByte(r: bv32, b: bv8)
    ensures BitSerial(r, ByteBits(b)) == Steps(8, Xor(r, Byte(b)))
  {
    FoldedWord(8, r, Byte(b));
    Rest8(Byte(b));
    ByteShr8(b);
    XorZero(BitSerial(r, ByteBits(b)));
  }

  lemma LowByte(w: bv32, b: bv8)
    requires And(w, 0xff) == Byte(b)
    ensures LowBits(8, w) == ByteBits(b)
  {
    EightOnes();
    LowBitsMasked(8, w, 0xff);
  }

  lemma WordBytes(s: seq<bv8>)
    requires |s| == 4
    ensures var w := DecodeFixed32(s);
            && And(w, 0xff) == Byte(s[0]) && And(Shr8(w), 0xff) == Byte(s[1])
            && And(Shr8(Shr8(w)), 0xff) == Byte(s[2]) && Shr8(Shr8(Shr8(w))) == Byte(s[3])
  {}

  lemma AndByte(b: bv8)
    ensures And(Byte(b), 0xff) == Byte(b)
  {}

  lemma NextByte(n: nat, w: bv32, b: bv8)
    requires And(w, 0xff) == Byte(b)
    ensures LowBits(n + 8, w) == ByteBits(b) + LowBits(n, Shr8(w))
    ensures Rest(n + 8, w) == Rest(n, Shr8(w))
  {
    LowByte(w, b);
    Rest8(w);
    LowBitsCompose(8, n, w);
    RestCompose(8, n, w);
  }

  lemma FourBytes(s: seq<bv8>)
    requires |s| == 4
    ensures Bits(s) == ByteBits(s[0]) + (ByteBits(s[1]) + (ByteBits(s[2]) + ByteBits(s[3])))
  {
    assert Bits(s[3..]) == ByteBits(s[3]);
    assert Bits(s[2..]) == ByteBits(s[2]) + Bits(s[3..]);
    assert Bits(s[1..]) == ByteBits(s[1]) + Bits(s[2..]);
  }

  lemma BitsOfWord(w: bv32, s: seq<bv8>)
    requires |s| == 4
    requires And(w, 0xff) == Byte(s[0]) && And(Shr8(w), 0xff) == Byte(s[1])
    requires And(Shr8(Shr8(w)), 0xff) == Byte(s[2]) && Shr8(Shr8(Shr8(w))) == Byte(s[3])
    ensures LowBits(32, w) == Bits(s)
    ensures Rest(32, w) == 0
  {
    AndByte(s[3]);
    ByteShr8(s[3]);
    NextByte(24, w, s[0]);
    NextByte(16, Shr8(w), s[1]);
    NextByte(8, Shr8(Shr8(w)), s[2]);
    NextByte(0, Byte(s[3]), s[3]);
    FourBytes(s);
  }

  /** Feeding four bytes is folding their little-endian word in and clocking 32 times. */
  lemma RegisterWord(r: bv32, s: seq<bv8>)
    requires |s| == 4
    ensures Register(r, s) == Steps(32, Xor(r, DecodeFixed32(s)))
  {
    FoldedWord(32, r, DecodeFixed32(s));
    WordBytes(s);
    BitsOfWord(DecodeFixed32(s), s);
    XorZero(Register(r, s));
  }

  // ---------- what the checksum detects ----------

  lemma {:induction false} BitSerialInjective(r: bv32, q: bv32, bits: seq<bool>)
    requires BitSerial(r, bits) == BitSerial(q, bits)
    ensures r == q
    decreases |bits|
  {
    if |bits| > 0 {
      var b := Bit(bits[0]);
      BitSerialInjective(Step(Xor(r, b)), Step(Xor(q, b)), bits[1..]);
      StepInjective(Xor(r, b), Xor(q, b));
      XorCancels(r, b);
      XorCancels(q, b);
    }
  }

  /** The bits as a register value, first bit lowest. */
  function Pack(bits: seq<bool>): bv32
    decreases |bits|
  {
    if |bits| == 0 then 0 else Xor(Double(Pack(bits[1..])), Bit(bits[0]))
  }

  lemma PackStep(v: bv32, b: bool)
    requires v < 0x8000_0000
    ensures Half(Xor(Double(v), Bit(b))) == v
    ensures IsOdd(Xor(Double(v), Bit(b))) == b
  {
    if b {
      PackOne(v);
      OddOne(v);
    } else {
      PackZero(v);
      OddZero(v);
    }
  }

  lemma PackOne(v: bv32)
    requires v < 0x8000_0000
    ensures ((v << 1) ^ 1) >> 1 == v
  {}

  lemma PackZero(v: bv32)
    requires v < 0x8000_0000
    ensures ((v << 1) ^ 0) >> 1 == v
  {}

  lemma OddOne(v: bv32)
    ensures ((v << 1) ^ 1) & 1 == 1
  {}

  lemma OddZero(v: bv32)
    ensures ((v << 1) ^ 0) & 1 == 0
  {}

  lemma {:induction false} RestOfZero(n: nat)
    ensures Rest(n, 0) == 0
  {
    if n > 0 { RestOfZero(n - 1); }
  }

  lemma SevenHalves(v: bv32)
    requires Half(Half(Half(Half(Half(Half(Half(Shr8(Shr8(Shr8(v)))))))))) == 0
    ensures v < 0x8000_0000
  {}

  lemma Rest31(v: bv32)
    requires Rest(31, v) == 0
    ensures v < 0x8000_0000
  {
    var u := Shr8(Shr8(Shr8(v)));
    RestCompose(8, 23, v);
    RestCompose(8, 15, Shr8(v));
    RestCompose(8, 7, Shr8(Shr8(v)));
    Rest8(v);
    Rest8(Shr8(v));
    Rest8(Shr8(Shr8(v)));
    RestNext(0, u);
    RestNext(1, u);
    RestNext(2, u);
    RestNext(3, u);
    RestNext(4, u);
    RestNext(5, u);
    RestNext(6, u);
    SevenHalves(v);
  }

  lemma {:induction false} PackRoundTrip(bits: seq<bool>)
    requires |bits| <= 32
    ensures LowBits(|bits|, Pack(bits)) == bits
    ensures Rest(|bits|, Pack(bits)) == 0
  {
    if |bits| > 0 {
      var rest := bits[1..];
      var v := Pack(rest);
      PackRoundTrip(rest);
      RestCompose(|rest|, 31 - |rest|, v);
      RestOfZero(31 - |rest|);
      Rest31(v);
      PackStep(v, bits[0]);
    }
  }

  /** Two different messages of at most 32 bits never lead from one register value to the same one. */
  lemma ShortMessagesDiffer(r: bv32, a: seq<bool>, b: seq<bool>)
    requires |a| == |b| <= 32
    requires BitSerial(r, a) == BitSerial(r, b)
    ensures a == b
  {
    PackRoundTrip(a);
    PackRoundTrip(b);
    FoldedWord(|a|, r, Pack(a));
    FoldedWord(|b|, r, Pack(b));
    StepsInjective(|a|, Xor(r, Pack(a)), Xor(r, Pack(b)));
    XorCommutes(r, Pack(a));
    XorCommutes(r, Pack(b));
    XorCancels(Pack(a), r);
    XorCancels(Pack(b), r);
  }

  lemma ByteInjective(a: bv8, b: bv8)
    requires Byte(a) == Byte(b)
    ensures a == b
  {}

  lemma {:induction false} BitsInjective(a: seq<bv8>, b: seq<bv8>)
    requires |a| == |b|
    requires Bits(a) == Bits(b)
    ensures a == b
  {
    if |a| > 0 {
      var p, q := ByteBits(a[0]), ByteBits(b[0]);
      assert p == Bits(a)[..8] && q == Bits(b)[..8];
      assert Bits(a[1..]) == Bits(a)[8..] && Bits(b[1..]) == Bits(b)[8..];
      RegisterByte(0, a[0]);
      RegisterByte(0, b[0]);
      StepsInjective(8, Xor(0, Byte(a[0])), Xor(0, Byte(b[0])));
      XorCommutes(0, Byte(a[0]));
      XorCommutes(0, Byte(b[0]));
      XorZero(Byte(a[0]));
      XorZero(Byte(b[0]));
      ByteInjective(a[0], b[0]);
      BitsInjective(a[1..], b[1..]);
    }
  }

  lemma BurstInBits(r: bv32, pre: seq<bool>, v: seq<bool>, w: seq<bool>, post: seq<bool>)
    requires |v| == |w| <= 32
    requires BitSerial(r, pre + (v + post)) == BitSerial(r, pre + (w + post))
    ensures v == w
  {
    hide Xor;
    BitSerialAppend(r, pre, v + post);
    BitSerialAppend(r, pre, w + post);
    var s := BitSerial(r, pre);
    BitSerialAppend(s, v, post);
    BitSerialAppend(s, w, post);
    BitSerialInjective(BitSerial(s, v), BitSerial(s, w), post);
    ShortMessagesDiffer(s, v, w);
  }

  lemma Middle<T>(s: seq<T>, at: nat, n: nat)
    requires at + n <= |s|
    ensures s == s[..at] + (s[at..at + n] + s[at + n..])
  {}

  /**
   Any error burst of at most 32 bits is detected: two messages of one length that agree
   outside n <= 32 consecutive bits, wherever these start, have different checksums.
   */
  lemma BurstsAreDetected(crc: bv32, a: seq<bv8>, b: seq<bv8>, at: nat, n: nat)
    requires |a| == |b| && a != b
    requires n <= 32 && at + n <= 8 * |a|
    requires Bits(a)[..at] == Bits(b)[..at] && Bits(a)[at + n..] == Bits(b)[at + n..]
    ensures Crc(crc, a) != Crc(crc, b)
  {
    hide Xor;
    hide BitSerial;
    if Crc(crc, a) == Crc(crc, b) {
      var r := Xor(crc, ALL_ONES);
      XorCancels(Register(r, a), ALL_ONES);
      XorCancels(Register(r, b), ALL_ONES);
      var p, q := Bits(a), Bits(b);
      Middle(p, at, n);
      Middle(q, at, n);
      hide Bits;
      BurstInBits(r, p[..at], p[at..at + n], q[at..at + n], p[at + n..]);
      BitsInjective(a, b);
    }
  }

  /** The checksum can be computed piecewise. */
  lemma CrcAppend(crc: bv32, a: seq<bv8>, b: seq<bv8>)
    ensures Crc(Crc(crc, a), b) == Crc(crc, a + b)
  {
    var r := Xor(crc, ALL_ONES);
    RegisterAppend(r, a, b);
    XorCancels(Register(r, a), ALL_ONES);
  }
}
