/**
 The table-driven CRC-32C: a byte-wise prelude up to a word boundary, four interleaved
 strides over the bulk of the buffer, a fold of the four partial registers, and a
 byte-wise tail. `Extend` is proved equal to the bit-serial definition.
 */
module Crc32c {

  import opened Fixed
  import opened Crc32cSpec
  import opened Crc32cTables

  // ---------- the macros ----------

  /** STEP1: one byte. */
  function Step1(t: Tables, l: bv32, b: byte): bv32 {
    IndexBound(l, b);
    Xor(Entry(t.byteExtension, Xor(And(l, 0xff), Byte(b))), Shr8(l))
  }

  /** STEP4: one word of one stride. */
  function Step4(t: Tables, crc: bv32, word: bv32): bv32 {
    LowBound(crc);
    LowBound(Shr8(crc));
    LowBound(Shr8(Shr8(crc)));
    TopBound(crc);
    Xor(Xor(Xor(Xor(word, Entry(t.stride3, And(crc, 0xff))), Entry(t.stride2, And(Shr8(crc), 0xff))),
            Entry(t.stride1, And(Shr8(Shr8(crc)), 0xff))), Entry(t.stride0, Shr8(Shr8(Shr8(crc)))))
  }

  lemma IndexBound(l: bv32, b: byte)
    ensures Xor(And(l, 0xff), Byte(b)) < 256
  {}

  lemma LowBound(w: bv32)
    ensures And(w, 0xff) < 256
  {}

  lemma TopBound(w: bv32)
    ensures Shr8(Shr8(Shr8(w))) < 256
  {}

  // ---------- what the macros compute ----------

  /** Clocking a word eight more times than its upper bytes. */
  lemma ByteSplit(n: nat, w: bv32)
    ensures Steps(n + 8, w) == Xor(Steps(n + 8, And(w, 0xff)), Steps(n, Shr8(w)))
  {
    var low := And(w, 0xff);
    EightOnes();
    LowBitsMasked(8, w, 0xff);
    FoldedWord(8, 0, w);
    FoldedWord(8, 0, low);
    Rest8(w);
    Rest8(low);
    LowShr8(w);
    XorCommutes(0, w);
    XorZero(w);
    XorCommutes(0, low);
    XorZero(low);
    XorZero(BitSerial(0, LowBits(8, low)));
    StepsCompose(n, 8, w);
    StepsCompose(n, 8, low);
    StepsAreLinear(n, Steps(8, low), Shr8(w));
  }

  lemma LowShr8(w: bv32)
    ensures Shr8(And(w, 0xff)) == 0
  {}

  lemma ByteIntoWord(l: bv32, b: byte)
    ensures And(Xor(l, Byte(b)), 0xff) == Xor(And(l, 0xff), Byte(b))
  {
    ByteIntoWordPure(l, b);
  }

  lemma ByteIntoWordPure(l: bv32, b: byte)
    ensures (l ^ (b as bv32)) & 0xff == (l & 0xff) ^ (b as bv32)
  {}

  lemma ByteShiftedOut(l: bv32, b: byte)
    ensures Shr8(Xor(l, Byte(b))) == Shr8(l)
  {
    ByteShiftedOutPure(l, b);
  }

  lemma ByteShiftedOutPure(l: bv32, b: byte)
    ensures (l ^ (b as bv32)) >> 8 == l >> 8
  {}

  /** A table that holds n clocks performs them on any byte. */
  lemma Lookup(t: Table, n: nat, i: bv32)
    requires Holds(t, n) && i < 256
    ensures Entry(t, i) == Steps(n, i)
  {}

  lemma NoSteps(w: bv32)
    ensures Steps(0, w) == w
  {}

  lemma Step1IsRegister(t: Tables, l: bv32, b: byte)
    requires Correct(t)
    ensures Step1(t, l, b) == BitSerial(l, ByteBits(b))
  {
    var w := Xor(l, Byte(b));
    RegisterByte(l, b);
    ByteSplit(0, w);
    NoSteps(Shr8(w));
    ByteIntoWord(l, b);
    ByteShiftedOut(l, b);
    IndexBound(l, b);
    Lookup(t.byteExtension, 8, Xor(And(l, 0xff), Byte(b)));
  }

  lemma Sum5(w: bv32, a: bv32, b: bv32, c: bv32, d: bv32)
    ensures Xor(Xor(Xor(Xor(w, a), b), c), d) == Xor(w, Xor(a, Xor(b, Xor(c, d))))
  {
    XorAssociates(Xor(Xor(w, a), b), c, d);
    XorAssociates(Xor(w, a), b, Xor(c, d));
    XorAssociates(w, a, Xor(b, Xor(c, d)));
  }

  lemma ClockByBytes(n: nat, w: bv32)
    ensures Steps(n + 24, w) == Xor(Steps(n + 24, And(w, 0xff)), Xor(Steps(n + 16, And(Shr8(w), 0xff)),
                                    Xor(Steps(n + 8, And(Shr8(Shr8(w)), 0xff)), Steps(n, Shr8(Shr8(Shr8(w)))))))
  {
    ByteSplit(n + 16, w);
    ByteSplit(n + 8, Shr8(w));
    ByteSplit(n, Shr8(Shr8(w)));
  }

  lemma Step4IsClock(t: Tables, crc: bv32, word: bv32)
    requires Correct(t)
    ensures Step4(t, crc, word) == Xor(word, Steps(128, crc))
  {
    var b0, b1, b2, b3 := And(crc, 0xff), And(Shr8(crc), 0xff), And(Shr8(Shr8(crc)), 0xff), Shr8(Shr8(Shr8(crc)));
    LowBound(crc);
    LowBound(Shr8(crc));
    LowBound(Shr8(Shr8(crc)));
    TopBound(crc);
    Lookup(t.stride3, 128, b0);
    Lookup(t.stride2, 120, b1);
    Lookup(t.stride1, 112, b2);
    Lookup(t.stride0, 104, b3);
    ClockByBytes(104, crc);
    Sum5(word, Steps(128, b0), Steps(120, b1), Steps(112, b2), Steps(104, b3));
  }

  // ---------- the four partial registers ----------

  // These laws hold for a word of any number n of bits; the code has n = 32.

  /** The register the four partial registers stand for. */
  function Combine(n: nat, c0: bv32, c1: bv32, c2: bv32, c3: bv32): bv32 {
    Xor(Steps(4 * n, c0), Xor(Steps(3 * n, c1), Xor(Steps(2 * n, c2), Steps(n, c3))))
  }

  /** The register after one more word. */
  function Word(n: nat, r: bv32, w: bv32): bv32 {
    Steps(n, Xor(r, w))
  }

  lemma WordIsLinear(n: nat, m: nat, x: bv32, y: bv32, w: bv32)
    ensures Word(n, Xor(Steps(m, x), y), w) == Xor(Steps(n + m, x), Word(n, y, w))
  {
    XorAssociates(Steps(m, x), y, w);
    StepsAreLinear(n, Steps(m, x), Xor(y, w));
    StepsCompose(n, m, x);
  }

  lemma WordOfClock(n: nat, m: nat, x: bv32, w: bv32)
    ensures Word(n, Steps(m, x), w) == Xor(Steps(n + m, x), Steps(n, w))
  {
    StepsAreLinear(n, Steps(m, x), w);
    StepsCompose(n, m, x);
  }

  /** Loading a swath: four words from register r. */
  lemma LoadSwath(n: nat, r: bv32, w0: bv32, w1: bv32, w2: bv32, w3: bv32)
    ensures Word(n, Word(n, Word(n, Word(n, r, w0), w1), w2), w3) == Combine(n, Xor(r, w0), w1, w2, w3)
  {
    var x := Xor(r, w0);
    WordOfClock(n, n, x, w1);
    WordIsLinear(n, 2 * n, x, Steps(n, w1), w2);
    WordOfClock(n, n, w1, w2);
    WordIsLinear(n, 3 * n, x, Xor(Steps(2 * n, w1), Steps(n, w2)), w3);
    WordIsLinear(n, 2 * n, w1, Steps(n, w2), w3);
    WordOfClock(n, n, w2, w3);
  }

  /** Clocking a sum of four clocked words. */
  lemma ClockCombined(m: nat, n: nat, c0: bv32, c1: bv32, c2: bv32, c3: bv32)
    ensures Steps(m, Combine(n, c0, c1, c2, c3))
         == Xor(Steps(m + 4 * n, c0), Xor(Steps(m + 3 * n, c1), Xor(Steps(m + 2 * n, c2), Steps(m + n, c3))))
  {
    hide Xor;
    hide Steps;
    StepsAreLinear(m, Steps(2 * n, c2), Steps(n, c3));
    StepsAreLinear(m, Steps(3 * n, c1), Xor(Steps(2 * n, c2), Steps(n, c3)));
    StepsAreLinear(m, Steps(4 * n, c0), Xor(Steps(3 * n, c1), Xor(Steps(2 * n, c2), Steps(n, c3))));
    StepsCompose(m, 4 * n, c0);
    StepsCompose(m, 3 * n, c1);
    StepsCompose(m, 2 * n, c2);
    StepsCompose(m, n, c3);
  }

  /** A stride that takes a word after n clocks. */
  lemma ClockStride(m: nat, n: nat, c: bv32, w: bv32)
    ensures Steps(m, Xor(w, Steps(n, c))) == Xor(Steps(m, w), Steps(m + n, c))
  {
    StepsAreLinear(m, w, Steps(n, c));
    StepsCompose(m, n, c);
  }

  lemma Interchange(x: bv32, xs: bv32, y: bv32, ys: bv32)
    ensures Xor(Xor(x, xs), Xor(y, ys)) == Xor(Xor(y, x), Xor(xs, ys))
  {
    XorAssociates(x, xs, Xor(y, ys));
    XorAssociates(xs, y, ys);
    XorCommutes(xs, y);
    XorAssociates(y, xs, ys);
    XorAssociates(x, y, Xor(xs, ys));
    XorCommutes(x, y);
  }

  lemma Regroup(a0: bv32, a1: bv32, a2: bv32, a3: bv32, b0: bv32, b1: bv32, b2: bv32, b3: bv32)
    ensures Xor(Xor(Xor(a0, Xor(a1, Xor(a2, a3))), b0), Xor(b1, Xor(b2, b3)))
         == Xor(Xor(b0, a0), Xor(Xor(b1, a1), Xor(Xor(b2, a2), Xor(b3, a3))))
  {
    var a, b := Xor(a1, Xor(a2, a3)), Xor(b1, Xor(b2, b3));
    XorAssociates(Xor(a0, a), b0, b);
    Interchange(a0, a, b0, b);
    Interchange(a1, Xor(a2, a3), b1, Xor(b2, b3));
    Interchange(a2, a3, b2, b3);
    XorCommutes(a3, b3);
  }

  /** STEP16: four words advance the four strides independently. */
  lemma AdvanceSwath(n: nat, c0: bv32, c1: bv32, c2: bv32, c3: bv32, w0: bv32, w1: bv32, w2: bv32, w3: bv32)
    ensures Word(n, Word(n, Word(n, Word(n, Combine(n, c0, c1, c2, c3), w0), w1), w2), w3)
         == Combine(n, Xor(w0, Steps(4 * n, c0)), Xor(w1, Steps(4 * n, c1)),
                       Xor(w2, Steps(4 * n, c2)), Xor(w3, Steps(4 * n, c3)))
  {
    hide Xor;
    hide Steps;
    var r := Combine(n, c0, c1, c2, c3);
    LoadSwath(n, r, w0, w1, w2, w3);
    StepsAreLinear(4 * n, r, w0);
    ClockCombined(4 * n, n, c0, c1, c2, c3);
    ClockStride(4 * n, 4 * n, c0, w0);
    ClockStride(3 * n, 4 * n, c1, w1);
    ClockStride(2 * n, 4 * n, c2, w2);
    ClockStride(n, 4 * n, c3, w3);
    Regroup(Steps(8 * n, c0), Steps(7 * n, c1), Steps(6 * n, c2), Steps(5 * n, c3),
            Steps(4 * n, w0), Steps(3 * n, w1), Steps(2 * n, w2), Steps(n, w3));
  }

  lemma Rotate(a0: bv32, a1: bv32, a2: bv32, a3: bv32, b: bv32)
    ensures Xor(Xor(a0, Xor(a1, Xor(a2, a3))), b) == Xor(a1, Xor(a2, Xor(a3, Xor(b, a0))))
  {
    var a, z := Xor(a1, Xor(a2, a3)), Xor(b, a0);
    XorCommutes(a0, a);
    XorAssociates(a, a0, b);
    XorCommutes(a0, b);
    XorAssociates(a1, Xor(a2, a3), z);
    XorAssociates(a2, a3, z);
  }

  /** One more word: the oldest stride takes it and becomes the youngest. */
  lemma AdvanceWord(n: nat, c0: bv32, c1: bv32, c2: bv32, c3: bv32, w: bv32)
    ensures Word(n, Combine(n, c0, c1, c2, c3), w) == Combine(n, c1, c2, c3, Xor(w, Steps(4 * n, c0)))
  {
    hide Xor;
    hide Steps;
    StepsAreLinear(n, Combine(n, c0, c1, c2, c3), w);
    ClockCombined(n, n, c0, c1, c2, c3);
    ClockStride(n, 4 * n, c0, w);
    Rotate(Steps(5 * n, c0), Steps(4 * n, c1), Steps(3 * n, c2), Steps(2 * n, c3), Steps(n, w));
  }

  // ---------- the code ----------

  /** STEP4W: four bytes that were already loaded into a word. */
  method Step4W(t: Tables, l: bv32, word: bv32) returns (r: bv32)
    requires Correct(t)
    ensures r == Word(32, l, word)
  {
    var w := Xor(word, l);
    XorCommutes(word, l);
    var i := 0;
    while i < 4
      invariant 0 <= i <= 4
      invariant Steps(8 * (4 - i), w) == Word(32, l, word)
    {
      ByteSplit(0, w);
      NoSteps(Shr8(w));
      StepsCompose(8 * (4 - (i + 1)), 8, w);
      LowBound(w);
      Lookup(t.byteExtension, 8, And(w, 0xff));
      XorCommutes(Shr8(w), Entry(t.byteExtension, And(w, 0xff)));
      w := Xor(Shr8(w), Entry(t.byteExtension, And(w, 0xff)));
      i := i + 1;
    }
    NoSteps(w);
    r := w;
  }

  /** The smallest multiple of four at or above the address. */
  function RoundUp4(address: nat): (x: nat)
    ensures address <= x < address + 4 && x % 4 == 0
  {
    (address + 3) / 4 * 4
  }

  lemma OneByte(r: bv32, data: seq<byte>, i: nat)
    requires i < |data|
    ensures Register(r, data[..i + 1]) == BitSerial(Register(r, data[..i]), ByteBits(data[i]))
  {
    assert data[..i + 1] == data[..i] + [data[i]];
    RegisterAppend(r, data[..i], [data[i]]);
    assert Bits([data[i]]) == ByteBits(data[i]);
  }

  lemma OneWord(r: bv32, data: seq<byte>, i: nat)
    requires i + 4 <= |data|
    ensures Register(r, data[..i + 4]) == Word(32, Register(r, data[..i]), DecodeFixed32(data[i..]))
  {
    assert data[..i + 4] == data[..i] + data[i..i + 4];
    RegisterAppend(r, data[..i], data[i..i + 4]);
    RegisterWord(Register(r, data[..i]), data[i..i + 4]);
    assert DecodeFixed32(data[i..]) == DecodeFixed32(data[i..i + 4]);
  }

  lemma FourWords(r: bv32, data: seq<byte>, i: nat)
    requires i + 16 <= |data|
    ensures Register(r, data[..i + 16])
         == Word(32, Word(32, Word(32, Word(32, Register(r, data[..i]), DecodeFixed32(data[i..])), DecodeFixed32(data[i + 4..])),
                      DecodeFixed32(data[i + 8..])), DecodeFixed32(data[i + 12..]))
  {
    OneWord(r, data, i);
    OneWord(r, data, i + 4);
    OneWord(r, data, i + 8);
    OneWord(r, data, i + 12);
  }

  /** STEP16: one 16-byte swath. */
  method Step16(t: Tables, c0: bv32, c1: bv32, c2: bv32, c3: bv32, data: seq<byte>, i: nat, ghost r: bv32)
    returns (d0: bv32, d1: bv32, d2: bv32, d3: bv32)
    requires Correct(t) && i + 16 <= |data|
    requires Register(r, data[..i]) == Combine(32, c0, c1, c2, c3)
    ensures Register(r, data[..i + 16]) == Combine(32, d0, d1, d2, d3)
  {
    var w0, w1 := DecodeFixed32(data[i..]), DecodeFixed32(data[i + 4..]);
    var w2, w3 := DecodeFixed32(data[i + 8..]), DecodeFixed32(data[i + 12..]);
    FourWords(r, data, i);
    AdvanceSwath(32, c0, c1, c2, c3, w0, w1, w2, w3);
    Step4IsClock(t, c0, w0);
    Step4IsClock(t, c1, w1);
    Step4IsClock(t, c2, w2);
    Step4IsClock(t, c3, w3);
    d0 := Step4(t, c0, w0);
    d1 := Step4(t, c1, w1);
    d2 := Step4(t, c2, w2);
    d3 := Step4(t, c3, w3);
  }

  /** The strides over everything but the last few bytes, from a register l that has seen data[..i]. */
  method Strides(t: Tables, ghost r: bv32, l: bv32, data: seq<byte>, i: nat) returns (l': bv32, p: nat)
    requires Correct(t) && i + 16 <= |data|
    requires l == Register(r, data[..i])
    ensures i <= p <= |data| && |data| - p < 4
    ensures l' == Register(r, data[..p])
  {
    // Load a 16-byte swath into the stride partial results.
    var crc0, crc1 := Xor(DecodeFixed32(data[i..]), l), DecodeFixed32(data[i + 4..]);
    var crc2, crc3 := DecodeFixed32(data[i + 8..]), DecodeFixed32(data[i + 12..]);
    p := i + 16;
    FourWords(r, data, i);
    LoadSwath(32, l, DecodeFixed32(data[i..]), crc1, crc2, crc3);
    XorCommutes(l, DecodeFixed32(data[i..]));

    // One 16-byte swath at a time.
    while |data| - p >= 16
      invariant i <= p <= |data|
      invariant Register(r, data[..p]) == Combine(32, crc0, crc1, crc2, crc3)
    {
      crc0, crc1, crc2, crc3 := Step16(t, crc0, crc1, crc2, crc3, data, p, r);
      p := p + 16;
    }

    // One word at a time, rotating the strides.
    while |data| - p >= 4
      invariant i <= p <= |data|
      invariant Register(r, data[..p]) == Combine(32, crc0, crc1, crc2, crc3)
    {
      OneWord(r, data, p);
      AdvanceWord(32, crc0, crc1, crc2, crc3, DecodeFixed32(data[p..]));
      Step4IsClock(t, crc0, DecodeFixed32(data[p..]));
      crc0 := Step4(t, crc0, DecodeFixed32(data[p..]));
      var tmp := crc0;
      crc0 := crc1;
      crc1 := crc2;
      crc2 := crc3;
      crc3 := tmp;
      p := p + 4;
    }

    // Combine the four partial results.
    l' := Fold(t, crc0, crc1, crc2, crc3);
  }

  method Fold(t: Tables, crc0: bv32, crc1: bv32, crc2: bv32, crc3: bv32) returns (l: bv32)
    requires Correct(t)
    ensures l == Combine(32, crc0, crc1, crc2, crc3)
  {
    LoadSwath(32, 0, crc0, crc1, crc2, crc3);
    XorCommutes(0, crc0);
    XorZero(crc0);
    l := 0;
    l := Step4W(t, l, crc0);
    l := Step4W(t, l, crc1);
    l := Step4W(t, l, crc2);
    l := Step4W(t, l, crc3);
  }

  /** STEP1 from position p up to position x. */
  method Bytes(t: Tables, ghost r: bv32, l: bv32, data: seq<byte>, from: nat, x: nat) returns (l': bv32)
    requires Correct(t) && from <= x <= |data|
    requires l == Register(r, data[..from])
    ensures l' == Register(r, data[..x])
  {
    var p := from;
    l' := l;
    while p != x
      invariant from <= p <= x
      invariant l' == Register(r, data[..p])
    {
      OneByte(r, data, p);
      Step1IsRegister(t, l', data[p]);
      l' := Step1(t, l', data[p]);
      p := p + 1;
    }
  }

  /**
   The CRC of the bytes stored from address base on, continued from crc: for every
   buffer, length and alignment it is the bit-serial CRC-32C.
   */
  method ExtendWith(t: Tables, crc: bv32, data: seq<byte>, base: nat) returns (result: bv32)
    requires Correct(t)
    ensures result == Crc(crc, data)
  {
    ghost var r := Xor(crc, ALL_ONES);
    var l := Xor(crc, ALL_ONES);
    var p := 0;
    assert data[..0] == [];

    // Up to the first word boundary, which might be past the end of the buffer.
    var x := RoundUp4(base) - base;
    if x <= |data| {
      l := Bytes(t, r, l, data, p, x);
      p := x;
    }
    if |data| - p >= 16 {
      l, p := Strides(t, r, l, data, p);
    }
    l := Bytes(t, r, l, data, p, |data|);
    assert data[..|data|] == data;
    result := Xor(l, ALL_ONES);
  }

  /** `Extend` with the tables of the source. */
  method Extend(crc: bv32, data: seq<byte>, base: nat) returns (result: bv32)
    ensures result == Crc(crc, data)
  {
    SourceTablesAreCorrect();
    result := ExtendWith(SourceTables(), crc, data, base);
  }

  method Value(data: seq<byte>, base: nat) returns (result: bv32)
    ensures result == Crc(0, data)
  {
    result := Extend(0, data, base);
  }

  // ---------- masking ----------

  const MASK_DELTA: bv32 := 0xa282ead8

  /** By 15 bits. */
  function RotateRight(w: bv32): bv32 {
    (w >> 15) | (w << 17)
  }

  function RotateLeft(w: bv32): bv32 {
    (w >> 17) | (w << 15)
  }

  function Mask(crc: bv32): bv32 {
    RotateRight(crc) + MASK_DELTA
  }

  function Unmask(masked: bv32): bv32 {
    RotateLeft(masked - MASK_DELTA)
  }

  /** The low 15 bits move to the top, the high 17 to the bottom, and a constant is added. */
  lemma MaskMeans(hi: bv32, lo: bv32)
    requires hi < 0x2_0000 && lo < 0x8000
    ensures Mask((hi << 15) ^ lo) == ((lo << 17) ^ hi) + 0xa282ead8
  {
    Moved(hi, lo);
    hide RotateRight;
  }

  lemma Moved(hi: bv32, lo: bv32)
    requires hi < 0x2_0000 && lo < 0x8000
    ensures RotateRight((hi << 15) ^ lo) == (lo << 17) ^ hi
  {}

  lemma UnmaskInvertsMask(crc: bv32)
    ensures Unmask(Mask(crc)) == crc
  {
    Rotations(crc);
    hide RotateRight;
    hide RotateLeft;
    AddCancels(RotateRight(crc));
  }

  lemma AddCancels(w: bv32)
    ensures w + MASK_DELTA - MASK_DELTA == w && w - MASK_DELTA + MASK_DELTA == w
  {}

  lemma Rotations(w: bv32)
    ensures RotateLeft(RotateRight(w)) == w && RotateRight(RotateLeft(w)) == w
  {}

  lemma MaskInvertsUnmask(masked: bv32)
    ensures Mask(Unmask(masked)) == masked
  {
    Rotations(masked - MASK_DELTA);
    hide RotateRight;
    hide RotateLeft;
    AddCancels(masked);
  }
}
