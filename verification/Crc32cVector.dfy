/** The one checksum the source states: that of its test buffer. */
module Crc32cVector {

  import opened Crc32cSpec
  import opened Crc32cTables
  import opened Fixed

  /** "TestCRCBuffer". */
  function TestBuffer(): Bytes {
    [0x54, 0x65, 0x73, 0x74, 0x43, 0x52, 0x43, 0x42, 0x75, 0x66, 0x66, 0x65, 0x72]
  }

  /** One byte more. */
  lemma Eat(data: Bytes, k: nat, r: bv32, next: bv32)
    requires k < |data| && Register(ALL_ONES, data[..k]) == r
    requires EightClocks(Xor(r, Byte(data[k]))) == next
    ensures Register(ALL_ONES, data[..k + 1]) == next
  {
    EightSteps(Xor(r, Byte(data[k])));
    hide Steps;
    hide EightClocks;
    hide Xor;
    hide Register;
    assert data[..k + 1] == data[..k] + [data[k]];
    RegisterAppend(ALL_ONES, data[..k], [data[k]]);
    One(r, data[k]);
  }

  lemma One(r: bv32, b: bv8)
    ensures Register(r, [b]) == Steps(8, Xor(r, Byte(b)))
  {
    hide Steps;
    hide Xor;
    assert Bits([b][1..]) == [];
    assert Bits([b]) == ByteBits(b);
    RegisterByte(r, b);
  }

  lemma TestBufferRegister()
    ensures Register(ALL_ONES, TestBuffer()) == 0x2343a605
  {
    hide Register;
    var data := TestBuffer();
    assert data[..0] == [];
    Nothing(ALL_ONES);
    Eat(data, 0, 0xffffffff, 0x3b3de162);
    Eat(data, 1, 0x3b3de162, 0xd4f1590a);
    Eat(data, 2, 0xd4f1590a, 0x09fe7e98);
    Eat(data, 3, 0x09fe7e98, 0xae7a99b4);
    Eat(data, 4, 0xae7a99b4, 0x270a7107);
    Eat(data, 5, 0x270a7107, 0x64f3c4be);
    Eat(data, 6, 0x64f3c4be, 0x4c22d062);
    Eat(data, 7, 0x4c22d062, 0x20f1ac0e);
    Eat(data, 8, 0x20f1ac0e, 0xe8310e9a);
    Eat(data, 9, 0xe8310e9a, 0xbec591ab);
    Eat(data, 10, 0xbec591ab, 0x7c1baf86);
    Eat(data, 11, 0x7c1baf86, 0xf01c4041);
    Eat(data, 12, 0xf01c4041, 0x2343a605);
    assert data[..13] == data;
  }

  lemma Nothing(r: bv32)
    ensures Register(r, []) == r
  {}

  /** The model's checksum of the test buffer is the constant the source compares with. */
  lemma TestBufferChecksum()
    ensures Crc(0, TestBuffer()) == 0xdcbc59fa
  {
    TestBufferRegister();
  }
}
