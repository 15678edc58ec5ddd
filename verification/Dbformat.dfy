/** Internal keys: a user key followed by a tag that packs a sequence number and a type. */
module Dbformat {

  import opened Fixed
  import opened Coding
  import opened Order

  const MAX_SEQUENCE: nat := 0xff_ffff_ffff_ffff

  datatype ValueType = Delete | Value {
    function Code(): nat {
      if Delete? then 0 else 1
    }
  }

  datatype ParsedInternalKey = ParsedInternalKey(userKey: Bytes, seqno: nat, kind: ValueType)

  // ---------- tags ----------

  /** Seven bytes of sequence number, one byte of type. */
  function Tag(seqno: nat, kind: ValueType): (t: nat)
    requires seqno <= MAX_SEQUENCE
    ensures t < TWO_64
  {
    seqno * 0x100 + kind.Code()
  }

  /** Of two tags in range the greater has the greater sequence number, or the same and the greater type. */
  lemma TagOrder(s: nat, k: ValueType, t: nat, l: ValueType)
    requires s <= MAX_SEQUENCE && t <= MAX_SEQUENCE
    ensures Tag(s, k) < Tag(t, l) <==> s < t || (s == t && k.Delete? && l.Value?)
  {}

  lemma TagKind(seqno: nat, kind: ValueType)
    requires seqno <= MAX_SEQUENCE
    ensures Tag(seqno, kind) % 0x100 == kind.Code()
  {}

  lemma TagInjective(s: nat, k: ValueType, t: nat, l: ValueType)
    requires s <= MAX_SEQUENCE && t <= MAX_SEQUENCE && Tag(s, k) == Tag(t, l)
    ensures s == t && k == l
  {}

  /** A 64-bit word returned as a 32-bit int and widened again. */
  function ThroughInt(v: nat): (w: nat)
    ensures w < TWO_64
  {
    var low := v % TWO_32;
    if low < 0x8000_0000 then low else TWO_64 - TWO_32 + low
  }

  /** The packer as written: its result type is int. */
  function PackSeqAndType(seqno: nat, kind: ValueType): nat
    requires seqno <= MAX_SEQUENCE
  {
    ThroughInt(Tag(seqno, kind))
  }

  /** What is left of a sequence number: its low 24 bits, the sign extended. */
  function Wrapped(seqno: nat): nat {
    var low := seqno % 0x100_0000;
    if low < 0x80_0000 then low else 0xff_ffff_ff00_0000 + low
  }

  lemma PackIsWrapped(seqno: nat, kind: ValueType)
    requires seqno <= MAX_SEQUENCE
    ensures PackSeqAndType(seqno, kind) == Wrapped(seqno) * 0x100 + kind.Code()
  {
    var q, low := seqno / 0x100_0000, seqno % 0x100_0000;
    Remainder(low * 0x100 + kind.Code(), TWO_32, q);
    assert Tag(seqno, kind) == q * TWO_32 + (low * 0x100 + kind.Code());
  }

  /** The packer yields the tag of exactly the first and the last 2^23 sequence numbers. */
  lemma PackIsExact(seqno: nat, kind: ValueType)
    requires seqno <= MAX_SEQUENCE
    ensures PackSeqAndType(seqno, kind) == Tag(seqno, kind) <==> seqno < 0x80_0000 || seqno >= 0xff_ffff_ff80_0000
  {
    PackIsWrapped(seqno, kind);
    hide PackSeqAndType;
  }

  /** The sequence number a packed tag stands for. */
  function Effective(seqno: nat): (e: nat)
    requires seqno <= MAX_SEQUENCE
    ensures e <= MAX_SEQUENCE
  {
    PackSeqAndType(seqno, Value) / 0x100
  }

  lemma EffectiveIsWrapped(seqno: nat)
    requires seqno <= MAX_SEQUENCE
    ensures Effective(seqno) == Wrapped(seqno)
  {
    PackIsWrapped(seqno, Value);
    hide PackSeqAndType;
    Quotient(Wrapped(seqno), 0x100, 1);
    hide Wrapped;
  }

  lemma PackIsEffective(seqno: nat, kind: ValueType)
    requires seqno <= MAX_SEQUENCE
    ensures PackSeqAndType(seqno, kind) == Tag(Effective(seqno), kind)
  {
    PackIsWrapped(seqno, kind);
    EffectiveIsWrapped(seqno);
    hide PackSeqAndType;
    hide Wrapped;
    hide Effective;
  }

  lemma EffectiveIsExact(seqno: nat)
    requires seqno <= MAX_SEQUENCE
    ensures Effective(seqno) == seqno <==> seqno < 0x80_0000 || seqno >= 0xff_ffff_ff80_0000
  {
    EffectiveIsWrapped(seqno);
    hide Effective;
  }

  /** The first and the last 2^23 sequence numbers. */
  predicate InPackedRange(seqno: nat) {
    seqno < 0x80_0000 || 0xff_ffff_ff80_0000 <= seqno <= 0xff_ffff_ffff_ffff
  }

  /** Which one that is: the only one with the same low 24 bits among the first and the last 2^23. */
  lemma EffectiveIsCongruent(seqno: nat)
    requires seqno <= 0xff_ffff_ffff_ffff
    ensures Effective(seqno) % 0x100_0000 == seqno % 0x100_0000
    ensures InPackedRange(Effective(seqno))
    ensures forall e: nat :: e % 0x100_0000 == seqno % 0x100_0000 && InPackedRange(e) ==> e == Effective(seqno)
  {
    EffectiveIsWrapped(seqno);
    hide Effective;
  }

  /** The first sequence number the packer gets wrong: it stands for the last 2^23 of all. */
  lemma FirstWrongSequence()
    ensures Effective(0x80_0000) == 0xff_ffff_ff80_0000
  {
    EffectiveIsWrapped(0x80_0000);
    hide Effective;
  }

  // ---------- internal keys ----------

  function ExtractUserKey(k: Bytes): Bytes
    requires |k| >= 8
  {
    k[..|k| - 8]
  }

  function ExtractTag(k: Bytes): nat
    requires |k| >= 8
  {
    DecodeFixed64(k[|k| - 8..])
  }

  function EncodeKey(userKey: Bytes, tag: nat): (k: Bytes)
    ensures |k| == |userKey| + 8
  {
    userKey + Fixed64(tag)
  }

  /** An internal key gives back its user key and its tag. */
  lemma KeyRoundTrip(userKey: Bytes, tag: nat)
    requires tag < TWO_64
    ensures ExtractUserKey(EncodeKey(userKey, tag)) == userKey
    ensures ExtractTag(EncodeKey(userKey, tag)) == tag
  {
    var k := EncodeKey(userKey, tag);
    assert k[|k| - 8..] == Fixed64(tag) + [];
    Fixed64RoundTrip(tag, []);
  }

  /** Where they are: the user key first, then the type, then the sequence number, its lowest byte first. */
  lemma KeyLayout(userKey: Bytes, seqno: nat, kind: ValueType, i: nat)
    requires seqno <= MAX_SEQUENCE && i < 7
    ensures var k, n := EncodeKey(userKey, Tag(seqno, kind)), |userKey|;
            && |k| == n + 8 && k[..n] == userKey
            && k[n] == (if kind.Delete? then 0 else 1)
            && k[n + 1 + i] as nat == seqno / Power256(i) % 256
  {
    var tag := Tag(seqno, kind);
    Fixed64Digits(tag, 0);
    Fixed64Digits(tag, i + 1);
    TagDigits(seqno, kind, i);
    hide Tag;
    hide Fixed64;
    hide Power256;
    TagKind(seqno, kind);
    SmallByte(Fixed64(tag)[0], kind.Code());
  }

  lemma SmallByte(b: byte, n: nat)
    requires b as nat == n && n <= 1
    ensures b == if n == 0 then 0 else 1
  {
    ValueDetermines(b, n);
    ValueDetermines(1, 1);
    ValueDetermines(0, 0);
  }

  lemma TagDigits(seqno: nat, kind: ValueType, i: nat)
    requires seqno <= MAX_SEQUENCE
    ensures Tag(seqno, kind) / Power256(i + 1) == seqno / Power256(i)
  {
    Quotient(seqno, 256, kind.Code());
    DivDiv(Tag(seqno, kind), 256, Power256(i));
  }

  method PutFixed64(dst: Bytes, v: nat) returns (r: Bytes)
    ensures r == dst + Fixed64(v)
  {
    var buf := new byte[8];
    EncodeFixed64(buf, 0, v);
    r := dst + buf[..];
  }

  method AppendInternalKey(result: Bytes, key: ParsedInternalKey) returns (r: Bytes)
    requires key.seqno <= MAX_SEQUENCE
    ensures r == result + EncodeKey(key.userKey, Tag(Effective(key.seqno), key.kind))
  {
    PackIsEffective(key.seqno, key.kind);
    r := PutFixed64(result + key.userKey, PackSeqAndType(key.seqno, key.kind));
  }

  // ---------- their order ----------

  /** User keys ascending; tags, that is sequence numbers and then types, descending. */
  function Compare(user: (Bytes, Bytes) -> int, a: Bytes, b: Bytes): int
    requires |a| >= 8 && |b| >= 8
  {
    var result := user(ExtractUserKey(a), ExtractUserKey(b));
    if result != 0 then result
    else if ExtractTag(a) < ExtractTag(b) then 1
    else if ExtractTag(a) > ExtractTag(b) then -1
    else 0
  }

  /** What the order says about two parsed keys. */
  lemma CompareMeans(user: (Bytes, Bytes) -> int, a: ParsedInternalKey, b: ParsedInternalKey)
    requires a.seqno <= MAX_SEQUENCE && b.seqno <= MAX_SEQUENCE
    ensures var c := Compare(user, EncodeKey(a.userKey, Tag(a.seqno, a.kind)), EncodeKey(b.userKey, Tag(b.seqno, b.kind)));
            && (user(a.userKey, b.userKey) != 0 ==> c == user(a.userKey, b.userKey))
            && (user(a.userKey, b.userKey) == 0 ==>
                  && (c < 0 <==> a.seqno > b.seqno || (a.seqno == b.seqno && a.kind.Value? && b.kind.Delete?))
                  && (c == 0 <==> a.seqno == b.seqno && a.kind == b.kind))
  {
    KeyRoundTrip(a.userKey, Tag(a.seqno, a.kind));
    KeyRoundTrip(b.userKey, Tag(b.seqno, b.kind));
    TagOrder(a.seqno, a.kind, b.seqno, b.kind);
    TagOrder(b.seqno, b.kind, a.seqno, a.kind);
    if Tag(a.seqno, a.kind) == Tag(b.seqno, b.kind) { TagInjective(a.seqno, a.kind, b.seqno, b.kind); }
    hide Tag;
    hide EncodeKey;
    hide ExtractTag;
    hide ExtractUserKey;
  }

  lemma CompareSelf(user: (Bytes, Bytes) -> int, a: Bytes)
    requires TotalOrder(user) && |a| >= 8
    ensures Compare(user, a, a) == 0
  {}

  lemma CompareFlips(user: (Bytes, Bytes) -> int, a: Bytes, b: Bytes)
    requires TotalOrder(user) && |a| >= 8 && |b| >= 8
    ensures Compare(user, a, b) < 0 <==> Compare(user, b, a) > 0
  {
    hide ExtractTag;
    hide ExtractUserKey;
    var u, v := ExtractUserKey(a), ExtractUserKey(b);
    assert (user(u, v) < 0 <==> user(v, u) > 0) && (user(v, u) < 0 <==> user(u, v) > 0);
  }

  lemma CompareTransitive(user: (Bytes, Bytes) -> int, a: Bytes, b: Bytes, c: Bytes)
    requires TotalOrder(user) && |a| >= 8 && |b| >= 8 && |c| >= 8
    requires Compare(user, a, b) <= 0 && Compare(user, b, c) <= 0
    ensures Compare(user, a, c) <= 0
  {
    hide ExtractTag;
    hide ExtractUserKey;
    Transitive(user, ExtractUserKey(a), ExtractUserKey(b), ExtractUserKey(c));
  }

  type EncodedKey = k: Bytes | |k| >= 8 witness [0, 0, 0, 0, 0, 0, 0, 0]

  /** The order of internal keys, as one comparison function. */
  function KeyOrder(user: (Bytes, Bytes) -> int): (EncodedKey, EncodedKey) -> int {
    (a: EncodedKey, b: EncodedKey) => Compare(user, a, b)
  }

  /** Whatever total order the user chose, internal keys are totally ordered. */
  lemma KeyOrderIsTotal(user: (Bytes, Bytes) -> int)
    requires TotalOrder(user)
    ensures TotalOrder(KeyOrder(user))
  {
    hide Compare;
    var cmp := KeyOrder(user);
    forall a: EncodedKey
      ensures cmp(a, a) == 0
    {
      CompareSelf(user, a);
    }
    forall a: EncodedKey, b: EncodedKey
      ensures cmp(a, b) < 0 <==> cmp(b, a) > 0
    {
      CompareFlips(user, a, b);
    }
    forall a: EncodedKey, b: EncodedKey, c: EncodedKey | cmp(a, b) <= 0 && cmp(b, c) <= 0
      ensures cmp(a, c) <= 0
    {
      CompareTransitive(user, a, b, c);
    }
  }

  /** An internal key held in a string of its own. */
  class InternalKey {
    var rep: Bytes

    constructor (userKey: Bytes, seqno: nat, kind: ValueType)
      requires seqno <= MAX_SEQUENCE
      ensures rep == EncodeKey(userKey, Tag(Effective(seqno), kind))
    {
      rep := [];
      new;
      rep := AppendInternalKey(rep, ParsedInternalKey(userKey, seqno, kind));
    }

    method SetFrom(p: ParsedInternalKey)
      requires p.seqno <= MAX_SEQUENCE
      modifies this
      ensures rep == EncodeKey(p.userKey, Tag(Effective(p.seqno), p.kind))
      ensures UserKey() == p.userKey
    {
      rep := [];
      rep := AppendInternalKey(rep, p);
      KeyRoundTrip(p.userKey, Tag(Effective(p.seqno), p.kind));
    }

    function UserKey(): Bytes
      requires |rep| >= 8
      reads this
    {
      ExtractUserKey(rep)
    }
  }

  // ---------- writing through an advancing pointer ----------

  /** The first p bytes of the buffer are written, and are s. */
  ghost predicate Wrote(dst: Bytes, p: nat, s: Bytes) {
    p == |s| <= |dst| && dst[..p] == s
  }

  lemma WroteMore(before: Bytes, after: Bytes, p: nat, s: Bytes, more: Bytes)
    requires Wrote(before, p, s) && p + |more| <= |before|
    requires after == before[..p] + more + before[p + |more|..]
    ensures Wrote(after, p + |more|, s + more) && |after| == |before|
  {}

  lemma WroteVarint(before: Bytes, after: Bytes, p: nat, q: nat, s: Bytes, v: nat)
    requires Wrote(before, p, s) && Encoded(after, before, p, q, v)
    ensures Wrote(after, q, s + Varint(v)) && |after| == |before|
  {
    WroteMore(before, after, p, s, Varint(v));
  }

  method WriteVarint32(dst: array<byte>, p: nat, v: nat, ghost s: Bytes) returns (q: nat)
    requires Wrote(dst[..], p, s) && v < TWO_32 && p + |Varint(v)| <= dst.Length
    modifies dst
    ensures q == p + |Varint(v)|
    ensures Wrote(dst[..], q, s + Varint(v))
  {
    ghost var before := dst[..];
    q := EncodeVarint32(dst, p, v);
    WroteVarint(before, dst[..], p, q, s, v);
  }

  method WriteFixed64(dst: array<byte>, p: nat, v: nat, ghost s: Bytes)
    requires Wrote(dst[..], p, s) && p + 8 <= dst.Length
    modifies dst
    ensures Wrote(dst[..], p + 8, s + Fixed64(v))
  {
    ghost var before := dst[..];
    EncodeFixed64(dst, p, v);
    WroteMore(before, dst[..], p, s, Fixed64(v));
  }

  /** memcpy. */
  method CopyInto(dst: array<byte>, p: nat, src: Bytes, ghost s: Bytes)
    requires Wrote(dst[..], p, s) && p + |src| <= dst.Length
    modifies dst
    ensures Wrote(dst[..], p + |src|, s + src)
  {
    ghost var before := dst[..];
    forall i | 0 <= i < |src| { dst[p + i] := src[i]; }
    assert dst[..] == before[..p] + src + before[p + |src|..];
    WroteMore(before, dst[..], p, s, src);
  }

  lemma WroteNothing(dst: Bytes)
    ensures Wrote(dst, 0, [])
  {}

  lemma Joined(s: Bytes, userKey: Bytes, tag: nat)
    ensures s + userKey + Fixed64(tag) == s + EncodeKey(userKey, tag)
  {}

  /** A length, a user key and a tag; where the user key begins. */
  method WriteKey(dst: array<byte>, at: nat, userKey: Bytes, tag: nat, ghost s: Bytes) returns (p: nat)
    requires Wrote(dst[..], at, s) && |userKey| + 8 < TWO_32
    requires at + |Varint(|userKey| + 8)| + |userKey| + 8 <= dst.Length
    modifies dst
    ensures p == at + |Varint(|userKey| + 8)|
    ensures Wrote(dst[..], p + |userKey| + 8, s + Varint(|userKey| + 8) + EncodeKey(userKey, tag))
  {
    hide Varint;
    hide EncodeKey;
    assert |s| == at;
    hide Wrote;
    ghost var prefix := s + Varint(|userKey| + 8);
    p := WriteVarint32(dst, at, |userKey| + 8, s);
    CopyInto(dst, p, userKey, prefix);
    WriteFixed64(dst, p + |userKey|, tag, prefix + userKey);
    Joined(prefix, userKey, tag);
  }

  // ---------- look-up keys ----------

  const SPACE: nat := 200

  method KeyBuffer(userKey: Bytes, tag: nat) returns (buf: array<byte>, p: nat)
    requires |userKey| + 8 < TWO_32
    ensures fresh(buf) && p == |Varint(|userKey| + 8)|
    ensures buf.Length == if |userKey| + 15 <= SPACE then SPACE else |userKey| + 15
    ensures Wrote(buf[..], p + |userKey| + 8, Varint(|userKey| + 8) + EncodeKey(userKey, tag))
  {
    var needed := |userKey| + 15;
    buf := new byte[if needed <= SPACE then SPACE else needed];
    RoundTrip32(|userKey| + 8, []);
    hide Varint;
    hide Decode32;
    hide Wrote;
    hide EncodeKey;
    WroteNothing(buf[..]);
    p := WriteKey(buf, 0, userKey, tag, []);
    assert [] + Varint(|userKey| + 8) == Varint(|userKey| + 8);
  }

  lemma KeySlices(dst: Bytes, end: nat, prefix: Bytes, key: Bytes, tag: nat)
    requires Wrote(dst, end, prefix + EncodeKey(key, tag))
    ensures |prefix| <= end - 8 <= end <= |dst|
    ensures dst[|prefix|..end] == EncodeKey(key, tag) && dst[|prefix|..end - 8] == key
  {
    hide Fixed64;
    var k, w := EncodeKey(key, tag), dst[..end];
    assert w == prefix + k;
    assert w[|prefix|..] == k;
    assert dst[|prefix|..end] == w[|prefix|..];
    assert k[..|key|] == key;
    assert dst[|prefix|..end - 8] == dst[|prefix|..end][..|key|];
  }

  /** A length-prefixed internal key to look for, in a buffer of its own. */
  class LookupKey {
    const dst: array<byte>
    const userAt: nat
    const end: nat
    ghost const key: Bytes
    /** The sequence number in the tag, which is the one a table is searched for. */
    ghost const seqno: nat

    ghost predicate Valid()
      reads dst
    {
      && |key| + 8 < TWO_32 && seqno <= MAX_SEQUENCE
      && userAt == |Varint(|key| + 8)|
      && Wrote(dst[..], end, Varint(|key| + 8) + EncodeKey(key, Tag(seqno, Value)))
    }

    /** Room for the length, the key and the tag: in the object when small, else on the heap. */
    constructor (userKey: Bytes, sequence: nat)
      requires |userKey| + 8 < TWO_32 && sequence <= MAX_SEQUENCE
      ensures Valid() && key == userKey && seqno == Effective(sequence) && fresh(dst)
      ensures dst.Length == if |userKey| <= 185 then 200 else |userKey| + 15
    {
      hide PackSeqAndType;
      hide Effective;
      hide Tag;
      hide Varint;
      hide Wrote;
      hide EncodeKey;
      PackIsEffective(sequence, Value);
      var buf, p := KeyBuffer(userKey, PackSeqAndType(sequence, Value));
      dst, userAt, end, key, seqno := buf, p, p + |userKey| + 8, userKey, Effective(sequence);
    }

    /** The same with the packer's result type as wide as a tag. */
    constructor AsMeant(userKey: Bytes, sequence: nat)
      requires |userKey| + 8 < TWO_32 && sequence <= MAX_SEQUENCE
      ensures Valid() && key == userKey && seqno == sequence && fresh(dst)
    {
      hide Varint;
      hide Wrote;
      hide EncodeKey;
      var buf, p := KeyBuffer(userKey, Tag(sequence, Value));
      dst, userAt, end, key, seqno := buf, p, p + |userKey| + 8, userKey, sequence;
    }

    /** The key as the table's entries start: length, user key, tag. */
    function MemtableKey(): (k: Bytes)
      requires Valid()
      reads dst
      ensures k == Varint(|key| + 8) + EncodeKey(key, Tag(seqno, Value))
    {
      dst[..end]
    }

    function InternalKeySlice(): (k: Bytes)
      requires Valid()
      reads dst
      ensures k == EncodeKey(key, Tag(seqno, Value))
    {
      KeySlices(dst[..], end, Varint(|key| + 8), key, Tag(seqno, Value));
      dst[userAt..end]
    }

    function UserKey(): (k: Bytes)
      requires Valid()
      reads dst
      ensures k == key
    {
      KeySlices(dst[..], end, Varint(|key| + 8), key, Tag(seqno, Value));
      dst[userAt..end - 8]
    }
  }
}
