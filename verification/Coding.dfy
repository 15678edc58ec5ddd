/**
 Variable-length integers: seven bits a byte, lowest first, the top bit set on every byte
 but the last. Numbers are naturals below 2^32 or 2^64; shifting and masking by powers of
 two is written as division and remainder, and or-ing disjoint bits as addition.
 */
module Coding {

  import opened Fixed
  import opened Wrappers


  /** A decoded number and how many bytes it took. */
  datatype Decoded = Decoded(value: nat, length: nat)

  // ---------- the format ----------

  function Varint(v: nat): (s: seq<byte>)
    ensures |s| >= 1
  {
    if v < 128 then [ByteOf(v)] else [More(v)] + Varint(v / 128)
  }

  /** The low seven bits with the top bit set: more bytes follow. */
  function More(v: nat): byte {
    ByteOf(v % 128 + 128)
  }

  /** A number read further on, with the groups before it. */
  function Moved(d: Option<Decoded>, acc: nat, weight: nat, p: nat): Option<Decoded> {
    match d
    case None => None
    case Some(n) => Some(Decoded(acc + n.value * weight, p + n.length))
  }

  /** The number at the front of s, when it ends within the first so many bytes. */
  function Decode(s: seq<byte>, groups: nat): (d: Option<Decoded>)
    ensures d.Some? ==> 1 <= d.value.length <= |s| && d.value.length <= groups
  {
    if groups == 0 || |s| == 0 then None
    else if s[0] < 128 then Some(Decoded(s[0] as nat, 1))
    else Moved(Decode(s[1..], groups - 1), s[0] as nat - 128, 128, 1)
  }

  lemma HighByte(b: byte)
    ensures b < 128 <==> b as nat < 128
  {}

  /** The same, the value cut to a word of so many values. */
  function DecodeWord(s: seq<byte>, groups: nat, word: nat): (d: Option<Decoded>)
    requires word > 0
    ensures d.Some? ==> 1 <= d.value.length <= |s| && d.value.value < word
  {
    match Decode(s, groups)
    case None => None
    case Some(d) => Some(Decoded(d.value % word, d.length))
  }

  /** What the 32-bit decoder returns: at most five bytes. */
  function Decode32(s: seq<byte>): Option<Decoded> {
    DecodeWord(s, 5, TWO_32)
  }

  function Decode64(s: seq<byte>): Option<Decoded> {
    DecodeWord(s, 10, TWO_64)
  }

  // ---------- round trips ----------

  function Power128(i: nat): (p: nat)
    ensures p >= 1
  {
    if i == 0 then 1 else 128 * Power128(i - 1)
  }

  lemma LastByte(v: nat)
    requires v < 128
    ensures ByteOf(v) < 128
  {
    HighByte(ByteOf(v));
  }

  lemma MoreByte(v: nat)
    ensures More(v) >= 128 && More(v) as nat == v % 128 + 128
  {
    HighByte(More(v));
  }

  lemma {:induction false} VarintFits(v: nat, groups: nat)
    requires groups >= 1 && v < Power128(groups)
    ensures |Varint(v)| <= groups
  {
    if v >= 128 {
      assert v / 128 < Power128(groups - 1);
      VarintFits(v / 128, groups - 1);
    }
  }

  lemma DecodeMore(s: seq<byte>, groups: nat)
    requires |s| > 0 && groups > 0 && s[0] >= 128
    ensures s[0] as nat >= 128
    ensures Decode(s, groups) == Moved(Decode(s[1..], groups - 1), s[0] as nat - 128, 128, 1)
  {
    HighByte(s[0]);
  }

  lemma DecodeLast(s: seq<byte>, groups: nat)
    requires |s| > 0 && groups > 0 && s[0] < 128
    ensures Decode(s, groups) == Some(Decoded(s[0] as nat, 1))
  {}

  lemma {:induction false} DecodeVarint(v: nat, groups: nat, rest: seq<byte>)
    requires |Varint(v)| <= groups
    ensures Decode(Varint(v) + rest, groups) == Some(Decoded(v, |Varint(v)|))
  {
    hide Decode;
    hide ByteOf;
    if v < 128 {
      LastByte(v);
      DecodeLast(Varint(v) + rest, groups);
    } else {
      MoreByte(v);
      hide More;
      DecodeMore(Varint(v) + rest, groups);
      assert (Varint(v) + rest)[1..] == Varint(v / 128) + rest;
      DecodeVarint(v / 128, groups - 1, rest);
    }
  }

  lemma RoundTripWord(v: nat, groups: nat, word: nat, rest: seq<byte>)
    requires v < word && |Varint(v)| <= groups
    ensures DecodeWord(Varint(v) + rest, groups, word) == Some(Decoded(v, |Varint(v)|))
  {
    hide Decode;
    hide Varint;
    DecodeVarint(v, groups, rest);
  }

  /** Every 32-bit number takes at most five bytes and is read back with the rest untouched. */
  lemma RoundTrip32(v: nat, rest: seq<byte>)
    requires v < TWO_32
    ensures |Varint(v)| <= 5
    ensures Decode32(Varint(v) + rest) == Some(Decoded(v, |Varint(v)|))
  {
    hide Varint;
    hide DecodeWord;
    assert Power128(5) == 128 * 128 * 128 * 128 * 128;
    VarintFits(v, 5);
    RoundTripWord(v, 5, TWO_32, rest);
  }

  lemma RoundTrip64(v: nat, rest: seq<byte>)
    requires v < TWO_64
    ensures |Varint(v)| <= 10
    ensures Decode64(Varint(v) + rest) == Some(Decoded(v, |Varint(v)|))
  {
    hide Varint;
    hide DecodeWord;
    PowerOf10();
    VarintFits(v, 10);
    RoundTripWord(v, 10, TWO_64, rest);
  }

  lemma PowerOf10()
    ensures Power128(10) >= TWO_64
  {
    assert Power128(5) == 128 * 128 * 128 * 128 * 128;
    assert Power128(10) == 128 * 128 * 128 * 128 * 128 * Power128(5);
  }

  /** No code is the beginning of another. */
  lemma PrefixFree(v: nat, w: nat)
    requires Varint(v) <= Varint(w)
    ensures v == w
  {
    var n := |Varint(w)|;
    DecodeVarint(v, n, Varint(w)[|Varint(v)|..]);
    DecodeVarint(w, n, []);
    assert Varint(v) + Varint(w)[|Varint(v)|..] == Varint(w) == Varint(w) + [];
  }

  // ---------- what the bytes mean ----------

  /** The sum of the low seven bits of the first n bytes, the i-th counted 128^i times. */
  function GroupSum(s: seq<byte>, n: nat): nat
    requires n <= |s|
  {
    if n == 0 then 0 else GroupSum(s, n - 1) + s[n - 1] as nat % 128 * Power128(n - 1)
  }

  /** The first group apart from the others. */
  lemma {:induction false} GroupSumFront(s: seq<byte>, n: nat)
    requires 1 <= n <= |s|
    ensures GroupSum(s, n) == s[0] as nat % 128 + 128 * GroupSum(s[1..], n - 1)
  {
    if n > 1 {
      GroupSumFront(s, n - 1);
      var b := s[n - 1] as nat % 128;
      assert s[1..][n - 2] == s[n - 1] && Power128(n - 1) == 128 * Power128(n - 2);
      Scale(b, Power128(n - 2), 128);
    }
  }

  /** All bytes before position n say that more follow. */
  predicate Continues(s: seq<byte>, n: nat) {
    forall i :: 0 <= i < n && i < |s| ==> s[i] >= 128
  }

  /** The first n bytes are the groups of this number. */
  predicate EndsWith(s: seq<byte>, n: nat, value: nat) {
    1 <= n <= |s| && Continues(s, n - 1) && s[n - 1] < 128 && value == GroupSum(s, n)
  }

  lemma EndsHere(s: seq<byte>, groups: nat)
    requires groups == 0 || |s| == 0 || s[0] < 128
    ensures groups == 0 || |s| == 0 ==> Continues(s, groups)
    ensures groups > 0 && |s| > 0 ==> !Continues(s, groups) && EndsWith(s, 1, s[0] as nat)
  {
    if groups > 0 && |s| > 0 {
      SmallBits(s[0]);
      assert GroupSum(s, 1) == GroupSum(s, 0) + s[0] as nat % 128 * Power128(0);
    }
  }

  lemma SmallBits(b: byte)
    requires b < 128
    ensures b as nat % 128 == b as nat
  {
    HighByte(b);
  }

  lemma EndsLater(s: seq<byte>, n: nat)
    requires |s| > 0 && s[0] >= 128
    ensures Continues(s, n + 1) <==> Continues(s[1..], n)
  {
    if Continues(s[1..], n) {
      forall i | 1 <= i < n + 1 && i < |s|
        ensures s[i] >= 128
      {
        assert s[i] == s[1..][i - 1];
      }
    }
  }

  lemma OneGroupMore(s: seq<byte>, n: nat, value: nat)
    requires |s| > 0 && s[0] >= 128 && EndsWith(s[1..], n, value)
    ensures s[0] as nat >= 128 && EndsWith(s, n + 1, s[0] as nat - 128 + value * 128)
  {
    hide Continues;
    LowBits(s[0]);
    EndsLater(s, n - 1);
    GroupSumFront(s, n + 1);
    hide GroupSum;
    assert s[n] == s[1..][n - 1];
  }

  /**
   A number is decoded exactly when one of the bytes allowed ends it: the first without the top
   bit. It is the sum of the groups up to there, the lowest first.
   */
  lemma {:induction false} DecodeMeans(s: seq<byte>, groups: nat)
    ensures Decode(s, groups).None? <==> Continues(s, groups)
    ensures Decode(s, groups).Some? ==> EndsWith(s, Decode(s, groups).value.length, Decode(s, groups).value.value)
  {
    hide Continues;
    hide EndsWith;
    hide GroupSum;
    if groups == 0 || |s| == 0 || s[0] < 128 {
      EndsHere(s, groups);
    } else {
      DecodeMore(s, groups);
      DecodeMeans(s[1..], groups - 1);
      EndsLater(s, groups - 1);
      match Decode(s[1..], groups - 1)
      case None =>
      case Some(d) => OneGroupMore(s, d.length, d.value);
    }
  }

  /** Five bytes are looked at, and 32 bits kept. */
  lemma Decode32Means(s: seq<byte>)
    ensures Decode32(s).None? <==> forall i :: 0 <= i < 5 && i < |s| ==> s[i] >= 128
    ensures Decode32(s).Some? ==>
              var d := Decode32(s).value;
              && d.length <= 5 && s[d.length - 1] < 128 && (forall i :: 0 <= i < d.length - 1 ==> s[i] >= 128)
              && d.value == GroupSum(s, d.length) % 0x1_0000_0000
  {
    DecodeMeans(s, 5);
    hide Decode;
    hide GroupSum;
  }

  /** Ten bytes, and 64 bits. */
  lemma Decode64Means(s: seq<byte>)
    ensures Decode64(s).None? <==> forall i :: 0 <= i < 10 && i < |s| ==> s[i] >= 128
    ensures Decode64(s).Some? ==>
              var d := Decode64(s).value;
              && d.length <= 10 && s[d.length - 1] < 128 && (forall i :: 0 <= i < d.length - 1 ==> s[i] >= 128)
              && d.value == GroupSum(s, d.length) % 0x1_0000_0000_0000_0000
  {
    DecodeMeans(s, 10);
    hide Decode;
    hide GroupSum;
  }

  /** So the code of a number is its groups of seven bits, the lowest first, all but the last with the top bit set. */
  lemma VarintMeans(v: nat)
    ensures var s := Varint(v); v == GroupSum(s, |s|) && s[|s| - 1] < 128 && forall i :: 0 <= i < |s| - 1 ==> s[i] >= 128
  {
    var s := Varint(v);
    assert s + [] == s;
    DecodeVarint(v, |s|, []);
    DecodeMeans(s, |s|);
  }

  /** And it is the shortest such code. */
  lemma {:induction false} VarintIsShortest(v: nat, n: nat)
    requires n >= 1
    ensures |Varint(v)| <= n <==> v < Power128(n)
  {
    if v >= 128 && n > 1 {
      VarintIsShortest(v / 128, n - 1);
    }
  }

  // ---------- the code ----------

  method VarintLength(value: nat) returns (len: nat)
    ensures len == |Varint(value)|
  {
    var v := value;
    len := 1;
    while v >= 128
      invariant len + |Varint(v)| == 1 + |Varint(value)|
    {
      v := v / 128;
      len := len + 1;
    }
  }

  /** The code of value is written from at to end, but for the groups of left; the rest of the buffer is as it was. */
  ghost predicate Encoding(dst: seq<byte>, was: seq<byte>, at: nat, end: nat, value: nat, left: nat) {
    && at <= end <= |dst| == |was|
    && Varint(value) == dst[at..end] + Varint(left)
    && dst[..at] == was[..at] && dst[end..] == was[end..]
    && at + |Varint(value)| <= |dst|
  }

  ghost predicate Encoded(dst: seq<byte>, was: seq<byte>, at: nat, end: nat, value: nat) {
    && end == at + |Varint(value)| <= |was|
    && dst == was[..at] + Varint(value) + was[end..]
  }

  method StoreMore(dst: array<byte>, ghost was: seq<byte>, ghost at: nat, end: nat, ghost value: nat, left: nat)
    returns (p: nat)
    requires left >= 128 && Encoding(dst[..], was, at, end, value, left)
    modifies dst
    ensures p == end + 1 && Encoding(dst[..], was, at, p, value, left / 128)
  {
    hide More;
    dst[end] := More(left);
    p := end + 1;
    assert dst[..][at..p] == old(dst[..])[at..end] + [More(left)];
  }

  method StoreLast(dst: array<byte>, ghost was: seq<byte>, ghost at: nat, end: nat, ghost value: nat, left: nat)
    returns (p: nat)
    requires left < 128 && Encoding(dst[..], was, at, end, value, left)
    modifies dst
    ensures p == end + 1 && Encoded(dst[..], was, at, p, value)
  {
    dst[end] := ByteOf(left);
    p := end + 1;
    assert dst[..][at..p] == old(dst[..])[at..end] + Varint(left);
    assert dst[..] == dst[..][..at] + dst[..][at..p] + dst[..][p..];
  }

  lemma StartEncoding(dst: seq<byte>, at: nat, value: nat)
    requires at + |Varint(value)| <= |dst|
    ensures Encoding(dst, dst, at, at, value, value)
  {
    assert dst[at..at] == [];
  }

  lemma Shifted(v: nat)
    ensures v / 0x80 / 0x80 == v / 0x4000
    ensures v / 0x4000 / 0x80 == v / 0x20_0000
    ensures v / 0x20_0000 / 0x80 == v / 0x1000_0000
  {}

  /** Five unrolled cases, written through an advancing pointer. */
  method EncodeVarint32(dst: array<byte>, at: nat, v: nat) returns (end: nat)
    requires v < TWO_32 && at + |Varint(v)| <= dst.Length
    modifies dst
    ensures Encoded(dst[..], old(dst[..]), at, end, v)
  {
    ghost var was := dst[..];
    StartEncoding(was, at, v);
    Shifted(v);
    hide Encoding;
    hide Encoded;
    hide Varint;
    if v < 0x80 {
      end := StoreLast(dst, was, at, at, v, v);
    } else if v < 0x4000 {
      end := StoreMore(dst, was, at, at, v, v);
      end := StoreLast(dst, was, at, end, v, v / 0x80);
    } else if v < 0x20_0000 {
      end := StoreMore(dst, was, at, at, v, v);
      end := StoreMore(dst, was, at, end, v, v / 0x80);
      end := StoreLast(dst, was, at, end, v, v / 0x4000);
    } else if v < 0x1000_0000 {
      end := StoreMore(dst, was, at, at, v, v);
      end := StoreMore(dst, was, at, end, v, v / 0x80);
      end := StoreMore(dst, was, at, end, v, v / 0x4000);
      end := StoreLast(dst, was, at, end, v, v / 0x20_0000);
    } else {
      end := StoreMore(dst, was, at, at, v, v);
      end := StoreMore(dst, was, at, end, v, v / 0x80);
      end := StoreMore(dst, was, at, end, v, v / 0x4000);
      end := StoreMore(dst, was, at, end, v, v / 0x20_0000);
      end := StoreLast(dst, was, at, end, v, v / 0x1000_0000);
    }
  }

  method EncodeVarint64(dst: array<byte>, at: nat, value: nat) returns (end: nat)
    requires value < TWO_64 && at + |Varint(value)| <= dst.Length
    modifies dst
    ensures Encoded(dst[..], old(dst[..]), at, end, value)
  {
    ghost var was := dst[..];
    StartEncoding(was, at, value);
    hide Encoding;
    hide Encoded;
    hide Varint;
    var v := value;
    end := at;
    while v >= 128
      invariant Encoding(dst[..], was, at, end, value, v)
    {
      end := StoreMore(dst, was, at, end, value, v);
      v := v / 128;
    }
    end := StoreLast(dst, was, at, end, value, v);
  }

  // ---------- decoding ----------

  lemma {:induction false} PowerAdd(a: nat, b: nat)
    ensures Power128(a + b) == Power128(a) * Power128(b)
  {
    if a > 0 {
      PowerAdd(a - 1, b);
      assert Power128(a + b) == 128 * Power128(a - 1 + b);
    }
  }

  /** Bitwise or of a number and one with no bit among the number's own: their sum. */
  function Or(low: nat, high: nat, weight: nat): nat
    requires weight > 0 && low < weight && high % weight == 0
  {
    low + high
  }

  /** A group moved to its place in a word of so many values; bits beyond the word are lost. */
  function ShiftInto(group: nat, weight: nat, word: nat): nat
    requires word > 0
  {
    group * weight % word
  }

  lemma Spread(group: nat, weight: nat, k: nat)
    requires k > 0
    ensures group * weight == (group / k) * (weight * k) + (group % k) * weight
  {
    assert group == (group / k) * k + group % k;
    assert ((group / k) * k + group % k) * weight == (group / k) * k * weight + (group % k) * weight;
  }

  /** Adding a group to what is read so far touches no bit read before, and loses only what the word cannot hold. */
  lemma GroupFits(acc: nat, group: nat, weight: nat, k: nat)
    requires weight > 0 && k > 0 && acc < weight
    ensures weight * k > 0
    ensures ShiftInto(group, weight, weight * k) % weight == 0
    ensures acc + ShiftInto(group, weight, weight * k) == (acc + group * weight) % (weight * k)
  {
    var q, low := group / k, group % k * weight;
    OneLess(group % k, k, weight);
    Spread(group, weight, k);
    Remainder(low, weight * k, q);
    Remainder(acc + low, weight * k, q);
    Remainder(0, weight, group % k);
  }

  /** What the bytes from p on decode to decides what all of s decodes to. */
  ghost predicate Reading(s: seq<byte>, groups: nat, p: nat, acc: nat) {
    && p <= |s| && p <= groups && acc < Power128(p)
    && Decode(s, groups) == Moved(Decode(s[p..], groups - p), acc, Power128(p), p)
  }

  lemma MovedTwice(d: Option<Decoded>, b: nat, acc: nat, weight: nat, p: nat)
    ensures Moved(Moved(d, b, 128, 1), acc, weight, p) == Moved(d, acc + b * weight, 128 * weight, p + 1)
  {
    match d
    case None =>
    case Some(n) =>
      assert (b + n.value * 128) * weight == b * weight + n.value * (128 * weight);
  }

  function With(acc: nat, group: nat, weight: nat): nat {
    acc + group * weight
  }

  lemma DropOneMore<T>(s: seq<T>, p: nat)
    requires p < |s|
    ensures s[p..][1..] == s[p + 1..]
  {}

  lemma ReadMore(s: seq<byte>, groups: nat, p: nat, acc: nat)
    requires Reading(s, groups, p, acc) && p < |s| && p < groups && s[p] >= 128
    ensures s[p] as nat >= 128
    ensures Reading(s, groups, p + 1, With(acc, s[p] as nat - 128, Power128(p)))
  {
    hide Decode;
    hide Moved;
    DecodeMore(s[p..], groups - p);
    DropOneMore(s, p);
    var w, b := Power128(p), s[p] as nat - 128;
    MovedTwice(Decode(s[p + 1..], groups - p - 1), b, acc, w, p);
    OneLess(b, 128, w);
  }

  lemma ReadLast(s: seq<byte>, groups: nat, p: nat, acc: nat)
    requires Reading(s, groups, p, acc) && p < |s| && p < groups && s[p] < 128
    ensures Decode(s, groups) == Some(Decoded(acc + s[p] as nat * Power128(p), p + 1))
  {}

  // A word is a whole number of weights, for every group it has room for.

  lemma Weight32(p: nat) returns (k: nat)
    requires p <= 4
    ensures k > 0 && TWO_32 == Power128(p) * k
  {
    PowerAdd(p, 4 - p);
    assert Power128(4) == 128 * 128 * 128 * 128;
    k := Power128(4 - p) * 16;
    Scale(Power128(p), Power128(4 - p), 16);
  }

  lemma Weight64(p: nat) returns (k: nat)
    requires p <= 9
    ensures k > 0 && TWO_64 == Power128(p) * k
  {
    PowerAdd(p, 9 - p);
    assert Power128(4) == 128 * 128 * 128 * 128;
    assert Power128(9) == 128 * 128 * 128 * 128 * 128 * Power128(4);
    k := Power128(9 - p) * 2;
    Scale(Power128(p), Power128(9 - p), 2);
  }

  lemma Scale(a: nat, b: nat, c: nat)
    ensures a * b * c == a * (b * c)
  {}

  lemma ReadsFrom(s: seq<byte>, groups: nat)
    ensures Reading(s, groups, 0, 0)
  {
    assert s[0..] == s;
  }

  lemma ReadNothing(s: seq<byte>, groups: nat, p: nat, acc: nat)
    requires Reading(s, groups, p, acc) && (p == |s| || p == groups)
    ensures Decode(s, groups) == None
  {}

  lemma SmallIsItself(a: nat, w: nat, k: nat)
    requires a < w && k > 0
    ensures w * k > 0 && a % (w * k) == a
  {
    OneLess(0, k, w);
    OneLess(1, k, w);
    Remainder(a, w * k, 0);
  }

  /** The bits of the groups before p are in result, reduced to a word that has room for one more. */
  ghost predicate Loaded(s: seq<byte>, groups: nat, p: nat, acc: nat, result: nat, word: nat) {
    word > 0 && Reading(s, groups, p, acc) && result == acc % word
  }

  lemma LoadsFrom(s: seq<byte>, groups: nat, word: nat)
    requires word > 0
    ensures Loaded(s, groups, 0, 0, 0, word)
  {
    ReadsFrom(s, groups);
  }

  lemma LoadedFits(s: seq<byte>, groups: nat, p: nat, acc: nat, result: nat, word: nat, k: nat)
    requires Loaded(s, groups, p, acc, result, word) && k > 0 && word == Power128(p) * k
    ensures Reading(s, groups, p, acc) && result == acc < Power128(p)
  {
    SmallIsItself(acc, Power128(p), k);
  }

  lemma LowBits(b: byte)
    requires b >= 128
    ensures b as nat >= 128 && b as nat % 128 == b as nat - 128
  {
    HighByte(b);
  }

  lemma LoadMore(s: seq<byte>, groups: nat, p: nat, acc: nat, result: nat, word: nat, k: nat) returns (next: nat)
    requires Loaded(s, groups, p, acc, result, word) && p < |s| && p < groups && s[p] >= 128
    requires k > 0 && word == Power128(p) * k
    ensures result < Power128(p) && ShiftInto(s[p] as nat % 128, Power128(p), word) % Power128(p) == 0
    ensures Loaded(s, groups, p + 1, next, result + ShiftInto(s[p] as nat % 128, Power128(p), word), word)
  {
    LoadedFits(s, groups, p, acc, result, word, k);
    hide Reading;
    hide Power128;
    LowBits(s[p]);
    ReadMore(s, groups, p, acc);
    hide ShiftInto;
    GroupFits(acc, s[p] as nat % 128, Power128(p), k);
    next := With(acc, s[p] as nat - 128, Power128(p));
  }

  lemma LoadLast(s: seq<byte>, groups: nat, p: nat, acc: nat, result: nat, word: nat, k: nat)
    requires Loaded(s, groups, p, acc, result, word) && p < |s| && p < groups && s[p] < 128
    requires k > 0 && word == Power128(p) * k
    ensures result < Power128(p) && ShiftInto(s[p] as nat, Power128(p), word) % Power128(p) == 0
    ensures DecodeWord(s, groups, word) == Some(Decoded(result + ShiftInto(s[p] as nat, Power128(p), word), p + 1))
  {
    LoadedFits(s, groups, p, acc, result, word, k);
    hide Reading;
    hide Power128;
    hide Decode;
    ReadLast(s, groups, p, acc);
    hide ShiftInto;
    GroupFits(acc, s[p] as nat, Power128(p), k);
  }

  lemma LoadNothing(s: seq<byte>, groups: nat, p: nat, acc: nat, result: nat, word: nat)
    requires Loaded(s, groups, p, acc, result, word)
    ensures p <= |s| && p <= groups
    ensures p == |s| || p == groups ==> DecodeWord(s, groups, word) == None
  {
    if p == |s| || p == groups { ReadNothing(s, groups, p, acc); }
  }

  /** The 32-bit decoder: at most five groups, none when the code does not end in time. */
  method GetVarint32PtrFallBack(s: seq<byte>) returns (r: Option<Decoded>)
    ensures r == Decode32(s)
  {
    hide Loaded;
    hide ShiftInto;
    hide DecodeWord;
    hide Power128;
    var result, p, shift := 0, 0, 0;
    ghost var acc := 0;
    LoadsFrom(s, 5, TWO_32);
    while shift <= 28 && p < |s|
      invariant shift == 7 * p && p <= 5
      invariant Loaded(s, 5, p, acc, result, TWO_32)
    {
      var b := s[p];
      ghost var k := Weight32(p);
      if b >= 128 {
        acc := LoadMore(s, 5, p, acc, result, TWO_32, k);
        result := Or(result, ShiftInto(b as nat % 128, Power128(p), TWO_32), Power128(p));
        p := p + 1;
      } else {
        LoadLast(s, 5, p, acc, result, TWO_32, k);
        result := Or(result, ShiftInto(b as nat, Power128(p), TWO_32), Power128(p));
        p := p + 1;
        return Some(Decoded(result, p));
      }
      shift := shift + 7;
    }
    LoadNothing(s, 5, p, acc, result, TWO_32);
    r := None;
  }

  method GetVarint64Ptr(s: seq<byte>) returns (r: Option<Decoded>)
    ensures r == Decode64(s)
  {
    hide Loaded;
    hide ShiftInto;
    hide DecodeWord;
    hide Power128;
    var result, p, shift := 0, 0, 0;
    ghost var acc := 0;
    LoadsFrom(s, 10, TWO_64);
    while shift <= 63 && p < |s|
      invariant shift == 7 * p && p <= 10
      invariant Loaded(s, 10, p, acc, result, TWO_64)
    {
      var b := s[p];
      ghost var k := Weight64(p);
      if b >= 128 {
        acc := LoadMore(s, 10, p, acc, result, TWO_64, k);
        result := Or(result, ShiftInto(b as nat % 128, Power128(p), TWO_64), Power128(p));
        p := p + 1;
      } else {
        LoadLast(s, 10, p, acc, result, TWO_64, k);
        result := Or(result, ShiftInto(b as nat, Power128(p), TWO_64), Power128(p));
        p := p + 1;
        return Some(Decoded(result, p));
      }
      shift := shift + 7;
    }
    LoadNothing(s, 10, p, acc, result, TWO_64);
    r := None;
  }

  lemma SmallWord(b: byte)
    ensures b as nat % TWO_32 == b as nat
  {}

  /**
   The inlined decoder. Its one-byte path is guarded by result & (128 == 0), as the operators
   bind, so it is never taken; whether it is taken or not, the result is the same.
   */
  method GetVarint32Ptr(s: seq<byte>, shortcut: bool) returns (r: Option<Decoded>)
    ensures r == Decode32(s)
  {
    hide Decode;
    if 0 < |s| && shortcut && s[0] < 128 {
      DecodeLast(s, 5);
      SmallWord(s[0]);
      return Some(Decoded(s[0] as nat, 1));
    }
    r := GetVarint32PtrFallBack(s);
  }

  /** Reads a number off the front of the input; the input is untouched when there is none. */
  method GetVarint32(input: seq<byte>) returns (value: Option<nat>, rest: seq<byte>)
    ensures Decode32(input).None? ==> value.None? && rest == input
    ensures Decode32(input).Some? ==>
      value == Some(Decode32(input).value.value) && rest == input[Decode32(input).value.length..]
  {
    var q := GetVarint32Ptr(input, false);
    match q
    case None => return None, input;
    case Some(d) => return Some(d.value), input[d.length..];
  }

  method GetVarint64(input: seq<byte>) returns (value: Option<nat>, rest: seq<byte>)
    ensures Decode64(input).None? ==> value.None? && rest == input
    ensures Decode64(input).Some? ==>
      value == Some(Decode64(input).value.value) && rest == input[Decode64(input).value.length..]
  {
    var q := GetVarint64Ptr(input);
    match q
    case None => return None, input;
    case Some(d) => return Some(d.value), input[d.length..];
  }
}
