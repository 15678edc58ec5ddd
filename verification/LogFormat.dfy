/**
 The log format: records cut into fragments, fragments framed by a seven-byte header,
 blocks of 32 KiB that no fragment crosses. `Encode` is the format a writer produces;
 `Recover` is a reader written from the same rules, which stops at the first thing that is
 not a complete and intact fragment in its place.
 */
module LogFormat {

  import opened Fixed
  import opened Wrappers
  import Crc32c
  import Crc32cSpec

  const BLOCK_SIZE: nat := 32768
  const HEADER_SIZE: nat := 7

  const FULL: byte := 1
  const FIRST: byte := 2
  const MIDDLE: byte := 3
  const LAST: byte := 4

  // ---------- writing ----------

  /** A position in a block; BLOCK_SIZE is the end of a full block. */
  type Offset = n: nat | n <= BLOCK_SIZE

  /** The zeros that fill a block with no room for a header. */
  function Trailer(off: Offset): (t: seq<byte>)
    ensures |t| == if BLOCK_SIZE - off < HEADER_SIZE then BLOCK_SIZE - off else 0
    ensures forall i :: 0 <= i < |t| ==> t[i] == 0
  {
    if BLOCK_SIZE - off < HEADER_SIZE then seq(BLOCK_SIZE - off, _ => 0) else []
  }

  /** Where the next header goes. */
  function Start(off: Offset): (start: Offset)
    ensures start + HEADER_SIZE <= BLOCK_SIZE
  {
    if BLOCK_SIZE - off < HEADER_SIZE then 0 else off
  }

  function FragmentLength(off: Offset, n: nat): (len: nat)
    ensures len <= n && Start(off) + HEADER_SIZE + len <= BLOCK_SIZE
    ensures len < n ==> Start(off) + HEADER_SIZE + len == BLOCK_SIZE
  {
    var avail := BLOCK_SIZE - Start(off) - HEADER_SIZE;
    if n < avail then n else avail
  }

  function TypeOf(begin: bool, end: bool): byte {
    if begin && end then FULL else if begin then FIRST else if end then LAST else MIDDLE
  }

  /** The checksum of a fragment covers its type and its payload. */
  function Checksum(t: byte, payload: seq<byte>): bv32 {
    Crc32cSpec.Crc(Crc32cSpec.Crc(0, [t]), payload)
  }

  function LengthBytes(n: nat): (s: seq<byte>)
    requires n < 65536
    ensures |s| == 2
  {
    [(n % 256) as byte, (n / 256) as byte]
  }

  /** A header and its payload. */
  function Physical(t: byte, payload: seq<byte>): (s: seq<byte>)
    requires |payload| < 65536
    ensures |s| == HEADER_SIZE + |payload|
  {
    Fixed32(Crc32c.Mask(Checksum(t, payload))) + LengthBytes(|payload|) + [t] + payload
  }

  /** The bytes of (the rest of) one record, written from offset off. */
  function Encode(off: Offset, data: seq<byte>, begin: bool): (s: seq<byte>)
    ensures |s| >= HEADER_SIZE
    decreases |data|, if Start(off) + HEADER_SIZE == BLOCK_SIZE then 1 else 0
  {
    var len := FragmentLength(off, |data|);
    var s := Trailer(off) + Physical(TypeOf(begin, len == |data|), data[..len]);
    if len == |data| then s else s + Encode(BLOCK_SIZE, data[len..], false)
  }

  /** The offset after the record. */
  function EndOffset(off: Offset, n: nat): Offset
    decreases n, if Start(off) + HEADER_SIZE == BLOCK_SIZE then 1 else 0
  {
    var len := FragmentLength(off, n);
    if len == n then Start(off) + HEADER_SIZE + len else EndOffset(BLOCK_SIZE, n - len)
  }

  function EncodeAll(off: Offset, records: seq<seq<byte>>): seq<byte>
    decreases |records|
  {
    if |records| == 0 then []
    else Encode(off, records[0], true) + EncodeAll(EndOffset(off, |records[0]|), records[1..])
  }

  // ---------- reading ----------

  datatype Fragment = Missing | Intact(t: byte, payload: seq<byte>, next: nat)

  function DecodeLength(low: byte, high: byte): nat {
    low as nat + 256 * high as nat
  }

  /** Where the header after a position is: past the trailer when the block has no room for one. */
  function SkipTrailer(at: nat): (p: nat)
    ensures at <= p
  {
    var left := BLOCK_SIZE - at % BLOCK_SIZE;
    if left < HEADER_SIZE then at + left else at
  }

  /** The fragment whose header is at position p, if it is all there and fits its block. */
  function ParseHeader(log: seq<byte>, p: nat): (f: Fragment)
    ensures f.Intact? ==> p < f.next <= |log|
  {
    if p + HEADER_SIZE > |log| then Missing
    else
      var len := DecodeLength(log[p + 4], log[p + 5]);
      var t := log[p + 6];
      if p % BLOCK_SIZE + HEADER_SIZE + len > BLOCK_SIZE || p + HEADER_SIZE + len > |log| then Missing
      else
        var payload := log[p + HEADER_SIZE..p + HEADER_SIZE + len];
        if Crc32c.Unmask(DecodeFixed32(log[p..])) != Checksum(t, payload) then Missing
        else Intact(t, payload, p + HEADER_SIZE + len)
  }

  function Parse(log: seq<byte>, at: nat): (f: Fragment)
    ensures f.Intact? ==> at < f.next <= |log|
  {
    ParseHeader(log, SkipTrailer(at))
  }

  /** The records from a position on; partial is what has been read of an unfinished record. */
  function Recover(log: seq<byte>, at: nat, partial: Option<seq<byte>>): seq<seq<byte>>
    decreases |log| - at
  {
    match Parse(log, at)
    case Missing => []
    case Intact(t, payload, next) =>
      if t == FULL && partial.None? then [payload] + Recover(log, next, None)
      else if t == FIRST && partial.None? then Recover(log, next, Some(payload))
      else if t == MIDDLE && partial.Some? then Recover(log, next, Some(partial.value + payload))
      else if t == LAST && partial.Some? then [partial.value + payload] + Recover(log, next, None)
      else []
  }

  function Records(log: seq<byte>): seq<seq<byte>> {
    Recover(log, 0, None)
  }

  // ---------- one fragment ----------

  lemma LengthRoundTrip(n: nat)
    requires n < 65536
    ensures var s := LengthBytes(n); DecodeLength(s[0], s[1]) == n
  {
    ByteRoundTrip(n % 256);
    ByteRoundTrip(n / 256);
  }

  /** off is where position at stands in its block; the end of a block is the start of the next. */
  predicate At(off: Offset, at: nat) {
    off % BLOCK_SIZE == at % BLOCK_SIZE
  }

  /** Past the trailer: the arithmetic of a reader that follows a writer. */
  lemma Aligned(off: Offset, at: nat)
    requires At(off, at)
    ensures SkipTrailer(at) == at + |Trailer(off)|
    ensures SkipTrailer(at) % BLOCK_SIZE == Start(off)
  {}

  lemma Advance(p: nat, start: nat, n: nat)
    requires p % BLOCK_SIZE == start
    ensures (p + n) % BLOCK_SIZE == (start + n) % BLOCK_SIZE
  {}

  lemma PhysicalLayout(t: byte, payload: seq<byte>)
    requires |payload| < 65536
    ensures var s := Physical(t, payload);
            && DecodeLength(s[4], s[5]) == |payload| && s[6] == t && s[HEADER_SIZE..] == payload
            && Crc32c.Unmask(DecodeFixed32(s)) == Checksum(t, payload) == Crc32cSpec.Crc(0, [t] + payload)
  {
    hide Crc32cSpec.Crc;
    Crc32cSpec.CrcAppend(0, [t], payload);
    var masked := Crc32c.Mask(Checksum(t, payload));
    var rest := LengthBytes(|payload|) + [t] + payload;
    assert Physical(t, payload) == Fixed32(masked) + rest;
    LengthRoundTrip(|payload|);
    Fixed32RoundTrip(masked, rest);
    Crc32c.UnmaskInvertsMask(Checksum(t, payload));
  }

  /** The header of the fragment at position p. */
  lemma HeaderAt(log: seq<byte>, p: nat, s: seq<byte>)
    requires |s| >= HEADER_SIZE && p + |s| <= |log| && log[p..p + |s|] == s
    ensures log[p + 4] == s[4] && log[p + 5] == s[5] && log[p + 6] == s[6]
    ensures DecodeFixed32(log[p..]) == DecodeFixed32(s)
    ensures log[p + HEADER_SIZE..p + |s|] == s[HEADER_SIZE..]
  {
    hide Join32;
    var u := log[p..p + |s|];
    assert u[4] == log[p + 4] && u[5] == log[p + 5] && u[6] == log[p + 6];
    assert u[0] == log[p] && u[1] == log[p + 1] && u[2] == log[p + 2] && u[3] == log[p + 3];
  }

  lemma Slice(log: seq<byte>, at: nat, a: seq<byte>, s: seq<byte>)
    requires at <= |log| && a + s <= log[at..]
    ensures at + |a| + |s| <= |log| && log[at + |a|..at + |a| + |s|] == s
  {
    assert log[at..][|a|..][..|s|] == s;
  }

  /** The fields of a complete header and payload at position p. */
  lemma HeaderFields(log: seq<byte>, p: nat, t: byte, payload: seq<byte>)
    requires |payload| < 65536 && p + HEADER_SIZE + |payload| <= |log|
    requires log[p..p + HEADER_SIZE + |payload|] == Physical(t, payload)
    ensures DecodeLength(log[p + 4], log[p + 5]) == |payload| && log[p + 6] == t
    ensures log[p + HEADER_SIZE..p + HEADER_SIZE + |payload|] == payload
    ensures Crc32c.Unmask(DecodeFixed32(log[p..])) == Checksum(t, payload)
  {
    hide DecodeFixed32;
    hide Checksum;
    hide Crc32c.Unmask;
    hide DecodeLength;
    PhysicalLayout(t, payload);
    hide Physical;
    HeaderAt(log, p, Physical(t, payload));
  }

  /** A complete header and payload at position p are read back. */
  lemma HeaderRead(log: seq<byte>, p: nat, t: byte, payload: seq<byte>)
    requires p % BLOCK_SIZE + HEADER_SIZE + |payload| <= BLOCK_SIZE
    requires p + HEADER_SIZE + |payload| <= |log|
    requires log[p..p + HEADER_SIZE + |payload|] == Physical(t, payload)
    ensures ParseHeader(log, p) == Intact(t, payload, p + HEADER_SIZE + |payload|)
  {
    hide DecodeFixed32;
    hide Checksum;
    hide Crc32c.Unmask;
    hide DecodeLength;
    hide Physical;
    HeaderFields(log, p, t, payload);
  }

  /** A complete fragment is read back. */
  lemma FragmentRead(log: seq<byte>, at: nat, off: Offset, t: byte, payload: seq<byte>)
    requires at <= |log| && At(off, at) && Start(off) + HEADER_SIZE + |payload| <= BLOCK_SIZE
    requires Trailer(off) + Physical(t, payload) <= log[at..]
    ensures Parse(log, at) == Intact(t, payload, at + |Trailer(off)| + HEADER_SIZE + |payload|)
  {
    Aligned(off, at);
    Slice(log, at, Trailer(off), Physical(t, payload));
    hide Physical;
    hide Trailer;
    hide SkipTrailer;
    hide Start;
    hide ParseHeader;
    HeaderRead(log, SkipTrailer(at), t, payload);
  }

  /** A fragment that is not all there is not read. */
  lemma FragmentCut(log: seq<byte>, at: nat, off: Offset, t: byte, payload: seq<byte>)
    requires at <= |log| && At(off, at) && Start(off) + HEADER_SIZE + |payload| <= BLOCK_SIZE
    requires log[at..] < Trailer(off) + Physical(t, payload)
    ensures Parse(log, at) == Missing
  {
    Aligned(off, at);
    PhysicalLayout(t, payload);
    var p := at + |Trailer(off)|;
    var s := Physical(t, payload);
    if p + HEADER_SIZE <= |log| {
      forall i | 4 <= i < 7
        ensures log[p + i] == s[i]
      {
        assert log[at..][|Trailer(off)| + i] == (Trailer(off) + s)[|Trailer(off)| + i];
      }
    }
  }

  // ---------- one record ----------

  /** What the reader has of the record when the writer has the rest of it to write. */
  predicate Fits(begin: bool, partial: Option<seq<byte>>) {
    begin <==> partial.None?
  }

  function Whole(data: seq<byte>, partial: Option<seq<byte>>): seq<byte> {
    if partial.Some? then partial.value + data else data
  }

  /** Where the reader is after a fragment. */
  lemma NextOffset(at: nat, off: Offset, len: nat)
    requires At(off, at)
    ensures var next := at + |Trailer(off)| + HEADER_SIZE + len;
            next % BLOCK_SIZE == (Start(off) + HEADER_SIZE + len) % BLOCK_SIZE
  {
    Aligned(off, at);
    Advance(SkipTrailer(at), Start(off), HEADER_SIZE + len);
  }

  /** What the reader does with a fragment whose type suits its state. */
  lemma Step(log: seq<byte>, at: nat, begin: bool, end: bool, payload: seq<byte>, next: nat, partial: Option<seq<byte>>)
    requires Parse(log, at) == Intact(TypeOf(begin, end), payload, next) && Fits(begin, partial)
    ensures end ==> Recover(log, at, partial) == [Whole(payload, partial)] + Recover(log, next, None)
    ensures !end ==> Recover(log, at, partial) == Recover(log, next, Some(Whole(payload, partial)))
  {
    hide Parse;
  }

  /** The reader takes one fragment of a record. */
  lemma FragmentTaken(log: seq<byte>, at: nat, off: Offset, begin: bool, end: bool, payload: seq<byte>, partial: Option<seq<byte>>, next: nat)
    requires at <= |log| && At(off, at) && Fits(begin, partial) && Start(off) + HEADER_SIZE + |payload| <= BLOCK_SIZE
    requires Trailer(off) + Physical(TypeOf(begin, end), payload) <= log[at..]
    requires next == at + |Trailer(off)| + HEADER_SIZE + |payload|
    ensures next <= |log|
    ensures end ==> Recover(log, at, partial) == [Whole(payload, partial)] + Recover(log, next, None)
    ensures !end ==> Recover(log, at, partial) == Recover(log, next, Some(Whole(payload, partial)))
  {
    hide Parse;
    hide Recover;
    hide Physical;
    FragmentRead(log, at, off, TypeOf(begin, end), payload);
    Step(log, at, begin, end, payload, next, partial);
  }

  /** A record is its first fragment and the rest of it. */
  lemma Unfold(off: Offset, left: seq<byte>, begin: bool)
    requires off <= BLOCK_SIZE
    ensures var len := FragmentLength(off, |left|);
            var next := Trailer(off) + Physical(TypeOf(begin, len == |left|), left[..len]);
            && Encode(off, left, begin) == next + (if len == |left| then [] else Encode(BLOCK_SIZE, left[len..], false))
            && (len == |left| ==> EndOffset(off, |left|) == Start(off) + HEADER_SIZE + len)
            && (len < |left| ==> EndOffset(off, |left|) == EndOffset(BLOCK_SIZE, |left| - len))
  {}

  lemma First<T>(log: seq<T>, at: nat, s: seq<T>, rest: seq<T>)
    requires at <= |log| && s + rest <= log[at..]
    ensures s <= log[at..] && at + |s| <= |log| && rest <= log[at + |s|..]
  {
    assert log[at..][|s|..] == log[at + |s|..];
  }

  lemma WholeAppend(data: seq<byte>, len: nat, partial: Option<seq<byte>>)
    requires len <= |data|
    ensures Whole(data[len..], Some(Whole(data[..len], partial))) == Whole(data, partial)
    ensures len == |data| ==> data[..len] == data
  {
    assert data[..len] + data[len..] == data;
  }

  /** A complete record is read back, and the reader goes on behind it. */
  lemma {:induction false} RecordRead(log: seq<byte>, at: nat, off: Offset, data: seq<byte>, begin: bool, partial: Option<seq<byte>>)
    requires at <= |log| && At(off, at) && Fits(begin, partial)
    requires Encode(off, data, begin) <= log[at..]
    ensures var next := at + |Encode(off, data, begin)|;
            && next <= |log| && At(EndOffset(off, |data|), next)
            && Recover(log, at, partial) == [Whole(data, partial)] + Recover(log, next, None)
    decreases |data|, if Start(off) + HEADER_SIZE == BLOCK_SIZE then 1 else 0
  {
    hide Recover;
    hide Physical;
    hide Whole;
    hide TypeOf;
    var len := FragmentLength(off, |data|);
    var s := Trailer(off) + Physical(TypeOf(begin, len == |data|), data[..len]);
    var next := at + |s|;
    WholeAppend(data, len, partial);
    NextOffset(at, off, len);
    if len < |data| {
      First(log, at, s, Encode(BLOCK_SIZE, data[len..], false));
      FragmentTaken(log, at, off, begin, len == |data|, data[..len], partial, next);
      RecordRead(log, next, BLOCK_SIZE, data[len..], false, Some(Whole(data[..len], partial)));
    } else {
      FragmentTaken(log, at, off, begin, len == |data|, data[..len], partial, next);
    }
  }

  /** A record whose last byte is missing is not read at all. */
  lemma {:induction false} RecordCut(log: seq<byte>, at: nat, off: Offset, data: seq<byte>, begin: bool, partial: Option<seq<byte>>)
    requires at <= |log| && At(off, at) && Fits(begin, partial)
    requires log[at..] < Encode(off, data, begin)
    ensures Recover(log, at, partial) == []
    decreases |data|, if Start(off) + HEADER_SIZE == BLOCK_SIZE then 1 else 0
  {
    hide Physical;
    hide Checksum;
    var len := FragmentLength(off, |data|);
    var t := TypeOf(begin, len == |data|);
    var s := Trailer(off) + Physical(t, data[..len]);
    if |log| - at < |s| {
      FragmentCut(log, at, off, t, data[..len]);
    } else {
      hide Recover;
      var next := at + |s|;
      FragmentTaken(log, at, off, begin, len == |data|, data[..len], partial, next);
      NextOffset(at, off, len);
      assert log[at..][|s|..] == log[next..];
      RecordCut(log, next, BLOCK_SIZE, data[len..], false, Some(Whole(data[..len], partial)));
    }
  }

  // ---------- the bytes, by position ----------

  // Independent of the functions above, and in plain numbers: where each fragment of a record
  // written from offset off lies in what is written, and what its bytes are.

  /** Where the header of fragment k is. */
  function FragmentAt(off: Offset, k: nat): nat {
    if off > 32761 then 32768 - off + 32768 * k
    else if k == 0 then 0 else 32768 * k - off
  }

  /** The bytes of the record before fragment k. */
  function FragmentFrom(off: Offset, k: nat): nat {
    if off > 32761 then 32761 * k
    else if k == 0 then 0 else 32761 * k - off
  }

  function FragmentTo(off: Offset, k: nat, n: nat): nat {
    if FragmentFrom(off, k + 1) < n then FragmentFrom(off, k + 1) else n
  }

  predicate HasFragment(off: Offset, k: nat, n: nat) {
    k == 0 || FragmentFrom(off, k) < n
  }

  /** 1 for a whole record, 2 for its beginning, 3 inside it, 4 for its end. */
  function TypeByte(first: bool, last: bool): byte {
    if first then if last then 1 else 2 else if last then 4 else 3
  }

  /** A header at position p, and its payload: masked checksum, length, type. */
  ghost predicate Stands(s: seq<byte>, p: nat, t: byte, payload: seq<byte>) {
    && p + 7 + |payload| <= |s|
    && DecodeFixed32(s[p..]) == Crc32c.Mask(Crc32cSpec.Crc(0, [t] + payload))
    && s[p + 4] as nat + 256 * s[p + 5] as nat == |payload|
    && s[p + 6] == t
    && s[p + 7..p + 7 + |payload|] == payload
  }

  /** Fragment k of the record stands in its place, and the last one ends what is written. */
  ghost predicate FragmentOnDisk(off: Offset, data: seq<byte>, begin: bool, s: seq<byte>, k: nat)
    requires HasFragment(off, k, |data|)
  {
    var from, to := FragmentFrom(off, k), FragmentTo(off, k, |data|);
    && Stands(s, FragmentAt(off, k), TypeByte(begin && k == 0, to == |data|), data[from..to])
    && (to == |data| ==> |s| == FragmentAt(off, k) + 7 + to - from)
  }

  /** The bytes of a whole record: zeros to the end of a block with no room for a header, then its fragments. */
  ghost predicate OnDisk(off: Offset, data: seq<byte>, s: seq<byte>) {
    && (off > 32761 ==> 32768 - off <= |s| && forall i :: 0 <= i < 32768 - off ==> s[i] == 0)
    && forall k :: HasFragment(off, k, |data|) ==> FragmentOnDisk(off, data, true, s, k)
  }

  lemma StandsAfter(next: seq<byte>, s: seq<byte>, p: nat, t: byte, payload: seq<byte>)
    requires Stands(s, p, t, payload)
    ensures Stands(next + s, |next| + p, t, payload)
  {
    hide DecodeFixed32;
    hide Crc32c.Mask;
    hide Crc32cSpec.Crc;
    var u := next + s;
    assert u[|next| + p..] == s[p..];
    assert u[|next| + p + 7..|next| + p + 7 + |payload|] == s[p + 7..p + 7 + |payload|];
  }

  lemma PhysicalStands(t: byte, payload: seq<byte>, rest: seq<byte>)
    requires |payload| < 65536
    ensures Stands(Physical(t, payload) + rest, 0, t, payload)
  {
    hide Crc32c.Mask;
    hide Crc32cSpec.Crc;
    Crc32cSpec.CrcAppend(0, [t], payload);
    var masked := Crc32c.Mask(Checksum(t, payload));
    var tail := LengthBytes(|payload|) + [t] + payload + rest;
    assert Physical(t, payload) + rest == Fixed32(masked) + tail;
    Fixed32RoundTrip(masked, tail);
    LengthRoundTrip(|payload|);
    hide Fixed32;
    hide DecodeFixed32;
    var s := Physical(t, payload) + rest;
    assert s[0..] == s;
    assert s[7..7 + |payload|] == payload;
  }

  /** The fragments after the first are those of the rest, from the next block on. */
  lemma FragmentOfRest(off: Offset, k: nat, n: nat)
    requires k > 0 && HasFragment(off, k, n)
    ensures var len := FragmentLength(off, n);
            && len < n && HasFragment(BLOCK_SIZE, k - 1, n - len)
            && FragmentFrom(off, k) == len + FragmentFrom(BLOCK_SIZE, k - 1)
            && FragmentTo(off, k, n) == len + FragmentTo(BLOCK_SIZE, k - 1, n - len)
            && FragmentAt(off, k) == |Trailer(off)| + HEADER_SIZE + len + FragmentAt(BLOCK_SIZE, k - 1)
  {}

  lemma FirstFragment(off: Offset, n: nat)
    ensures FragmentFrom(off, 0) == 0 && FragmentTo(off, 0, n) == FragmentLength(off, n) && FragmentAt(off, 0) == |Trailer(off)|
  {}

  lemma SliceOfRest<T>(data: seq<T>, len: nat, from: nat, to: nat)
    requires len <= |data| && from <= to <= |data| - len
    ensures data[len..][from..to] == data[len + from..len + to]
  {}

  lemma {:induction false} FragmentIsOnDisk(off: Offset, data: seq<byte>, begin: bool, k: nat)
    requires HasFragment(off, k, |data|)
    ensures FragmentOnDisk(off, data, begin, Encode(off, data, begin), k)
    decreases k
  {
    hide Physical;
    hide Stands;
    var len := FragmentLength(off, |data|);
    var t := TypeOf(begin, len == |data|);
    var rest := if len == |data| then [] else Encode(BLOCK_SIZE, data[len..], false);
    Unfold(off, data, begin);
    hide Encode;
    var next := Trailer(off) + Physical(t, data[..len]);
    if k == 0 {
      FirstFragment(off, |data|);
      PhysicalStands(t, data[..len], rest);
      StandsAfter(Trailer(off), Physical(t, data[..len]) + rest, 0, t, data[..len]);
      assert Encode(off, data, begin) == Trailer(off) + (Physical(t, data[..len]) + rest);
      assert data[0..len] == data[..len];
    } else {
      FragmentOfRest(off, k, |data|);
      hide FragmentAt;
      hide FragmentFrom;
      hide FragmentTo;
      FragmentIsOnDisk(BLOCK_SIZE, data[len..], false, k - 1);
      var from, to := FragmentFrom(BLOCK_SIZE, k - 1), FragmentTo(BLOCK_SIZE, k - 1, |data| - len);
      SliceOfRest(data, len, from, to);
      StandsAfter(next, rest, FragmentAt(BLOCK_SIZE, k - 1), TypeByte(false, to == |data| - len), data[len..][from..to]);
    }
  }

  /** A record is written as the format demands, byte for byte. */
  lemma RecordIsOnDisk(off: Offset, data: seq<byte>)
    ensures OnDisk(off, data, Encode(off, data, true))
  {
    hide FragmentOnDisk;
    forall k | HasFragment(off, k, |data|)
      ensures FragmentOnDisk(off, data, true, Encode(off, data, true), k)
    {
      FragmentIsOnDisk(off, data, true, k);
    }
    Unfold(off, data, true);
    hide Encode;
  }

  /** The type bytes of the first record of a log, whatever its length. */
  lemma TypesOnDisk(data: seq<byte>)
    ensures var s := Encode(0, data, true);
            && (|data| <= 32761 ==> s[6] == 1)
            && (|data| > 32761 ==> s[6] == 2 && |s| > 32774)
            && (32761 < |data| <= 65522 ==> s[32774] == 4)
            && (|data| > 65522 ==> s[32774] == 3)
  {
    RecordIsOnDisk(0, data);
    hide Encode;
    hide DecodeFixed32;
    hide Crc32c.Mask;
    hide Crc32cSpec.Crc;
    var s := Encode(0, data, true);
    assert FragmentOnDisk(0, data, true, s, 0);
    if |data| > 32761 {
      assert FragmentOnDisk(0, data, true, s, 1);
    }
  }

  // ---------- whole logs ----------

  /** The offset after all the records. */
  function EndAll(off: Offset, records: seq<seq<byte>>): Offset
    decreases |records|
  {
    if |records| == 0 then off else EndAll(EndOffset(off, |records[0]|), records[1..])
  }

  lemma {:induction false} EncodeAllAppend(off: Offset, a: seq<seq<byte>>, b: seq<seq<byte>>)
    ensures EncodeAll(off, a + b) == EncodeAll(off, a) + EncodeAll(EndAll(off, a), b)
    ensures EndAll(off, a + b) == EndAll(EndAll(off, a), b)
    decreases |a|
  {
    if |a| == 0 {
      assert a + b == b;
    } else {
      assert (a + b)[1..] == a[1..] + b;
      EncodeAllAppend(EndOffset(off, |a[0]|), a[1..], b);
    }
  }

  /** All complete records are read back, and the reader goes on behind them. */
  lemma {:induction false} AllRead(log: seq<byte>, at: nat, off: Offset, records: seq<seq<byte>>)
    requires at <= |log| && At(off, at)
    requires EncodeAll(off, records) <= log[at..]
    ensures var next := at + |EncodeAll(off, records)|;
            && next <= |log| && At(EndAll(off, records), next)
            && Recover(log, at, None) == records + Recover(log, next, None)
    decreases |records|
  {
    hide Recover;
    hide Encode;
    hide EndOffset;
    hide At;
    if |records| > 0 {
      var s := Encode(off, records[0], true);
      assert s <= log[at..];
      RecordRead(log, at, off, records[0], true, None);
      var next := at + |s|;
      assert log[at..][|s|..] == log[next..];
      AllRead(log, next, EndOffset(off, |records[0]|), records[1..]);
      assert [records[0]] + records[1..] == records;
    }
  }

  /** Reading inverts writing, for every sequence of records. */
  lemma RoundTrip(records: seq<seq<byte>>)
    ensures Records(EncodeAll(0, records)) == records
  {
    hide EncodeAll;
    hide EndAll;
    hide Encode;
    hide EndOffset;
    hide Recover;
    hide At;
    var log := EncodeAll(0, records);
    AtZero();
    DropZero(log);
    AllRead(log, 0, 0, records);
    NothingLeft(log);
  }

  lemma NothingLeft(log: seq<byte>)
    ensures Recover(log, |log|, None) == []
  {
    hide ParseHeader;
    assert ParseHeader(log, SkipTrailer(|log|)) == Missing by { Beyond(log, SkipTrailer(|log|)); }
  }

  lemma Beyond(log: seq<byte>, p: nat)
    requires p + HEADER_SIZE > |log|
    ensures ParseHeader(log, p) == Missing
  {}

  /** Different records make different logs. */
  lemma EncodingIsInjective(a: seq<seq<byte>>, b: seq<seq<byte>>)
    requires EncodeAll(0, a) == EncodeAll(0, b)
    ensures a == b
  {
    RoundTrip(a);
    RoundTrip(b);
  }

  lemma DropZero<T>(s: seq<T>)
    ensures s[0..] == s
  {}

  lemma Tail<T>(log: seq<T>, s: seq<T>, e: seq<T>)
    requires s <= log < s + e
    ensures log[|s|..] < e
  {
    assert (s + e)[|s|..] == e;
  }

  lemma AtZero()
    ensures At(0, 0)
  {}

  /** A log that ends anywhere inside the record after history still yields exactly history. */
  lemma CutRecord(log: seq<byte>, history: seq<seq<byte>>, data: seq<byte>)
    requires EncodeAll(0, history) <= log < EncodeAll(0, history) + Encode(EndAll(0, history), data, true)
    ensures Records(log) == history
  {
    var s := EncodeAll(0, history);
    hide Encode;
    hide EncodeAll;
    hide EndAll;
    hide EndOffset;
    hide Recover;
    hide At;
    AtZero();
    DropZero(log);
    AllRead(log, 0, 0, history);
    Tail(log, s, Encode(EndAll(0, history), data, true));
    RecordCut(log, |s|, EndAll(0, history), data, true, None);
  }

  /** The last record of a log. */
  lemma LastRecord(records: seq<seq<byte>>)
    requires |records| > 0
    ensures var k := |records| - 1;
            EncodeAll(0, records) == EncodeAll(0, records[..k]) + Encode(EndAll(0, records[..k]), records[k], true)
  {
    hide Encode;
    hide EndOffset;
    var k := |records| - 1;
    assert records == records[..k] + [records[k]];
    EncodeAllAppend(0, records[..k], [records[k]]);
    One(EndAll(0, records[..k]), records[k]);
  }

  lemma One(off: Offset, data: seq<byte>)
    ensures EncodeAll(off, [data]) == Encode(off, data, true)
  {
    hide Encode;
    assert EncodeAll(EndOffset(off, |data|), [data][1..]) == [];
  }

  /** The log is cut inside the record after the first n. */
  ghost predicate CutAfter(log: seq<byte>, records: seq<seq<byte>>, n: nat) {
    && n <= |records|
    && EncodeAll(0, records[..n]) <= log
    && (n < |records| ==> log < EncodeAll(0, records[..n + 1]))
    && Records(log) == records[..n]
  }

  /**
   A log cut off at any byte yields a prefix of its records: exactly those that are
   completely inside.
   */
  lemma {:induction false} CutAnywhere(log: seq<byte>, records: seq<seq<byte>>)
    requires log <= EncodeAll(0, records)
    ensures exists n :: CutAfter(log, records, n)
    decreases |records|
  {
    hide Encode;
    hide EncodeAll;
    hide EndAll;
    hide Records;
    if log == EncodeAll(0, records) {
      RoundTrip(records);
      assert records[..|records|] == records;
      assert CutAfter(log, records, |records|);
    } else {
      Empty(log, records);
      var k := |records| - 1;
      var front := records[..k];
      LastRecord(records);
      if EncodeAll(0, front) <= log {
        CutRecord(log, front, records[k]);
        assert records[..k + 1] == records;
        assert CutAfter(log, records, k);
      } else {
        CutAnywhere(log, front);
        var n :| CutAfter(log, front, n);
        Shorter(log, records, n);
      }
    }
  }

  lemma Empty(log: seq<byte>, records: seq<seq<byte>>)
    requires log <= EncodeAll(0, records) && log != EncodeAll(0, records)
    ensures |records| > 0
  {}

  lemma TakeTake<T>(s: seq<T>, k: nat, n: nat)
    requires n <= k <= |s|
    ensures s[..k][..n] == s[..n]
  {}

  lemma Shorter(log: seq<byte>, records: seq<seq<byte>>, n: nat)
    requires |records| > 0 && CutAfter(log, records[..|records| - 1], n)
    requires !(EncodeAll(0, records[..|records| - 1]) <= log)
    ensures CutAfter(log, records, n)
  {
    hide EncodeAll;
    hide Records;
    var k := |records| - 1;
    TakeTake(records, k, n);
    TakeTake(records, k, k);
    if n < k { TakeTake(records, k, n + 1); }
  }

  // ---------- damage ----------

  /** The messages differ, but only inside some 32 consecutive bits. */
  ghost predicate Burst(a: seq<byte>, b: seq<byte>) {
    && |a| == |b| && a != b
    && exists at: nat, n: nat :: BurstAt(a, b, at, n)
  }

  ghost predicate BurstAt(a: seq<byte>, b: seq<byte>, at: nat, n: nat)
    requires |a| == |b|
  {
    && n <= 32 && at + n <= 8 * |a|
    && Crc32cSpec.Bits(a)[..at] == Crc32cSpec.Bits(b)[..at]
    && Crc32cSpec.Bits(a)[at + n..] == Crc32cSpec.Bits(b)[at + n..]
  }

  lemma BurstChangesChecksum(t: byte, payload: seq<byte>, body: seq<byte>)
    requires Burst([t] + payload, body)
    ensures |body| == 1 + |payload| && Checksum(body[0], body[1..]) != Checksum(t, payload)
  {
    hide Crc32cSpec.Crc;
    hide Crc32cSpec.Bits;
    var at: nat, n: nat :| BurstAt([t] + payload, body, at, n);
    Crc32cSpec.CrcAppend(0, [t], payload);
    Crc32cSpec.CrcAppend(0, [body[0]], body[1..]);
    assert [body[0]] + body[1..] == body;
    Crc32cSpec.BurstsAreDetected(0, [t] + payload, body, at, n);
  }

  /** The checksum and the length of a fragment: what precedes its type and payload. */
  function Front(t: byte, payload: seq<byte>): (s: seq<byte>)
    requires |payload| < 65536
    ensures |s| == HEADER_SIZE - 1
  {
    Fixed32(Crc32c.Mask(Checksum(t, payload))) + LengthBytes(|payload|)
  }

  lemma DamagedLayout(t: byte, payload: seq<byte>, body: seq<byte>)
    requires |payload| < 65536 && |body| == 1 + |payload|
    ensures var s := Front(t, payload) + body;
            && DecodeLength(s[4], s[5]) == |payload| && s[6] == body[0] && s[HEADER_SIZE..] == body[1..]
            && Crc32c.Unmask(DecodeFixed32(s)) == Checksum(t, payload)
  {
    hide Checksum;
    var masked := Crc32c.Mask(Checksum(t, payload));
    var rest := LengthBytes(|payload|) + body;
    assert Front(t, payload) + body == Fixed32(masked) + rest;
    LengthRoundTrip(|payload|);
    Fixed32RoundTrip(masked, rest);
    Crc32c.UnmaskInvertsMask(Checksum(t, payload));
  }

  /** A fragment whose type and payload are hit by a burst is not read. */
  lemma DamagedHeader(log: seq<byte>, p: nat, t: byte, payload: seq<byte>, body: seq<byte>)
    requires |payload| < 65536 && Burst([t] + payload, body)
    requires p + HEADER_SIZE + |payload| <= |log|
    requires log[p..p + HEADER_SIZE + |payload|] == Front(t, payload) + body
    ensures ParseHeader(log, p) == Missing
  {
    hide DecodeFixed32;
    hide Checksum;
    hide Crc32c.Unmask;
    hide DecodeLength;
    hide Burst;
    hide Front;
    BurstChangesChecksum(t, payload, body);
    DamagedLayout(t, payload, body);
    HeaderAt(log, p, Front(t, payload) + body);
  }

  /** s begins with the record, but for a burst in the type and payload of one of its fragments; what follows that is arbitrary. */
  ghost predicate Hit(off: Offset, data: seq<byte>, begin: bool, s: seq<byte>)
    decreases |data|, if Start(off) + HEADER_SIZE == BLOCK_SIZE then 1 else 0
  {
    var len := FragmentLength(off, |data|);
    var t, payload := TypeOf(begin, len == |data|), data[..len];
    || (exists body :: Burst([t] + payload, body) && Trailer(off) + (Front(t, payload) + body) <= s)
    || (len < |data| && Trailer(off) + Physical(t, payload) <= s
        && Hit(BLOCK_SIZE, data[len..], false, s[|Trailer(off)| + HEADER_SIZE + len..]))
  }

  lemma FragmentHit(log: seq<byte>, at: nat, off: Offset, t: byte, payload: seq<byte>, body: seq<byte>)
    requires at <= |log| && At(off, at) && |payload| < 65536 && Burst([t] + payload, body)
    requires Trailer(off) + (Front(t, payload) + body) <= log[at..]
    ensures Parse(log, at) == Missing
  {
    BurstChangesChecksum(t, payload, body);
    Aligned(off, at);
    Slice(log, at, Trailer(off), Front(t, payload) + body);
    hide Front;
    hide Trailer;
    hide SkipTrailer;
    hide ParseHeader;
    hide Burst;
    DamagedHeader(log, SkipTrailer(at), t, payload, body);
  }

  /** The reader stops at the fragment that is hit, and drops the record it belongs to. */
  lemma {:induction false} RecordHit(log: seq<byte>, at: nat, off: Offset, data: seq<byte>, begin: bool, partial: Option<seq<byte>>)
    requires at <= |log| && At(off, at) && Fits(begin, partial)
    requires Hit(off, data, begin, log[at..])
    ensures Recover(log, at, partial) == []
    decreases |data|, if Start(off) + HEADER_SIZE == BLOCK_SIZE then 1 else 0
  {
    hide Physical;
    hide Front;
    hide Burst;
    hide Parse;
    var len := FragmentLength(off, |data|);
    var t, payload := TypeOf(begin, len == |data|), data[..len];
    if body :| Burst([t] + payload, body) && Trailer(off) + (Front(t, payload) + body) <= log[at..] {
      FragmentHit(log, at, off, t, payload, body);
    } else {
      hide Recover;
      var next := at + |Trailer(off)| + HEADER_SIZE + len;
      FragmentTaken(log, at, off, begin, false, payload, partial, next);
      NextOffset(at, off, len);
      DropDrop(log, at, next - at);
      RecordHit(log, next, BLOCK_SIZE, data[len..], false, Some(Whole(payload, partial)));
    }
  }

  lemma DropDrop<T>(s: seq<T>, a: nat, b: nat)
    requires a + b <= |s|
    ensures s[a..][b..] == s[a + b..]
  {}

  /**
   A burst of at most 32 bits in the type and payload of any fragment is noticed: whatever
   follows it, a reader finds exactly the records before the one that is hit.
   */
  lemma DamageIsDetected(log: seq<byte>, history: seq<seq<byte>>, data: seq<byte>)
    requires EncodeAll(0, history) <= log
    requires Hit(EndAll(0, history), data, true, log[|EncodeAll(0, history)|..])
    ensures Records(log) == history
  {
    hide EncodeAll;
    hide EndAll;
    hide Encode;
    hide EndOffset;
    hide Recover;
    hide At;
    hide Hit;
    AtZero();
    DropZero(log);
    AllRead(log, 0, 0, history);
    RecordHit(log, |EncodeAll(0, history)|, EndAll(0, history), data, true, None);
  }

  /** The type and payload of fragment k of a record. */
  function FragmentBody(off: Offset, data: seq<byte>, begin: bool, k: nat): seq<byte>
    decreases k
  {
    var len := FragmentLength(off, |data|);
    if k == 0 || len == |data| then [TypeOf(begin, len == |data|)] + data[..len]
    else FragmentBody(BLOCK_SIZE, data[len..], false, k - 1)
  }

  /** The record with the type and payload of fragment k, or of the last one, replaced. */
  function Damaged(off: Offset, data: seq<byte>, begin: bool, k: nat, body: seq<byte>): seq<byte>
    decreases k
  {
    var len := FragmentLength(off, |data|);
    var t := TypeOf(begin, len == |data|);
    if k == 0 || len == |data| then
      Trailer(off) + (Front(t, data[..len]) + body) + if len == |data| then [] else Encode(BLOCK_SIZE, data[len..], false)
    else
      Trailer(off) + Physical(t, data[..len]) + Damaged(BLOCK_SIZE, data[len..], false, k - 1, body)
  }

  lemma StartsWith<T>(a: seq<T>, b: seq<T>, c: seq<T>)
    ensures a <= a + b + c && (a + b + c)[|a|..] == b + c
  {}

  lemma {:induction false} DamagedIsHit(off: Offset, data: seq<byte>, begin: bool, k: nat, body: seq<byte>, tail: seq<byte>)
    requires Burst(FragmentBody(off, data, begin, k), body)
    ensures Hit(off, data, begin, Damaged(off, data, begin, k, body) + tail)
    ensures |Damaged(off, data, begin, k, body)| == |Encode(off, data, begin)|
    decreases k
  {
    hide Physical;
    hide Front;
    hide Burst;
    var len := FragmentLength(off, |data|);
    var t, payload := TypeOf(begin, len == |data|), data[..len];
    Unfold(off, data, begin);
    hide Encode;
    if k == 0 || len == |data| {
      var rest := if len == |data| then [] else Encode(BLOCK_SIZE, data[len..], false);
      BurstChangesChecksum(t, payload, body);
      StartsWith(Trailer(off) + (Front(t, payload) + body), rest, tail);
    } else {
      var rest := Damaged(BLOCK_SIZE, data[len..], false, k - 1, body);
      StartsWith(Trailer(off) + Physical(t, payload), rest, tail);
      DamagedIsHit(BLOCK_SIZE, data[len..], false, k - 1, body, tail);
    }
  }

  /** So when a burst hits any fragment of any record of a log, the records before it are read, and no other. */
  lemma BurstEndsLog(history: seq<seq<byte>>, data: seq<byte>, k: nat, body: seq<byte>, tail: seq<byte>)
    requires Burst(FragmentBody(EndAll(0, history), data, true, k), body)
    ensures Records(EncodeAll(0, history) + (Damaged(EndAll(0, history), data, true, k, body) + tail)) == history
  {
    hide EncodeAll;
    hide EndAll;
    hide Hit;
    hide Burst;
    hide Damaged;
    hide Records;
    DamagedIsHit(EndAll(0, history), data, true, k, body, tail);
    var s, rest := EncodeAll(0, history), Damaged(EndAll(0, history), data, true, k, body) + tail;
    DropConcat(s, rest);
    DamageIsDetected(s + rest, history, data);
  }

  lemma DropConcat<T>(a: seq<T>, b: seq<T>)
    ensures (a + b)[|a|..] == b && a <= a + b
  {}

  // ---------- reopening ----------

  /** A full block and an empty one are the same place. */
  lemma {:induction false} BlockEndIsBlockStart(records: seq<seq<byte>>)
    ensures EncodeAll(BLOCK_SIZE, records) == EncodeAll(0, records)
  {
    if |records| > 0 {
      assert Start(BLOCK_SIZE) == Start(0) && Trailer(BLOCK_SIZE) == Trailer(0) == [];
      assert Encode(BLOCK_SIZE, records[0], true) == Encode(0, records[0], true);
      assert EndOffset(BLOCK_SIZE, |records[0]|) == EndOffset(0, |records[0]|);
    }
  }

  /** A writer reopened by the length of the log goes on as the one before it would have. */
  lemma Reopened(history: seq<seq<byte>>, records: seq<seq<byte>>)
    ensures EncodeAll(|EncodeAll(0, history)| % BLOCK_SIZE, records) == EncodeAll(EndAll(0, history), records)
  {
    hide EncodeAll;
    hide EndAll;
    BlockEndIsBlockStart(records);
    EndIsAtLength(history);
    SameOffset(EndAll(0, history), |EncodeAll(0, history)|);
  }

  lemma SameOffset(off: Offset, at: nat)
    requires At(off, at)
    ensures off == at % BLOCK_SIZE || (off == BLOCK_SIZE && at % BLOCK_SIZE == 0)
  {}

  lemma EndIsAtLength(history: seq<seq<byte>>)
    ensures At(EndAll(0, history), |EncodeAll(0, history)|)
  {
    hide EncodeAll;
    hide EndAll;
    hide Encode;
    hide EndOffset;
    hide Recover;
    hide At;
    var log := EncodeAll(0, history);
    AtZero();
    DropZero(log);
    AllRead(log, 0, 0, history);
  }

  // ---------- how long a record gets ----------

  function Fragments(off: Offset, n: nat): nat
    decreases n, if Start(off) + HEADER_SIZE == BLOCK_SIZE then 1 else 0
  {
    var len := FragmentLength(off, n);
    if len == n then 1 else 1 + Fragments(BLOCK_SIZE, n - len)
  }

  const PAYLOAD: nat := BLOCK_SIZE - HEADER_SIZE

  lemma {:induction false} FragmentsFromStart(n: nat)
    ensures Fragments(BLOCK_SIZE, n) == if n == 0 then 1 else (n + PAYLOAD - 1) / PAYLOAD
  {
    if n > PAYLOAD {
      FragmentsFromStart(n - PAYLOAD);
    }
  }

  lemma FragmentsBound(off: Offset, n: nat)
    ensures Fragments(off, n) <= (n + PAYLOAD - 1) / PAYLOAD + 1
  {
    var len := FragmentLength(off, n);
    if len < n { FragmentsFromStart(n - len); }
  }

  /** One header per fragment, padding before the first only, and no more fragments than needed. */
  lemma {:induction false} EncodedLength(off: Offset, data: seq<byte>, begin: bool)
    ensures |Encode(off, data, begin)| == |Trailer(off)| + HEADER_SIZE * Fragments(off, |data|) + |data|
    ensures |Trailer(off)| <= HEADER_SIZE - 1
    ensures Fragments(off, |data|) <= (|data| + PAYLOAD - 1) / PAYLOAD + 1
    decreases |data|, if Start(off) + HEADER_SIZE == BLOCK_SIZE then 1 else 0
  {
    hide Physical;
    var len := FragmentLength(off, |data|);
    if len < |data| {
      EncodedLength(BLOCK_SIZE, data[len..], false);
    }
    hide Encode;
    FragmentsBound(off, |data|);
  }
}
