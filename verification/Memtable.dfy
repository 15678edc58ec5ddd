/** The in-memory table: versions of user keys, encoded as entries of a skip list. */
module Memtable {

  import opened Fixed
  import opened Coding
  import opened Dbformat
  import opened Links
  import opened Order
  import opened Sequences
  import opened SkipList
  import opened Wrappers

  // ---------- length-prefixed slices ----------

  /** A length and at least so many bytes after it, the length being that of an internal key. */
  predicate WellFormed(e: Bytes) {
    && Decode32(e).Some? && Decode32(e).value.value >= 8
    && Decode32(e).value.length + Decode32(e).value.value <= |e|
  }

  /** What a pointer into the table leads to; more bytes may follow. */
  type Entry = e: Bytes | WellFormed(e) witness Varint(8) + EncodeKey([], 0)

  function GetLengthPrefixedSlice(s: Bytes): Bytes
    requires Decode32(s).Some? && Decode32(s).value.length + Decode32(s).value.value <= |s|
  {
    var d := Decode32(s).value;
    s[d.length..d.length + d.value]
  }

  lemma PrefixedRoundTrip(k: Bytes, rest: Bytes)
    requires |k| < TWO_32
    ensures Decode32(Varint(|k|) + k + rest) == Some(Decoded(|k|, |Varint(|k|)|))
    ensures GetLengthPrefixedSlice(Varint(|k|) + k + rest) == k
  {
    hide Varint;
    hide Decode32;
    var s := Varint(|k|) + k + rest;
    RoundTrip32(|k|, k + rest);
    assert s == Varint(|k|) + (k + rest);
    assert s[|Varint(|k|)|..|Varint(|k|)| + |k|] == k;
  }

  function EntryOrder(user: (Bytes, Bytes) -> int): (Entry, Entry) -> int {
    (a: Entry, b: Entry) => Compare(user, GetLengthPrefixedSlice(a), GetLengthPrefixedSlice(b))
  }

  lemma EntryOrderIsTotal(user: (Bytes, Bytes) -> int)
    requires TotalOrder(user)
    ensures TotalOrder(EntryOrder(user))
  {
    hide Compare;
    hide Decode32;
    KeyOrderIsTotal(user);
    var cmp, order := EntryOrder(user), KeyOrder(user);
    assert forall a: Entry, b: Entry :: cmp(a, b) == order(GetLengthPrefixedSlice(a), GetLengthPrefixedSlice(b));
  }

  // ---------- versions and look-ups, abstractly ----------

  /** One version of a user key. */
  datatype Version = Version(key: Bytes, seqno: nat, kind: ValueType, value: Bytes) {
    /** The sizes and the sequence number the layout has room for. */
    predicate Fits() {
      |key| + 8 < TWO_32 && |value| < TWO_32 && seqno <= MAX_SEQUENCE
    }

    function InternalKey(): (k: EncodedKey)
      requires Fits()
    {
      EncodeKey(key, Tag(seqno, kind))
    }

    /** How the table stores it. */
    function Encoding(): Bytes
      requires Fits()
    {
      Varint(|key| + 8) + InternalKey() + (Varint(|value|) + value)
    }

    /** A later sequence number, or the same and a value rather than a deletion. */
    predicate NewerThan(other: Version) {
      seqno > other.seqno || (seqno == other.seqno && kind.Value? && other.kind.Delete?)
    }

    /** The version is one of this user key, no later than s. */
    predicate VisibleAt(user: (Bytes, Bytes) -> int, k: Bytes, s: nat) {
      user(key, k) == 0 && seqno <= s
    }
  }

  /** What a look-up of key k at sequence number s must find: of the visible versions the newest, if there are any. */
  ghost predicate LooksUp(user: (Bytes, Bytes) -> int, versions: set<Version>, k: Bytes, s: nat, hit: Option<Version>) {
    match hit
    case None => forall w <- versions :: !w.VisibleAt(user, k, s)
    case Some(v) =>
      && v in versions && v.VisibleAt(user, k, s)
      && forall w <- versions :: w.VisibleAt(user, k, s) ==> w == v || v.NewerThan(w)
  }

  datatype Result = Found(value: Bytes) | NotFound | Missing

  function Answer(hit: Option<Version>): Result {
    match hit
    case None => Missing
    case Some(v) => if v.kind.Value? then Found(v.value) else NotFound
  }

  lemma LooksUpOne(user: (Bytes, Bytes) -> int, versions: set<Version>, k: Bytes, s: nat,
                   a: Option<Version>, b: Option<Version>)
    requires LooksUp(user, versions, k, s, a) && LooksUp(user, versions, k, s, b)
    ensures a == b
  {}

  // ---------- the entries' order is the order of versions ----------

  lemma EntryOf(v: Version)
    requires v.Fits()
    ensures WellFormed(v.Encoding())
    ensures GetLengthPrefixedSlice(v.Encoding()) == v.InternalKey()
  {
    hide Decode32;
    PrefixedRoundTrip(v.InternalKey(), Varint(|v.value|) + v.value);
  }

  /** The five parts of an entry, at their places: length, user key, type and sequence number, length, value. */
  lemma EntryLayout(v: Version, i: nat)
    requires v.Fits() && i < 7
    ensures var e, a := v.Encoding(), |Varint(|v.key| + 8)|;
            var b := a + |v.key|;
            var c := b + 8 + |Varint(|v.value|)|;
            && |e| == c + |v.value|
            && e[..a] == Varint(|v.key| + 8) && e[a..b] == v.key
            && e[b] == (if v.kind.Delete? then 0 else 1) && e[b + 1 + i] as nat == v.seqno / Power256(i) % 256
            && e[b + 8..c] == Varint(|v.value|) && e[c..] == v.value
  {
    hide Varint;
    hide EncodeKey;
    hide Power256;
    hide Tag;
    KeyLayout(v.key, v.seqno, v.kind, i);
    var prefix, k := Varint(|v.key| + 8), v.InternalKey();
    assert v.Encoding() == prefix + k + (Varint(|v.value|) + v.value);
    hide Version.Encoding;
    PartsOf(prefix, k, Varint(|v.value|), v.value, |v.key|, i);
  }

  /** Where the parts of a concatenation are. */
  lemma PartsOf<T>(a: seq<T>, b: seq<T>, c: seq<T>, d: seq<T>, n: nat, i: nat)
    requires |b| == n + 8 && i < 7
    ensures var s, p := a + b + (c + d), |a| + n;
            && |s| == |a| + |b| + |c| + |d|
            && s[..|a|] == a && s[|a|..p] == b[..n] && s[p] == b[n] && s[p + 1 + i] == b[n + 1 + i]
            && s[p + 8..p + 8 + |c|] == c && s[p + 8 + |c|..] == d
  {}

  /** The encoding of a version is an entry. */
  function AsEntry(v: Version, s: Bytes): (e: Entry)
    requires v.Fits() && s == v.Encoding()
    ensures e == s && GetLengthPrefixedSlice(e) == v.InternalKey()
  {
    EntryOf(v);
    s
  }

  lemma LookupKeyIsEntry(key: LookupKey)
    requires key.Valid()
    ensures WellFormed(key.MemtableKey())
    ensures GetLengthPrefixedSlice(key.MemtableKey()) == key.InternalKeySlice()
  {
    hide Decode32;
    PrefixedRoundTrip(key.InternalKeySlice(), []);
    assert key.MemtableKey() + [] == key.MemtableKey();
  }

  /** User keys ascending, then newer versions first. */
  ghost predicate Precedes(user: (Bytes, Bytes) -> int, v: Version, w: Version) {
    user(v.key, w.key) < 0 || (user(v.key, w.key) == 0 && v.NewerThan(w))
  }

  lemma OrderMeans(user: (Bytes, Bytes) -> int, v: Version, w: Version)
    requires v.Fits() && w.Fits()
    ensures Compare(user, v.InternalKey(), w.InternalKey()) < 0 <==> Precedes(user, v, w)
    ensures Compare(user, v.InternalKey(), w.InternalKey()) == 0 <==>
            user(v.key, w.key) == 0 && v.seqno == w.seqno && v.kind == w.kind
  {
    CompareMeans(user, ParsedInternalKey(v.key, v.seqno, v.kind), ParsedInternalKey(w.key, w.seqno, w.kind));
  }

  function Members(versions: seq<Version>): set<Version> {
    set v <- versions
  }

  /** In a table ordered like this, the first version not before (k, s, Value) answers the look-up. */
  lemma FirstNotBefore(user: (Bytes, Bytes) -> int, versions: seq<Version>, p: nat, k: Bytes, s: nat)
    requires TotalOrder(user) && p <= |versions|
    requires forall i, j :: 0 <= i < j < |versions| ==> Precedes(user, versions[i], versions[j])
    requires forall i :: 0 <= i < p ==> Precedes(user, versions[i], Version(k, s, Value, []))
    requires p < |versions| ==> !Precedes(user, versions[p], Version(k, s, Value, []))
    ensures p < |versions| && user(k, versions[p].key) == 0 ==>
            LooksUp(user, Members(versions), k, s, Some(versions[p]))
    ensures p == |versions| || user(k, versions[p].key) != 0 ==> LooksUp(user, Members(versions), k, s, None)
  {
    forall i | 0 <= i < |versions| && versions[i].VisibleAt(user, k, s)
      ensures p <= i && user(k, versions[p].key) == 0
    {
      assert p <= i;
      SameKey(user, versions[p], versions[i], k, s);
    }
    assert p < |versions| && user(k, versions[p].key) == 0 ==> versions[p].VisibleAt(user, k, s);
  }

  lemma SameKey(user: (Bytes, Bytes) -> int, v: Version, w: Version, k: Bytes, s: nat)
    requires TotalOrder(user)
    requires v == w || Precedes(user, v, w)
    requires !Precedes(user, v, Version(k, s, Value, [])) && w.VisibleAt(user, k, s)
    ensures user(k, v.key) == 0
  {
    assert user(v.key, w.key) <= 0;
    Transitive(user, v.key, w.key, k);
    assert user(v.key, k) == 0;
    assert user(k, v.key) <= 0 && user(k, v.key) >= 0;
  }

  /** The keys of the skip list, but for the header's, are the encodings of the versions. */
  ghost predicate Mirrors(keys: seq<Entry>, versions: seq<Version>) {
    && |keys| == |versions| + 1
    && forall i :: 0 <= i < |versions| ==> versions[i].Fits() && keys[i + 1] == versions[i].Encoding()
  }

  /** The skip list's order on entries, read as one on versions. */
  lemma EntriesCompare(user: (Bytes, Bytes) -> int, keys: seq<Entry>, versions: seq<Version>, i: nat, e: Entry, w: Version)
    requires Mirrors(keys, versions) && i < |versions|
    requires w.Fits() && GetLengthPrefixedSlice(e) == w.InternalKey()
    ensures EntryOrder(user)(keys[i + 1], e) < 0 <==> Precedes(user, versions[i], w)
    ensures EntryOrder(user)(keys[i + 1], e) == 0 <==>
            user(versions[i].key, w.key) == 0 && versions[i].seqno == w.seqno && versions[i].kind == w.kind
  {
    EntryOf(versions[i]);
    OrderMeans(user, versions[i], w);
    hide Version.Encoding;
    hide Compare;
    hide Version.InternalKey;
    hide GetLengthPrefixedSlice;
  }

  lemma VersionsInOrder(user: (Bytes, Bytes) -> int, keys: seq<Entry>, versions: seq<Version>)
    requires Mirrors(keys, versions) && Increasing(EntryOrder(user), keys, 1)
    ensures forall i, j :: 0 <= i < j < |versions| ==> Precedes(user, versions[i], versions[j])
  {
    hide EntryOrder;
    hide Precedes;
    forall i, j | 0 <= i < j < |versions|
      ensures Precedes(user, versions[i], versions[j])
    {
      assert EntryOrder(user)(keys[i + 1], keys[j + 1]) < 0;
      EntryOf(versions[j]);
      EntriesCompare(user, keys, versions, i, keys[j + 1], versions[j]);
    }
  }

  /** Where the skip list's search for a look-up key ends, the look-up's answer is. */
  lemma SearchAnswers(user: (Bytes, Bytes) -> int, keys: seq<Entry>, versions: seq<Version>, target: Entry, k: Bytes, s: nat)
    requires TotalOrder(user) && Mirrors(keys, versions) && Increasing(EntryOrder(user), keys, 1)
    requires Version(k, s, Value, []).Fits()
    requires GetLengthPrefixedSlice(target) == Version(k, s, Value, []).InternalKey()
    ensures var p := LowerBound(EntryOrder(user), keys, 1, target) - 1;
            && (p < |versions| && user(k, versions[p].key) == 0 ==>
                  LooksUp(user, Members(versions), k, s, Some(versions[p])))
            && (p == |versions| || user(k, versions[p].key) != 0 ==> LooksUp(user, Members(versions), k, s, None))
  {
    var p := LowerBound(EntryOrder(user), keys, 1, target) - 1;
    var w := Version(k, s, Value, []);
    LowerBoundMeans(EntryOrder(user), keys, 1, target);
    VersionsInOrder(user, keys, versions);
    hide EntryOrder;
    hide Precedes;
    hide LooksUp;
    hide LowerBound;
    hide Increasing;
    forall i | 0 <= i < p
      ensures Precedes(user, versions[i], w)
    {
      EntriesCompare(user, keys, versions, i, target, w);
      assert EntryOrder(user)(keys[i + 1], target) < 0;
    }
    if p < |versions| {
      EntriesCompare(user, keys, versions, p, target, w);
    }
    FirstNotBefore(user, versions, p, k, s);
  }

  ghost predicate NoneEqual(user: (Bytes, Bytes) -> int, versions: seq<Version>, v: Version) {
    forall i :: 0 <= i < |versions| ==>
      var w := versions[i]; !(user(w.key, v.key) == 0 && w.seqno == v.seqno && w.kind == v.kind)
  }

  lemma NoEqualEntry(user: (Bytes, Bytes) -> int, keys: seq<Entry>, versions: seq<Version>, v: Version, e: Entry)
    requires Mirrors(keys, versions) && v.Fits() && NoneEqual(user, versions, v)
    requires GetLengthPrefixedSlice(e) == v.InternalKey()
    ensures forall i :: 1 <= i < |keys| ==> EntryOrder(user)(keys[i], e) != 0
  {
    hide Decode32;
    hide EntryOrder;
    forall i | 1 <= i < |keys|
      ensures EntryOrder(user)(keys[i], e) != 0
    {
      EntriesCompare(user, keys, versions, i - 1, e, v);
    }
  }

  lemma MirrorsMore(keys: seq<Entry>, versions: seq<Version>, r: nat, e: Entry, v: Version)
    requires Mirrors(keys, versions) && 1 <= r <= |keys| && v.Fits() && e == v.Encoding()
    ensures r - 1 <= |versions|
    ensures Mirrors(Inserted(keys, r, e), Inserted(versions, r - 1, v))
    ensures Members(Inserted(versions, r - 1, v)) == Members(versions) + {v}
  {
    hide Version.Encoding;
    var after := Inserted(versions, r - 1, v);
    forall i | 0 <= i < |after|
      ensures after[i].Fits() && Inserted(keys, r, e)[i + 1] == after[i].Encoding()
    {}
    forall w
      ensures w in after <==> w in versions || w == v
    {
      if w in versions {
        var i :| 0 <= i < |versions| && versions[i] == w;
        assert after[if i < r - 1 then i else i + 1] == w;
      }
      assert after[r - 1] == v;
    }
  }

  /** The five parts of an entry, written through an advancing pointer into a buffer of exactly their size. */
  method EncodeEntry(v: Version) returns (buf: array<byte>)
    requires v.Fits()
    ensures fresh(buf) && buf[..] == v.Encoding()
  {
    var internalKeySize := |v.key| + 8;
    var keyLength := VarintLength(internalKeySize);
    var valueLength := VarintLength(|v.value|);
    buf := new byte[keyLength + internalKeySize + valueLength + |v.value|];
    hide Varint;
    hide EncodeKey;
    hide Wrote;
    WroteNothing(buf[..]);
    var p := WriteKey(buf, 0, v.key, Tag(v.seqno, v.kind), []);
    p := p + |v.key| + 8;
    ghost var s := [] + Varint(internalKeySize) + v.InternalKey();
    p := WriteVarint32(buf, p, |v.value|, s);
    CopyInto(buf, p, v.value, s + Varint(|v.value|));
    assert p + |v.value| == buf.Length;
    WroteAll(buf[..], s + Varint(|v.value|) + v.value);
    Parts(v);
  }

  lemma WroteAll(dst: Bytes, s: Bytes)
    requires Wrote(dst, |dst|, s)
    ensures dst == s
  {}

  lemma Parts(v: Version)
    requires v.Fits()
    ensures [] + Varint(|v.key| + 8) + v.InternalKey() + Varint(|v.value|) + v.value == v.Encoding()
  {}

  /** The header's key, which is never looked at. */
  function HeaderKey(): Entry {
    AsEntry(Version([], 0, Delete, []), Version([], 0, Delete, []).Encoding())
  }

  method NewTable(user: (Bytes, Bytes) -> int) returns (table: SkipList<Entry>)
    requires TotalOrder(user)
    ensures table.Valid() && fresh(table) && fresh(table.Repr)
    ensures table.compare == EntryOrder(user) && |table.keys| == 1
  {
    EntryOrderIsTotal(user);
    hide TotalOrder;
    hide EntryOrder;
    hide SkipList.Valid;
    hide HeaderKey;
    hide WellFormed;
    table := new SkipList(EntryOrder(user), HeaderKey());
  }

  /** The encoding goes into the skip list; the version goes where the list puts it. */
  method InsertEntry(user: (Bytes, Bytes) -> int, table: SkipList<Entry>, ghost versions: seq<Version>,
                     v: Version, buf: array<byte>)
    returns (ghost after: seq<Version>)
    requires table.Valid() && table.compare == EntryOrder(user) && Mirrors(table.keys, versions)
    requires v.Fits() && NoneEqual(user, versions, v) && buf[..] == v.Encoding()
    modifies table.Repr
    ensures table.Valid() && fresh(table.Repr - old(table.Repr))
    ensures Mirrors(table.keys, after) && Members(after) == Members(versions) + {v}
  {
    var entry := AsEntry(v, buf[..]);
    ghost var keys := table.keys;
    assert |keys| >= 1;
    hide EntryOrder;
    hide SkipList.Valid;
    hide Version.Encoding;
    hide WellFormed;
    hide LowerBound;
    hide NoneEqual;
    hide Mirrors;
    hide GetLengthPrefixedSlice;
    hide Decode32;
    NoEqualEntry(user, keys, versions, v, entry);
    ghost var r := LowerBound<Entry>(table.compare, keys, 1, entry);
    ghost var height := table.Insert(entry);
    MirrorsMore(keys, versions, r, entry, v);
    after := Inserted(versions, r - 1, v);
  }

  /** The skip list's search from a look-up key on: the position it ends at, and the entry there. */
  method SeekEntry(table: SkipList<Entry>, target: Entry) returns (found: Option<Entry>, ghost pos: nat)
    requires table.Valid()
    ensures pos == LowerBound<Entry>(table.compare, table.keys, 1, target) <= |table.keys|
    ensures found == if pos < |table.keys| then Some(table.keys[pos]) else None
  {
    hide SkipList.Valid;
    hide LowerBound;
    hide WellFormed;
    var iter := new Iterator(table);
    iter.Seek(target);
    pos := iter.pos;
    found := if iter.IsValid() then Some(iter.Key()) else None;
  }

  lemma EntryLength(v: Version)
    requires v.Fits()
    ensures Decode32(v.Encoding()) == Some(Decoded(|v.key| + 8, |Varint(|v.key| + 8)|))
  {
    hide Varint;
    hide Decode32;
    PrefixedRoundTrip(v.InternalKey(), Varint(|v.value|) + v.value);
  }

  // Where the parts of an entry are.

  lemma Slices<T>(length: seq<T>, key: seq<T>, tag: seq<T>, rest: seq<T>, e: seq<T>)
    requires e == length + (key + tag) + rest
    ensures e[|length|..|length| + |key|] == key
    ensures e[|length| + |key|..] == tag + rest
    ensures e[|length| + |key| + |tag|..] == rest
  {}

  lemma KeyIn(e: Bytes, v: Version)
    requires v.Fits() && e == v.Encoding()
    ensures |Varint(|v.key| + 8)| + |v.key| + 8 < |e|
    ensures e[|Varint(|v.key| + 8)|..|Varint(|v.key| + 8)| + |v.key|] == v.key
  {
    hide Varint;
    hide Fixed64;
    Slices(Varint(|v.key| + 8), v.key, Fixed64(Tag(v.seqno, v.kind)), Varint(|v.value|) + v.value, e);
  }

  lemma TagBytes(e: Bytes, p: nat, v: Version)
    requires v.Fits() && e == v.Encoding() && p == |Varint(|v.key| + 8)| + |v.key|
    ensures p + 8 <= |e| && e[p..] == Fixed64(Tag(v.seqno, v.kind)) + (Varint(|v.value|) + v.value)
  {
    hide Varint;
    hide Fixed64;
    Slices(Varint(|v.key| + 8), v.key, Fixed64(Tag(v.seqno, v.kind)), Varint(|v.value|) + v.value, e);
  }

  lemma ValueBytes(e: Bytes, p: nat, v: Version)
    requires v.Fits() && e == v.Encoding() && p == |Varint(|v.key| + 8)| + |v.key| + 8
    ensures p < |e| && e[p..] == Varint(|v.value|) + v.value
  {
    hide Varint;
    hide Fixed64;
    Slices(Varint(|v.key| + 8), v.key, Fixed64(Tag(v.seqno, v.kind)), Varint(|v.value|) + v.value, e);
  }

  /** A first byte that a length leaves where a type is expected. */
  predicate LengthAsType(kind: nat, n: nat) {
    if n < 128 then kind == n else kind >= 128
  }

  /** The type in the lowest byte of the tag at the front of s. */
  function TypeByte(s: Bytes): nat
    requires |s| >= 8
  {
    DecodeFixed64(s) % 0x100
  }

  lemma TagAt(s: Bytes, v: Version, rest: Bytes)
    requires v.Fits() && s == Fixed64(Tag(v.seqno, v.kind)) + rest
    ensures TypeByte(s) == v.kind.Code()
  {
    Fixed64RoundTrip(Tag(v.seqno, v.kind), rest);
    TagKind(v.seqno, v.kind);
    hide Tag;
    hide Fixed64;
    hide DecodeFixed64;
  }

  /** The first byte of a length. */
  lemma LengthByte(n: nat)
    ensures LengthAsType(Varint(n)[0] as nat, n)
  {
    if n < 128 { LastByte(n); } else { MoreByte(n); }
  }

  /** What the code makes of a version that the search found: it takes the length of the value for the type. */
  function Misread(hit: Option<Version>): Result {
    match hit
    case None => Missing
    case Some(v) => if |v.value| == 1 then Found(v.value) else if |v.value| == 0 then NotFound else Missing
  }

  /** The user key of an entry, found by its length. */
  lemma UserKeyOf(e: Bytes, v: Version)
    requires v.Fits() && e == v.Encoding()
    ensures Decode32(e).Some? && Decode32(e).value.value >= 8
    ensures var d := Decode32(e).value;
            d.length + d.value <= |e| && e[d.length..d.length + d.value - 8] == v.key
  {
    EntryLength(v);
    KeyIn(e, v);
    hide Version.Encoding;
    hide Varint;
    hide Decode32;
  }

  /** Is this the user key that is looked for? */
  method SameUserKey(user: (Bytes, Bytes) -> int, wanted: Bytes, e: Entry, ghost v: Version) returns (same: bool)
    requires v.Fits() && e == v.Encoding()
    ensures same <==> user(wanted, v.key) == 0
  {
    UserKeyOf(e, v);
    hide Version.Encoding;
    hide WellFormed;
    hide Decode32;
    var length := GetVarint32Ptr(e, false);
    var at := length.value.length;
    same := user(wanted, e[at..at + length.value.value - 8]) == 0;
  }

  lemma MirrorsAt(keys: seq<Entry>, versions: seq<Version>, i: nat)
    requires Mirrors(keys, versions) && 1 <= i < |keys|
    ensures i <= |versions| && versions[i - 1].Fits() && keys[i] == versions[i - 1].Encoding()
  {}

  method FindIn(user: (Bytes, Bytes) -> int, table: SkipList<Entry>, ghost versions: seq<Version>, key: LookupKey)
    returns (found: Option<Entry>, ghost hit: Option<Version>)
    requires table.Valid() && table.compare == EntryOrder(user) && Mirrors(table.keys, versions)
    requires TotalOrder(user) && key.Valid()
    ensures LooksUp(user, Members(versions), key.key, key.seqno, hit)
    ensures found.Some? <==> hit.Some?
    ensures found.Some? ==> hit.value.Fits() && found.value == hit.value.Encoding()
  {
    LookupKeyIsEntry(key);
    var target: Entry, wanted := key.MemtableKey(), key.UserKey();
    SearchAnswers(user, table.keys, versions, target, key.key, key.seqno);
    hide TotalOrder;
    hide EntryOrder;
    hide SkipList.Valid;
    hide LookupKey.Valid;
    hide LooksUp;
    hide LowerBound;
    hide Mirrors;
    hide Version.Encoding;
    hide WellFormed;
    hide GetLengthPrefixedSlice;
    hide Decode32;
    var entry, pos := SeekEntry(table, target);
    if entry.Some? {
      MirrorsAt(table.keys, versions, pos);
      var same := SameUserKey(user, wanted, entry.value, versions[pos - 1]);
      if same { return entry, Some(versions[pos - 1]); }
    }
    return None, None;
  }

  /** The length-prefixed value of v is at position p of its entry. */
  ghost predicate ValueAt(e: Bytes, p: nat, v: Version) {
    && p <= |e| && Decode32(e[p..]).Some?
    && Decode32(e[p..]).value.length + Decode32(e[p..]).value.value <= |e[p..]|
    && GetLengthPrefixedSlice(e[p..]) == v.value
  }

  /** The tag of v is at position p of memory. */
  ghost predicate TypeAt(m: Bytes, p: nat, v: Version) {
    p + 8 <= |m| && TypeByte(m[p..]) == v.kind.Code()
  }

  /** The length of the value of v is at position p of memory. */
  ghost predicate LengthAt(m: Bytes, p: nat, v: Version) {
    p + 8 <= |m| && LengthAsType(TypeByte(m[p..]), |v.value|)
  }

  lemma ValuePart(e: Bytes, p: nat, v: Version)
    requires v.Fits() && e == v.Encoding() && p == |Varint(|v.key| + 8)| + |v.key| + 8
    ensures ValueAt(e, p, v)
  {
    ValueBytes(e, p, v);
    hide Varint;
    hide Decode32;
    hide Version.Encoding;
    PrefixedRoundTrip(v.value, []);
    assert Varint(|v.value|) + v.value + [] == Varint(|v.value|) + v.value;
  }

  lemma DropInFirst<T>(e: seq<T>, m: seq<T>, p: nat)
    requires p < |e|
    ensures (e + m)[p..] == e[p..] + m && (e + m)[p..][0] == e[p..][0]
  {}

  lemma TagPart(e: Bytes, p: nat, v: Version, memory: Bytes)
    requires v.Fits() && e == v.Encoding() && p == |Varint(|v.key| + 8)| + |v.key|
    ensures TypeAt(e + memory, p, v)
  {
    TagBytes(e, p, v);
    hide Varint;
    hide Version.Encoding;
    hide TypeByte;
    hide Fixed64;
    hide Tag;
    DropInFirst(e, memory, p);
    Regroup(Fixed64(Tag(v.seqno, v.kind)), Varint(|v.value|) + v.value, memory);
    TagAt((e + memory)[p..], v, Varint(|v.value|) + v.value + memory);
  }

  lemma FirstIsType(s: Bytes)
    requires |s| >= 8
    ensures TypeByte(s) == s[0] as nat
  {
    LowByte(s);
    hide DecodeFixed64;
  }

  lemma PastTag(e: Bytes, p: nat, v: Version, memory: Bytes)
    requires v.Fits() && e == v.Encoding() && p == |Varint(|v.key| + 8)| + |v.key| + 8 && |memory| >= 8
    ensures LengthAt(e + memory, p, v)
  {
    ValueBytes(e, p, v);
    LengthByte(|v.value|);
    hide LengthAsType;
    hide Varint;
    hide Version.Encoding;
    hide TypeByte;
    DropInFirst(e, memory, p);
    FirstIsType((e + memory)[p..]);
  }

  /** Where an entry's internal key ends. */
  lemma KeyEndOf(e: Bytes, v: Version) returns (end: nat)
    requires v.Fits() && e == v.Encoding()
    ensures end == |Varint(|v.key| + 8)| + |v.key| + 8
    ensures Decode32(e).Some? && Decode32(e).value.length + Decode32(e).value.value == end
  {
    EntryLength(v);
    hide Decode32;
    end := |Varint(|v.key| + 8)| + |v.key| + 8;
  }

  /** The outcome, by the type; a number that is no type counts as nothing found. */
  function Switch(kind: nat, value: Bytes): Result {
    if kind == Value.Code() then Found(value) else if kind == Delete.Code() then NotFound else Missing
  }

  lemma WhatIsRead(v: Version, kind: nat)
    requires LengthAsType(kind, |v.value|)
    ensures Switch(kind, v.value) == Misread(Some(v))
  {}

  /**
   The found entry read as the code reads it: the tag just past the internal key, where the
   length of the value is. The eight bytes may reach beyond the entry, into whatever follows.
   */
  method ReadAsWritten(e: Entry, memory: Bytes, ghost v: Version) returns (r: Result)
    requires v.Fits() && e == v.Encoding() && |memory| >= 8
    ensures r == Misread(Some(v))
  {
    ghost var end := KeyEndOf(e, v);
    ValuePart(e, end, v);
    PastTag(e, end, v, memory);
    hide Varint;
    hide Decode32;
    hide Version.Encoding;
    hide WellFormed;
    hide TypeByte;
    hide GetLengthPrefixedSlice;
    hide LengthAsType;
    hide Misread;
    var length := GetVarint32Ptr(e, false);
    var p := length.value.length + length.value.value;
    assert ValueAt(e, p, v) && LengthAt(e + memory, p, v);
    WhatIsRead(v, TypeByte((e + memory)[p..]));
    r := Switch(TypeByte((e + memory)[p..]), GetLengthPrefixedSlice(e[p..]));
  }

  /** The same with the tag read where it is, in the last eight bytes of the internal key. */
  method ReadAsMeant(e: Entry, memory: Bytes, ghost v: Version) returns (r: Result)
    requires v.Fits() && e == v.Encoding()
    ensures r == Answer(Some(v))
  {
    ghost var end := KeyEndOf(e, v);
    ValuePart(e, end, v);
    TagPart(e, end - 8, v, memory);
    hide Varint;
    hide Decode32;
    hide Version.Encoding;
    hide WellFormed;
    hide TypeByte;
    hide GetLengthPrefixedSlice;
    var length := GetVarint32Ptr(e, false);
    var p := length.value.length + length.value.value;
    assert ValueAt(e, p, v) && TypeAt(e + memory, p - 8, v);
    r := Switch(TypeByte((e + memory)[p - 8..]), GetLengthPrefixedSlice(e[p..]));
  }

  class Memtable {
    const user: (Bytes, Bytes) -> int
    const table: SkipList<Entry>
    /** What was added, in the order of the table. */
    ghost var versions: seq<Version>

    ghost predicate Valid()
      reads this, table, table.Repr
    {
      && table.Valid() && this !in table.Repr
      && TotalOrder(user) && table.compare == EntryOrder(user)
      && Mirrors(table.keys, versions)
    }

    ghost function Versions(): set<Version>
      reads this
    {
      Members(versions)
    }

    constructor (user: (Bytes, Bytes) -> int)
      requires TotalOrder(user)
      ensures Valid() && fresh(table) && fresh(table.Repr)
      ensures this.user == user && Versions() == {}
    {
      hide TotalOrder;
      hide EntryOrder;
      hide SkipList.Valid;
      hide HeaderKey;
      hide WellFormed;
      this.user := user;
      var list := NewTable(user);
      table := list;
      versions := [];
    }

    /** No version equal in user key, sequence number and type is in the table. */
    ghost predicate Absent(v: Version)
      reads this
    {
      NoneEqual(user, versions, v)
    }

    /** Adds one version; whatever else is in the table stays. */
    method Add(seqno: nat, kind: ValueType, userKey: Bytes, value: Bytes)
      requires Valid()
      requires Version(userKey, seqno, kind, value).Fits() && Absent(Version(userKey, seqno, kind, value))
      modifies this, table.Repr
      ensures Valid() && fresh(table.Repr - old(table.Repr))
      ensures Versions() == old(Versions()) + {Version(userKey, seqno, kind, value)}
    {
      var v := Version(userKey, seqno, kind, value);
      hide TotalOrder;
      hide EntryOrder;
      hide SkipList.Valid;
      hide Version.Encoding;
      hide NoneEqual;
      hide Mirrors;
      var buf := EncodeEntry(v);
      versions := InsertEntry(user, table, versions, v, buf);
    }

    /** The entry for the key that is visible at its sequence number and newest, if there is one. */
    method FindEntry(key: LookupKey) returns (found: Option<Entry>, ghost hit: Option<Version>)
      requires Valid() && key.Valid()
      ensures LooksUp(user, Versions(), key.key, key.seqno, hit)
      ensures found.Some? <==> hit.Some?
      ensures found.Some? ==> hit.value.Fits() && found.value == hit.value.Encoding()
    {
      hide TotalOrder;
      hide EntryOrder;
      hide SkipList.Valid;
      hide LookupKey.Valid;
      hide LooksUp;
      hide Mirrors;
      hide Version.Encoding;
      found, hit := FindIn(user, table, versions, key);
    }

    /** Get as written; memory is what follows the entry. */
    method Get(key: LookupKey, memory: Bytes) returns (r: Result, ghost hit: Option<Version>)
      requires Valid() && key.Valid() && |memory| >= 8
      ensures LooksUp(user, Versions(), key.key, key.seqno, hit)
      ensures r == Misread(hit)
    {
      hide SkipList.Valid;
      hide LookupKey.Valid;
      hide LooksUp;
      hide Version.Encoding;
      var found: Option<Entry>;
      found, hit := FindEntry(key);
      match found
      case None => r := Missing;
      case Some(e) => r := ReadAsWritten(e, memory, hit.value);
    }

    /** Get with the tag read where Add puts it. */
    method GetAsMeant(key: LookupKey, memory: Bytes) returns (r: Result, ghost hit: Option<Version>)
      requires Valid() && key.Valid()
      ensures LooksUp(user, Versions(), key.key, key.seqno, hit)
      ensures r == Answer(hit)
    {
      hide SkipList.Valid;
      hide LookupKey.Valid;
      hide LooksUp;
      hide Version.Encoding;
      var found: Option<Entry>;
      found, hit := FindEntry(key);
      match found
      case None => r := Missing;
      case Some(e) => r := ReadAsMeant(e, memory, hit.value);
    }
  }

  // ---------- whole runs ----------

  /** No two additions agree in user key, sequence number and type. */
  ghost predicate Distinct(user: (Bytes, Bytes) -> int, adds: seq<Version>) {
    forall i :: 0 <= i < |adds| ==> adds[i].Fits() && NoneEqual(user, adds[..i], adds[i])
  }

  lemma NoneEqualAmong(user: (Bytes, Bytes) -> int, a: seq<Version>, b: seq<Version>, v: Version)
    requires Members(a) == Members(b) && NoneEqual(user, a, v)
    ensures NoneEqual(user, b, v)
  {
    forall i | 0 <= i < |b|
      ensures var w := b[i]; !(user(w.key, v.key) == 0 && w.seqno == v.seqno && w.kind == v.kind)
    {
      assert b[i] in Members(b);
      assert b[i] in a;
    }
  }

  lemma MembersMore(s: seq<Version>, n: nat)
    requires n < |s|
    ensures Members(s[..n + 1]) == Members(s[..n]) + {s[n]}
  {
    assert s[..n + 1] == s[..n] + [s[n]];
  }

  /** A table that any run of distinct additions leads to holds exactly the versions added. */
  method Run(user: (Bytes, Bytes) -> int, adds: seq<Version>) returns (m: Memtable)
    requires TotalOrder(user) && Distinct(user, adds)
    ensures fresh(m) && m.Valid() && m.user == user && m.Versions() == Members(adds)
  {
    hide TotalOrder;
    m := new Memtable(user);
    assert adds[..0] == [];
    for n := 0 to |adds|
      invariant fresh(m) && fresh(m.table.Repr) && m.Valid() && m.user == user
      invariant m.Versions() == Members(adds[..n])
    {
      var v := adds[n];
      assert v.Fits() && NoneEqual(user, adds[..n], v);
      hide Memtable.Valid;
      NoneEqualAmong(user, adds[..n], m.versions, v);
      MembersMore(adds, n);
      m.Add(v.seqno, v.kind, v.key, v.value);
    }
    assert adds[..|adds|] == adds;
  }

  /**
   The multi-version map: after any run, with the tag packed in full and read where it is, a
   look-up for k at s returns what the newest version of k says that is no later than s.
   */
  method RunThenGetAsMeant(user: (Bytes, Bytes) -> int, adds: seq<Version>, k: Bytes, s: nat, memory: Bytes)
    returns (r: Result, ghost hit: Option<Version>)
    requires TotalOrder(user) && Distinct(user, adds)
    requires |k| + 8 < TWO_32 && s <= MAX_SEQUENCE
    ensures LooksUp(user, Members(adds), k, s, hit) && r == Answer(hit)
    ensures forall h :: LooksUp(user, Members(adds), k, s, h) ==> r == Answer(h)
  {
    hide TotalOrder;
    hide LooksUp;
    hide LookupKey.Valid;
    var m := Run(user, adds);
    var key := new LookupKey.AsMeant(k, s);
    r, hit := m.GetAsMeant(key, memory);
    forall h | LooksUp(user, Members(adds), k, s, h)
      ensures h == hit
    {
      LooksUpOne(user, Members(adds), k, s, h, hit);
    }
  }

  /** The same through the code as written, packer and tag offset alike. */
  method RunThenGet(user: (Bytes, Bytes) -> int, adds: seq<Version>, k: Bytes, s: nat, memory: Bytes)
    returns (r: Result, ghost hit: Option<Version>)
    requires TotalOrder(user) && Distinct(user, adds)
    requires |k| + 8 < TWO_32 && s <= MAX_SEQUENCE && |memory| >= 8
    ensures LooksUp(user, Members(adds), k, Effective(s), hit) && r == Misread(hit)
    ensures forall h :: LooksUp(user, Members(adds), k, Effective(s), h) ==> r == Misread(h)
  {
    hide TotalOrder;
    hide LooksUp;
    hide LookupKey.Valid;
    hide Effective;
    var m := Run(user, adds);
    var key := new LookupKey(k, s);
    r, hit := m.Get(key, memory);
    forall h | LooksUp(user, Members(adds), k, Effective(s), h)
      ensures h == hit
    {
      LooksUpOne(user, Members(adds), k, Effective(s), h, hit);
    }
  }

  // ---------- when the code answers as it should ----------

  /** Reading the length of the value for the type gives the answer for the same version in three cases only. */
  predicate ReadsRight(hit: Option<Version>) {
    hit.None? || |hit.value.value| == if hit.value.kind.Value? then 1 else 0
  }

  /** The version found, g, reads as the answer for the one that should have been found, h. */
  predicate ReadsAs(g: Option<Version>, h: Option<Version>) {
    match h
    case None => g.None? || |g.value.value| >= 2
    case Some(v) =>
      && g.Some?
      && if v.kind.Value? then |g.value.value| == 1 && g.value.value == v.value else |g.value.value| == 0
  }

  /**
   Get as written at s finds g, the look-up at the sequence number its tag stands for, where
   h is the look-up at s. It returns the right answer if and only if g reads as h; and for s
   among the first and the last 2^23, where both are the same, if and only if nothing is
   found, a value has one byte, or a deletion carries no value.
   */
  lemma GetIsRight(user: (Bytes, Bytes) -> int, versions: set<Version>, k: Bytes, s: nat, g: Option<Version>, h: Option<Version>)
    requires s <= MAX_SEQUENCE
    requires LooksUp(user, versions, k, Effective(s), g) && LooksUp(user, versions, k, s, h)
    ensures Misread(g) == Answer(h) <==> ReadsAs(g, h)
    ensures InPackedRange(s) ==> g == h && (Misread(g) == Answer(h) <==> ReadsRight(h))
  {
    EffectiveIsExact(s);
    if Effective(s) == s { LooksUpOne(user, versions, k, s, g, h); }
    hide LooksUp;
  }

  /** What a table of one version answers, at any sequence number. */
  function OnlyOne(v: Version, s: nat): Option<Version> {
    if v.seqno <= s then Some(v) else None
  }

  lemma LooksUpOnlyOne(user: (Bytes, Bytes) -> int, v: Version, s: nat)
    requires TotalOrder(user)
    ensures LooksUp(user, {v}, v.key, s, OnlyOne(v, s))
  {
    assert user(v.key, v.key) == 0 && v in {v};
  }

  /** Every value has one byte and nothing is deleted: all that reading the wrong byte gets right. */
  predicate OneByteValues(versions: set<Version>) {
    forall v <- versions :: v.kind.Value? && |v.value| == 1
  }

  /** The code answers right in all such tables. */
  ghost predicate RightAt(user: (Bytes, Bytes) -> int, k: Bytes, s: nat)
    requires s <= MAX_SEQUENCE
  {
    forall versions, g, h ::
      OneByteValues(versions) && LooksUp(user, versions, k, Effective(s), g) && LooksUp(user, versions, k, s, h)
      ==> Misread(g) == Answer(h)
  }

  /** The packer alone makes it fail: even then it is right at s exactly for the first and the last 2^23 sequence numbers. */
  lemma OneByteValuesAreRight(user: (Bytes, Bytes) -> int, k: Bytes, s: nat)
    requires TotalOrder(user) && s <= MAX_SEQUENCE
    ensures RightAt(user, k, s) <==> InPackedRange(s)
  {
    EffectiveIsExact(s);
    var e := Effective(s);
    if e == s {
      forall versions, g, h |
        OneByteValues(versions) && LooksUp(user, versions, k, s, g) && LooksUp(user, versions, k, s, h)
        ensures Misread(g) == Answer(h)
      {
        LooksUpOne(user, versions, k, s, g, h);
      }
    } else {
      var v := Version(k, if e < s then s else e, Value, [0]);
      LooksUpOnlyOne(user, v, s);
      LooksUpOnlyOne(user, v, e);
      assert OneByteValues({v}) && Misread(OnlyOne(v, e)) != Answer(OnlyOne(v, s));
    }
  }

  /**
   Look-ups at the sequence number the packed tag stands for are look-ups at the one asked for
   exactly when that is among the first or the last 2^23.
   */
  lemma SequenceIsRight(user: (Bytes, Bytes) -> int, k: Bytes, s: nat)
    requires TotalOrder(user) && s <= MAX_SEQUENCE
    ensures (forall versions, hit :: LooksUp(user, versions, k, Effective(s), hit) <==> LooksUp(user, versions, k, s, hit))
            <==> InPackedRange(s)
  {
    EffectiveIsExact(s);
    var e := Effective(s);
    if e != s {
      var v := Version(k, if e < s then s else e, Value, []);
      LooksUpOnlyOne(user, v, v.seqno);
      assert v in {v} && user(k, k) == 0;
      assert !LooksUp(user, {v}, k, if e < s then e else s, Some(v));
    }
  }

  /** One Add and one Get, as written. */
  method AddThenGet(user: (Bytes, Bytes) -> int, v: Version, s: nat, memory: Bytes) returns (r: Result)
    requires TotalOrder(user) && v.Fits() && s <= MAX_SEQUENCE && |memory| >= 8
    ensures r == Misread(OnlyOne(v, Effective(s)))
  {
    LooksUpOnlyOne(user, v, Effective(s));
    ghost var hit;
    var adds := [v];
    assert adds[..0] == [] && Members(adds) == {v};
    r, hit := RunThenGet(user, adds, v.key, s, memory);
    LooksUpOne(user, {v}, v.key, Effective(s), hit, OnlyOne(v, Effective(s)));
  }

  /**
   Wrong answers, for any comparator and whatever follows the entries: a two-byte value is not
   found, an empty one reads as deleted, a deletion with a one-byte value reads as that value,
   and a look-up at 2^23 finds what was added after it.
   */
  method WrongAnswers(user: (Bytes, Bytes) -> int, memory: Bytes) returns (a: Result, b: Result, c: Result, d: Result)
    requires TotalOrder(user) && |memory| >= 8
    ensures a == Missing && Answer(OnlyOne(Version([97], 1, Value, [98, 99]), 1)) == Found([98, 99])
    ensures b == NotFound && Answer(OnlyOne(Version([97], 1, Value, []), 1)) == Found([])
    ensures c == Found([98]) && Answer(OnlyOne(Version([97], 1, Delete, [98]), 1)) == NotFound
    ensures d == Found([98]) && Answer(OnlyOne(Version([97], 0x80_0001, Value, [98]), 0x80_0000)) == Missing
  {
    EffectiveIsExact(1);
    FirstWrongSequence();
    hide TotalOrder;
    hide Effective;
    a := AddThenGet(user, Version([97], 1, Value, [98, 99]), 1, memory);
    b := AddThenGet(user, Version([97], 1, Value, []), 1, memory);
    c := AddThenGet(user, Version([97], 1, Delete, [98]), 1, memory);
    d := AddThenGet(user, Version([97], 0x80_0001, Value, [98]), 0x80_0000, memory);
  }
}
