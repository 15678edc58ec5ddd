/** Byte strings in unsigned lexicographic order, and keys shortened within it. */
module Comparator {

  import opened Fixed
  import opened Order

  // ---------- the order ----------

  function Lex(a: Bytes, b: Bytes): int {
    if a == [] then if b == [] then 0 else -1
    else if b == [] then 1
    else if a[0] < b[0] then -1
    else if a[0] > b[0] then 1
    else Lex(a[1..], b[1..])
  }

  lemma {:induction false} LexEqual(a: Bytes, b: Bytes)
    ensures Lex(a, b) == 0 <==> a == b
  {
    if a != [] && b != [] && a[0] == b[0] {
      LexEqual(a[1..], b[1..]);
      assert a == [a[0]] + a[1..] && b == [b[0]] + b[1..];
    }
  }

  lemma {:induction false} LexFlips(a: Bytes, b: Bytes)
    ensures Lex(a, b) == -Lex(b, a)
  {
    if a != [] && b != [] && a[0] == b[0] { LexFlips(a[1..], b[1..]); }
  }

  lemma {:induction false} LexTransitive(a: Bytes, b: Bytes, c: Bytes)
    requires Lex(a, b) <= 0 && Lex(b, c) <= 0
    ensures Lex(a, c) <= 0
  {
    if a != [] && b != [] && c != [] && a[0] == b[0] == c[0] { LexTransitive(a[1..], b[1..], c[1..]); }
  }

  /** It is a total order, so it may serve as the user's comparator. */
  lemma LexIsTotal()
    ensures TotalOrder(Lex)
  {
    forall a, b
      ensures Lex(a, b) == -Lex(b, a) && Lex(a, a) == 0
    {
      LexFlips(a, b);
      LexEqual(a, a);
    }
    forall a, b, c | Lex(a, b) <= 0 && Lex(b, c) <= 0
      ensures Lex(a, c) <= 0
    {
      LexTransitive(a, b, c);
    }
  }

  /** A common beginning does not count. */
  lemma {:induction false} LexPrefix(p: Bytes, a: Bytes, b: Bytes)
    ensures Lex(p + a, p + b) == Lex(a, b)
  {
    if p == [] {
      assert p + a == a && p + b == b;
    } else {
      assert (p + a)[1..] == p[1..] + a && (p + b)[1..] == p[1..] + b;
      LexPrefix(p[1..], a, b);
    }
  }

  // ---------- comparing slices ----------

  /** The sign of the first difference among the first n bytes. */
  function Memcmp(a: Bytes, b: Bytes, n: nat): int
    requires n <= |a| && n <= |b|
  {
    if n == 0 then 0
    else if a[0] < b[0] then -1
    else if a[0] > b[0] then 1
    else Memcmp(a[1..], b[1..], n - 1)
  }

  /** Slice's compare as written: of two slices that agree as far as both go, the longer is greater, and otherwise the first is less. */
  function SliceCompare(a: Bytes, b: Bytes): int {
    var len := if |b| < |a| then |b| else |a|;
    var ret := Memcmp(a, b, len);
    if ret == 0 then if |a| > |b| then 1 else -1 else ret
  }

  lemma {:induction false} MemcmpIsLex(a: Bytes, b: Bytes, n: nat)
    requires n == if |b| < |a| then |b| else |a|
    ensures Memcmp(a, b, n) != 0 ==> Memcmp(a, b, n) == Lex(a, b)
    ensures Memcmp(a, b, n) == 0 ==> Lex(a, b) == if |a| > |b| then 1 else if |a| < |b| then -1 else 0
  {
    if n > 0 && a[0] == b[0] { MemcmpIsLex(a[1..], b[1..], n - 1); }
  }

  /** It is the lexicographic order of exactly the slices that differ: equal ones never compare equal. */
  lemma SliceCompareIsLex(a: Bytes, b: Bytes)
    ensures SliceCompare(a, b) == Lex(a, b) <==> a != b
    ensures a == b ==> SliceCompare(a, b) == -1
  {
    MemcmpIsLex(a, b, if |b| < |a| then |b| else |a|);
    LexEqual(a, b);
  }

  /** So it is no order at all: the empty slice is less than itself. */
  lemma SliceCompareIsNoOrder()
    ensures SliceCompare([], []) == -1 && !TotalOrder(SliceCompare)
  {
    assert SliceCompare([], []) == -1;
  }

  // ---------- shortening ----------

  /** Where two strings, equal so far, differ, the smaller byte decides. */
  lemma FirstDifference(p: Bytes, x: byte, a: Bytes, y: byte, b: Bytes)
    requires x < y
    ensures Lex(p + [x] + a, p + [y] + b) == -1
  {
    LexPrefix(p, [x] + a, [y] + b);
    assert p + [x] + a == p + ([x] + a) && p + [y] + b == p + ([y] + b);
  }

  lemma SplitAt(s: Bytes, i: nat)
    requires i < |s|
    ensures s == s[..i] + [s[i]] + s[i + 1..]
  {}

  /** The strings first differ at i, and there is a byte between theirs. */
  predicate Room(start: Bytes, limit: Bytes, i: nat) {
    && i < |start| && i < |limit| && start[..i] == limit[..i]
    && start[i] < 0xff && start[i] + 1 < limit[i]
  }

  ghost predicate Separated(start: Bytes, limit: Bytes, r: Bytes) {
    || (exists i: nat :: Room(start, limit, i) && r == start[..i] + [start[i] + 1])
    || ((forall i: nat :: !Room(start, limit, i)) && r == start)
  }

  lemma Agree<T>(a: seq<T>, b: seq<T>, n: nat, k: nat)
    requires n <= |a| && n <= |b| && a[..n] == b[..n]
    ensures k < n ==> a[k] == b[k]
  {
    if k < n { assert a[k] == a[..n][k] && b[k] == b[..n][k]; }
  }

  /** The strings agree up to index and no further. */
  predicate CommonUpTo(start: Bytes, limit: Bytes, index: nat) {
    && index <= |start| && index <= |limit| && start[..index] == limit[..index]
    && (index < |start| && index < |limit| ==> start[index] != limit[index])
  }

  /** Room can only be at the end of the common beginning. */
  lemma NoRoom(start: Bytes, limit: Bytes, index: nat)
    requires CommonUpTo(start, limit, index) && !Room(start, limit, index)
    ensures Separated(start, limit, start)
  {
    forall i: nat
      ensures !Room(start, limit, i)
    {
      if Room(start, limit, i) {
        Agree(start, limit, index, i);
        Agree(start, limit, i, index);
      }
    }
  }

  lemma CutBehind(start: Bytes, limit: Bytes, i: nat)
    requires Room(start, limit, i)
    ensures var r := start[..i] + [start[i] + 1];
            |r| <= |start| && Lex(start, r) == -1 && Lex(r, limit) == -1 && Separated(start, limit, r)
  {
    SplitAt(start, i);
    SplitAt(limit, i);
    FirstDifference(start[..i], start[i], start[i + 1..], start[i] + 1, []);
    FirstDifference(start[..i], start[i] + 1, [], limit[i], limit[i + 1..]);
    var r := start[..i] + [start[i] + 1];
    assert r + [] == r;
  }

  /** Something between start and limit: cut behind their first difference if that leaves room, else start itself. */
  method FindShortestSeparator(start: Bytes, limit: Bytes) returns (r: Bytes)
    ensures |r| <= |start| && Lex(start, r) <= 0
    ensures Lex(start, limit) < 0 ==> Lex(r, limit) < 0
    ensures Separated(start, limit, r)
  {
    var minLen := if |start| < |limit| then |start| else |limit|;
    var index := 0;
    while index != minLen && start[index] == limit[index]
      invariant 0 <= index <= minLen
      invariant start[..index] == limit[..index]
      decreases minLen - index
    {
      index := index + 1;
    }
    hide Lex;
    hide Separated;
    LexEqual(start, start);
    if index < minLen {
      var diffByte := start[index];
      if diffByte < 0xff && diffByte + 1 < limit[index] {
        CutBehind(start, limit, index);
        return start[..index] + [diffByte + 1];
      }
    }
    NoRoom(start, limit, index);
    r := start;
  }

  /** All bytes are 0xff. */
  predicate Full(s: Bytes) {
    forall i :: 0 <= i < |s| ==> s[i] == 0xff
  }

  /** The first byte that is not 0xff is at i. */
  predicate FirstLow(key: Bytes, i: nat) {
    i < |key| && Full(key[..i]) && key[i] != 0xff
  }

  lemma FullAt(s: Bytes, n: nat, k: nat)
    requires n <= |s| && Full(s[..n])
    ensures k < n ==> s[k] == 0xff
  {
    if k < n { assert s[k] == s[..n][k]; }
  }

  lemma OneFirstLow(key: Bytes, i: nat)
    requires FirstLow(key, i)
    ensures !Full(key) && forall j: nat :: FirstLow(key, j) ==> j == i
  {
    forall j: nat
      ensures FirstLow(key, j) ==> j == i
    {
      if FirstLow(key, j) {
        FullAt(key, i, j);
        FullAt(key, j, i);
      }
    }
  }

  /** A string with nothing but 0xff before some point: whatever is not below it reaches that point, and further if the string does. */
  lemma {:induction false} FullIsHigh(s: Bytes, n: nat, t: Bytes)
    requires n <= |s| && Full(s[..n]) && Lex(s, t) <= 0
    ensures |t| >= n && (|s| > n ==> |t| > n)
  {
    if n > 0 && t != [] {
      assert s[0] == s[..n][0] == 0xff;
      assert s[1..][..n - 1] == s[..n][1..];
      FullIsHigh(s[1..], n - 1, t[1..]);
    }
  }

  /** A string not below the key, and no string not below the key is shorter. */
  method FindShortSuccessor(key: Bytes) returns (r: Bytes)
    ensures Lex(key, r) <= 0 && (r == key <==> Full(key))
    ensures forall i: nat :: FirstLow(key, i) ==> r == key[..i] + [key[i] + 1]
    ensures forall t :: Lex(key, t) <= 0 ==> |t| >= |r|
  {
    var n := |key|;
    for i := 0 to n
      invariant Full(key[..i])
    {
      var b := key[i];
      if b != 0xff {
        r := key[..i] + [b + 1];
        SplitAt(key, i);
        FirstDifference(key[..i], b, key[i + 1..], b + 1, []);
        assert key[..i] + [b + 1] + [] == r;
        Shortest(key, i, r);
        OneFirstLow(key, i);
        LexEqual(key, r);
        return;
      }
    }
    LexEqual(key, key);
    assert key[..n] == key;
    forall t | Lex(key, t) <= 0
      ensures |t| >= |key|
    {
      FullIsHigh(key, n, t);
    }
    r := key;
  }

  lemma Shortest(key: Bytes, i: nat, r: Bytes)
    requires i < |key| && Full(key[..i]) && |r| == i + 1
    ensures forall t :: Lex(key, t) <= 0 ==> |t| >= |r|
  {
    forall t | Lex(key, t) <= 0
      ensures |t| >= |r|
    {
      FullIsHigh(key, i, t);
    }
  }
}
