/** Three-way comparison functions. */
module Order {

  import opened Links

  /** cmp orders all keys; keys that compare equal are interchangeable, but need not be identical. */
  ghost predicate TotalOrder<K(!new)>(cmp: (K, K) -> int) {
    && (forall a :: cmp(a, a) == 0)
    && (forall a, b :: cmp(a, b) < 0 <==> cmp(b, a) > 0)
    && (forall a, b, c :: cmp(a, b) <= 0 && cmp(b, c) <= 0 ==> cmp(a, c) <= 0)
  }

  lemma Transitive<K(!new)>(cmp: (K, K) -> int, a: K, b: K, c: K)
    requires TotalOrder(cmp)
    requires cmp(a, b) <= 0 && cmp(b, c) <= 0
    ensures cmp(a, c) <= 0
    ensures cmp(a, b) < 0 || cmp(b, c) < 0 ==> cmp(a, c) < 0
  {
    if cmp(a, c) == 0 {
      assert cmp(c, a) <= 0;
      assert cmp(c, b) <= 0 && cmp(b, a) <= 0;
    }
  }

  /** keys[from..] is strictly increasing. */
  ghost predicate Increasing<K(!new)>(cmp: (K, K) -> int, keys: seq<K>, from: nat) {
    forall i, j :: from <= i < j < |keys| ==> cmp(keys[i], keys[j]) < 0
  }

  /** The first position at or after from whose key is not below the target. */
  ghost function LowerBound<K(!new)>(cmp: (K, K) -> int, keys: seq<K>, from: nat, target: K): (r: nat)
    requires from <= |keys|
    ensures from <= r <= |keys|
    decreases |keys| - from
  {
    if from == |keys| || cmp(keys[from], target) >= 0 then from else LowerBound(cmp, keys, from + 1, target)
  }

  lemma {:induction false} LowerBoundMeans<K(!new)>(cmp: (K, K) -> int, keys: seq<K>, from: nat, target: K)
    requires from <= |keys|
    ensures var r := LowerBound(cmp, keys, from, target);
            (r < |keys| ==> cmp(keys[r], target) >= 0) && forall i :: from <= i < r ==> cmp(keys[i], target) < 0
    decreases |keys| - from
  {
    if from < |keys| && cmp(keys[from], target) < 0 { LowerBoundMeans(cmp, keys, from + 1, target); }
  }

  /** Everything after the lower bound is not below the target either. */
  lemma AfterLowerBound<K(!new)>(cmp: (K, K) -> int, keys: seq<K>, from: nat, target: K, i: nat)
    requires TotalOrder(cmp) && from <= i < |keys| && Increasing(cmp, keys, from)
    ensures cmp(keys[i], target) < 0 <==> i < LowerBound(cmp, keys, from, target)
  {
    var r := LowerBound(cmp, keys, from, target);
    LowerBoundMeans(cmp, keys, from, target);
    if r < i {
      NotBelow(cmp, keys[r], keys[i], target);
    }
  }

  lemma NotBelow<K(!new)>(cmp: (K, K) -> int, a: K, b: K, target: K)
    requires TotalOrder(cmp)
    requires cmp(a, b) < 0 && cmp(a, target) >= 0
    ensures cmp(b, target) > 0
  {
    assert cmp(target, a) <= 0;
    Transitive(cmp, target, a, b);
  }

  /** A key with no equal put at its lower bound keeps the keys strictly increasing. */
  lemma InsertionKeepsOrder<K(!new)>(cmp: (K, K) -> int, keys: seq<K>, from: nat, key: K)
    requires TotalOrder(cmp) && from <= |keys| && Increasing(cmp, keys, from)
    requires var r := LowerBound(cmp, keys, from, key); r < |keys| ==> cmp(keys[r], key) != 0
    ensures Increasing(cmp, Inserted(keys, LowerBound(cmp, keys, from, key), key), from)
  {
    var r := LowerBound(cmp, keys, from, key);
    var after := Inserted(keys, r, key);
    forall i | from <= i < |keys|
      ensures if i < r then cmp(keys[i], key) < 0 else cmp(key, keys[i]) < 0
    {
      LowerBoundMeans(cmp, keys, from, key);
      if r < i { NotBelow(cmp, keys[r], keys[i], key); }
    }
    forall i, j | from <= i < j < |after|
      ensures cmp(after[i], after[j]) < 0
    {
      var a, b := if i < r then i else i - 1, if j < r then j else j - 1;
      assert i != r ==> after[i] == keys[a];
      assert j != r ==> after[j] == keys[b];
    }
  }

  lemma LowerBoundUnique<K(!new)>(cmp: (K, K) -> int, keys: seq<K>, from: nat, target: K, r: nat)
    requires from <= r <= |keys|
    requires r < |keys| ==> cmp(keys[r], target) >= 0
    requires forall i :: from <= i < r ==> cmp(keys[i], target) < 0
    ensures LowerBound(cmp, keys, from, target) == r
  {
    LowerBoundMeans(cmp, keys, from, target);
  }

  /** An inserted key is at its own lower bound. */
  lemma InsertedRank<K(!new)>(cmp: (K, K) -> int, keys: seq<K>, from: nat, key: K)
    requires TotalOrder(cmp) && from <= |keys|
    ensures var r := LowerBound(cmp, keys, from, key); LowerBound(cmp, Inserted(keys, r, key), from, key) == r
  {
    var r := LowerBound(cmp, keys, from, key);
    LowerBoundMeans(cmp, keys, from, key);
    LowerBoundUnique(cmp, Inserted(keys, r, key), from, key, r);
  }
}
