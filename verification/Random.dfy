/**
 The Park-Miller "minimal standard" generator: seed' = seed * 16807 mod 2^31 - 1,
 computed without a division.
 */
module Random {

  const M: nat := 0x7fff_ffff
  const A: nat := 16807

  /** A^-1 mod M: 16807 * 1407677000 == 11017 * M + 1. */
  const A_INVERSE: nat := 1407677000

  /** The seeds from which the generator never degenerates. */
  predicate IsSeed(s: int) {
    1 <= s < M
  }

  lemma SmallMultiple(k: int, m: int)
    requires -m < k * m < m
    ensures k == 0
  {
    if k >= 1 { AtLeastOne(k, m); }
    if k <= -1 { AtLeastOne(-k, m); }
  }

  lemma AtLeastOne(k: int, m: int)
    requires k >= 1 && m > 0
    ensures k * m >= m
  {
    assert (k - 1) * m >= 0;
  }

  lemma ModUnique(x: int, q: int, r: int, m: int)
    requires m > 0 && x == q * m + r && 0 <= r < m
    ensures x % m == r
  {
    var d := x / m;
    assert x == d * m + x % m;
    assert (d - q) * m == r - x % m;
    SmallMultiple(d - q, m);
  }

  /** M divides no multiple A * s of a seed: multiplication by A can be undone. */
  lemma Undo(s: nat, q: int, r: int)
    requires s < M && A * s == q * M + r
    ensures (A_INVERSE * r) % M == s
  {
    // A_INVERSE * r == A_INVERSE * A * s - A_INVERSE * q * M == s + (11017 * s - A_INVERSE * q) * M
    assert A_INVERSE * A == 11017 * M + 1;
    assert A_INVERSE * r == (11017 * s - A_INVERSE * q) * M + s;
    ModUnique(A_INVERSE * r, 11017 * s - A_INVERSE * q, s, M);
  }

  /** The specification of one step. */
  function Successor(s: nat): nat {
    (s * A) % M
  }

  /** The state after n steps. */
  function After(s: nat, n: nat): nat {
    if n == 0 then s else Successor(After(s, n - 1))
  }

  lemma SuccessorIsSeed(s: nat)
    requires IsSeed(s)
    ensures IsSeed(Successor(s))
  {
    var q := (s * A) / M;
    if Successor(s) == 0 {
      Undo(s, q, 0);
    }
  }

  /** No two seeds merge. */
  lemma SuccessorInjective(s: nat, t: nat)
    requires IsSeed(s) && IsSeed(t)
    requires Successor(s) == Successor(t)
    ensures s == t
  {
    Undo(s, (s * A) / M, Successor(s));
    Undo(t, (t * A) / M, Successor(t));
  }

  class Random {
    var seed: nat

    ghost predicate Valid()
      reads this
    {
      IsSeed(seed)
    }

    /** s is a 32-bit number; masking with 2^31 - 1 keeps its low 31 bits. */
    constructor (s: nat)
      requires s < 0x1_0000_0000
      ensures Valid()
      ensures var low := s % 0x8000_0000; seed == if 1 <= low < 2147483647 then low else 1
    {
      var low := s % 0x8000_0000;
      seed := if low == 0 || low == M then 1 else low;
    }

    method Next() returns (r: nat)
      requires Valid()
      modifies this
      ensures Valid()
      ensures r == seed == Successor(old(seed)) == old(seed) * 16807 % 2147483647
    {
      var product := seed * A;
      var high, low := product / 0x8000_0000, product % 0x8000_0000;
      Reduce(seed, high, low);
      seed := high + low;
      if seed > M {
        seed := seed - M;
      }
      r := seed;
    }
  }

  /** Adding the high part to the low part is reduction modulo M, up to one subtraction. */
  lemma Reduce(s: nat, high: nat, low: nat)
    requires IsSeed(s)
    requires s * A == high * 0x8000_0000 + low && low < 0x8000_0000
    ensures high + low < 0x1_0000_0000
    ensures high + low != M
    ensures Successor(s) == if high + low > M then high + low - M else high + low
    ensures IsSeed(Successor(s))
  {
    SuccessorIsSeed(s);
    assert high <= A;
    assert s * A == high * M + (high + low);
    if high + low > M {
      ModUnique(s * A, high + 1, high + low - M, M);
    } else if high + low == M {
      ModUnique(s * A, high + 1, 0, M);
      assert false;
    } else {
      ModUnique(s * A, high, high + low, M);
    }
  }
}
