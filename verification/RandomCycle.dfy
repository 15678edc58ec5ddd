/**
 The states of the generator form one cycle: from any seed it comes to every seed, each
 exactly once, before it repeats. 16807 is a primitive root modulo 2^31 - 1.
 */
module RandomCycle {

  import opened Random

  // ---------- powers modulo M ----------

  lemma AddMultiple(a: nat, k: nat)
    ensures (a + k * M) % M == a % M
  {
    ModUnique(a + k * M, k + a / M, a % M, M);
  }

  lemma Spread(q: nat, r: nat, y: nat)
    ensures (q * M + r) * y == r * y + q * y * M
  {}

  /** Reducing a factor does not change the product. */
  lemma ReduceFactor(x: nat, y: nat)
    ensures (x % M) * y % M == x * y % M
  {
    var q, r := x / M, x % M;
    Spread(q, r, y);
    AddMultiple(r * y, q * y);
  }

  /** b^n modulo M. */
  function Pow(b: nat, n: nat): (p: nat)
    ensures p < M
  {
    if n == 0 then 1 else Pow(b, n - 1) * b % M
  }

  lemma Associate(x: nat, y: nat, b: nat)
    ensures x * y * b == (y * b) * x && (y * b % M) * x == x * (y * b % M)
  {}

  lemma {:induction false} PowAdd(b: nat, i: nat, j: nat)
    ensures Pow(b, i + j) == Pow(b, i) * Pow(b, j) % M
  {
    if j > 0 {
      PowAdd(b, i, j - 1);
      PowNext(b, i + (j - 1));
      PowNext(b, j - 1);
      hide Pow;
      AddOne(Pow(b, i), Pow(b, j - 1), b);
    } else {
      assert Pow(b, 0) == 1;
    }
  }

  lemma PowNext(b: nat, n: nat)
    ensures Pow(b, n + 1) == Pow(b, n) * b % M
  {}

  lemma AddOne(x: nat, y: nat, b: nat)
    ensures (x * y % M) * b % M == x * (y * b % M) % M
  {
    ReduceFactor(x * y, b);
    ReduceFactor(y * b, x);
    Associate(x, y, b);
  }

  lemma {:induction false} PowPow(b: nat, m: nat, n: nat)
    ensures Pow(Pow(b, m), n) == Pow(b, m * n)
  {
    if n > 0 {
      PowPow(b, m, n - 1);
      PowAdd(b, m * (n - 1), m);
      assert m * n == m * (n - 1) + m;
    }
  }

  lemma {:induction false} PowOfOne(n: nat)
    ensures Pow(1, n) == 1
  {
    if n > 0 { PowOfOne(n - 1); }
  }

  // ---------- the powers of 16807 that decide ----------

  lemma First(b: nat)
    requires b < M
    ensures Pow(b, 1) == b
  {
    assert Pow(b, 0) == 1;
  }

  lemma Twice(b: nat, n: nat, p: nat, q: nat, r: nat)
    requires Pow(b, n) == p && p * p == q * M + r && r < M
    ensures Pow(b, 2 * n) == r
  {
    hide Pow;
    PowAdd(b, n, n);
    ModUnique(p * p, q, r, M);
  }

  lemma TwiceMore(b: nat, n: nat, p: nat, q: nat, r: nat)
    requires Pow(b, n) == p && p * p * b == q * M + r && r < M
    ensures Pow(b, 2 * n + 1) == r
  {
    PowAdd(b, n, n);
    assert Pow(b, 2 * n + 1) == Pow(b, 2 * n) * b % M;
    hide Pow;
    ReduceFactor(p * p, b);
    ModUnique(p * p * b, q, r, M);
  }

  // M - 1 == 1386 * 1549411 == (2 * 3 * 3 * 7 * 11) * (31 * 151 * 331).

  lemma Small()
    ensures Pow(16807, 1386) == 1179617774
  {
    hide Pow;
    First(16807);
    Twice(16807, 1, 16807, 0, 282475249);
    TwiceMore(16807, 2, 282475249, 624483740091, 1144108930);
    Twice(16807, 5, 1144108930, 609543753, 2007237709);
    TwiceMore(16807, 10, 2007237709, 31532466950512, 896544303);
    TwiceMore(16807, 21, 896544303, 6290770552010, 1551901393);
    Twice(16807, 43, 1551901393, 1121497682, 1351934195);
    TwiceMore(16807, 86, 1351934195, 14304459110196, 197941363);
    Twice(16807, 173, 197941363, 18244973, 2028841238);
    TwiceMore(16807, 346, 2028841238, 32214875858721, 2096192221);
    Twice(16807, 693, 2096192221, 2046125861, 1179617774);
  }

  lemma Large()
    ensures Pow(16807, 1549411) == 942143378
  {
    hide Pow;
    First(16807);
    Twice(16807, 1, 16807, 0, 282475249);
    TwiceMore(16807, 2, 282475249, 624483740091, 1144108930);
    TwiceMore(16807, 5, 1144108930, 10244601872380, 823564440);
    TwiceMore(16807, 11, 823564440, 5308300588653, 1264817709);
    TwiceMore(16807, 23, 1264817709, 12520342516237, 1356425228);
    Twice(16807, 47, 1356425228, 856765266, 1102246882);
    TwiceMore(16807, 94, 1102246882, 9508633157235, 537140623);
    Twice(16807, 189, 537140623, 134352617, 937673930);
    Twice(16807, 378, 937673930, 409424490, 2045329870);
    TwiceMore(16807, 756, 2045329870, 32740631843078, 1168292834);
    Twice(16807, 1513, 1168292834, 635584884, 1305359608);
    Twice(16807, 3026, 1305359608, 793469933, 694228013);
    Twice(16807, 6052, 694228013, 224426637, 1125223030);
    TwiceMore(16807, 12104, 1125223030, 9909176392318, 1334362554);
    TwiceMore(16807, 24209, 1334362554, 13935033803156, 1263819280);
    Twice(16807, 48419, 1263819280, 743772449, 1183076897);
    Twice(16807, 96838, 1183076897, 651772573, 2134534878);
    Twice(16807, 193676, 2134534878, 2121664186, 1537908542);
    TwiceMore(16807, 387352, 1537908542, 18510636520127, 1481932379);
    TwiceMore(16807, 774705, 1481932379, 17187674044547, 942143378);
  }

  lemma LargeOver2()
    ensures Pow(942143378, 693) == 2147483646
  {
    hide Pow;
    First(942143378);
    Twice(942143378, 1, 942143378, 413336858, 1451889758);
    TwiceMore(942143378, 2, 1451889758, 924814047476737769, 790745649);
    Twice(942143378, 5, 790745649, 291168075, 1821461676);
    TwiceMore(942143378, 10, 1821461676, 1455550274846431035, 1343336283);
    TwiceMore(942143378, 21, 1343336283, 791692671231244011, 2138340525);
    Twice(942143378, 43, 2138340525, 2129236330, 1583980115);
    TwiceMore(942143378, 86, 1583980115, 1100744654397337696, 1970716738);
    Twice(942143378, 173, 1970716738, 1808500133, 218535593);
    TwiceMore(942143378, 346, 218535593, 20952289986322508, 2147483646);
  }

  lemma LargeOver3()
    ensures Pow(942143378, 462) == 634005911
  {
    hide Pow;
    First(942143378);
    TwiceMore(942143378, 1, 942143378, 389422584284998960, 1689239032);
    TwiceMore(942143378, 3, 1689239032, 1251899166160744109, 1461621549);
    Twice(942143378, 7, 1461621549, 994809695, 611601736);
    Twice(942143378, 14, 611601736, 174183716, 1794521444);
    TwiceMore(942143378, 28, 1794521444, 1412812209335919645, 1492364093);
    TwiceMore(942143378, 57, 1492364093, 977094833486316032, 1892259618);
    TwiceMore(942143378, 115, 1892259618, 1570900135963148880, 634005912);
    Twice(942143378, 231, 634005912, 187178839, 634005911);
  }

  lemma LargeOver7()
    ensures Pow(942143378, 198) == 1600955193
  {
    hide Pow;
    First(942143378);
    TwiceMore(942143378, 1, 942143378, 389422584284998960, 1689239032);
    Twice(942143378, 3, 1689239032, 1328777758, 1429973598);
    Twice(942143378, 6, 1429973598, 952195605, 494294169);
    Twice(942143378, 12, 494294169, 113773497, 1237897002);
    TwiceMore(942143378, 24, 1237897002, 672289234503461791, 693005735);
    TwiceMore(942143378, 49, 693005735, 210698183722466991, 394883873);
    Twice(942143378, 99, 394883873, 72612088, 1600955193);
  }

  lemma LargeOver11()
    ensures Pow(942143378, 126) == 298192073
  {
    hide Pow;
    First(942143378);
    TwiceMore(942143378, 1, 942143378, 389422584284998960, 1689239032);
    TwiceMore(942143378, 3, 1689239032, 1251899166160744109, 1461621549);
    TwiceMore(942143378, 7, 1461621549, 937253366782771439, 383438545);
    TwiceMore(942143378, 15, 383438545, 64502815339546182, 107324696);
    TwiceMore(942143378, 31, 107324696, 5053432494145618, 1819912402);
    Twice(942143378, 63, 1819912402, 1542307973, 298192073);
  }

  lemma SmallOver31()
    ensures Pow(1179617774, 49981) == 16384
  {
    hide Pow;
    First(1179617774);
    TwiceMore(1179617774, 1, 1179617774, 764353146517501469, 2047383381);
    Twice(1179617774, 3, 2047383381, 1951949070, 1193132871);
    Twice(1179617774, 6, 1193132871, 662899598, 1552828735);
    Twice(1179617774, 12, 1552828735, 1122838389, 1640375542);
    Twice(1179617774, 24, 1640375542, 1253016255, 1754111779);
    TwiceMore(1179617774, 48, 1754111779, 1690152811170250677, 1303424915);
    TwiceMore(1179617774, 97, 1303424915, 933218799318227427, 67530881);
    Twice(1179617774, 195, 67530881, 2123610, 2141030491);
    Twice(1179617774, 390, 2141030491, 2134596726, 1366961359);
    TwiceMore(1179617774, 780, 1366961359, 1026417194466653543, 901671573);
    TwiceMore(1179617774, 1561, 901671573, 446589181395911895, 898522581);
    TwiceMore(1179617774, 3123, 898522581, 443475297993248015, 836234509);
    TwiceMore(1179617774, 6247, 836234509, 384120613355315034, 1980344696);
    Twice(1179617774, 12495, 1980344696, 1826214192, 1736014192);
    TwiceMore(1179617774, 24990, 1736014192, 1655457305790870016, 16384);
  }

  lemma SmallOver151()
    ensures Pow(1179617774, 10261) == 1013763951
  {
    hide Pow;
    First(1179617774);
    Twice(1179617774, 1, 1179617774, 647966793, 970181005);
    TwiceMore(1179617774, 2, 970181005, 517031468985918568, 1421726854);
    Twice(1179617774, 5, 1421726854, 941244535, 644118171);
    Twice(1179617774, 10, 644118171, 193197381, 1871656734);
    Twice(1179617774, 20, 1871656734, 1631257558, 77392730);
    Twice(1179617774, 40, 77392730, 2789140, 2117659320);
    Twice(1179617774, 80, 2117659320, 2088249194, 606931882);
    Twice(1179617774, 160, 606931882, 171533929, 1954902861);
    TwiceMore(1179617774, 320, 1954902861, 2099238616022670476, 114989482);
    Twice(1179617774, 641, 114989482, 6157244, 170039456);
    TwiceMore(1179617774, 1282, 170039456, 15882207146149916, 1580662812);
    Twice(1179617774, 2565, 1580662812, 1163452363, 1633739483);
    TwiceMore(1179617774, 5130, 1633739483, 1466145433608067505, 1013763951);
  }

  lemma SmallOver331()
    ensures Pow(1179617774, 4681) == 759513457
  {
    hide Pow;
    First(1179617774);
    Twice(1179617774, 1, 1179617774, 647966793, 970181005);
    Twice(1179617774, 2, 970181005, 438304237, 1094497686);
    TwiceMore(1179617774, 4, 1094497686, 658023096809363883, 1595268003);
    Twice(1179617774, 9, 1595268003, 1185052098, 97566603);
    Twice(1179617774, 18, 97566603, 4432742, 1064589535);
    TwiceMore(1179617774, 36, 1064589535, 622552279628363880, 1513912790);
    Twice(1179617774, 73, 1513912790, 1067263976, 233383628);
    Twice(1179617774, 146, 233383628, 25363600, 1589393184);
    TwiceMore(1179617774, 292, 1589393184, 1387631451439146410, 1546575274);
    Twice(1179617774, 585, 1546575274, 1113812941, 1533699249);
    Twice(1179617774, 1170, 1533699249, 1095344027, 561537532);
    TwiceMore(1179617774, 2340, 561537532, 173208427990712977, 759513457);
  }

  /** b to the power m * n. */
  lemma Compose(b: nat, m: nat, p: nat, n: nat, r: nat)
    requires Pow(b, m) == p && Pow(p, n) == r
    ensures Pow(b, m * n) == r
  {
    hide Pow;
    PowPow(b, m, n);
  }

  /** The prime divisors of M - 1, the multiple one as often as it divides it. */
  function Factors(): seq<nat> {
    [2, 3, 3, 7, 11, 31, 151, 331]
  }

  function Product(s: seq<nat>): nat {
    if s == [] then 1 else s[0] * Product(s[1..])
  }

  /** For no prime divisor q of M - 1 is 16807 to the power (M - 1) / q one. */
  lemma NoEarlyOne(q: nat, n: nat)
    requires q in Factors() && n * q == M - 1
    ensures Pow(A, n) != 1
  {
    hide Pow;
    Small();
    Large();
    if q == 2 {
      LargeOver2();
      Compose(A, 1549411, 942143378, 693, 2147483646);
    } else if q == 3 {
      LargeOver3();
      Compose(A, 1549411, 942143378, 462, 634005911);
    } else if q == 7 {
      LargeOver7();
      Compose(A, 1549411, 942143378, 198, 1600955193);
    } else if q == 11 {
      LargeOver11();
      Compose(A, 1549411, 942143378, 126, 298192073);
    } else if q == 31 {
      SmallOver31();
      Compose(A, 1386, 1179617774, 49981, 16384);
    } else if q == 151 {
      SmallOver151();
      Compose(A, 1386, 1179617774, 10261, 1013763951);
    } else {
      SmallOver331();
      Compose(A, 1386, 1179617774, 4681, 759513457);
    }
  }

  /** Fermat's little theorem for 16807. */
  lemma OneAtLast(n: nat)
    requires n == M - 1
    ensures Pow(A, n) == 1
  {
    hide Pow;
    Large();
    LargeOver2();
    Compose(A, 1549411, 942143378, 693, 2147483646);
    Twice(A, 1073741823, 2147483646, 2147483645, 1);
  }

  // ---------- divisors ----------

  /** Only 1 and q divide q. */
  ghost predicate Prime(q: nat) {
    q > 1 && forall g: nat, h: nat :: g * h == q ==> g == 1 || h == 1
  }

  /** No number from 2 to b divides q. */
  predicate NoDivisor(q: nat, b: nat) {
    b < 2 || (q % b != 0 && NoDivisor(q, b - 1))
  }

  lemma {:induction false} NoDivisorMeans(q: nat, b: nat, g: nat)
    requires NoDivisor(q, b) && 2 <= g <= b
    ensures q % g != 0
  {
    if g < b { NoDivisorMeans(q, b - 1, g); }
  }

  lemma MultipleHasNoRest(g: nat, h: nat)
    requires g > 0
    ensures g * h % g == 0
  {
    ModUnique(g * h, h, 0, g);
  }

  lemma ProductGrows(d: nat, e: nat, b: nat)
    ensures d >= b && e >= b ==> d * e >= b * b
  {
    if d >= b && e >= b {
      assert d * e >= b * e && b * e >= b * b;
    }
  }

  lemma SmallFactor(q: nat, b: nat, d: nat, e: nat)
    requires q > 1 && NoDivisor(q, b) && q < (b + 1) * (b + 1)
    requires d <= e && d * e == q
    ensures d == 1
  {
    ProductGrows(d, e, b + 1);
    assert d != 0;
    if d > 1 {
      MultipleHasNoRest(d, e);
      NoDivisorMeans(q, b, d);
    }
  }

  /** It is enough to try divisors up to the square root. */
  lemma IsPrime(q: nat, b: nat)
    requires q > 1 && NoDivisor(q, b) && q < (b + 1) * (b + 1)
    ensures Prime(q)
  {
    hide NoDivisor;
    forall g: nat, h: nat | g * h == q
      ensures g == 1 || h == 1
    {
      if g <= h { SmallFactor(q, b, g, h); } else { SmallFactor(q, b, h, g); }
    }
  }

  lemma FactorsArePrime(q: nat)
    requires q in Factors()
    ensures Prime(q)
  {
    hide Prime;
    IsPrime(2, 1);
    IsPrime(3, 1);
    IsPrime(7, 2);
    IsPrime(11, 3);
    IsPrime(31, 5);
    IsPrime(151, 12);
    assert NoDivisor(331, 6);
    assert NoDivisor(331, 12);
    IsPrime(331, 18);
  }

  /** Greatest common divisors are linear combinations. */
  lemma {:induction false} Bezout(a: nat, b: nat) returns (g: nat, x: nat, y: nat, u: int, v: int)
    requires a > 0 || b > 0
    ensures a == g * x && b == g * y && g == u * a + v * b && g > 0
    decreases b
  {
    if b == 0 {
      g, x, y, u, v := a, 1, 0, 1, 0;
    } else {
      var q, r := a / b, a % b;
      var y', u', v';
      g, y, y', u', v' := Bezout(b, r);
      assert a == q * b + r;
      x, u, v := q * y + y', v', u' - q * v';
      Recombine(a, b, q, r, g, y, y', u', v');
    }
  }

  lemma Recombine(a: nat, b: nat, q: nat, r: nat, g: nat, y: nat, y': nat, u: int, v: int)
    requires a == q * b + r && b == g * y && r == g * y' && g == u * b + v * r
    ensures a == g * (q * y + y') && g == v * a + (u - q * v) * b
  {
    assert g * (q * y + y') == q * (g * y) + g * y';
    assert v * (q * b + r) + (u - q * v) * b == u * b + v * r;
  }

  /** A divisor of q * m that the prime q does not divide is a divisor of m. */
  lemma Strip(k: nat, c: nat, q: nat, m: nat) returns (c': nat)
    requires k * c == q * m && Prime(q) && k > 0 && k % q != 0
    ensures k * c' == m
  {
    var g, x, y, u, v := Bezout(k, q);
    if g != 1 {
      assert y == 1;
      MultipleHasNoRest(q, x);
    }
    Combination(k, c, q, m, u, v);
    NegativeProduct(k, u * m + v * c);
    c' := u * m + v * c;
  }

  lemma NegativeProduct(k: nat, w: int)
    ensures k > 0 && w < 0 ==> k * w < 0
  {}

  lemma Combination(k: nat, c: nat, q: nat, m: nat, u: int, v: int)
    requires k * c == q * m && 1 == u * k + v * q
    ensures k * (u * m + v * c) == m
  {
    assert k * (u * m + v * c) == u * k * m + v * (k * c);
    assert u * k * m + v * (q * m) == (u * k + v * q) * m;
  }

  /** Whatever divides a product of primes and is not 1 is divisible by one of them. */
  lemma {:induction false} PrimeDivisor(k: nat, c: nat, s: seq<nat>) returns (q: nat)
    requires k > 1 && k * c == Product(s) && forall i :: 0 <= i < |s| ==> Prime(s[i])
    ensures q in s && q > 0 && k % q == 0
    decreases |s|
  {
    if s == [] {
      LargeFactor(k, c);
      assert false;
    } else {
      var p := s[0];
      assert Prime(p) && p > 0;
      hide Prime;
      if k % p == 0 {
        q := p;
      } else {
        var c' := Strip(k, c, p, Product(s[1..]));
        q := PrimeDivisor(k, c', s[1..]);
      }
    }
  }

  lemma LargeFactor(k: nat, c: nat)
    requires k > 1
    ensures k * c != 1
  {
    if c >= 1 { assert k * c >= k; }
  }

  lemma ProductOfFactors()
    ensures Product(Factors()) == M - 1
  {
    assert Product([331]) == 331;
    assert Product([151, 331]) == 151 * 331;
    assert Product([31, 151, 331]) == 31 * (151 * 331);
    assert Product([11, 31, 151, 331]) == 11 * (31 * (151 * 331));
    assert Product([7, 11, 31, 151, 331]) == 7 * (11 * (31 * (151 * 331)));
    assert Product([3, 7, 11, 31, 151, 331]) == 3 * (7 * (11 * (31 * (151 * 331))));
    assert Product([3, 3, 7, 11, 31, 151, 331]) == 3 * (3 * (7 * (11 * (31 * (151 * 331)))));
  }

  // ---------- the order of 16807 ----------

  lemma {:induction false} PowRest(b: nat, a: nat, n: nat)
    requires n > 0 && Pow(b, n) == 1
    ensures Pow(b, a) == Pow(b, a % n)
    decreases a
  {
    hide Pow;
    if a >= n {
      PowRest(b, a - n, n);
      PowAdd(b, a - n, n);
      RestOfLess(a, n);
      assert Pow(b, a - n) * 1 % M == Pow(b, a - n);
    } else {
      assert a % n == a;
    }
  }

  lemma RestOfLess(a: nat, n: nat)
    requires 0 < n <= a
    ensures (a - n) % n == a % n
  {
    ModUnique(a - n, a / n - 1, a % n, n);
  }

  /** Exponents that give one have a common divisor that gives one. */
  lemma {:induction false} CommonOne(a: nat, b: nat) returns (g: nat, x: nat, y: nat)
    requires a > 0 && Pow(A, a) == 1 && Pow(A, b) == 1
    ensures g > 0 && a == g * x && b == g * y && Pow(A, g) == 1
    decreases b
  {
    hide Pow;
    if b == 0 {
      g, x, y := a, 1, 0;
    } else {
      PowRest(A, a, b);
      var q, r := a / b, a % b;
      var y';
      g, y, y' := CommonOne(b, r);
      x := q * y + y';
      assert a == q * b + r;
      assert g * (q * y + y') == q * (g * y) + g * y';
    }
  }

  /** No smaller power of 16807 is one. */
  lemma Order(d: nat, n: nat)
    requires 0 < d < n && n == M - 1
    ensures Pow(A, d) != 1
  {
    hide Pow;
    if Pow(A, d) == 1 {
      OneAtLast(n);
      var g, x, k := CommonOne(d, n);
      ProductOfFactors();
      Cofactor(d, n, g, x, k);
      forall i | 0 <= i < |Factors()|
        ensures Prime(Factors()[i])
      {
        FactorsArePrime(Factors()[i]);
      }
      hide Factors;
      hide Prime;
      assert k * g == Product(Factors());
      var q := PrimeDivisor(k, g, Factors());
      NotYetOne(g, k, q, n);
    }
  }

  lemma OneOrNone(g: nat, k: nat)
    ensures k <= 1 ==> g * k <= g
    ensures k >= 1 ==> g * k >= g
  {}

  lemma Cofactor(d: nat, n: nat, g: nat, x: nat, k: nat)
    requires 0 < d < n && d == g * x && n == g * k
    ensures k > 1
  {
    OneOrNone(g, k);
    OneOrNone(g, x);
    assert x != 0;
  }

  lemma NotYetOne(g: nat, k: nat, q: nat, n: nat)
    requires q in Factors() && q > 0 && k % q == 0 && n == M - 1 && n == g * k
    ensures Pow(A, g) != 1
  {
    hide Pow;
    var m := k / q;
    Regrouped(g, m, q, k);
    NoEarlyOne(q, g * m);
    var one := PowOne(m);
    if Pow(A, g) == 1 { Compose(A, g, 1, m, one); }
  }

  lemma Regrouped(g: nat, m: nat, q: nat, k: nat)
    requires k == m * q
    ensures g * m * q == g * k
  {}

  function PowOne(m: nat): (p: nat)
    ensures p == Pow(1, m) == 1
  {
    PowOfOne(m);
    1
  }

  // ---------- the cycle ----------

  lemma {:induction false} AfterIsSeed(s: nat, n: nat)
    requires IsSeed(s)
    ensures IsSeed(After(s, n))
  {
    if n > 0 {
      AfterIsSeed(s, n - 1);
      SuccessorIsSeed(After(s, n - 1));
    }
  }

  lemma {:induction false} AfterAdd(s: nat, i: nat, j: nat)
    ensures After(s, i + j) == After(After(s, i), j)
  {
    if j > 0 { AfterAdd(s, i, j - 1); }
  }

  lemma {:induction false} AfterInjective(s: nat, t: nat, n: nat)
    requires IsSeed(s) && IsSeed(t) && After(s, n) == After(t, n)
    ensures s == t
  {
    if n > 0 {
      AfterIsSeed(s, n - 1);
      AfterIsSeed(t, n - 1);
      SuccessorInjective(After(s, n - 1), After(t, n - 1));
      AfterInjective(s, t, n - 1);
    }
  }

  lemma {:induction false} AfterOne(n: nat)
    ensures After(1, n) == Pow(A, n)
  {
    if n > 0 { AfterOne(n - 1); }
  }

  /** The states from s on, up to the n-th. */
  function Visited(s: nat, n: nat): set<nat> {
    if n == 0 then {} else Visited(s, n - 1) + {After(s, n - 1)}
  }

  lemma {:induction false} VisitedMeans(s: nat, n: nat, t: nat)
    ensures t in Visited(s, n) <==> exists i :: 0 <= i < n && After(s, i) == t
  {
    if n > 0 {
      VisitedMeans(s, n - 1, t);
      assert After(s, n - 1) == t ==> exists i :: 0 <= i < n && After(s, i) == t;
    }
  }

  /** The first n states from s are different. */
  ghost predicate Distinct(s: nat, n: nat) {
    forall i, j :: 0 <= i < j < n ==> After(s, i) != After(s, j)
  }

  lemma {:induction false} VisitedSize(s: nat, n: nat)
    requires Distinct(s, n)
    ensures |Visited(s, n)| == n
  {
    if n > 0 {
      VisitedSize(s, n - 1);
      VisitedMeans(s, n - 1, After(s, n - 1));
    }
  }

  function UpTo(b: nat): set<nat> {
    if b == 0 then {} else UpTo(b - 1) + {b}
  }

  lemma {:induction false} UpToMeans(b: nat, t: nat)
    ensures t in UpTo(b) <==> 1 <= t <= b
    ensures |UpTo(b)| == b
  {
    if b > 0 {
      UpToMeans(b - 1, t);
      UpToMeans(b - 1, b);
    }
  }

  lemma Full(a: set<nat>, b: set<nat>)
    requires a <= b && |a| == |b|
    ensures a == b
  {
    assert |b - a| == |b| - |a|;
  }

  /** The state t comes within n steps from s. */
  ghost predicate Reaches(s: nat, n: nat, t: nat) {
    exists i :: 0 <= i < n && After(s, i) == t
  }

  /** M - 1 different seeds are all there are. */
  lemma AllVisited(s: nat, n: nat, t: nat)
    requires IsSeed(s) && IsSeed(t) && n == M - 1 && Distinct(s, n)
    ensures Reaches(s, n, t)
  {
    hide Distinct;
    VisitedSize(s, n);
    UpToMeans(n, t);
    forall u | u in Visited(s, n)
      ensures u in UpTo(n)
    {
      VisitedMeans(s, n, u);
      var i :| 0 <= i < n && After(s, i) == u;
      AfterIsSeed(s, i);
      UpToMeans(n, u);
    }
    Full(Visited(s, n), UpTo(n));
    VisitedMeans(s, n, t);
  }

  /** From one, no state comes back before the last. */
  lemma DistinctFromOne(n: nat)
    requires n == M - 1
    ensures Distinct(1, n)
  {
    forall i, j | 0 <= i < j < n
      ensures After(1, i) != After(1, j)
    {
      AfterOne(j - i);
      Order(j - i, n);
      AfterAdd(1, j - i, i);
      AfterIsSeed(1, j - i);
      if After(1, i) == After(1, j) { AfterInjective(1, After(1, j - i), i); }
    }
  }

  /** A state that comes back after d steps from s would do so from one. */
  lemma NoReturn(s: nat, d: nat, n: nat)
    requires IsSeed(s) && 0 < d < n && n == M - 1
    ensures After(s, d) != s
  {
    DistinctFromOne(n);
    AllVisited(1, n, s);
    var k :| 0 <= k < n && After(1, k) == s;
    AfterAdd(1, k, d);
    AfterAdd(1, d, k);
    AfterIsSeed(1, d);
    AfterOne(d);
    Order(d, n);
    if After(s, d) == s { AfterInjective(1, After(1, d), k); }
  }

  lemma DistinctFrom(s: nat, n: nat)
    requires IsSeed(s) && n == M - 1
    ensures Distinct(s, n)
  {
    forall i, j | 0 <= i < j < n
      ensures After(s, i) != After(s, j)
    {
      NoReturn(s, j - i, n);
      AfterAdd(s, j - i, i);
      AfterIsSeed(s, j - i);
      if After(s, i) == After(s, j) { AfterInjective(s, After(s, j - i), i); }
    }
  }

  lemma Return(s: nat, n: nat)
    requires IsSeed(s) && n == M - 1
    ensures After(s, n) == s
  {
    DistinctFromOne(n);
    AllVisited(1, n, s);
    var k :| 0 <= k < n && After(1, k) == s;
    AfterAdd(1, k, n);
    AfterAdd(1, n, k);
    AfterOne(n);
    OneAtLast(n);
  }

  /**
   The claim beside Next: from every seed the generator cycles through every number in
   [1, M - 1], each exactly once in M - 1 steps, and then is back where it was.
   */
  lemma FullCycle(s: nat, n: nat)
    requires IsSeed(s) && n == M - 1
    ensures Distinct(s, n)
    ensures forall t: nat :: IsSeed(t) ==> Reaches(s, n, t)
    ensures After(s, n) == s
  {
    DistinctFrom(s, n);
    hide Distinct;
    hide Reaches;
    forall t: nat | IsSeed(t)
      ensures Reaches(s, n, t)
    {
      AllVisited(s, n, t);
    }
    Return(s, n);
  }
}
