/** The Lehmer generator of db/random.h.

    Next multiplies by 16807 modulo the Mersenne prime 2^31 - 1 without a division, and its
    comment promises that the seed cycles through every number in [1, 2^31 - 2]. The promise
    is proved here: 16807 has multiplicative order exactly 2^31 - 2. */
module LehmerRandom {
  import opened Arithmetic

  const M: nat := 0x7fff_ffff
  const A: nat := 16807
  const A_INVERSE: nat := 1407677000
  const PERIOD: nat := M - 1
  const TWO_31: nat := 0x8000_0000

  /** The mathematical step that Next is meant to compute. */
  function Step(seed: nat): nat {
    seed * A % M
  }

  function Iterate(seed: nat, k: nat): nat {
    if k == 0 then seed else Step(Iterate(seed, k - 1))
  }

  ghost predicate IsSeed(s: int) {
    1 <= s < M
  }

  // ---------- arithmetic modulo m ----------

  lemma ModPlusMultiple(x: int, k: int, m: int)
    requires m > 0
    ensures (x + k * m) % m == x % m
  {
    var q, r := x / m, x % m;
    assert x + k * m == (q + k) * m + r;
    DivisionIs(x + k * m, q + k, r, m);
  }

  lemma ModTimes(x: int, y: int, m: int)
    requires m > 0
    ensures x % m * y % m == x * y % m
  {
    var q, r := x / m, x % m;
    assert x * y == r * y + (q * y) * m by {
      assert x == q * m + r;
      assert (q * m + r) * y == r * y + (q * y) * m;
    }
    ModPlusMultiple(r * y, q * y, m);
  }

  lemma ModAssociative(x: int, y: int, z: int, m: int)
    requires m > 0
    ensures x * y % m * z % m == x * (y * z % m) % m
  {
    ModTimes(x * y, z, m);
    ModTimes(y * z, x, m);
    assert x * y * z == y * z * x;
    assert x * (y * z % m) == y * z % m * x;
  }

  /** Next's reduction: high and low 31-bit halves add up to the same residue. */
  lemma MersenneFold(product: nat)
    ensures (product / TWO_31 + product % TWO_31) % M == product % M
  {
    var hi, lo := product / TWO_31, product % TWO_31;
    assert product == hi + lo + hi * M;
    ModPlusMultiple(hi + lo, hi, M);
  }

  lemma StepUndone(s: nat)
    requires s < M
    ensures Step(s) * A_INVERSE % M == s
  {
    ModAssociative(s, A, A_INVERSE, M);
    assert A * A_INVERSE % M == 1;
  }

  lemma StepKeepsSeed(s: nat)
    requires IsSeed(s)
    ensures IsSeed(Step(s))
  {
    StepUndone(s);
  }

  lemma StepInjective(s: nat, t: nat)
    requires s < M && t < M && Step(s) == Step(t)
    ensures s == t
  {
    StepUndone(s);
    StepUndone(t);
  }

  // ---------- the generator ----------

  class Random {
    var seed: nat

    ghost predicate Valid()
      reads this
    {
      IsSeed(seed)
    }

    constructor (s: nat)
      requires s < TWO_32
      ensures Valid()
      ensures seed == if s % TWO_31 == 0 || s % TWO_31 == M then 1 else s % TWO_31
    {
      seed := s % TWO_31;
      new;
      if seed == 0 || seed == M {
        seed := 1;
      }
    }

    method Next() returns (r: nat)
      requires Valid()
      modifies this
      ensures Valid() && r == seed == Step(old(seed)) == old(seed) * 16807 % 2147483647
    {
      var product := seed * A;
      assert product < TWO_31 * A;
      MersenneFold(product);
      StepKeepsSeed(seed);
      seed := (product / TWO_31 + product % TWO_31) % TWO_32;
      if seed > M {
        seed := seed - M;
      }
      r := seed;
    }
  }

  // ---------- powers of the multiplier ----------

  function Power(k: nat): nat {
    Iterate(1, k)
  }

  lemma {:induction false} PowerInRange(k: nat)
    ensures IsSeed(Power(k))
  {
    if k > 0 {
      PowerInRange(k - 1);
      StepKeepsSeed(Power(k - 1));
    }
  }

  lemma {:induction false} IterateIsMultiply(s: nat, k: nat)
    requires s < M
    ensures Iterate(s, k) == s * Power(k) % M
  {
    if k > 0 {
      IterateIsMultiply(s, k - 1);
      ModAssociative(s, Power(k - 1), A, M);
    }
  }

  lemma {:induction false} IterateSum(s: nat, j: nat, k: nat)
    ensures Iterate(s, j + k) == Iterate(Iterate(s, j), k)
  {
    if k > 0 {
      IterateSum(s, j, k - 1);
    }
  }

  lemma PowerSum(j: nat, k: nat)
    ensures Power(j + k) == Power(j) * Power(k) % M
  {
    IterateSum(1, j, k);
    PowerInRange(j);
    IterateIsMultiply(Power(j), k);
  }

  lemma {:induction false} PowerTimes(g: nat, k: nat)
    requires Power(g) == 1
    ensures Power(g * k) == 1
  {
    hide Iterate;
    if k == 0 {
      PowerZero();
      assert g * k == 0;
    } else {
      PowerTimes(g, k - 1);
      assert g * k == g * (k - 1) + g;
      PowerSum(g * (k - 1), g);
    }
  }

  // ---------- a certificate: some powers, computed a hexadecimal digit at a time ----------

  function SmallPower(d: nat): nat {
    if d == 0 then 1
    else if d == 1 then 16807
    else if d == 2 then 282475249
    else if d == 3 then 1622650073
    else if d == 4 then 984943658
    else if d == 5 then 1144108930
    else if d == 6 then 470211272
    else if d == 7 then 101027544
    else if d == 8 then 1457850878
    else if d == 9 then 1458777923
    else if d == 10 then 2007237709
    else if d == 11 then 823564440
    else if d == 12 then 1115438165
    else if d == 13 then 1784484492
    else if d == 14 then 74243042
    else 114807987
  }

  lemma PowerSuccessor(k: nat)
    ensures Power(k + 1) == Step(Power(k))
  {
  }

  lemma PowerZero()
    ensures Power(0) == 1
  {
  }

  lemma {:induction false} SmallPowers(d: nat)
    requires d < 16
    ensures Power(d) == SmallPower(d)
  {
    hide Iterate;
    if d == 0 {
      PowerZero();
    } else {
      SmallPowers(d - 1);
      PowerSuccessor(d - 1);
    }
  }

  /** From k to 16 * k + digit: a, b, c and d are v squared once to four times. */
  lemma HexDigit(k: nat, v: nat, a: nat, b: nat, c: nat, d: nat, digit: nat, w: nat) returns (k': nat)
    requires Power(k) == v && digit < 16
    requires a == v * v % 0x7fff_ffff
    requires b == a * a % 0x7fff_ffff
    requires c == b * b % 0x7fff_ffff
    requires d == c * c % 0x7fff_ffff
    requires w == d * SmallPower(digit) % 0x7fff_ffff
    ensures k' == 16 * k + digit && Power(k') == w
  {
    hide Iterate;
    PowerSum(k, k);
    PowerSum(2 * k, 2 * k);
    PowerSum(4 * k, 4 * k);
    PowerSum(8 * k, 8 * k);
    SmallPowers(digit);
    PowerSum(16 * k, digit);
    k' := 16 * k + digit;
  }

  lemma HighDigitsOver2() returns (k: nat)
    ensures k == 16383 && Power(k) == 1181132756
  {
    hide Iterate;
    k := 3;
    SmallPowers(k);
    k := HexDigit(k, 1622650073, 470211272, 1115438165, 1998097157, 1899894091, 15, 1108728549);
    k := HexDigit(k, 1108728549, 1524325968, 1887638, 501848671, 1795289992, 15, 754609818);
    k := HexDigit(k, 754609818, 878627494, 2009050749, 2071703685, 1587893215, 15, 1181132756);
  }

  lemma PowerOfPeriodOver2() returns (k: nat)
    ensures 2 * k == PERIOD && Power(k) == 2147483646
  {
    hide Iterate;
    k := HighDigitsOver2();
    k := HexDigit(k, 1181132756, 1101980020, 1240574072, 998581414, 963142635, 15, 103492285);
    k := HexDigit(k, 103492285, 1055697433, 1242312909, 1264295359, 492532464, 15, 1799481238);
    k := HexDigit(k, 1799481238, 697064706, 225900933, 2100992093, 827792946, 15, 797756594);
    k := HexDigit(k, 797756594, 1946561783, 1688537117, 1824949437, 1839179627, 15, 2147483646);
  }

  lemma HighDigitsOver3() returns (k: nat)
    ensures k == 10922 && Power(k) == 99284761
  {
    hide Iterate;
    k := 2;
    SmallPowers(k);
    k := HexDigit(k, 282475249, 984943658, 1457850878, 1137522503, 1636807826, 10, 2110010672);
    k := HexDigit(k, 2110010672, 1478446501, 304987844, 832861200, 476003622, 10, 1987502657);
    k := HexDigit(k, 1987502657, 898003988, 401868524, 512453959, 84507850, 10, 99284761);
  }

  lemma PowerOfPeriodOver3() returns (k: nat)
    ensures 3 * k == PERIOD && Power(k) == 634005911
  {
    hide Iterate;
    k := HighDigitsOver3();
    k := HexDigit(k, 99284761, 578505488, 11294627, 1627986388, 1158865755, 10, 1175969859);
    k := HexDigit(k, 1175969859, 1524724550, 1299877462, 1677815163, 1877619757, 10, 313625057);
    k := HexDigit(k, 313625057, 438271176, 446115504, 1638520455, 176702896, 10, 1252779437);
    k := HexDigit(k, 1252779437, 1388093266, 554809434, 1027646758, 920240050, 10, 634005911);
  }

  lemma HighDigitsOver7() returns (k: nat)
    ensures k == 4681 && Power(k) == 184149733
  {
    hide Iterate;
    k := 1;
    SmallPowers(k);
    k := HexDigit(k, 16807, 282475249, 984943658, 1457850878, 1137522503, 2, 16531729);
    k := HexDigit(k, 16531729, 704877633, 824938981, 318153057, 855007065, 4, 338725129);
    k := HexDigit(k, 338725129, 401203083, 749808928, 2110720068, 1105460498, 9, 184149733);
  }

  lemma PowerOfPeriodOver7() returns (k: nat)
    ensures 7 * k == PERIOD && Power(k) == 1600955193
  {
    hide Iterate;
    k := HighDigitsOver7();
    k := HexDigit(k, 184149733, 1588280530, 1292075693, 320365114, 795457266, 2, 713072451);
    k := HexDigit(k, 713072451, 808531276, 72714612, 821751376, 1691809704, 4, 1994951511);
    k := HexDigit(k, 1994951511, 2080243443, 1683044520, 1970866768, 1272582736, 9, 1491475262);
    k := HexDigit(k, 1491475262, 1410082339, 1210473470, 2032255744, 1294654868, 2, 1600955193);
  }

  lemma HighDigitsOver11() returns (k: nat)
    ensures k == 2978 && Power(k) == 1503614727
  {
    hide Iterate;
    k := 11;
    SmallPowers(k);
    k := HexDigit(k, 823564440, 1474833169, 1617819336, 1557810404, 784559590, 10, 462242385);
    k := HexDigit(k, 462242385, 978719103, 1763464891, 1385869610, 1047660757, 2, 1503614727);
  }

  lemma PowerOfPeriodOver11() returns (k: nat)
    ensures 11 * k == PERIOD && Power(k) == 298192073
  {
    hide Iterate;
    k := HighDigitsOver11();
    k := HexDigit(k, 1503614727, 1426595217, 1593242601, 245677251, 984865240, 14, 2001314837);
    k := HexDigit(k, 2001314837, 1917845806, 450369632, 703814329, 723275386, 8, 289296328);
    k := HexDigit(k, 289296328, 1343207366, 2134136009, 2049340277, 1935649565, 11, 1008979637);
    k := HexDigit(k, 1008979637, 547841991, 1476938629, 2065865593, 1728334681, 10, 298192073);
  }

  lemma HighDigitsOver31() returns (k: nat)
    ensures k == 1057 && Power(k) == 108218770
  {
    hide Iterate;
    k := 4;
    SmallPowers(k);
    k := HexDigit(k, 984943658, 1457850878, 1137522503, 1636807826, 685118024, 2, 1060806853);
    k := HexDigit(k, 1060806853, 1400285365, 175530180, 706642601, 1680351381, 1, 108218770);
  }

  lemma PowerOfPeriodOver31() returns (k: nat)
    ensures 31 * k == PERIOD && Power(k) == 16384
  {
    hide Iterate;
    k := HighDigitsOver31();
    k := HexDigit(k, 108218770, 111398400, 2048666863, 480822013, 1593778648, 0, 1593778648);
    k := HexDigit(k, 1593778648, 1464474750, 1535817640, 911831480, 2072488627, 8, 2107038118);
    k := HexDigit(k, 2107038118, 1590438532, 2141501481, 642557948, 122712502, 4, 495975381);
    k := HexDigit(k, 495975381, 411385676, 424739074, 205970348, 2143103993, 2, 16384);
  }

  lemma HighDigitsOver151() returns (k: nat)
    ensures k == 217 && Power(k) == 1719533808
  {
    hide Iterate;
    k := 13;
    SmallPowers(k);
    k := HexDigit(k, 1784484492, 1131570933, 1025921153, 382955828, 1104740033, 9, 1719533808);
  }

  lemma PowerOfPeriodOver151() returns (k: nat)
    ensures 151 * k == PERIOD && Power(k) == 1013763951
  {
    hide Iterate;
    k := HighDigitsOver151();
    k := HexDigit(k, 1719533808, 2119315080, 876554400, 444978220, 454021550, 0, 454021550);
    k := HexDigit(k, 454021550, 2010792109, 2100574543, 1969511326, 199457713, 1, 63809424);
    k := HexDigit(k, 63809424, 711597894, 1876427685, 506944312, 2041767666, 11, 1422968813);
    k := HexDigit(k, 1422968813, 1031122011, 2059074765, 758497081, 1449655222, 2, 1013763951);
  }

  lemma HighDigitsOver331() returns (k: nat)
    ensures k == 98 && Power(k) == 1807130337
  {
    hide Iterate;
    k := 6;
    SmallPowers(k);
    k := HexDigit(k, 470211272, 1115438165, 1998097157, 1899894091, 1816731566, 2, 1807130337);
  }

  lemma PowerOfPeriodOver331() returns (k: nat)
    ensures 331 * k == PERIOD && Power(k) == 759513457
  {
    hide Iterate;
    k := HighDigitsOver331();
    k := HexDigit(k, 1807130337, 992663534, 1603481258, 320514918, 1783848212, 15, 182048270);
    k := HexDigit(k, 182048270, 799204591, 1592854157, 672182563, 461101996, 15, 1349594950);
    k := HexDigit(k, 1349594950, 924100177, 1315497955, 1048814560, 1051660835, 3, 150479927);
    k := HexDigit(k, 150479927, 542140772, 302749254, 482696820, 1742270007, 10, 759513457);
  }

  lemma PowerOfPeriod()
    ensures Power(PERIOD) == 1
  {
    hide Iterate;
    var k := PowerOfPeriodOver2();
    PowerSum(k, k);
    assert k + k == PERIOD;
  }

  ghost predicate IsPrimeFactor(q: nat) {
    q == 2 || q == 3 || q == 7 || q == 11 || q == 31 || q == 151 || q == 331
  }

  lemma QuotientPowerIsNotOne(q: nat) returns (k: nat)
    requires IsPrimeFactor(q)
    ensures q * k == PERIOD && Power(k) != 1
  {
    if q == 2 {
      k := PowerOfPeriodOver2();
    } else if q == 3 {
      k := PowerOfPeriodOver3();
    } else if q == 7 {
      k := PowerOfPeriodOver7();
    } else if q == 11 {
      k := PowerOfPeriodOver11();
    } else if q == 31 {
      k := PowerOfPeriodOver31();
    } else if q == 151 {
      k := PowerOfPeriodOver151();
    } else {
      k := PowerOfPeriodOver331();
    }
  }

  // ---------- divisibility ----------

  ghost predicate Divides(d: nat, n: nat) {
    exists k: nat :: d * k == n
  }

  function Gcd(a: nat, b: nat): nat
    decreases b
  {
    if b == 0 then a else Gcd(b, a % b)
  }

  lemma Distribute(g: nat, x: nat, c: nat, y: nat)
    ensures g * (x * c + y) == g * x * c + g * y
  {
    assert g * (x * c) == g * x * c;
  }

  lemma DividesSum(g: nat, b: nat, c: nat, r: nat)
    requires Divides(g, b) && Divides(g, r)
    ensures Divides(g, b * c + r)
  {
    var x: nat :| g * x == b;
    var y: nat :| g * y == r;
    Distribute(g, x, c, y);
    assert g * (x * c + y) == b * c + r;
  }

  lemma {:induction false} GcdDivides(a: nat, b: nat)
    ensures Divides(Gcd(a, b), a) && Divides(Gcd(a, b), b)
    decreases b
  {
    if b == 0 {
      assert a * 1 == a && a * 0 == b;
    } else {
      GcdDivides(b, a % b);
      DividesSum(Gcd(a, b), b, a / b, a % b);
    }
  }

  /** Bezout coefficients. */
  lemma {:induction false} Bezout(a: nat, b: nat) returns (u: int, v: int)
    ensures u * a + v * b == Gcd(a, b)
    decreases b
  {
    if b == 0 {
      u, v := 1, 0;
    } else {
      var x, y := Bezout(b, a % b);
      u, v := y, x - y * (a / b);
      assert a % b == a - b * (a / b);
      assert x * b + y * (a - b * (a / b)) == y * a + (x - y * (a / b)) * b by {
        assert y * (b * (a / b)) == y * (a / b) * b;
      }
    }
  }

  lemma SmallFactor(q: nat, d: nat, h: nat)
    requires IsPrimeFactor(q) && 2 <= d <= 18 && d < q
    ensures d * h != q
  {
    assert d == 2 || d == 3 || d == 4 || d == 5 || d == 6 || d == 7 || d == 8 || d == 9 || d == 10 || d == 11
      || d == 12 || d == 13 || d == 14 || d == 15 || d == 16 || d == 17 || d == 18;
  }

  /** The listed factors are prime: 331 is below 19 squared. */
  lemma FactorsArePrime(q: nat, d: nat)
    requires IsPrimeFactor(q) && Divides(d, q)
    ensures d == 1 || d == q
  {
    var h: nat :| d * h == q;
    if d == 0 || h == 0 {
    } else if 1 < d < q {
      assert h > 1;
      assert d > 18 && h > 18 ==> d * h >= 19 * 19;
      if d <= 18 {
        SmallFactor(q, d, h);
      } else {
        SmallFactor(q, h, d);
      }
    } else {
      assert d > q ==> d * h >= d;
    }
  }

  lemma Combine(e: int, q: int, m: int, u: int, v: int, k: int)
    requires u * e + v * q == 1 && e * k == q * m
    ensures e * (u * m + v * k) == m
  {
    assert e * (u * m + v * k) == u * e * m + v * (e * k);
    assert v * (q * m) == v * q * m;
    assert u * e * m + v * q * m == (u * e + v * q) * m;
  }

  /** A divisor of q * m that the prime q does not divide is a divisor of m. */
  lemma StripPrime(q: nat, e: nat, m: nat)
    requires IsPrimeFactor(q) && Divides(e, q * m) && !Divides(q, e)
    ensures Divides(e, m)
  {
    GcdDivides(e, q);
    FactorsArePrime(q, Gcd(e, q));
    var u, v := Bezout(e, q);
    var k: nat :| e * k == q * m;
    Combine(e, q, m, u, v, k);
    var j := u * m + v * k;
    if j < 0 {
      assert e * j <= 0;
      assert e * 0 == m;
    }
  }

  /** The period factors as 2 * 3^2 * 7 * 11 * 31 * 151 * 331. */
  lemma DivisorHasPrimeFactor(e: nat)
    requires Divides(e, PERIOD) && e > 1
    ensures exists q: nat :: IsPrimeFactor(q) && Divides(q, e)
  {
    if forall q: nat :: IsPrimeFactor(q) ==> !Divides(q, e) {
      StripPrime(2, e, 1073741823);
      StripPrime(3, e, 357913941);
      StripPrime(3, e, 119304647);
      StripPrime(7, e, 17043521);
      StripPrime(11, e, 1549411);
      StripPrime(31, e, 49981);
      StripPrime(151, e, 331);
      StripPrime(331, e, 1);
      var k: nat :| e * k == 1;
      MultipleGrows(k, e);
      assert false;
    }
  }

  // ---------- the order of the multiplier ----------

  lemma PowerOfRemainder(a: nat, b: nat)
    requires Power(a) == 1 && Power(b) == 1 && b > 0
    ensures Power(a % b) == 1
  {
    hide Iterate;
    var q, r := a / b, a % b;
    PowerTimes(b, q);
    PowerSum(b * q, r);
    PowerInRange(r);
  }

  /** Exponents with power one are closed under remainder, hence under gcd. */
  lemma {:induction false} PowerOfGcd(a: nat, b: nat)
    requires Power(a) == 1 && Power(b) == 1
    ensures Power(Gcd(a, b)) == 1
    decreases b
  {
    hide Iterate;
    if b > 0 {
      PowerOfRemainder(a, b);
      PowerOfGcd(b, a % b);
    }
  }

  lemma SameQuotient(n: nat, g: nat, e: nat, q: nat, j: nat, m: nat)
    requires q > 0 && g * e == n && q * j == e && q * m == n
    ensures g * j == m
  {
    assert g * (q * j) == g * j * q;
    assert (g * j - m) * q == 0;
    MultipleGrows(g * j - m, q);
  }

  /** A proper divisor of the period has power other than one: it divides PERIOD / q for a prime q. */
  lemma ProperDivisorPower(g: nat, e: nat)
    requires g * e == PERIOD && e > 1
    ensures Power(g) != 1
  {
    hide Iterate;
    assert e * g == PERIOD;
    DivisorHasPrimeFactor(e);
    var q: nat :| IsPrimeFactor(q) && Divides(q, e);
    var j: nat :| q * j == e;
    var m := QuotientPowerIsNotOne(q);
    SameQuotient(PERIOD, g, e, q, j, m);
    if Power(g) == 1 {
      PowerTimes(g, j);
    }
  }

  lemma OnlyPeriodsHavePowerOne(k: nat)
    requires Power(k) == 1
    ensures k % PERIOD == 0
  {
    hide Iterate;
    PowerOfPeriod();
    PowerOfGcd(k, PERIOD);
    GcdDivides(k, PERIOD);
    var g := Gcd(k, PERIOD);
    var e: nat :| g * e == PERIOD;
    if e > 1 {
      ProperDivisorPower(g, e);
    }
    assert e == 1 && g == PERIOD;
    var c: nat :| g * c == k;
    ModPlusMultiple(0, c, PERIOD);
  }

  /** 16807 has order exactly 2^31 - 2 modulo 2^31 - 1. */
  lemma OrderIsPeriod(k: nat)
    ensures Power(k) == 1 <==> k % PERIOD == 0
  {
    hide Iterate;
    if Power(k) == 1 {
      OnlyPeriodsHavePowerOne(k);
    }
    if k % PERIOD == 0 {
      PowerOfPeriod();
      PowerTimes(PERIOD, k / PERIOD);
      assert k == PERIOD * (k / PERIOD);
    }
  }

  lemma PowersDistinct(i: nat, j: nat)
    requires i < j < PERIOD
    ensures Power(i) != Power(j)
  {
    hide Iterate;
    if Power(i) == Power(j) {
      PowerOfPeriod();
      PowerSum(i, PERIOD - i);
      PowerSum(j, PERIOD - i);
      PowerSum(j - i, PERIOD);
      PowerInRange(j - i);
      OrderIsPeriod(j - i);
    }
  }

  // ---------- the full cycle ----------

  ghost function FirstPowers(k: nat): set<int> {
    if k == 0 then {} else FirstPowers(k - 1) + {Power(k - 1)}
  }

  lemma {:induction false} FirstPowersAre(k: nat, x: int)
    ensures x in FirstPowers(k) <==> exists i: nat :: i < k && Power(i) == x
  {
    hide Iterate;
    if k > 0 {
      FirstPowersAre(k - 1, x);
    }
  }

  lemma {:induction false} FirstPowersSize(k: nat)
    requires k <= PERIOD
    ensures |FirstPowers(k)| == k
  {
    hide Iterate;
    if k > 0 {
      FirstPowersSize(k - 1);
      FirstPowersAre(k - 1, Power(k - 1));
      if i: nat :| i < k - 1 && Power(i) == Power(k - 1) {
        PowersDistinct(i, k - 1);
      }
    }
  }

  ghost function SeedsBelow(n: nat): (s: set<int>)
    requires n > 0
    ensures |s| == n - 1 && forall x :: x in s <==> 1 <= x < n
  {
    if n == 1 then {} else SeedsBelow(n - 1) + {n - 1}
  }

  lemma SubsetOfSameSize(s: set<int>, t: set<int>)
    requires s <= t && |s| == |t|
    ensures forall x: int :: x in t ==> x in s
  {
    forall x: int | x in t ensures x in s {
      if x !in s {
        SubsetSize(s, t - {x});
      }
    }
  }

  lemma {:induction false} SubsetSize(s: set<int>, t: set<int>)
    requires s <= t
    ensures |s| <= |t|
  {
    if x: int :| x in s {
      SubsetSize(s - {x}, t - {x});
    } else {
      assert forall x: int :: x !in s;
      assert s == {};
    }
  }

  /** Every seed is a power of the multiplier: the powers are distinct and as many as seeds. */
  lemma SeedIsPower(s: nat) returns (i: nat)
    requires IsSeed(s)
    ensures i < PERIOD && Power(i) == s
  {
    hide Iterate;
    FirstPowersSize(PERIOD);
    forall x: int | x in FirstPowers(PERIOD) ensures x in SeedsBelow(M) {
      FirstPowersAre(PERIOD, x);
      var j: nat :| j < PERIOD && Power(j) == x;
      PowerInRange(j);
    }
    SubsetOfSameSize(FirstPowers(PERIOD), SeedsBelow(M));
    FirstPowersAre(PERIOD, s);
    i :| i < PERIOD && Power(i) == s;
  }

  /** From any seed the generator returns to it after exactly the multiples of 2^31 - 2 steps. */
  lemma FullPeriod(s: nat, k: nat)
    requires IsSeed(s)
    ensures Iterate(s, k) == s <==> k % PERIOD == 0
  {
    hide Iterate;
    var i := SeedIsPower(s);
    IterateSum(1, i, k);
    PowerInRange(k);
    PowerOfPeriod();
    if Iterate(s, k) == s {
      PowerSum(PERIOD - i, i);
      PowerSum(PERIOD - i, i + k);
      PowerSum(PERIOD, k);
      OrderIsPeriod(k);
    }
    if k % PERIOD == 0 {
      OrderIsPeriod(k);
      PowerSum(i, k);
      PowerInRange(i);
    }
  }

  /** From any seed the generator reaches every seed within 2^31 - 2 steps. */
  lemma VisitsEverySeed(s: nat, t: nat) returns (k: nat)
    requires IsSeed(s) && IsSeed(t)
    ensures k < PERIOD && Iterate(s, k) == t
  {
    hide Iterate;
    var i := SeedIsPower(s);
    var j := SeedIsPower(t);
    k := if j >= i then j - i else j + PERIOD - i;
    IterateSum(1, i, k);
    if j < i {
      PowerOfPeriod();
      PowerSum(j, PERIOD);
    }
  }
}
