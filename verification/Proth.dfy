/** A prime for which the 32-bit shift of `tonelli_shanks` loses a square: Proth's criterion,
    and the prime 3 * 2^36 + 1. */
module Proth {
  import opened Wrappers
  import opened Arithmetic
  import opened PrimeField
  import opened QuadraticResidues
  import opened TonelliShanks
  import Euclid
  import SquareRoots
  import CurveRoots

  // ----- prime factors --------------------------------------------------------------------

  /** The least divisor from d upward, when there is none below. */
  lemma {:induction false} LeastDivisor(p: nat, d: nat) returns (q: nat)
    requires 2 <= d <= p && forall e: nat :: 2 <= e < d ==> p % e != 0
    ensures 2 <= q <= p && p % q == 0 && forall e: nat :: 2 <= e < q ==> p % e != 0
    decreases p - d
  {
    if p % d == 0 {
      q := d;
    } else {
      if d == p { SelfDivides(p); }
      q := LeastDivisor(p, d + 1);
    }
  }

  lemma SelfDivides(p: nat)
    requires p > 0
    ensures p % p == 0
  {
    CongZero(p, 1, p);
  }

  /** A composite number has a prime factor no greater than its root. */
  lemma SmallPrimeFactor(p: nat) returns (q: nat)
    requires p >= 2 && !IsPrime(p)
    ensures IsPrime(q) && p % q == 0 && q * q <= p
  {
    q := LeastDivisor(p, 2);
    var m := p / q;
    assert p == q * m;
    forall d: nat | Euclid.Divides(d, q) ensures d == 1 || d == q {
      DivisorOfDivisor(d, q, m, p);
    }
    if m < q {
      if m >= 2 { CongZero(p, q, m); }
    } else {
      SquareAtMost(q, m);
    }
  }

  lemma SquareAtMost(q: nat, m: nat)
    requires q <= m
    ensures q * q <= q * m
  {
    assert q * m == q * q + q * (m - q);
  }

  /** Below the least divisor only 1 divides it. */
  lemma DivisorOfDivisor(d: nat, q: nat, m: nat, p: nat)
    requires q >= 2 && p == q * m && Euclid.Divides(d, q) && forall e: nat :: 2 <= e < q ==> p % e != 0
    ensures d == 1 || d == q
  {
    var k :| q == d * k;
    Euclid.DividesAtMost(d, q);
    if 2 <= d < q {
      assert (d * k) * m == (k * m) * d by { Regrouped(d, k, m); }
      CongZero(p, k * m, d);
    }
  }

  lemma Regrouped(d: int, k: int, m: int)
    ensures (d * k) * m == (k * m) * d
  {}

  // ----- Proth's criterion ------------------------------------------------------------------

  /** A value that is -1 modulo p is -1 modulo the divisors of p. */
  lemma MinusOneBelow(x: int, p: nat, q: nat)
    requires p > 1 && q > 1 && p % q == 0 && x % p == p - 1
    ensures x % q == q - 1
  {
    var a, m := x / p, p / q;
    assert x == a * p + p - 1 && p == m * q;
    assert x == ((a + 1) * m - 1) * q + (q - 1) by { Lifted(a, m, q); }
    DivModUnique(x, q, (a + 1) * m - 1, q - 1);
  }

  lemma Lifted(a: int, m: int, q: int)
    ensures a * (m * q) + m * q - 1 == ((a + 1) * m - 1) * q + (q - 1)
  {}

  /** If b^(2^(n-1)) = -1 modulo an odd prime q, then 2^n divides q - 1. */
  lemma OrderDividesUnits(b: int, n: nat, q: nat)
    requires IsOddPrime(q) && n >= 1 && Pow(b, Pow2(n - 1)) % q == q - 1
    ensures TwoAdicity(q - 1) >= n
  {
    hide Pow;
    OddPrimeIsOdd(q);
    OddPartSplits(q - 1);
    var o, j, e := OddPart(q - 1), TwoAdicity(q - 1), Pow2(n - 1);
    if j < n {
      PowPositive(2, n - 1);
      if b % q == 0 {
        SquareRoots.PowerOfMultiple(b, e, q);
      } else {
        Fermat(b, q);
        PowPower(b, o, Pow2(j));
        SquareRoots.OnceOneAlwaysOne(Pow(b, o), j, n - 1, q);
        PowPower(b, o, e);
        PowPower(b, e, o);
        assert o * e == e * o;
        PowMinusOne(Pow(b, e), o, q);
      }
    }
  }

  /** Proth: an odd p below 4^n with such a b is prime. */
  lemma ProthCriterion(b: int, n: nat, p: nat)
    requires p > 2 && p % 2 == 1 && n >= 1 && p <= Pow2(n) * Pow2(n) && Pow(b, Pow2(n - 1)) % p == p - 1
    ensures IsOddPrime(p)
  {
    hide Pow;
    if !IsPrime(p) {
      var q := SmallPrimeFactor(p);
      MinusOneBelow(Pow(b, Pow2(n - 1)), p, q);
      OrderDividesUnits(b, n, q);
      OddPartSplits(q - 1);
      var j := TwoAdicity(q - 1);
      PowAdd(2, n, j - n);
      PowPositive(2, n);
      PowPositive(2, j - n);
      FactorsBound(q - 1, OddPart(q - 1), Pow2(n), Pow2(j - n));
      LargerSquare(q, Pow2(n));
    }
  }

  lemma FactorsBound(v: nat, o: nat, a: nat, c: nat)
    requires v == o * (a * c) && o >= 1 && c >= 1
    ensures v >= a
  {
    assert a * c >= a * 1;
    assert o * (a * c) >= 1 * (a * c);
  }

  lemma LargerSquare(q: nat, a: nat)
    requires q >= a + 1
    ensures q * q > a * a
  {
    var r := q - a - 1;
    assert q * q == (a + 1) * (a + 1) + r * (q + a + 1);
    assert (a + 1) * (a + 1) == a * a + 2 * a + 1;
  }

  // ----- 3 * 2^36 + 1 -------------------------------------------------------------------------

  const P: nat := 206158430209

  /** Squaring 11^3 thirty-five times gives -1; squaring 11 thirty-three times gives LOST. */
  const LOST: nat := 31812552339

  lemma Squarings()
    ensures SquareTimes(1331, 35, P) == P - 1 && SquareTimes(11, 33, P) == LOST
  {
    ManySquarings();
    FewerSquarings();
  }

  lemma Squared(b: nat, k: nat, c: nat)
    requires k > 0 && (b * b) % P == c
    ensures SquareTimes(b, k, P) == SquareTimes(c, k - 1, P)
  {}

  lemma NotSquared(b: nat)
    ensures SquareTimes(b, 0, P) == b
  {}

  lemma ManySquarings()
    ensures SquareTimes(1331, 35, P) == P - 1
  {
    hide SquareTimes;
    Squared(1331, 35, 1771561); Squared(1771561, 34, 46051923586); Squared(46051923586, 33, 144400670651);
    Squared(144400670651, 32, 35034059419); Squared(35034059419, 31, 67765331604); Squared(67765331604, 30, 100344504123);
    Squared(100344504123, 29, 67166220408); Squared(67166220408, 28, 22635469746); Squared(22635469746, 27, 173291565223);
    Squared(173291565223, 26, 98763573103); Squared(98763573103, 25, 106996119614); Squared(106996119614, 24, 177236110045);
    Squared(177236110045, 23, 138043027883); Squared(138043027883, 22, 88723956694); Squared(88723956694, 21, 110643876700);
    Squared(110643876700, 20, 138622518899); Squared(138622518899, 19, 147285827703); Squared(147285827703, 18, 148359244222);
    Squared(148359244222, 17, 78004074331); Squared(78004074331, 16, 22906911089); Squared(22906911089, 15, 50716799583);
    Squared(50716799583, 14, 98362927657); Squared(98362927657, 13, 96810170725); Squared(96810170725, 12, 76744543817);
    Squared(76744543817, 11, 111590135892); Squared(111590135892, 10, 162517626944); Squared(162517626944, 9, 201256921339);
    Squared(201256921339, 8, 58769793815); Squared(58769793815, 7, 129998565045); Squared(129998565045, 6, 196290994917);
    Squared(196290994917, 5, 180141215147); Squared(180141215147, 4, 89297084536); Squared(89297084536, 3, 76228980350);
    Squared(76228980350, 2, 87589694665); Squared(87589694665, 1, 206158430208);
    NotSquared(P - 1);
  }

  lemma FewerSquarings()
    ensures SquareTimes(11, 33, P) == LOST
  {
    hide SquareTimes;
    Squared(11, 33, 121); Squared(121, 32, 14641); Squared(14641, 31, 214358881);
    Squared(214358881, 30, 108146439196); Squared(108146439196, 29, 852179118); Squared(852179118, 28, 98386499122);
    Squared(98386499122, 27, 104043306721); Squared(104043306721, 26, 95323641705); Squared(95323641705, 25, 71942752153);
    Squared(71942752153, 24, 77622480741); Squared(77622480741, 23, 123383902511); Squared(123383902511, 22, 36864112027);
    Squared(36864112027, 21, 1266358478); Squared(1266358478, 20, 41001718747); Squared(41001718747, 19, 49919545465);
    Squared(49919545465, 18, 137174232710); Squared(137174232710, 17, 98000546553); Squared(98000546553, 16, 63039532246);
    Squared(63039532246, 15, 19473987049); Squared(19473987049, 14, 27694182541); Squared(27694182541, 13, 107729725791);
    Squared(107729725791, 12, 117433936627); Squared(117433936627, 11, 120447474708); Squared(120447474708, 10, 19021608362);
    Squared(19021608362, 9, 205609346969); Squared(205609346969, 8, 131358349730); Squared(131358349730, 7, 76237655307);
    Squared(76237655307, 6, 26127884310); Squared(26127884310, 5, 89820695642); Squared(89820695642, 4, 127834427369);
    Squared(127834427369, 3, 66473278819); Squared(66473278819, 2, 188223590743); Squared(188223590743, 1, 31812552339);
    NotSquared(LOST);
  }

  lemma ThirtySix()
    ensures Pow2(36) == 0x10_0000_0000
  {
    Pow2Sixteen();
    PowAdd(2, 16, 16);
    PowAdd(2, 32, 4);
  }

  lemma Pow2Sixteen()
    ensures Pow2(16) == 0x1_0000 && Pow2(4) == 16
  {}

  lemma PIsPrime()
    ensures IsOddPrime(P) && TwoAdicity(P - 1) == 36
  {
    hide Pow, SquareTimes;
    Squarings();
    SquareTimesIsPower(1331, 35, P);
    SmallMod(P - 1, P);
    ThirtySix();
    ProthCriterion(1331, 36, P);
    AdicityOfP();
  }

  lemma AdicityOfP()
    ensures TwoAdicity(P - 1) == 36
  {
    Halvings(3, 36);
    ThirtySix();
    assert TwoAdicity(3) == 0;
  }

  lemma {:induction false} Halvings(o: nat, k: nat)
    requires o > 0
    ensures o * Pow2(k) > 0 && TwoAdicity(o * Pow2(k)) == k + TwoAdicity(o)
  {
    PowPositive(2, k);
    if k == 0 {
      assert Pow2(0) == 1;
    } else {
      Halvings(o, k - 1);
      assert Pow2(k) == 2 * Pow2(k - 1);
      DoubledFactor(o, Pow2(k - 1));
      DivModUnique(o * Pow2(k), 2, o * Pow2(k - 1), 0);
    }
  }

  /** 11 is the least non-residue modulo P: smaller values have the roots named here. */
  lemma LeastIsEleven()
    ensures IsOddPrime(P)
    ensures CurveRoots.NonResidueAhead(2, P) && CurveRoots.LeastNonResidue(2, P) == 11
  {
    hide IsSquare, IsPrime;
    PIsPrime();
    CurveRoots.LeastNonResidueIsLeast(P);
    SmallSquares();
    ElevenIsNoSquare();
  }

  lemma SmallSquares()
    ensures forall v :: 2 <= v < 11 ==> IsSquare(v, P)
  {
    SmallRoots();
    hide IsRoot;
  }

  lemma SmallRoots()
    ensures IsRoot(44416428011, 2, P) && IsRoot(34785912528, 3, P) && IsRoot(2, 4, P)
    ensures IsRoot(24190947943, 5, P) && IsRoot(152417187343, 6, P) && IsRoot(179989467898, 7, P)
    ensures IsRoot(88832856022, 8, P) && IsRoot(3, 9, P) && IsRoot(156409408502, 10, P)
  {}

  lemma ElevenIsNoSquare()
    ensures !IsSquare(11, P)
  {
    hide Pow, SquareTimes;
    PIsPrime();
    Squarings();
    SquareTimesIsPower(1331, 35, P);
    PowPower(11, 3, Pow2(35));
    assert Pow(11, 3) == 1331 by { Cube(); }
    ThirtySix();
    PowAdd(2, 35, 1);
    assert Pow2(1) == 2 by { Two(); }
    assert Half(P) == 3 * Pow2(35);
    SmallMod(P - 1, P);
    NonResidueTest(11, P);
  }

  lemma Cube()
    ensures Pow(11, 3) == 1331
  {}

  lemma Two()
    ensures Pow2(1) == 2
  {}

  /** The failing input by name: 31812552339 is a square modulo the prime 206158430209, and
      `tonelli_shanks` refuses it. */
  lemma LostSquareExample()
    ensures IsOddPrime(P) && CurveRoots.NonResidueAhead(2, P)
    ensures IsSquare(LOST, P) && CurveRoots.TonelliShanksRoot(LOST, P) == None
  {
    hide Pow, SquareTimes;
    LeastIsEleven();
    PIsPrime();
    var n := CurveRoots.LostSquare(P);
    Squarings();
    SquareTimesIsPower(11, 33, P);
    SmallMod(LOST, P);
    assert n == LOST;
  }
}
