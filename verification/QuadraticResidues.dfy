/** Euler's criterion modulo an odd prime, and what follows from it: a non-residue exists,
    -1 is a non-residue when p = 3 (mod 4), and 2 is one when p = 5 (mod 8). */
module QuadraticResidues {
  import opened Arithmetic
  import opened PrimeField

  ghost predicate IsRoot(y: int, x: int, p: nat)
    requires p > 0
  {
    Cong(y * y, x, p)
  }

  ghost predicate IsSquare(x: int, p: nat)
    requires p > 0
  {
    exists y :: IsRoot(y, x, p)
  }

  function Half(p: nat): nat
    requires p > 0
  {
    (p - 1) / 2
  }

  lemma SquaresAgree(y: int, z: int, p: nat)
    requires IsPrime(p) && Cong(y * y, z * z, p)
    ensures (z - y) % p == 0 || (z + y) % p == 0
  {
    CongSub(z * z, y * y, y * y, y * y, p);
    SmallMod(0, p);
    assert z * z - y * y == (z - y) * (z + y);
    EuclidLemma(z - y, z + y, p);
  }

  lemma MultipleBelowDouble(n: nat, p: nat)
    requires p > 0 && n < 2 * p && n % p == 0
    ensures n == 0 || n == p
  {
    if n >= p {
      CongIntro(n - p, n, p, -1);
      SmallMod(n - p, p);
    } else {
      SmallMod(n, p);
    }
  }

  /** The two square roots of a residue are negatives of each other. */
  lemma RootsUpToSign(s: nat, t: nat, p: nat)
    requires IsPrime(p) && s < p && t < p && Cong(s * s, t * t, p)
    ensures s == t || s + t == p
  {
    SquaresAgree(s, t, p);
    if (t - s) % p == 0 {
      CongIntro(t, s, p, (t - s) / p);
      CongCanonical(s, t, p);
    } else {
      MultipleBelowDouble(t + s, p);
    }
  }

  lemma RootsOfOne(y: int, p: nat)
    requires IsPrime(p) && (y * y) % p == 1
    ensures y % p == 1 || y % p == p - 1
  {
    CongMod(y, p);
    CongMul(y % p, y, y % p, y, p);
    SmallMod(1, p);
    RootsUpToSign(y % p, 1, p);
  }

  lemma MinusOneSquared(y: int, p: nat)
    requires p > 1 && y % p == p - 1
    ensures (y * y) % p == 1
  {
    SmallMod(p - 1, p);
    CongMul(y, p - 1, y, p - 1, p);
    assert (p - 1) * (p - 1) == 1 + (p - 2) * p;
    CongIntro((p - 1) * (p - 1), 1, p, p - 2);
    SmallMod(1, p);
  }

  lemma HalfPower(x: int, p: nat)
    requires IsOddPrime(p)
    ensures Pow(x, Half(p)) * Pow(x, Half(p)) == Pow(x, p - 1)
    ensures Half(p) >= 1 && p - 1 == 2 * Half(p)
  {
    OddPrimeIsOdd(p);
    PowAdd(x, Half(p), Half(p));
  }

  /** The Euler power of a unit is 1 or -1. */
  lemma EulerPowerIsSign(x: int, p: nat)
    requires IsOddPrime(p) && x % p != 0
    ensures Pow(x, Half(p)) % p == 1 || Pow(x, Half(p)) % p == p - 1
  {
    HalfPower(x, p);
    Fermat(x, p);
    RootsOfOne(Pow(x, Half(p)), p);
  }

  lemma EulerPowerOfSquare(y: int, p: nat)
    requires IsOddPrime(p) && (y * y) % p != 0
    ensures Pow(y * y, Half(p)) % p == 1
  {
    PowProduct(y, y, Half(p));
    HalfPower(y, p);
    if y % p == 0 {
      SmallMod(0, p);
      CongMul(y, 0, y, y, p);
    }
    Fermat(y, p);
  }

  lemma SquareHasEulerPowerOne(x: int, p: nat)
    requires IsOddPrime(p) && x % p != 0 && IsSquare(x, p)
    ensures Pow(x, Half(p)) % p == 1
  {
    var y :| IsRoot(y, x, p);
    EulerPowerOfSquare(y, p);
    CongPow(y * y, x, Half(p), p);
  }

  // ----- the converse, by counting ---------------------------------------------------

  /** The squares of 1..n. */
  ghost function SquaresUpTo(n: nat, p: nat): set<int>
    requires p > 0
  {
    if n == 0 then {} else SquaresUpTo(n - 1, p) + {(n * n) % p}
  }

  lemma {:induction false} SquaresUpToMembers(n: nat, p: nat)
    requires IsOddPrime(p) && n <= Half(p)
    ensures forall x :: x in SquaresUpTo(n, p) ==>
      0 <= x < p && Pow(x, Half(p)) % p == 1 && exists y :: 1 <= y <= n && x == (y * y) % p
  {
    if n != 0 {
      OddPrimeIsOdd(p);
      SquaresUpToMembers(n - 1, p);
      SmallMod(n, p);
      if (n * n) % p == 0 { EuclidLemma(n, n, p); }
      EulerPowerOfSquare(n, p);
      CongMod(n * n, p);
      CongPow((n * n) % p, n * n, Half(p), p);
    }
  }

  lemma {:induction false} SquaresUpToSize(n: nat, p: nat)
    requires IsOddPrime(p) && n <= Half(p)
    ensures |SquaresUpTo(n, p)| == n
  {
    if n != 0 {
      SquaresUpToSize(n - 1, p);
      SquaresUpToMembers(n - 1, p);
      if (n * n) % p in SquaresUpTo(n - 1, p) {
        var y :| 1 <= y <= n - 1 && (n * n) % p == (y * y) % p;
        OddPrimeIsOdd(p);
        RootsUpToSign(y, n, p);
        assert false;
      }
    }
  }

  lemma EulerPowerOneIsSquare(x: int, p: nat)
    requires IsOddPrime(p) && Pow(x, Half(p)) % p == 1
    ensures IsSquare(x, p)
  {
    var h, s, r := Half(p), SquaresUpTo(Half(p), p), x % p;
    SquaresUpToMembers(h, p);
    CongMod(x, p);
    if r in s {
      var y :| 1 <= y <= h && r == (y * y) % p;
      assert IsRoot(y, x, p);
    } else {
      OddPrimeIsOdd(p);
      CongPow(r, x, h, p);
      SquaresUpToSize(h, p);
      FewRootsOfUnity(s + {r}, h, p);
    }
  }

  /** Euler's criterion. */
  lemma EulerCriterion(x: int, p: nat)
    requires IsOddPrime(p) && x % p != 0
    ensures IsSquare(x, p) <==> Pow(x, Half(p)) % p == 1
    ensures !IsSquare(x, p) <==> Pow(x, Half(p)) % p == p - 1
  {
    EulerPowerIsSign(x, p);
    OddPrimeIsOdd(p);
    if IsSquare(x, p) { SquareHasEulerPowerOne(x, p); }
    if Pow(x, Half(p)) % p == 1 { EulerPowerOneIsSquare(x, p); }
  }

  lemma EulerPowerOfZero(x: int, p: nat)
    requires IsOddPrime(p) && x % p == 0
    ensures Pow(x, Half(p)) % p == 0 && IsSquare(x, p)
  {
    HalfPower(x, p);
    SmallMod(0, p);
    CongMul(x, 0, Pow(x, Half(p) - 1), Pow(x, Half(p) - 1), p);
    assert IsRoot(0, x, p);
  }

  /** The test the non-residue searches run is exactly "has no square root". */
  lemma NonResidueTest(z: int, p: nat)
    requires IsOddPrime(p)
    ensures ModPow(z, Half(p), p) == p - 1 <==> !IsSquare(z, p)
  {
    OddPrimeIsOdd(p);
    if z % p == 0 { EulerPowerOfZero(z, p); } else { EulerCriterion(z, p); }
  }

  /** A non-residue exists below p (and 1 is not one). */
  lemma NonResidueExists(p: nat) returns (z: nat)
    requires IsOddPrime(p)
    ensures 2 <= z < p && !IsSquare(z, p)
  {
    OddPrimeIsOdd(p);
    var u := AllUnits(p);
    if forall x :: x in u ==> Pow(x, Half(p)) % p == 1 {
      FewRootsOfUnity(u, Half(p), p);
      assert false;
    }
    z :| z in u && Pow(z, Half(p)) % p != 1;
    SmallMod(z, p);
    EulerCriterion(z, p);
    PowOfOne(Half(p));
    SmallMod(1, p);
  }

  // ----- the supplementary laws the fast paths use ------------------------------------

  lemma {:induction false} PowMinusOne(y: int, e: nat, p: nat)
    requires p > 1 && y % p == p - 1
    ensures Pow(y, e) % p == if e % 2 == 0 then 1 else p - 1
  {
    hide Pow;
    if e <= 1 {
      SmallPowers(y);
      SmallMod(1, p);
    } else {
      PowMinusOne(y, e - 2, p);
      TwoMoreFactors(y, e, p);
    }
  }

  lemma TwoMoreFactors(y: int, e: nat, p: nat)
    requires p > 1 && e >= 2 && y % p == p - 1
    ensures Pow(y, e) % p == Pow(y, e - 2) % p
  {
    hide Pow;
    MinusOneSquared(y, p);
    PowSquare(y);
    PowAdd(y, e - 2, 2);
    SameResidue(Pow(y, e - 2), Pow(y, 2), p);
  }

  lemma SmallPowers(y: int)
    ensures Pow(y, 0) == 1 && Pow(y, 1) == y
  {}

  /** Multiplying by a residue of 1 keeps the residue. */
  lemma SameResidue(a: int, u: int, p: nat)
    requires p > 1 && u % p == 1
    ensures (a * u) % p == a % p
  {
    SmallMod(1, p);
    CongScale(a, u, 1, p);
  }

  lemma MinusOneLaw(p: nat)
    requires IsOddPrime(p)
    ensures IsSquare(p - 1, p) <==> p % 4 == 1
  {
    hide Pow;
    OddPrimeIsOdd(p);
    SmallMod(p - 1, p);
    HalfParity(p);
    PowMinusOne(p - 1, Half(p), p);
    EulerCriterion(p - 1, p);
  }

  lemma HalfParity(p: nat)
    requires p % 2 == 1
    ensures Half(p) % 2 == 0 <==> p % 4 == 1
  {
    var k, r := p / 4, p % 4;
    var b := if r == 1 then 0 else 1;
    assert p == 4 * k + 2 * b + 1;
    DivModUnique(p - 1, 2, 2 * k + b, 0);
    DivModUnique(2 * k + b, 2, k, b);
  }

  /** A square root i of -1 has i^((p-1)/2) = -1 when p = 5 (mod 8). */
  lemma HalfPowerOfI(i: int, p: nat)
    requires IsPrime(p) && p % 8 == 5 && (i * i) % p == p - 1
    ensures Pow(i, Half(p)) % p == p - 1
  {
    var h := Half(p);
    var g := h / 2;
    assert h == 2 * g && g % 2 == 1;
    PowPower(i, 2, g);
    PowSquare(i);
    PowMinusOne(i * i, g, p);
  }

  /** (1+i)^2 = 2i, so 2i is a non-zero square. */
  lemma HalfPowerOfTwoI(i: int, p: nat)
    requires IsOddPrime(p) && (i * i) % p == p - 1
    ensures Pow(2 * i, Half(p)) % p == 1
  {
    var y := 1 + i;
    OddPrimeIsOdd(p);
    SmallMod(p - 1, p);
    assert y * y == 2 * i + 1 + i * i;
    CongAdd(2 * i + 1, 2 * i + 1, i * i, p - 1, p);
    CongIntro(2 * i + 1 + (p - 1), 2 * i, p, 1);
    OnePlusRootIsUnit(i, p);
    EulerPowerOfSquare(y, p);
    CongPow(y * y, 2 * i, Half(p), p);
  }

  /** Second supplementary law, the case the fast path relies on: with i*i = -1,
      1 = (2i)^((p-1)/2) = 2^((p-1)/2) * -1. */
  lemma TwoLaw(p: nat)
    requires IsPrime(p) && p % 8 == 5
    ensures !IsSquare(2, p)
  {
    MinusOneLaw(p);
    SmallMod(p - 1, p);
    var i :| IsRoot(i, p - 1, p);
    HalfPowerOfI(i, p);
    HalfPowerOfTwoI(i, p);
    var u, v := Pow(2, Half(p)), Pow(i, Half(p));
    PowProduct(2, i, Half(p));
    SmallMod(2, p);
    EulerCriterion(2, p);
    if u % p == 1 {
      SmallMod(1, p);
      CongMul(u, 1, v, p - 1, p);
    }
  }

  lemma OnePlusRootIsUnit(i: int, p: nat)
    requires IsPrime(p) && p > 2 && (i * i) % p == p - 1
    ensures ((1 + i) * (1 + i)) % p != 0
  {
    if ((1 + i) * (1 + i)) % p == 0 {
      EuclidLemma(1 + i, 1 + i, p);
      SmallMod(0, p); SmallMod(1, p); SmallMod(p - 1, p);
      CongSub(1 + i, 0, 1, 1, p);
      CongMul(i, -1, i, -1, p);
    }
  }
}
