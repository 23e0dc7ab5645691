/** Which of the two square roots the Tonelli-Shanks loops return. */
module RootChoice {
  import opened Arithmetic
  import opened PrimeField
  import opened QuadraticResidues
  import opened TonelliShanks

  /** The factor x^((q+1)/2) that every candidate has. */
  function Base(x: int, q: nat): int { Pow(x, (q + 1) / 2) }

  /** r = x^((q+1)/2) * z^(q k) modulo p. */
  ghost predicate HasForm(r: int, x: int, z: int, q: nat, k: nat, p: nat)
    requires p > 0
  {
    Cong(r, Base(x, q) * Pow(z, q * k), p)
  }

  /** The same for some k below 2^n. */
  ghost predicate HasLowForm(r: int, x: int, z: int, q: nat, n: nat, p: nat)
    requires p > 0
  {
    exists k: nat :: k < Pow2(n) && HasForm(r, x, z, q, k, p)
  }

  /** Of the two roots of x: for p = 3 mod 4 the one that is a square itself; for p = 1 mod 4, with
      p - 1 = q 2^s and the non-residue z, the one that is x^((q+1)/2) z^(q k) for a k below
      2^(s-1). The root 0 has no sign. */
  ghost predicate ChosenRoot(root: int, x: int, z: int, p: nat)
    requires p > 1
  {
    if p % 4 == 3 then IsSquare(root, p)
    else
      var q, s := OddPart(p - 1), TwoAdicity(p - 1);
      x % p != 0 ==> s >= 1 && HasLowForm(root, x, z, q, s - 1, p)
  }

  // ----- the choice is one of one -------------------------------------------------------------

  lemma RootsAgree(r: nat, r': nat, x: int, p: nat)
    requires IsPrime(p) && r < p && r' < p && IsRoot(r, x, p) && IsRoot(r', x, p)
    ensures r == r' || r + r' == p
  {
    RootsUpToSign(r, r', p);
  }

  /** The predicate fixes the root: no two roots of x meet it. */
  lemma ChosenRootUnique(x: int, z: int, p: nat, r: nat, r': nat)
    requires IsOddPrime(p) && (p % 4 == 1 ==> !IsSquare(z, p))
    requires r < p && r' < p && IsRoot(r, x, p) && IsRoot(r', x, p)
    requires ChosenRoot(r, x, z, p) && ChosenRoot(r', x, z, p)
    ensures r == r'
  {
    hide Pow, IsRoot, IsSquare, IsPrime, ChosenRoot;
    OneOrThree(p);
    RootsAgree(r, r', x, p);
    if r + r' == p { ChosenNotOpposite(x, z, p, r, r'); }
  }

  lemma ChosenNotOpposite(x: int, z: int, p: nat, r: nat, r': nat)
    requires IsOddPrime(p) && (p % 4 == 1 || p % 4 == 3) && (p % 4 == 1 ==> !IsSquare(z, p))
    requires r < p && r' < p && IsRoot(r, x, p)
    requires ChosenRoot(r, x, z, p) && ChosenRoot(r', x, z, p)
    ensures r + r' != p
  {
    hide Pow, IsRoot, IsSquare, IsPrime, HasLowForm, OddPart, TwoAdicity;
    if r + r' == p {
      if p % 4 == 3 {
        OppositeSquares(r, r', p);
      } else {
        RootOfUnit(r, r', x, p);
        FormsNotOpposite(x, z, p, r, r');
      }
    }
  }

  lemma FormsNotOpposite(x: int, z: int, p: nat, r: nat, r': nat)
    requires IsOddPrime(p) && p % 4 == 1 && !IsSquare(z, p) && x % p != 0 && TwoAdicity(p - 1) >= 1
    requires HasLowForm(r, x, z, OddPart(p - 1), TwoAdicity(p - 1) - 1, p)
    requires HasLowForm(r', x, z, OddPart(p - 1), TwoAdicity(p - 1) - 1, p)
    ensures r + r' != p
  {
    hide Pow, HasForm, IsSquare, OddPart, TwoAdicity;
    var q, s := OddPart(p - 1), TwoAdicity(p - 1);
    var k: nat :| k < Pow2(s - 1) && HasForm(r, x, z, q, k, p);
    var k': nat :| k' < Pow2(s - 1) && HasForm(r', x, z, q, k', p);
    if r + r' == p {
      if k <= k' { OppositeForms(x, z, p, r, r', k, k'); } else { OppositeForms(x, z, p, r', r, k', k); }
    }
  }

  /** For p = 3 mod 4 a unit and its negative are not both squares. */
  lemma OppositeSquares(r: nat, r': nat, p: nat)
    requires IsOddPrime(p) && p % 4 == 3 && 0 < r < p && r + r' == p && IsSquare(r, p)
    ensures !IsSquare(r', p)
  {
    hide Pow, IsSquare;
    SmallMod(r, p);
    SmallMod(r', p);
    EulerCriterion(r, p);
    EulerCriterion(r', p);
    NegativeHalfPower(r, r', p);
  }

  lemma NegativeHalfPower(r: nat, r': nat, p: nat)
    requires IsOddPrime(p) && p % 4 == 3 && r + r' == p && Pow(r, Half(p)) % p == 1
    ensures Pow(r', Half(p)) % p == p - 1
  {
    hide Pow;
    var h := Half(p);
    OddPrimeIsOdd(p);
    HalfParity(p);
    SmallMod(p - 1, p);
    PowMinusOne(p - 1, h, p);
    Negated(r, r', p);
    CongPow((p - 1) * r, r', h, p);
    PowProduct(p - 1, r, h);
    SameResidue(Pow(p - 1, h), Pow(r, h), p);
  }

  lemma Negated(r: nat, r': nat, p: nat)
    requires p > 0 && r + r' == p
    ensures Cong((p - 1) * r, r', p)
  {
    NegatedAlgebra(r, p);
    CongIntro((p - 1) * r, r', p, r - 1);
  }

  lemma NegatedAlgebra(r: int, p: int)
    ensures (p - 1) * r == p - r + (r - 1) * p
  {}

  /** Two different roots are units, and so is x. */
  lemma RootOfUnit(r: nat, r': nat, x: int, p: nat)
    requires IsOddPrime(p) && r < p && r' < p && r + r' == p && IsRoot(r, x, p)
    ensures x % p != 0
  {
    SmallMod(r, p);
    if x % p == 0 { EuclidLemma(r, r, p); }
  }

  /** z^(q d) is never -1 for d below 2^(s-1). */
  lemma OppositeForms(x: int, z: int, p: nat, r: nat, r': nat, k: nat, k': nat)
    requires IsOddPrime(p) && p % 4 == 1 && !IsSquare(z, p) && x % p != 0 && TwoAdicity(p - 1) >= 1
    requires r + r' == p && k <= k' < Pow2(TwoAdicity(p - 1) - 1)
    requires HasForm(r, x, z, OddPart(p - 1), k, p)
    ensures !HasForm(r', x, z, OddPart(p - 1), k', p)
  {
    hide Pow, Base, HasForm;
    var q, d := OddPart(p - 1), k' - k;
    var u, v := Base(x, q) * Pow(z, q * k), Pow(z, q * d);
    UnitForm(x, z, q, k, p);
    SmallPowerNotMinusOne(z, d, p);
    if HasForm(r', x, z, q, k', p) {
      FormsFactor(x, z, q, k, k', r, r', p);
      FormsApart(u, v, r, r', p);
      CancelSum(u, v, p);
    }
  }

  lemma FormsFactor(x: int, z: int, q: nat, k: nat, k': nat, r: int, r': int, p: nat)
    requires p > 0 && k <= k' && HasForm(r, x, z, q, k, p) && HasForm(r', x, z, q, k', p)
    ensures Cong(r, Base(x, q) * Pow(z, q * k), p)
    ensures Cong(r', (Base(x, q) * Pow(z, q * k)) * Pow(z, q * (k' - k)), p)
  {
    hide Pow, Base;
    SumFactor(q, k, k' - k);
    PowAdd(z, q * k, q * (k' - k));
    FactorThrough(Base(x, q), Pow(z, q * k), Pow(z, q * (k' - k)));
  }

  lemma FactorThrough(a: int, b: int, c: int)
    ensures a * (b * c) == (a * b) * c
  {}

  /** u v = r' = -r = -u modulo p. */
  lemma FormsApart(u: int, v: int, r: nat, r': nat, p: nat)
    requires p > 1 && r + r' == p && Cong(r, u, p) && Cong(r', u * v, p)
    ensures (u * (v + 1)) % p == 0
  {
    CongAdd(r, u, r', u * v, p);
    assert u * (v + 1) == u + u * v;
    CongZero(r + r', 1, p);
    SmallMod(0, p);
  }

  lemma CancelSum(u: int, v: int, p: nat)
    requires IsPrime(p) && (u * (v + 1)) % p == 0 && u % p != 0
    ensures v % p == p - 1
  {
    EuclidLemma(u, v + 1, p);
    var m := (v + 1) / p;
    assert v + 1 == m * p;
    DivModUnique(v, p, m - 1, p - 1);
  }

  lemma UnitForm(x: int, z: int, q: nat, k: nat, p: nat)
    requires IsOddPrime(p) && x % p != 0 && !IsSquare(z, p)
    ensures (Base(x, q) * Pow(z, q * k)) % p != 0
  {
    hide Pow;
    if z % p == 0 { EulerPowerOfZero(z, p); }
    PowNonZero(x, (q + 1) / 2, p);
    PowNonZero(z, q * k, p);
    if (Base(x, q) * Pow(z, q * k)) % p == 0 { EuclidLemma(Base(x, q), Pow(z, q * k), p); }
  }

  lemma SmallPowerNotMinusOne(z: int, d: nat, p: nat)
    requires IsOddPrime(p) && !IsSquare(z, p) && TwoAdicity(p - 1) >= 1 && d < Pow2(TwoAdicity(p - 1) - 1)
    ensures Pow(z, OddPart(p - 1) * d) % p != p - 1
  {
    hide Pow;
    OddPrimeIsOdd(p);
    SmallMod(1, p);
    if d == 0 {
      SmallPowers(z);
      assert OddPart(p - 1) * d == 0;
    } else {
      PositivePowerNotMinusOne(z, d, p);
    }
  }

  /** Otherwise the even power 2^(s-1-j) of it, j the 2-adicity of d, would be 1; but it is an odd
      power of z^(q 2^(s-1)), that is of -1. */
  lemma PositivePowerNotMinusOne(z: int, d: nat, p: nat)
    requires IsOddPrime(p) && !IsSquare(z, p) && TwoAdicity(p - 1) >= 1 && 0 < d < Pow2(TwoAdicity(p - 1) - 1)
    ensures Pow(z, OddPart(p - 1) * d) % p != p - 1
  {
    hide Pow, OddPart, TwoAdicity;
    var q, n := OddPart(p - 1), TwoAdicity(p - 1) - 1;
    OddPartSplits(d);
    var o, j := OddPart(d), TwoAdicity(d);
    SmallerAdicity(d, n);
    var e, y, w := Pow2(n - j), Pow(z, q * d), Pow(z, q * Pow2(n));
    GeneratorTop(z, p);
    PowMinusOne(w, o, p);
    PowAdd(2, j, n - j);
    SameExponent(q, o, Pow2(j), e);
    PowTwice(z, q * d, e, q * Pow2(n), o);
    OddPrimeIsOdd(p);
    if y % p == p - 1 {
      EvenPower(n - j);
      PowMinusOne(y, e, p);
    }
  }

  /** z^(q 2^(s-1)) = -1 for a non-residue z. */
  lemma GeneratorTop(z: int, p: nat)
    requires IsOddPrime(p) && !IsSquare(z, p)
    ensures TwoAdicity(p - 1) >= 1 && Pow(z, OddPart(p - 1) * Pow2(TwoAdicity(p - 1) - 1)) % p == p - 1
  {
    hide Pow;
    EulerPowerOfOddPart(z, p);
    PowPower(z, OddPart(p - 1), Pow2(TwoAdicity(p - 1) - 1));
    if z % p == 0 { EulerPowerOfZero(z, p); }
    EulerCriterion(z, p);
  }

  lemma PowTwice(z: int, m: nat, b: nat, n: nat, o: nat)
    requires m * b == n * o
    ensures Pow(Pow(z, m), b) == Pow(Pow(z, n), o)
  {
    hide Pow;
    PowPower(z, m, b);
    PowPower(z, n, o);
  }

  lemma SameExponent(q: int, o: int, a: int, b: int)
    ensures (q * (o * a)) * b == (q * (a * b)) * o
  {
    assert (o * a) * b == (a * b) * o;
    assert (q * (o * a)) * b == q * ((o * a) * b) && (q * (a * b)) * o == q * ((a * b) * o);
  }

  lemma EvenPower(n: nat)
    requires n >= 1
    ensures Pow2(n) % 2 == 0
  {}

  lemma SmallerAdicity(d: nat, n: nat)
    requires 0 < d < Pow2(n)
    ensures TwoAdicity(d) < n
  {
    hide Pow;
    OddPartSplits(d);
    var j := TwoAdicity(d);
    if j >= n {
      PowAdd(2, n, j - n);
      PowPositive(2, n);
      PowPositive(2, j - n);
      AtLeastFactor(OddPart(d), Pow2(n), Pow2(j - n));
    }
  }

  lemma AtLeastFactor(o: nat, a: nat, c: nat)
    requires o >= 1 && c >= 1
    ensures o * (a * c) >= a
  {
    assert a * c == a + a * (c - 1);
    assert o * (a * c) == a * c + (o - 1) * (a * c);
    assert a * (c - 1) >= 0 && (o - 1) * (a * c) >= 0;
  }

  // ----- what the loops keep ----------------------------------------------------------------------

  /** While the order bound is m: c = z^(q 2^(s-m)), and r has the form with k below 2^(s-m). */
  ghost predicate Tracks(x: int, z: int, q: nat, s: nat, m: nat, c: int, r: int, p: nat)
    requires p > 0
  {
    && 1 <= m <= s
    && Cong(c, Pow(z, q * Pow2(s - m)), p)
    && HasLowForm(r, x, z, q, s - m, p)
  }

  lemma TracksAtStart(x: int, z: int, q: nat, s: nat, c: int, r: int, p: nat)
    requires p > 0 && s >= 1 && Cong(c, Pow(z, q), p) && Cong(r, Base(x, q), p)
    ensures Tracks(x, z, q, s, s, c, r, p)
  {
    NoSteps(z, q);
    assert q * Pow2(s - s) == q && q * 0 == 0;
    assert HasForm(r, x, z, q, 0, p);
  }

  lemma NoSteps(z: int, q: nat)
    ensures Pow2(0) == 1 && Pow(z, 0) == 1
  {}

  /** One round, with b = c^(2^(m-i-1)). */
  lemma RoundTracks(x: int, z: int, q: nat, s: nat, m: nat, i: nat, c: int, r: int, b: int, c': int, r': int, p: nat)
    requires p > 0 && Tracks(x, z, q, s, m, c, r, p) && 1 <= i < m
    requires Cong(b, Pow(c, Pow2(m - i - 1)), p) && Cong(c', b * b, p) && Cong(r', r * b, p)
    ensures Tracks(x, z, q, s, i, c', r', p)
  {
    hide Pow;
    var e, f := Pow2(s - m), Pow2(s - i - 1);
    PowAdd(2, s - m, m - i - 1);
    CongPow(c, Pow(z, q * e), Pow2(m - i - 1), p);
    PowPower(z, q * e, Pow2(m - i - 1));
    assert q * e * Pow2(m - i - 1) == q * f by { FactorThrough(q, e, Pow2(m - i - 1)); }
    assert Cong(b, Pow(z, q * f), p);
    Doubling(s - i - 1);
    CongMul(b, Pow(z, q * f), b, Pow(z, q * f), p);
    PowAdd(z, q * f, q * f);
    assert q * f + q * f == q * Pow2(s - i) by { TwiceFactor(q, f); }
    var k: nat :| k < e && HasForm(r, x, z, q, k, p);
    CongMul(r, Base(x, q) * Pow(z, q * k), b, Pow(z, q * f), p);
    PowAdd(z, q * k, q * f);
    FactorThrough(Base(x, q), Pow(z, q * k), Pow(z, q * f));
    assert q * k + q * f == q * (k + f) by { SumFactor(q, k, f); }
    assert HasForm(r', x, z, q, k + f, p);
    Pow2Grows(s - m, s - i - 1);
  }

  lemma TwiceFactor(q: int, f: int)
    ensures q * f + q * f == q * (2 * f)
  {}

  lemma SumFactor(q: int, k: int, f: int)
    ensures q * k + q * f == q * (k + f)
  {}

  lemma Doubling(n: nat)
    ensures Pow2(n + 1) == 2 * Pow2(n)
  {}

  /** Where a loop ends, r is the chosen root. */
  lemma TrackedIsChosen(x: int, z: int, m: nat, c: int, r: int, p: nat)
    requires IsOddPrime(p) && p % 4 == 1
    requires Tracks(x, z, OddPart(p - 1), TwoAdicity(p - 1), m, c, r, p)
    ensures ChosenRoot(r, x, z, p)
  {
    hide Pow, HasForm;
    var q, s := OddPart(p - 1), TwoAdicity(p - 1);
    var k: nat :| k < Pow2(s - m) && HasForm(r, x, z, q, k, p);
    Pow2Grows(s - m, s - 1);
  }

  lemma Pow2Grows(a: nat, b: nat)
    requires a <= b
    ensures Pow2(a) <= Pow2(b)
  {
    hide Pow;
    PowAdd(2, a, b - a);
    PowPositive(2, a);
    PowPositive(2, b - a);
    AtLeast(Pow2(a), Pow2(b - a));
  }

  lemma AtLeast(a: nat, c: nat)
    requires c >= 1
    ensures a * c >= a
  {
    assert a * c == a + a * (c - 1);
  }

  /** For p = 3 mod 4, x^((p+1)/4) is a square with x. */
  lemma FastRootIsSquare(x: int, p: nat)
    requires p > 1 && IsSquare(x, p)
    ensures IsSquare(ModPow(x, (p + 1) / 4, p), p)
  {
    hide Pow;
    var e, y: int :| e == (p + 1) / 4 && IsRoot(y, x, p);
    CongPow(y * y, x, e, p);
    PowProduct(y, y, e);
    CongMod(Pow(x, e), p);
    assert IsRoot(Pow(y, e), ModPow(x, e, p), p);
  }
}
