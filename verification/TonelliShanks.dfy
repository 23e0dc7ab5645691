/** What one round of Tonelli-Shanks keeps, shared by the two loops in the repository. */
module TonelliShanks {
  import opened Arithmetic
  import opened PrimeField
  import opened QuadraticResidues

  // ----- p - 1 = q * 2^s -------------------------------------------------------------

  function OddPart(n: nat): (q: nat)
    requires n > 0
    ensures q > 0
  {
    if n % 2 == 0 then OddPart(n / 2) else n
  }

  function TwoAdicity(n: nat): nat
    requires n > 0
  {
    if n % 2 == 0 then 1 + TwoAdicity(n / 2) else 0
  }

  lemma {:induction false} OddPartSplits(n: nat)
    requires n > 0
    ensures n == OddPart(n) * Pow2(TwoAdicity(n)) && OddPart(n) % 2 == 1
  {
    if n % 2 == 0 {
      OddPartSplits(n / 2);
      var k := TwoAdicity(n / 2);
      assert Pow2(1 + k) == 2 * Pow2(k);
      DoubledFactor(OddPart(n / 2), Pow2(k));
    } else {
      assert Pow2(0) == 1;
    }
  }

  lemma DoubledFactor(q: int, e: int)
    ensures q * (2 * e) == 2 * (q * e)
  {}

  /** The Euler power of x is the power of x^q that the loop tracks. */
  lemma EulerPowerOfOddPart(x: int, p: nat)
    requires IsOddPrime(p)
    ensures var q, s := OddPart(p - 1), TwoAdicity(p - 1);
      s >= 1 && Pow(Pow(x, q), Pow2(s - 1)) == Pow(x, Half(p))
  {
    OddPrimeIsOdd(p);
    OddPartSplits(p - 1);
    var q, s := OddPart(p - 1), TwoAdicity(p - 1);
    assert Pow2(s) == 2 * Pow2(s - 1);
    DoubledFactor(q, Pow2(s - 1));
    PowPower(x, q, Pow2(s - 1));
  }

  // ----- repeated squaring -------------------------------------------------------------

  lemma FirstPower(t: int)
    ensures Pow(t, Pow2(0)) == t
  {
    PowSquare(t);
    assert Pow2(0) == 1;
  }

  lemma ZeroPower(e: nat)
    requires e > 0
    ensures Pow(0, e) == 0
  {}

  lemma PowSquareStep(t: int, j: nat, p: nat)
    requires p > 1
    ensures Pow((t * t) % p, Pow2(j)) % p == Pow(t, Pow2(j + 1)) % p
  {
    CongMod(t * t, p);
    CongPow((t * t) % p, t * t, Pow2(j), p);
    PowPower(t, 2, Pow2(j));
    PowSquare(t);
  }

  /** The least i with t^(2^i) = 1, or m when there is none below m. */
  function SquaringsToOne(t: nat, m: nat, p: nat): (i: nat)
    requires p > 0
    ensures i <= m
    decreases m
  {
    if t == 1 || m == 0 then 0 else 1 + SquaringsToOne(MulMod(t, t, p), m - 1, p)
  }

  lemma {:induction false} SquaringsToOneIsLeast(t: nat, m: nat, p: nat)
    requires p > 1 && t < p
    ensures var i := SquaringsToOne(t, m, p);
      && (forall j :: 0 <= j < i ==> Pow(t, Pow2(j)) % p != 1)
      && (i < m ==> Pow(t, Pow2(i)) % p == 1)
    decreases m
  {
    FirstPower(t);
    SmallMod(t, p);
    if t != 1 && m != 0 {
      var u := MulMod(t, t, p);
      SquaringsToOneIsLeast(u, m - 1, p);
      var i := SquaringsToOne(u, m - 1, p);
      forall j | 0 <= j < 1 + i ensures Pow(t, Pow2(j)) % p != 1 {
        if j != 0 { PowSquareStep(t, j - 1, p); }
      }
      PowSquareStep(t, i, p);
    }
  }

  function SquareTimes(b: nat, k: nat, p: nat): nat
    requires p > 0
    decreases k
  {
    if k == 0 then b else SquareTimes(MulMod(b, b, p), k - 1, p)
  }

  lemma {:induction false} SquareTimesIsPower(b: nat, k: nat, p: nat)
    requires p > 1
    ensures Cong(SquareTimes(b, k, p), Pow(b, Pow2(k)), p)
    ensures b < p ==> SquareTimes(b, k, p) < p
    decreases k
  {
    if k == 0 {
      PowSquare(b);
      assert Pow2(0) == 1;
    } else {
      SquareTimesIsPower(MulMod(b, b, p), k - 1, p);
      PowSquareStep(b, k - 1, p);
    }
  }

  // ----- the invariant of the outer loop ----------------------------------------------

  /** r^2 = x t, and the order of t divides 2^(m-1) while that of c is exactly 2^m. */
  ghost predicate LoopInvariant(x: int, m: nat, c: int, t: int, r: int, p: nat)
    requires p > 1
  {
    && m >= 1
    && Cong(r * r, x * t, p)
    && Pow(c, Pow2(m - 1)) % p == p - 1
    && Pow(t, Pow2(m - 1)) % p == 1
  }

  /** r'^2 = x t' whatever the factor b is. */
  lemma RootStep(x: int, t: int, r: int, b: int, t': int, r': int, p: nat)
    requires p > 1 && Cong(r * r, x * t, p)
    requires Cong(t', t * (b * b), p) && Cong(r', r * b, p)
    ensures Cong(r' * r', x * t', p)
  {
    CongMul(r', r * b, r', r * b, p);
    Regroup(r, b, r, b);
    CongMul(r * r, x * t, b * b, b * b, p);
    CongScale(x, t', t * (b * b), p);
    assert x * t * (b * b) == x * (t * (b * b));
  }

  lemma MinusOneTimesMinusOne(u: int, v: int, p: nat)
    requires p > 1 && u % p == p - 1 && v % p == p - 1
    ensures (u * v) % p == 1
  {
    SmallMod(p - 1, p);
    CongMul(u, p - 1, v, p - 1, p);
    assert (p - 1) * (p - 1) == 1 + (p - 2) * p;
    CongIntro((p - 1) * (p - 1), 1, p, p - 2);
    SmallMod(1, p);
  }

  /** c'^(2^(i-1)) is still -1. */
  lemma GeneratorStep(m: nat, i: nat, c: int, b: int, c': int, p: nat)
    requires p > 1 && 1 <= i < m && Pow(c, Pow2(m - 1)) % p == p - 1
    requires Cong(b, Pow(c, Pow2(m - i - 1)), p) && Cong(c', b * b, p)
    ensures Pow(c', Pow2(i - 1)) % p == p - 1
  {
    var e := Pow2(m - i - 1);
    CongPow(c', b * b, Pow2(i - 1), p);
    PowPower(b, 2, Pow2(i - 1));
    PowSquare(b);
    CongPow(b, Pow(c, e), Pow2(i), p);
    PowPower(c, e, Pow2(i));
    PowAdd(2, m - i - 1, i);
  }

  /** t^(2^(i-1)) is -1 when i is least, and multiplying by c' makes it 1. */
  lemma ResidueStep(i: nat, t: int, c': int, t': int, p: nat)
    requires IsPrime(p) && i >= 1
    requires Pow(t, Pow2(i)) % p == 1 && Pow(t, Pow2(i - 1)) % p != 1
    requires Pow(c', Pow2(i - 1)) % p == p - 1 && Cong(t', t * c', p)
    ensures Pow(t', Pow2(i - 1)) % p == 1
  {
    var e := Pow2(i - 1);
    PowPower(t, e, 2);
    PowSquare(Pow(t, e));
    assert Pow2(i) == e * 2;
    RootsOfOne(Pow(t, e), p);
    CongPow(t', t * c', e, p);
    PowProduct(t, c', e);
    MinusOneTimesMinusOne(Pow(t, e), Pow(c', e), p);
  }

  /** One round keeps the invariant with m lowered to i. */
  lemma RoundKeepsInvariant(x: int, m: nat, i: nat, c: int, t: int, r: int, b: int,
                            c': int, t': int, r': int, p: nat)
    requires IsPrime(p) && LoopInvariant(x, m, c, t, r, p) && 1 <= i < m
    requires Pow(t, Pow2(i)) % p == 1 && Pow(t, Pow2(i - 1)) % p != 1
    requires Cong(b, Pow(c, Pow2(m - i - 1)), p)
    requires Cong(c', b * b, p) && Cong(t', t * (b * b), p) && Cong(r', r * b, p)
    ensures LoopInvariant(x, i, c', t', r', p)
  {
    RootStep(x, t, r, b, t', r', p);
    GeneratorStep(m, i, c, b, c', p);
    CongScale(t, c', b * b, p);
    ResidueStep(i, t, c', t', p);
  }

  /** Below m, the search always finds the power that reaches 1. */
  lemma SearchSucceeds(x: int, m: nat, c: int, t: nat, r: int, p: nat)
    requires IsPrime(p) && LoopInvariant(x, m, c, t, r, p) && t < p && t != 1
    ensures t != 0
    ensures var i := SquaringsToOne(t, m, p);
      1 <= i < m && Pow(t, Pow2(i)) % p == 1 && Pow(t, Pow2(i - 1)) % p != 1
  {
    SquaringsToOneIsLeast(t, m, p);
    var i := SquaringsToOne(t, m, p);
    FirstPower(t);
    SmallMod(t, p);
    ZeroPower(Pow2(m - 1));
    SmallMod(0, p);
  }

  /** The state the loop starts from, for a square x and any non-residue z. */
  lemma InitialInvariant(x: int, z: int, c: int, t: int, r: int, p: nat)
    requires IsOddPrime(p) && x % p != 0 && IsSquare(x, p) && !IsSquare(z, p)
    requires Cong(c, Pow(z, OddPart(p - 1)), p) && Cong(t, Pow(x, OddPart(p - 1)), p)
    requires Cong(r, Pow(x, (OddPart(p - 1) + 1) / 2), p)
    ensures LoopInvariant(x, TwoAdicity(p - 1), c, t, r, p)
  {
    var q, s := OddPart(p - 1), TwoAdicity(p - 1);
    OddPartSplits(p - 1);
    EulerPowerOfOddPart(z, p);
    EulerPowerOfOddPart(x, p);
    CongPow(c, Pow(z, q), Pow2(s - 1), p);
    CongPow(t, Pow(x, q), Pow2(s - 1), p);
    NonResidueTest(z, p);
    EulerCriterion(x, p);
    InitialRoot(x, q, t, r, p);
  }

  /** x^((q+1)/2) squared is x * x^q. */
  lemma InitialRoot(x: int, q: nat, t: int, r: int, p: nat)
    requires p > 1 && q % 2 == 1
    requires Cong(t, Pow(x, q), p) && Cong(r, Pow(x, (q + 1) / 2), p)
    ensures Cong(r * r, x * t, p)
  {
    var e := (q + 1) / 2;
    assert q + 1 == e + e;
    CongMul(r, Pow(x, e), r, Pow(x, e), p);
    PowAdd(x, e, e);
    CongScale(x, t, Pow(x, q), p);
  }
}
