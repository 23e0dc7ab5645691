/** modular.rs: the modular operations and the Fp2 operations on values of any size, as the
    handlers compute them from operands that need not be reduced. */
module Modular {
  import opened Wrappers
  import opened Arithmetic
  import opened PrimeField
  import opened QuadraticResidues
  import Euclid

  /** The two ways an operation stops: the error the handler returns, and the panic of a
      `BigUint` subtraction below zero. */
  datatype Failure = NoInverse | Underflow

  function AddMod(a: nat, b: nat, p: nat): nat
    requires p > 0
  {
    (a + b) % p
  }

  function SubMod(a: nat, b: nat, p: nat): Result<nat, Failure>
    requires p > 0
  {
    if a >= b then Ok((a - b) % p)
    else if p + a >= b then Ok((p + a - b) % p)
    else Err(Underflow)
  }

  function DivMod(a: nat, b: nat, p: nat): Result<nat, Failure>
    requires p > 0
  {
    match Euclid.ModInv(b, p)
    case None => Err(NoInverse)
    case Some(inv) => Ok(MulMod(a, inv, p))
  }

  /** Subtraction is the difference modulo p exactly while b <= a + p; beyond, it panics. */
  lemma SubModExact(a: nat, b: nat, p: nat)
    requires p > 0
    ensures SubMod(a, b, p).Ok? <==> b <= a + p
    ensures SubMod(a, b, p).Ok? ==> SubMod(a, b, p).value == (a - b) % p
  {
    CongIntro(p + a - b, a - b, p, 1);
  }

  /** Division succeeds exactly on the operands coprime to the modulus, and times b it
      gives back a. */
  lemma DivThenMul(a: nat, b: nat, p: nat)
    requires p > 1
    ensures DivMod(a, b, p).Ok? <==> Euclid.Coprime(b, p)
    ensures var q := DivMod(a, b, p); q.Ok? ==> q.value < p && MulMod(q.value, b, p) == a % p
  {
    Euclid.ModInvCorrect(b, p);
    var q := DivMod(a, b, p);
    if q.Ok? {
      var v := Euclid.ModInv(b, p).value;
      CongMod(a * v, p);
      CongMul(q.value, a * v, b, b, p);
      SmallMod(1, p);
      CongScale(a, b * v, 1, p);
      assert a * v * b == a * (b * v);
    }
  }

  // ----- Fp2 = Fp[X]/(X^2 + 1) ----------------------------------------------------------

  datatype Fp2 = Fp2(c0: nat, c1: nat)

  function DivCeil(a: nat, b: nat): nat
    requires b > 0
  {
    if a % b == 0 then a / b else a / b + 1
  }

  lemma DivCeilCovers(a: nat, b: nat)
    requires b > 0
    ensures DivCeil(a, b) * b >= a
  {
    assert a == a / b * b + a % b;
    assert (a / b + 1) * b == a / b * b + b;
  }

  /** pre - neg, lifted by enough multiples of p when it is negative. */
  function DifferenceMod(pre: nat, neg: nat, p: nat): (r: nat)
    requires p > 0
    ensures r < p
  {
    if pre >= neg then (pre - neg) % p
    else
      DivCeilCovers(neg - pre, p);
      (DivCeil(neg - pre, p) * p + pre - neg) % p
  }

  lemma DifferenceModIsDifference(pre: nat, neg: nat, p: nat)
    requires p > 0
    ensures Cong(DifferenceMod(pre, neg, p), pre - neg, p)
  {
    if pre >= neg {
      CongMod(pre - neg, p);
    } else {
      var k := DivCeil(neg - pre, p);
      CongMod(k * p + pre - neg, p);
      CongIntro(k * p + pre - neg, pre - neg, p, k);
    }
  }

  function Fp2Mul(a: Fp2, b: Fp2, p: nat): Fp2
    requires p > 0
  {
    Fp2(DifferenceMod(a.c0 * b.c0, a.c1 * b.c1, p), (a.c0 * b.c1 + a.c1 * b.c0) % p)
  }

  function Fp2Add(a: Fp2, b: Fp2, p: nat): Fp2
    requires p > 0
  {
    Fp2((a.c0 + b.c0) % p, (a.c1 + b.c1) % p)
  }

  function Fp2Sub(a: Fp2, b: Fp2, p: nat): Result<Fp2, Failure>
    requires p > 0
  {
    match (SubMod(a.c0, b.c0, p), SubMod(a.c1, b.c1, p))
    case (Ok(r0), Ok(r1)) => Ok(Fp2(r0, r1))
    case _ => Err(Underflow)
  }

  function Norm(b: Fp2, p: nat): nat
    requires p > 0
  {
    (b.c0 * b.c0 + b.c1 * b.c1) % p
  }

  /** The inverse (b0 - b1 X) / norm, given 1 / norm. */
  function Fp2Inverse(b: Fp2, inv: nat, p: nat): Fp2
    requires p > 0 && b.c1 <= p
  {
    var conj1 := if b.c1 == 0 then 0 else (p - b.c1) % p;
    Fp2(MulMod(b.c0, inv, p), MulMod(conj1, inv, p))
  }

  function Fp2Div(a: Fp2, b: Fp2, p: nat): Result<Fp2, Failure>
    requires p > 0
  {
    match Euclid.ModInv(Norm(b, p), p)
    case None => Err(NoInverse)
    case Some(inv) =>
      if b.c1 > p then Err(Underflow) else Ok(Fp2Mul(a, Fp2Inverse(b, inv, p), p))
  }

  ghost predicate Reduced(a: Fp2, p: nat) { a.c0 < p && a.c1 < p }

  /** The product with X^2 = -1, for operands of any size; the coefficients come back
      reduced. */
  lemma Fp2MulIsProduct(a: Fp2, b: Fp2, p: nat)
    requires p > 0
    ensures var r := Fp2Mul(a, b, p);
      && Reduced(r, p)
      && Cong(r.c0, a.c0 * b.c0 - a.c1 * b.c1, p)
      && Cong(r.c1, a.c0 * b.c1 + a.c1 * b.c0, p)
  {
    DifferenceModIsDifference(a.c0 * b.c0, a.c1 * b.c1, p);
    CongMod(a.c0 * b.c1 + a.c1 * b.c0, p);
  }

  /** Subtraction stops exactly where one of the coefficients underflows. */
  lemma Fp2SubExact(a: Fp2, b: Fp2, p: nat)
    requires p > 0
    ensures var r := Fp2Sub(a, b, p);
      && (r.Ok? <==> b.c0 <= a.c0 + p && b.c1 <= a.c1 + p)
      && (r.Ok? ==> r.value == Fp2((a.c0 - b.c0) % p, (a.c1 - b.c1) % p))
  {
    SubModExact(a.c0, b.c0, p);
    SubModExact(a.c1, b.c1, p);
  }

  /** i * b = 1, as two congruences on the coefficients. */
  ghost predicate InverseOf(i: Fp2, b: Fp2, p: nat)
    requires p > 0
  {
    Cong(i.c0 * b.c0 - i.c1 * b.c1, 1, p) && Cong(i.c0 * b.c1 + i.c1 * b.c0, 0, p)
  }

  lemma Fp2InverseInverts(b: Fp2, inv: nat, p: nat)
    requires p > 1 && b.c1 <= p && (Norm(b, p) * inv) % p == 1
    ensures InverseOf(Fp2Inverse(b, inv, p), b, p)
  {
    var i := Fp2Inverse(b, inv, p);
    var conj1 := if b.c1 == 0 then 0 else (p - b.c1) % p;
    CongMod(p - b.c1, p);
    CongIntro(p - b.c1, 0 - b.c1, p, 1);
    assert Cong(conj1, 0 - b.c1, p);
    CongMod(b.c0 * inv, p);
    CongMod(conj1 * inv, p);
    CongMul(conj1, 0 - b.c1, inv, inv, p);
    InverseCoefficients(i.c0, i.c1, b.c0, b.c1, inv, p);
  }

  lemma InverseCoefficients(i0: int, i1: int, b0: int, b1: int, v: int, p: nat)
    requires p > 1 && Cong(i0, b0 * v, p) && Cong(i1, (-b1) * v, p)
    requires ((b0 * b0 + b1 * b1) % p * v) % p == 1
    ensures Cong(i0 * b0 - i1 * b1, 1, p) && Cong(i0 * b1 + i1 * b0, 0, p)
  {
    var n := b0 * b0 + b1 * b1;
    CongMul(i0, b0 * v, b0, b0, p);
    CongMul(i1, (-b1) * v, b1, b1, p);
    CongSub(i0 * b0, b0 * v * b0, i1 * b1, (-b1) * v * b1, p);
    NormIdentity(b0, b1, v);
    CongMod(n, p);
    CongMul(n % p, n, v, v, p);
    SmallMod(1, p);
    CongMul(i0, b0 * v, b1, b1, p);
    CongMul(i1, (-b1) * v, b0, b0, p);
    CongAdd(i0 * b1, b0 * v * b1, i1 * b0, (-b1) * v * b0, p);
  }

  lemma NormIdentity(b0: int, b1: int, v: int)
    ensures b0 * v * b0 - (-b1) * v * b1 == (b0 * b0 + b1 * b1) * v
    ensures b0 * v * b1 + (-b1) * v * b0 == 0
  {}

  /** (a * i) * b = a when i inverts b. */
  lemma ProductWithInverse(a: Fp2, i: Fp2, b: Fp2, p: nat)
    requires p > 0 && InverseOf(i, b, p)
    ensures Fp2Mul(Fp2Mul(a, i, p), b, p) == Fp2(a.c0 % p, a.c1 % p)
  {
    var q := Fp2Mul(a, i, p);
    var r := Fp2Mul(q, b, p);
    Fp2MulIsProduct(a, i, p);
    Fp2MulIsProduct(q, b, p);
    var q0, q1 := a.c0 * i.c0 - a.c1 * i.c1, a.c0 * i.c1 + a.c1 * i.c0;
    CongMul(q.c0, q0, b.c0, b.c0, p);
    CongMul(q.c1, q1, b.c1, b.c1, p);
    CongSub(q.c0 * b.c0, q0 * b.c0, q.c1 * b.c1, q1 * b.c1, p);
    CongMul(q.c0, q0, b.c1, b.c1, p);
    CongMul(q.c1, q1, b.c0, b.c0, p);
    CongAdd(q.c0 * b.c1, q0 * b.c1, q.c1 * b.c0, q1 * b.c0, p);
    TripleProduct(a.c0, a.c1, i.c0, i.c1, b.c0, b.c1);
    var u, w := i.c0 * b.c0 - i.c1 * b.c1, i.c0 * b.c1 + i.c1 * b.c0;
    CombineUnit(a.c0, a.c1, u, w, p);
    CongMod(a.c0, p);
    CongMod(a.c1, p);
    CongCanonical(r.c0, a.c0 % p, p);
    CongCanonical(r.c1, a.c1 % p, p);
  }

  lemma TripleProduct(a0: int, a1: int, i0: int, i1: int, b0: int, b1: int)
    ensures (a0 * i0 - a1 * i1) * b0 - (a0 * i1 + a1 * i0) * b1
         == a0 * (i0 * b0 - i1 * b1) - a1 * (i0 * b1 + i1 * b0)
    ensures (a0 * i0 - a1 * i1) * b1 + (a0 * i1 + a1 * i0) * b0
         == a1 * (i0 * b0 - i1 * b1) + a0 * (i0 * b1 + i1 * b0)
  {}

  lemma CombineUnit(a0: int, a1: int, u: int, w: int, p: nat)
    requires p > 0 && Cong(u, 1, p) && Cong(w, 0, p)
    ensures Cong(a0 * u - a1 * w, a0, p) && Cong(a1 * u + a0 * w, a1, p)
  {
    CongScale(a0, u, 1, p);
    CongScale(a1, w, 0, p);
    CongSub(a0 * u, a0, a1 * w, 0, p);
    CongScale(a1, u, 1, p);
    CongScale(a0, w, 0, p);
    CongAdd(a1 * u, a1, a0 * w, 0, p);
  }

  /** a / b * b = a, wherever the division succeeds. */
  lemma Fp2DivThenMul(a: Fp2, b: Fp2, p: nat)
    requires p > 1 && Fp2Div(a, b, p).Ok?
    ensures Fp2Mul(Fp2Div(a, b, p).value, b, p) == Fp2(a.c0 % p, a.c1 % p)
  {
    var inv := Euclid.ModInv(Norm(b, p), p).value;
    Euclid.ModInvCorrect(Norm(b, p), p);
    Fp2InverseInverts(b, inv, p);
    ProductWithInverse(a, Fp2Inverse(b, inv, p), b, p);
  }

  /** a * b / b = a, under the same condition. */
  lemma Fp2MulThenDiv(a: Fp2, b: Fp2, p: nat)
    requires p > 1 && Fp2Div(a, b, p).Ok?
    ensures Fp2Div(Fp2Mul(a, b, p), b, p) == Ok(Fp2(a.c0 % p, a.c1 % p))
  {
    var inv := Euclid.ModInv(Norm(b, p), p).value;
    Euclid.ModInvCorrect(Norm(b, p), p);
    Fp2InverseInverts(b, inv, p);
    var i := Fp2Inverse(b, inv, p);
    assert InverseOf(b, i, p) by {
      assert i.c0 * b.c0 - i.c1 * b.c1 == b.c0 * i.c0 - b.c1 * i.c1;
      assert i.c0 * b.c1 + i.c1 * b.c0 == b.c0 * i.c1 + b.c1 * i.c0;
    }
    ProductWithInverse(a, b, i, p);
  }

  ghost predicate IsZero(b: Fp2, p: nat)
    requires p > 0
  {
    b.c0 % p == 0 && b.c1 % p == 0
  }

  /** A norm vanishes only at zero when -1 has no square root. */
  lemma NormZero(b: Fp2, p: nat)
    requires IsPrime(p) && p % 4 == 3
    ensures Norm(b, p) == 0 <==> IsZero(b, p)
  {
    SmallMod(0, p);
    if IsZero(b, p) {
      CongMul(b.c0, 0, b.c0, 0, p);
      CongMul(b.c1, 0, b.c1, 0, p);
      CongAdd(b.c0 * b.c0, 0, b.c1 * b.c1, 0, p);
    } else if Norm(b, p) == 0 {
      if b.c1 % p == 0 {
        CongMul(b.c1, 0, b.c1, 0, p);
        CongSub(b.c0 * b.c0 + b.c1 * b.c1, 0, b.c1 * b.c1, 0, p);
        EuclidLemma(b.c0, b.c0, p);
      } else {
        RootFromNorm(b, p);
        MinusOneLaw(p);
      }
    }
  }

  /** b0 / b1 would be a square root of -1. */
  lemma RootFromNorm(b: Fp2, p: nat)
    requires IsPrime(p) && b.c1 % p != 0 && Norm(b, p) == 0
    ensures IsSquare(p - 1, p)
  {
    InvertibleUnlessZero(b.c1, p);
    Euclid.ModInvCorrect(b.c1, p);
    var v := Euclid.ModInv(b.c1, p).value;
    var y, w := b.c0 * v, b.c1 * v;
    SmallMod(1, p); SmallMod(0, p);
    CongMul(w, 1, w, 1, p);
    CongMul(b.c0 * b.c0 + b.c1 * b.c1, 0, v * v, v * v, p);
    NormScaled(b.c0, b.c1, v);
    CongSub(y * y + w * w, 0, w * w, 1, p);
    CongIntro(p - 1, -1, p, 1);
    assert IsRoot(y, p - 1, p);
  }

  lemma NormScaled(b0: int, b1: int, v: int)
    ensures (b0 * b0 + b1 * b1) * (v * v) == (b0 * v) * (b0 * v) + (b1 * v) * (b1 * v)
  {
    Regroup(b0, v, b0, v);
    Regroup(b1, v, b1, v);
    assert (b0 * b0 + b1 * b1) * (v * v) == b0 * b0 * (v * v) + b1 * b1 * (v * v);
  }

  /** For p = 3 (mod 4), division errs exactly on b = 0. */
  lemma Fp2DivFailsOnlyOnZero(a: Fp2, b: Fp2, p: nat)
    requires IsPrime(p) && p % 4 == 3
    ensures Fp2Div(a, b, p) == Err(NoInverse) <==> IsZero(b, p)
  {
    NormZero(b, p);
    SmallMod(Norm(b, p), p);
    InvertibleUnlessZero(Norm(b, p), p);
  }

  /** Among odd primes that is the exact condition: for p = 1 (mod 4) the divisor 1 + iX
      with i*i = -1 is refused though it is not zero. */
  lemma Fp2IsFieldIff(p: nat)
    requires IsOddPrime(p)
    ensures (forall b: Fp2 :: Reduced(b, p) ==> (Fp2Div(Fp2(1, 0), b, p) == Err(NoInverse) <==> b == Fp2(0, 0)))
       <==> p % 4 == 3
  {
    OddPrimeIsOdd(p);
    if p % 4 == 3 {
      forall b: Fp2 | Reduced(b, p)
        ensures Fp2Div(Fp2(1, 0), b, p) == Err(NoInverse) <==> b == Fp2(0, 0)
      {
        Fp2DivFailsOnlyOnZero(Fp2(1, 0), b, p);
        SmallMod(b.c0, p);
        SmallMod(b.c1, p);
      }
    } else {
      var b := NullDivisor(p);
    }
  }

  lemma NullDivisor(p: nat) returns (b: Fp2)
    requires IsOddPrime(p) && p % 4 == 1
    ensures Reduced(b, p) && b != Fp2(0, 0) && Fp2Div(Fp2(1, 0), b, p) == Err(NoInverse)
  {
    MinusOneLaw(p);
    var i :| IsRoot(i, p - 1, p);
    b := Fp2(1, i % p);
    CongMod(i, p);
    CongMul(i % p, i, i % p, i, p);
    CongAdd(1, 1, (i % p) * (i % p), p - 1, p);
    CongZero(1 + (p - 1), 1, p);
    assert Norm(b, p) == 0;
  }
}
