/** The number theory behind the square-root precompiles: Euclid's lemma, Fermat's little
    theorem, the bound on roots of a polynomial, Euler's criterion in both directions,
    and the existence of a non-residue. */
module PrimeField {
  import opened Arithmetic
  import Euclid

  ghost predicate IsPrime(p: nat) {
    p >= 2 && forall d: nat :: Euclid.Divides(d, p) ==> d == 1 || d == p
  }

  ghost predicate IsOddPrime(p: nat) { IsPrime(p) && p != 2 }

  lemma OddPrimeIsOdd(p: nat)
    requires IsOddPrime(p)
    ensures p % 2 == 1 && p >= 3
  {
    DividesIsZeroMod(2, p);
  }

  lemma OneOrThree(p: nat)
    requires IsOddPrime(p)
    ensures p >= 3 && (p % 4 == 1 || p % 4 == 3)
  {
    OddPrimeIsOdd(p);
  }

  // ----- Euclid's lemma ----------------------------------------------------------

  lemma DividesIsZeroMod(p: nat, a: int)
    requires p > 0
    ensures Euclid.Divides(p, a) <==> a % p == 0
  {
    if Euclid.Divides(p, a) {
      var k :| a == p * k;
      CongZero(a, k, p);
    }
    if a % p == 0 {
      assert a == p * (a / p);
    }
  }

  /** Modulo a prime, the repository's inverse fails exactly on the multiples of the prime. */
  lemma InvertibleUnlessZero(a: nat, p: nat)
    requires IsPrime(p)
    ensures a % p != 0 <==> Euclid.ModInv(a, p).Some?
  {
    Euclid.ModInvCorrect(a, p);
    DividesIsZeroMod(p, a);
    assert p == p * 1;
    if a % p != 0 {
      var g := Euclid.ExtendedGcd(a, p).g;
      Euclid.ExtendedGcdIsGcd(a, p);
      Euclid.GcdNonNegative(a, p);
      assert g == 1 || g == p;
    } else {
      if Euclid.Coprime(a, p) {
        Euclid.DividesAtMost(p, 1);
      }
    }
  }

  lemma EuclidLemma(a: int, b: int, p: nat)
    requires IsPrime(p) && (a * b) % p == 0
    ensures a % p == 0 || b % p == 0
  {
    if a % p != 0 {
      var a' := a % p;
      CongMod(a, p);
      InvertibleUnlessZero(a', p);
      Euclid.ModInvCorrect(a', p);
      var v := Euclid.ModInv(a', p).value;
      CancelByInverse(a, a', b, v, p);
    }
  }

  lemma CancelByInverse(a: int, a': int, b: int, v: int, p: nat)
    requires p > 1 && Cong(a', a, p) && (a' * v) % p == 1 && (a * b) % p == 0
    ensures b % p == 0
  {
    SmallMod(1, p); SmallMod(0, p);
    CongScale(v, a', a, p);
    assert v * a' == a' * v;
    CongScale(b, v * a, 1, p);
    CongScale(v, a * b, 0, p);
    assert b * (v * a) == v * (a * b);
  }

  lemma Cancel(c: int, a: int, b: int, p: nat)
    requires IsPrime(p) && c % p != 0 && Cong(c * a, c * b, p)
    ensures Cong(a, b, p)
  {
    var k := CongElim(c * a, c * b, p);
    Distributes(c, a, b);
    CongZero(c * (a - b), k, p);
    EuclidLemma(c, a - b, p);
    var q := (a - b) / p;
    assert a - b == q * p;
    CongIntro(a, b, p, q);
  }

  lemma Distributes(c: int, a: int, b: int)
    ensures c * (a - b) == c * a - c * b
  {}

  lemma {:induction false} PowNonZero(a: int, e: nat, p: nat)
    requires IsPrime(p) && a % p != 0
    ensures Pow(a, e) % p != 0
  {
    if e == 0 {
      SmallMod(1, p);
    } else {
      PowNonZero(a, e - 1, p);
      if Pow(a, e) % p == 0 { EuclidLemma(a, Pow(a, e - 1), p); }
    }
  }

  // ----- Fermat's little theorem ---------------------------------------------------

  ghost function Pick<T>(s: set<T>): (x: T)
    requires s != {}
    ensures x in s
  {
    var x :| x in s; x
  }

  ghost function Product(s: set<int>): int {
    if s == {} then 1 else var x := Pick(s); x * Product(s - {x})
  }

  lemma {:induction false} ProductRemove(s: set<int>, x: int)
    requires x in s
    ensures Product(s) == x * Product(s - {x})
    decreases s
  {
    var y := Pick(s);
    if x != y {
      ProductRemove(s - {y}, x);
      ProductRemove(s - {x}, y);
      assert s - {y} - {x} == s - {x} - {y};
      SwapFactors(y, x, Product(s - {x} - {y}));
    }
  }

  lemma SwapFactors(y: int, x: int, rest: int)
    ensures y * (x * rest) == x * (y * rest)
  {}

  /** Every member is a non-zero residue. */
  ghost predicate AreUnits(s: set<int>, p: nat) {
    forall x :: x in s ==> 1 <= x < p
  }

  lemma {:induction false} AllUnits(p: nat) returns (u: set<int>)
    requires p >= 1
    ensures |u| == p - 1
    ensures forall x :: x in u <==> 1 <= x < p
  {
    if p == 1 {
      u := {};
    } else {
      u := AllUnits(p - 1);
      u := u + {p - 1};
    }
  }

  ghost function Scaled(s: set<int>, a: int, p: nat): set<int>
    requires p > 0
  {
    set x | x in s :: (a * x) % p
  }

  lemma ScaledDistinct(s: set<int>, x: int, a: int, p: nat)
    requires IsPrime(p) && a % p != 0 && AreUnits(s, p) && 1 <= x < p && x !in s
    ensures (a * x) % p !in Scaled(s, a, p)
  {
    if (a * x) % p in Scaled(s, a, p) {
      var y :| y in s && (a * x) % p == (a * y) % p;
      Cancel(a, x, y, p);
      CongCanonical(x, y, p);
    }
  }

  lemma ScaledInsert(s: set<int>, x: int, a: int, p: nat)
    requires IsPrime(p) && a % p != 0 && AreUnits(s, p) && x in s
    ensures |Scaled(s, a, p)| == |Scaled(s - {x}, a, p)| + 1
    ensures Product(Scaled(s, a, p)) == (a * x) % p * Product(Scaled(s - {x}, a, p))
  {
    var t, t', ax := Scaled(s, a, p), Scaled(s - {x}, a, p), (a * x) % p;
    ScaledDistinct(s - {x}, x, a, p);
    forall y ensures y in t <==> y in t' + {ax} {
      if y in t {
        var z :| z in s && y == (a * z) % p;
        assert z == x || z in s - {x};
      }
    }
    assert t - {ax} == t';
    ProductRemove(t, ax);
  }

  lemma {:induction false} ScaledProduct(s: set<int>, a: int, p: nat)
    requires IsPrime(p) && a % p != 0 && AreUnits(s, p)
    ensures |Scaled(s, a, p)| == |s|
    ensures Cong(Product(Scaled(s, a, p)), Pow(a, |s|) * Product(s), p)
    decreases s
  {
    if s == {} {
      assert Scaled(s, a, p) == {};
    } else {
      var x := Pick(s);
      var s' := s - {x};
      ScaledProduct(s', a, p);
      ScaledInsert(s, x, a, p);
      var u, v, v' := Pow(a, |s'|), Product(s'), Product(Scaled(s', a, p));
      CongMod(a * x, p);
      CongMul((a * x) % p, a * x, v', u * v, p);
      Regroup(a, x, u, v);
    }
  }

  lemma SubsetSameSize(s: set<int>, t: set<int>)
    requires s <= t && |s| == |t|
    ensures s == t
  {
    assert |t - s| == |t| - |s|;
  }

  lemma {:induction false} UnitProductNonZero(s: set<int>, p: nat)
    requires IsPrime(p) && AreUnits(s, p)
    ensures Product(s) % p != 0
    decreases s
  {
    if s == {} {
      SmallMod(1, p);
    } else {
      var x := Pick(s);
      ProductRemove(s, x);
      UnitProductNonZero(s - {x}, p);
      SmallMod(x, p);
      if Product(s) % p == 0 { EuclidLemma(x, Product(s - {x}), p); }
    }
  }

  lemma ScaledUnits(u: set<int>, a: int, p: nat)
    requires IsPrime(p) && a % p != 0
    requires forall x :: x in u <==> 1 <= x < p
    ensures Scaled(u, a, p) == u
  {
    var t := Scaled(u, a, p);
    forall y | y in t ensures y in u {
      var x :| x in u && y == (a * x) % p;
      SmallMod(x, p);
      if y == 0 { EuclidLemma(a, x, p); }
    }
    ScaledProduct(u, a, p);
    SubsetSameSize(t, u);
  }

  lemma Fermat(a: int, p: nat)
    requires IsPrime(p) && a % p != 0
    ensures Pow(a, p - 1) % p == 1
  {
    var u := AllUnits(p);
    ScaledUnits(u, a, p);
    ScaledProduct(u, a, p);
    UnitProductNonZero(u, p);
    CancelOne(Product(u), Pow(a, |u|), p);
  }

  lemma CancelOne(w: int, f: int, p: nat)
    requires IsPrime(p) && w % p != 0 && Cong(w, f * w, p)
    ensures f % p == 1
  {
    assert f * w == w * f && w * 1 == w;
    Cancel(w, f, 1, p);
    SmallMod(1, p);
  }

  // ----- a polynomial has no more roots than its degree ------------------------------

  /** Coefficients from the constant term upward. */
  type Polynomial = seq<int>

  function Eval(c: Polynomial, x: int): int {
    if |c| == 0 then 0 else c[0] + x * Eval(c[1..], x)
  }

  lemma EvalConstant(c: Polynomial, x: int)
    requires |c| == 1
    ensures Eval(c, x) == c[0]
  {
    assert Eval(c[1..], x) == 0;
  }

  /** Synthetic division by X - r. */
  function Quotient(c: Polynomial, r: int): (q: Polynomial)
    ensures |q| == if |c| == 0 then 0 else |c| - 1
  {
    if |c| <= 1 then [] else [Eval(c[1..], r)] + Quotient(c[1..], r)
  }

  lemma FactorStep(x: int, r: int, v: int, w: int)
    ensures x * (v + (x - r) * w) - r * v == (x - r) * (v + x * w)
  {}

  lemma {:induction false} FactorTheorem(c: Polynomial, r: int, x: int)
    ensures Eval(c, x) - Eval(c, r) == (x - r) * Eval(Quotient(c, r), x)
  {
    if |c| > 1 {
      FactorTheorem(c[1..], r, x);
      var q := Quotient(c[1..], r);
      assert Quotient(c, r)[1..] == q;
      var u, v, w := Eval(c[1..], x), Eval(c[1..], r), Eval(q, x);
      FactorStep(x, r, v, w);
    } else if |c| == 1 {
      assert Eval(c[1..], x) == 0 && Eval(c[1..], r) == 0;
    }
  }

  lemma {:induction false} QuotientKeepsLeading(c: Polynomial, r: int)
    requires |c| >= 2
    ensures Quotient(c, r)[|c| - 2] == c[|c| - 1]
  {
    if |c| == 2 {
      assert Eval(c[1..], r) == c[1] + r * Eval(c[1..][1..], r);
    } else {
      QuotientKeepsLeading(c[1..], r);
    }
  }

  lemma {:induction false} RootBound(c: Polynomial, roots: set<int>, p: nat)
    requires IsPrime(p) && |c| >= 1 && c[|c| - 1] % p != 0
    requires forall x :: x in roots ==> 0 <= x < p && Eval(c, x) % p == 0
    ensures |roots| <= |c| - 1
    decreases |c|
  {
    if roots != {} {
      var r := Pick(roots);
      if |c| == 1 {
        EvalConstant(c, r);
        assert false;
      }
      var q := Quotient(c, r);
      QuotientKeepsLeading(c, r);
      forall x | x in roots - {r} ensures Eval(q, x) % p == 0 {
        FactorTheorem(c, r, x);
        SmallMod(0, p);
        CongSub(Eval(c, x), 0, Eval(c, r), 0, p);
        EuclidLemma(x - r, Eval(q, x), p);
        if (x - r) % p == 0 {
          CongIntro(x, r, p, (x - r) / p);
          CongCanonical(x, r, p);
        }
      }
      RootBound(q, roots - {r}, p);
    }
  }

  /** X^h - k. */
  function PowerMinus(h: nat, k: int): Polynomial
    requires h >= 1
  {
    [-k] + seq(h - 1, _ => 0) + [1]
  }

  lemma {:induction false} EvalMonomial(n: nat, x: int)
    ensures Eval(seq(n, _ => 0) + [1], x) == Pow(x, n)
  {
    var c := seq(n, _ => 0) + [1];
    if n == 0 {
      assert c[1..] == [];
    } else {
      EvalMonomial(n - 1, x);
      assert c[1..] == seq(n - 1, _ => 0) + [1];
    }
  }

  lemma EvalPowerMinus(h: nat, k: int, x: int)
    requires h >= 1
    ensures Eval(PowerMinus(h, k), x) == Pow(x, h) - k
  {
    EvalMonomial(h - 1, x);
    assert PowerMinus(h, k)[1..] == seq(h - 1, _ => 0) + [1];
  }

  /** At most h residues have h-th power 1. */
  lemma FewRootsOfUnity(roots: set<int>, h: nat, p: nat)
    requires IsPrime(p) && h >= 1
    requires forall x :: x in roots ==> 0 <= x < p && Pow(x, h) % p == 1
    ensures |roots| <= h
  {
    var c := PowerMinus(h, 1);
    SmallMod(1, p);
    forall x | x in roots ensures Eval(c, x) % p == 0 {
      EvalPowerMinus(h, 1, x);
      CongSub(Pow(x, h), 1, 1, 1, p);
      SmallMod(0, p);
    }
    RootBound(c, roots, p);
  }
}
