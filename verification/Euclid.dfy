/** The recursive extended Euclidean algorithm and the modular inverse built on it
    (two identical copies in the repository: modular.rs and ecc.rs). */
module Euclid {
  import opened Wrappers
  import opened Arithmetic

  function Abs(x: int): nat { if x < 0 then -x else x }

  /** `/` on `BigInt` rounds toward zero. */
  function TruncDiv(a: int, b: int): int
    requires b != 0
  {
    if (a < 0) == (b < 0) then Abs(a) / Abs(b) else -(Abs(a) / Abs(b))
  }

  /** `%` on `BigInt` takes the sign of the dividend. */
  function TruncRem(a: int, b: int): int
    requires b != 0
  {
    if a < 0 then -(Abs(a) % Abs(b)) else Abs(a) % Abs(b)
  }

  lemma TruncLaw(a: int, b: int)
    requires b != 0
    ensures a == TruncDiv(a, b) * b + TruncRem(a, b)
    ensures Abs(TruncRem(a, b)) < Abs(b)
  {
    SignedQuotient(a, b, Abs(a) / Abs(b), Abs(a) % Abs(b));
  }

  lemma SignedQuotient(a: int, b: int, q: int, r: int)
    requires b != 0 && Abs(a) == q * Abs(b) + r
    ensures a == (if (a < 0) == (b < 0) then q else -q) * b + (if a < 0 then -r else r)
  {
    assert q * (-b) == -(q * b) && (-q) * b == -(q * b);
  }

  datatype Bezout = Bezout(g: int, x: int, y: int)

  function ExtendedGcd(a: int, b: int): Bezout
    decreases Abs(b)
  {
    if b == 0 then Bezout(a, 1, 0)
    else
      TruncLaw(a, b);
      var r := ExtendedGcd(b, TruncRem(a, b));
      Bezout(r.g, r.y, r.x - TruncDiv(a, b) * r.y)
  }

  ghost predicate Divides(d: int, n: int) { exists k :: n == d * k }

  ghost predicate IsGcd(g: int, a: int, b: int) {
    Divides(g, a) && Divides(g, b) && forall d :: Divides(d, a) && Divides(d, b) ==> Divides(d, g)
  }

  lemma DividesCombination(d: int, a: int, x: int, b: int, y: int)
    requires Divides(d, a) && Divides(d, b)
    ensures Divides(d, a * x + b * y)
  {
    var i :| a == d * i;
    var j :| b == d * j;
    assert a * x + b * y == d * (i * x + j * y);
  }

  lemma BezoutStep(q: int, b: int, m: int, x: int, y: int)
    ensures (q * b + m) * y + b * (x - q * y) == b * x + m * y
  {
    assert (q * b + m) * y == q * b * y + m * y;
    assert b * (x - q * y) == b * x - q * b * y;
  }

  /** Bezout's identity, for operands of any sign. */
  lemma {:induction false} BezoutIdentity(a: int, b: int)
    ensures var r := ExtendedGcd(a, b); a * r.x + b * r.y == r.g
    decreases Abs(b)
  {
    if b != 0 {
      TruncLaw(a, b);
      var q, m := TruncDiv(a, b), TruncRem(a, b);
      BezoutIdentity(b, m);
      var r := ExtendedGcd(b, m);
      BezoutStep(q, b, m, r.x, r.y);
    }
  }

  lemma {:induction false} GcdDividesBoth(a: int, b: int)
    ensures Divides(ExtendedGcd(a, b).g, a) && Divides(ExtendedGcd(a, b).g, b)
    decreases Abs(b)
  {
    var g := ExtendedGcd(a, b).g;
    if b == 0 {
      assert a == g * 1 && b == g * 0;
    } else {
      TruncLaw(a, b);
      var q, m := TruncDiv(a, b), TruncRem(a, b);
      GcdDividesBoth(b, m);
      DividesCombination(g, b, q, m, 1);
      assert a == b * q + m * 1;
    }
  }

  /** The first component is a greatest common divisor. */
  lemma ExtendedGcdIsGcd(a: int, b: int)
    ensures IsGcd(ExtendedGcd(a, b).g, a, b)
  {
    GcdDividesBoth(a, b);
    BezoutIdentity(a, b);
    var r := ExtendedGcd(a, b);
    forall d | Divides(d, a) && Divides(d, b) ensures Divides(d, r.g) {
      DividesCombination(d, a, r.x, b, r.y);
    }
  }

  /** It is never negative on the operands the precompiles pass. */
  lemma {:induction false} GcdNonNegative(a: nat, b: nat)
    ensures ExtendedGcd(a, b).g >= 0
    decreases b
  {
    if b != 0 {
      TruncLaw(a, b);
      GcdNonNegative(b, TruncRem(a, b));
    }
  }

  lemma GcdUnique(g: nat, h: nat, a: int, b: int)
    requires IsGcd(g, a, b) && IsGcd(h, a, b)
    ensures g == h
  {
    DividesAtMost(g, h);
    DividesAtMost(h, g);
  }

  lemma DividesAtMost(d: nat, n: nat)
    requires Divides(d, n)
    ensures n == 0 || d <= n
    ensures d == 0 ==> n == 0
  {
    var k :| n == d * k;
    if k >= 1 && d > 0 {
      assert d * k == k * d;
      MulAtLeast(k, d);
    } else if k < 0 {
      assert d * k <= 0;
    }
  }

  ghost predicate Coprime(a: int, b: int) { IsGcd(1, a, b) }

  /** `mod_inv`: reduce the Bezout coefficient into [0, p). */
  function ModInv(a: nat, p: nat): (r: Option<nat>)
    requires p > 0
    ensures r.Some? ==> r.value < p
  {
    if a == 0 then None
    else
      var e := ExtendedGcd(a, p);
      if e.g != 1 then None
      else
        TruncLaw(e.x, p);
        Some(TruncRem(TruncRem(e.x, p) + p, p))
  }

  lemma InverseReduction(x: int, p: nat)
    requires p > 0
    ensures Cong(TruncRem(TruncRem(x, p) + p, p), x, p)
  {
    TruncLaw(x, p);
    var m := TruncRem(x, p) + p;
    TruncLaw(m, p);
    assert x == TruncRem(m, p) + (TruncDiv(m, p) + TruncDiv(x, p) - 1) * p;
    CongIntro(x, TruncRem(m, p), p, TruncDiv(m, p) + TruncDiv(x, p) - 1);
  }

  /** For a modulus above 1 the inverse exists exactly for the operands coprime to it,
      and is then an inverse in [0, p). */
  lemma ModInvCorrect(a: nat, p: nat)
    requires p > 1
    ensures ModInv(a, p).Some? <==> Coprime(a, p)
    ensures var r := ModInv(a, p); r.Some? ==> r.value < p && (a * r.value) % p == 1
  {
    var e := ExtendedGcd(a, p);
    ExtendedGcdIsGcd(a, p);
    GcdNonNegative(a, p);
    if Coprime(a, p) { GcdUnique(e.g, 1, a, p); }
    if a == 0 {
      if Coprime(a, p) {
        assert a == p * 0 && p == p * 1;
        DividesAtMost(p, 1);
      }
    } else if e.g == 1 {
      BezoutIdentity(a, p);
      InverseFromBezout(a, p, ModInv(a, p).value, e.x, e.y);
    }
  }

  lemma InverseFromBezout(a: nat, p: nat, inv: int, x: int, y: int)
    requires p > 1 && inv == TruncRem(TruncRem(x, p) + p, p) && a * x + p * y == 1
    ensures (a * inv) % p == 1
  {
    InverseReduction(x, p);
    CongScale(a, inv, x, p);
    assert (-y) * p == -(p * y);
    CongIntro(a * x, 1, p, -y);
    SmallMod(1, p);
  }

  /** No other residue inverts a. */
  lemma ModInvUnique(a: nat, p: nat, v: nat)
    requires p > 1 && v < p && (a * v) % p == 1
    ensures ModInv(a, p) == Some(v)
  {
    var k := (a * v) / p;
    assert a * v == k * p + 1;
    forall d | Divides(d, a) && Divides(d, p) ensures Divides(d, 1) {
      DividesCombination(d, a, v, p, -k);
      assert a * v + p * (-k) == 1;
    }
    assert a == 1 * a && p == 1 * p;
    assert Coprime(a, p);
    ModInvCorrect(a, p);
    var w := ModInv(a, p).value;
    InversesAgree(a, v, w, p);
  }

  /** v = v*(a*w) = (v*a)*w = w. */
  lemma InversesAgree(a: int, v: nat, w: nat, p: nat)
    requires p > 1 && v < p && w < p && (a * v) % p == 1 && (a * w) % p == 1
    ensures v == w
  {
    SmallMod(1, p);
    CongScale(v, a * w, 1, p);
    CongScale(w, a * v, 1, p);
    ProductsAgree(a, v, w);
    CongCanonical(v, w, p);
  }

  lemma ProductsAgree(a: int, v: int, w: int)
    ensures v * (a * w) == w * (a * v)
  {}
}
