/** Powers and congruences over the unbounded integers: the vocabulary in which the
    modular precompiles are specified. */
module Arithmetic {

  function Pow(b: int, e: nat): int {
    if e == 0 then 1 else b * Pow(b, e - 1)
  }

  /** The `modpow` of the source: a power reduced into [0, m). */
  function ModPow(b: int, e: nat, m: int): (r: nat)
    requires m > 0
    ensures r < m
  {
    Pow(b, e) % m
  }

  /** A product reduced into [0, m). */
  function MulMod(a: nat, b: nat, m: int): (r: nat)
    requires m > 0
    ensures r < m
  {
    (a * b) % m
  }

  lemma {:induction false} PowAdd(b: int, x: nat, y: nat)
    ensures Pow(b, x + y) == Pow(b, x) * Pow(b, y)
  {
    if x != 0 {
      PowAdd(b, x - 1, y);
      assert b * (Pow(b, x - 1) * Pow(b, y)) == (b * Pow(b, x - 1)) * Pow(b, y);
    }
  }

  lemma Regroup(a: int, b: int, u: int, v: int)
    ensures (a * b) * (u * v) == (a * u) * (b * v)
  {
    assert (a * b) * (u * v) == a * (b * (u * v));
    assert b * (u * v) == u * (b * v);
  }

  lemma {:induction false} PowProduct(a: int, b: int, e: nat)
    ensures Pow(a * b, e) == Pow(a, e) * Pow(b, e)
  {
    if e != 0 {
      PowProduct(a, b, e - 1);
      Regroup(a, b, Pow(a, e - 1), Pow(b, e - 1));
    }
  }

  lemma {:induction false} PowOfOne(e: nat)
    ensures Pow(1, e) == 1
  {
    if e != 0 { PowOfOne(e - 1); }
  }

  lemma {:induction false} PowPower(b: int, x: nat, y: nat)
    ensures Pow(b, x * y) == Pow(Pow(b, x), y)
  {
    if y == 0 {
      assert x * y == 0;
    } else {
      PowPower(b, x, y - 1);
      assert x * y == x + x * (y - 1);
      PowAdd(b, x, x * (y - 1));
    }
  }

  lemma PowSquare(b: int)
    ensures Pow(b, 1) == b && Pow(b, 2) == b * b
  {
    assert Pow(b, 1) == b * Pow(b, 0);
    assert Pow(b, 2) == b * Pow(b, 1);
  }

  lemma PowPositive(b: int, e: nat)
    requires b > 0
    ensures Pow(b, e) > 0
  {
    if e != 0 { PowPositive(b, e - 1); }
  }

  function Pow2(e: nat): (r: nat)
    ensures r > 0
  {
    PowPositive(2, e);
    Pow(2, e)
  }

  // ----- quotient and remainder ------------------------------------------------

  lemma DivModUnique(x: int, m: int, q: int, r: int)
    requires m > 0 && 0 <= r < m && x == q * m + r
    ensures x / m == q && x % m == r
  {
    var d := x / m - q;
    assert d * m == r - x % m;
    assert (-d) * m == -(d * m);
    if d >= 1 {
      MulAtLeast(d, m);
      assert false;
    } else if d <= -1 {
      MulAtLeast(-d, m);
      assert false;
    }
  }

  lemma MulAtLeast(d: int, m: int)
    requires d >= 1 && m > 0
    ensures d * m >= m
  {
    assert d * m == (d - 1) * m + m;
  }

  // ----- congruences -----------------------------------------------------------

  ghost predicate Cong(a: int, b: int, m: int)
    requires m > 0
  {
    a % m == b % m
  }

  /** Congruence in its divisibility form, from a witness. */
  lemma CongIntro(a: int, b: int, m: int, k: int)
    requires m > 0 && a == b + k * m
    ensures Cong(a, b, m)
  {
    assert a == (b / m + k) * m + b % m;
    DivModUnique(a, m, b / m + k, b % m);
  }

  lemma CongElim(a: int, b: int, m: int) returns (k: int)
    requires m > 0 && Cong(a, b, m)
    ensures a == b + k * m
  {
    k := a / m - b / m;
    assert a == (a / m) * m + a % m;
    assert b == (b / m) * m + b % m;
  }

  lemma CongMod(a: int, m: int)
    requires m > 0
    ensures Cong(a % m, a, m)
  {
    CongIntro(a, a % m, m, a / m);
  }

  lemma CongAdd(a: int, a': int, b: int, b': int, m: int)
    requires m > 0 && Cong(a, a', m) && Cong(b, b', m)
    ensures Cong(a + b, a' + b', m)
  {
    var k := CongElim(a, a', m);
    var l := CongElim(b, b', m);
    CongIntro(a + b, a' + b', m, k + l);
  }

  lemma CongSub(a: int, a': int, b: int, b': int, m: int)
    requires m > 0 && Cong(a, a', m) && Cong(b, b', m)
    ensures Cong(a - b, a' - b', m)
  {
    var k := CongElim(a, a', m);
    var l := CongElim(b, b', m);
    CongIntro(a - b, a' - b', m, k - l);
  }

  lemma CongMul(a: int, a': int, b: int, b': int, m: int)
    requires m > 0 && Cong(a, a', m) && Cong(b, b', m)
    ensures Cong(a * b, a' * b', m)
  {
    var k := CongElim(a, a', m);
    var l := CongElim(b, b', m);
    MulWitness(a', b', k, l, m);
    CongIntro(a * b, a' * b', m, k * b + a' * l);
  }

  lemma MulWitness(a: int, b: int, k: int, l: int, m: int)
    ensures (a + k * m) * (b + l * m) == a * b + (k * (b + l * m) + a * l) * m
  {}

  lemma CongScale(c: int, a: int, a': int, m: int)
    requires m > 0 && Cong(a, a', m)
    ensures Cong(c * a, c * a', m)
  {
    CongMul(c, c, a, a', m);
  }

  lemma {:induction false} CongPow(a: int, a': int, e: nat, m: int)
    requires m > 0 && Cong(a, a', m)
    ensures Cong(Pow(a, e), Pow(a', e), m)
  {
    if e != 0 {
      CongPow(a, a', e - 1, m);
      CongMul(a, a', Pow(a, e - 1), Pow(a', e - 1), m);
    }
  }

  /** A residue is determined by its class. */
  lemma CongCanonical(a: int, b: int, m: int)
    requires m > 0 && 0 <= a < m && 0 <= b < m && Cong(a, b, m)
    ensures a == b
  {
    DivModUnique(a, m, 0, a);
    DivModUnique(b, m, 0, b);
  }

  lemma SmallMod(a: int, m: int)
    requires 0 <= a < m
    ensures a % m == a
  {
    DivModUnique(a, m, 0, a);
  }

  /** Divisibility by m is congruence with zero. */
  lemma CongZero(a: int, k: int, m: int)
    requires m > 0 && a == k * m
    ensures a % m == 0
  {
    SmallMod(0, m);
    CongIntro(a, 0, m, k);
  }
}
