/** Commutative groups, kept abstract: the pairing hints compute in the multiplicative group
    of Fq12 through these operations only. T is the type of the group's elements. */
module Groups {

  datatype Group<!T> = Group(one: T, mul: (T, T) -> T, inv: T -> T)

  ghost predicate CommLaw<T>(g: Group<T>, x: T, y: T) { g.mul(x, y) == g.mul(y, x) }

  ghost predicate AssocLaw<T>(g: Group<T>, x: T, y: T, z: T) {
    g.mul(g.mul(x, y), z) == g.mul(x, g.mul(y, z))
  }

  ghost predicate UnitLaw<T>(g: Group<T>, x: T) { g.mul(x, g.one) == x }

  ghost predicate InverseLaw<T>(g: Group<T>, x: T) { g.mul(x, g.inv(x)) == g.one }

  ghost predicate IsCommGroup<T(!new)>(g: Group<T>) {
    && (forall x, y :: CommLaw(g, x, y))
    && (forall x, y, z :: AssocLaw(g, x, y, z))
    && (forall x :: UnitLaw(g, x))
    && (forall x :: InverseLaw(g, x))
  }

  // The laws, one instance at a time.

  lemma Comm<T(!new)>(g: Group<T>, x: T, y: T)
    requires IsCommGroup(g)
    ensures g.mul(x, y) == g.mul(y, x)
  {
    assert CommLaw(g, x, y);
  }

  lemma Assoc<T(!new)>(g: Group<T>, x: T, y: T, z: T)
    requires IsCommGroup(g)
    ensures g.mul(g.mul(x, y), z) == g.mul(x, g.mul(y, z))
  {
    assert AssocLaw(g, x, y, z);
  }

  lemma Unit<T(!new)>(g: Group<T>, x: T)
    requires IsCommGroup(g)
    ensures g.mul(x, g.one) == x && g.mul(g.one, x) == x
  {
    assert UnitLaw(g, x);
    Comm(g, x, g.one);
  }

  lemma Inverse<T(!new)>(g: Group<T>, x: T)
    requires IsCommGroup(g)
    ensures g.mul(x, g.inv(x)) == g.one && g.mul(g.inv(x), x) == g.one
  {
    assert InverseLaw(g, x);
    Comm(g, x, g.inv(x));
  }

  /** `Field::pow`. */
  function GPow<T>(g: Group<T>, x: T, e: nat): T {
    if e == 0 then g.one else g.mul(x, GPow(g, x, e - 1))
  }

  lemma {:induction false} GPowOne<T(!new)>(g: Group<T>, e: nat)
    requires IsCommGroup(g)
    ensures GPow(g, g.one, e) == g.one
  {
    if e != 0 {
      GPowOne(g, e - 1);
      Unit(g, g.one);
    }
  }

  lemma {:induction false} GPowAdd<T(!new)>(g: Group<T>, x: T, a: nat, b: nat)
    requires IsCommGroup(g)
    ensures GPow(g, x, a + b) == g.mul(GPow(g, x, a), GPow(g, x, b))
  {
    if a == 0 {
      Unit(g, GPow(g, x, b));
    } else {
      GPowAdd(g, x, a - 1, b);
      Assoc(g, x, GPow(g, x, a - 1), GPow(g, x, b));
    }
  }

  lemma PowFirst<T(!new)>(g: Group<T>, x: T)
    requires IsCommGroup(g)
    ensures GPow(g, x, 1) == x
    ensures GPow(g, x, 2) == g.mul(x, x)
    ensures GPow(g, x, 3) == g.mul(g.mul(x, x), x)
  {
    assert GPow(g, x, 1) == g.mul(x, GPow(g, x, 0));
    Unit(g, x);
    GPowAdd(g, x, 1, 1);
    GPowAdd(g, x, 2, 1);
  }

  lemma {:induction false} GPowPower<T(!new)>(g: Group<T>, x: T, a: nat, b: nat)
    requires IsCommGroup(g)
    ensures GPow(g, x, a * b) == GPow(g, GPow(g, x, a), b)
  {
    if b == 0 {
      assert a * b == 0;
    } else {
      GPowPower(g, x, a, b - 1);
      assert a * b == a + a * (b - 1);
      GPowAdd(g, x, a, a * (b - 1));
    }
  }

  lemma {:induction false} GPowProduct<T(!new)>(g: Group<T>, x: T, y: T, e: nat)
    requires IsCommGroup(g)
    ensures GPow(g, g.mul(x, y), e) == g.mul(GPow(g, x, e), GPow(g, y, e))
  {
    if e == 0 {
      Unit(g, g.one);
    } else {
      GPowProduct(g, x, y, e - 1);
      Interchange(g, x, y, GPow(g, x, e - 1), GPow(g, y, e - 1));
    }
  }

  lemma Interchange<T(!new)>(g: Group<T>, a: T, b: T, c: T, d: T)
    requires IsCommGroup(g)
    ensures g.mul(g.mul(a, b), g.mul(c, d)) == g.mul(g.mul(a, c), g.mul(b, d))
  {
    Assoc(g, a, b, g.mul(c, d));
    Assoc(g, b, c, d);
    Comm(g, b, c);
    Assoc(g, c, b, d);
    Assoc(g, a, c, g.mul(b, d));
  }

  /** When x^n = 1, a multiple of n is as good as no exponent. */
  lemma PowMultiple<T(!new)>(g: Group<T>, x: T, n: nat, k: nat)
    requires IsCommGroup(g) && GPow(g, x, n) == g.one
    ensures GPow(g, x, n * k) == g.one
  {
    GPowPower(g, x, n, k);
    GPowOne(g, k);
  }

  lemma PowPeriod<T(!new)>(g: Group<T>, x: T, n: nat, a: nat, k: nat)
    requires IsCommGroup(g) && GPow(g, x, n) == g.one
    ensures GPow(g, x, a + n * k) == GPow(g, x, a)
  {
    PowMultiple(g, x, n, k);
    GPowAdd(g, x, a, n * k);
    Unit(g, GPow(g, x, a));
  }

  lemma PowReduce<T(!new)>(g: Group<T>, x: T, n: nat, a: nat)
    requires IsCommGroup(g) && n > 0 && GPow(g, x, n) == g.one
    ensures GPow(g, x, a) == GPow(g, x, a % n)
  {
    var q: nat, d: nat := a / n, a % n;
    assert n * q + d == a;
    PowPeriod(g, x, n, d, q);
  }

  /** x^n = 1 lets exponents be compared modulo n. */
  lemma PowModulo<T(!new)>(g: Group<T>, x: T, n: nat, a: nat, b: nat)
    requires IsCommGroup(g) && n > 0 && GPow(g, x, n) == g.one && a % n == b % n
    ensures GPow(g, x, a) == GPow(g, x, b)
  {
    PowReduce(g, x, n, a);
    PowReduce(g, x, n, b);
  }

  lemma InverseUnique<T(!new)>(g: Group<T>, x: T, y: T)
    requires IsCommGroup(g) && g.mul(x, y) == g.one
    ensures y == g.inv(x)
  {
    var v := g.inv(x);
    Assoc(g, v, x, y);
    Inverse(g, x);
    Unit(g, v);
    Unit(g, y);
  }

  /** The inverse as a power. */
  lemma InverseIsPower<T(!new)>(g: Group<T>, x: T, n: nat)
    requires IsCommGroup(g) && n >= 1 && GPow(g, x, n) == g.one
    ensures g.inv(x) == GPow(g, x, n - 1)
  {
    InverseUnique(g, x, GPow(g, x, n - 1));
  }

  /** x * y^-1 = 1 says x = y. */
  lemma QuotientOne<T(!new)>(g: Group<T>, x: T, y: T)
    requires IsCommGroup(g)
    ensures g.mul(x, g.inv(y)) == g.one <==> x == y
  {
    var v := g.inv(y);
    Inverse(g, y);
    if g.mul(x, v) == g.one {
      Assoc(g, x, v, y);
      Unit(g, x);
      Unit(g, y);
    }
  }

  lemma PowSucc<T(!new)>(g: Group<T>, x: T, e: nat)
    requires IsCommGroup(g)
    ensures GPow(g, x, e + 1) == g.mul(GPow(g, x, e), x)
  {
    hide GPow;
    GPowAdd(g, x, e, 1);
    PowFirst(g, x);
  }

  /** Only the unit leaves an element as it is. */
  lemma NeutralIff<T(!new)>(g: Group<T>, fu: T, t: T)
    requires IsCommGroup(g)
    ensures g.mul(fu, t) == fu <==> t == g.one
  {
    hide GPow;
    Unit(g, fu);
    if g.mul(fu, t) == fu {
      Assoc(g, g.inv(fu), fu, t);
      Inverse(g, fu);
      Unit(g, t);
    }
  }

  lemma PowOfInverse<T(!new)>(g: Group<T>, y: T, n: nat)
    requires IsCommGroup(g)
    ensures GPow(g, g.inv(y), n) == g.inv(GPow(g, y, n))
  {
    hide GPow;
    GPowProduct(g, y, g.inv(y), n);
    Inverse(g, y);
    GPowOne(g, n);
    InverseUnique(g, GPow(g, y, n), GPow(g, g.inv(y), n));
  }

  /** If x^n = y^n, the quotient of x and y has order dividing n. */
  lemma QuotientPower<T(!new)>(g: Group<T>, x: T, y: T, n: nat)
    requires IsCommGroup(g) && GPow(g, x, n) == GPow(g, y, n)
    ensures GPow(g, g.mul(x, g.inv(y)), n) == g.one
  {
    hide GPow;
    GPowProduct(g, x, g.inv(y), n);
    PowOfInverse(g, y, n);
    Inverse(g, GPow(g, y, n));
  }

  /** x^a = 1 and a b = 1 modulo n, where x^n = 1, leave only the unit. */
  lemma OnlyUnit<T(!new)>(g: Group<T>, x: T, a: nat, b: nat, n: nat)
    requires IsCommGroup(g) && GPow(g, x, a) == g.one && GPow(g, x, n) == g.one && n > 0 && (a * b) % n == 1
    ensures x == g.one
  {
    hide GPow;
    PowMultiple(g, x, a, b);
    var q := a * b / n;
    assert a * b == n * q + 1;
    PowMultiple(g, x, n, q);
    PowSucc(g, x, n * q);
    Unit(g, x);
  }
}
