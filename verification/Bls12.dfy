/** bls12_381_hint.rs: the residue witness (c, s) with c^lambda = f * s, over an abstract group. */
module Bls12 {
  import opened Wrappers
  import opened Groups
  import opened Arithmetic
  import Euclid

  /** The three constants of the file: final_exp_factor, poly_factor and lambda. */
  datatype Factors = Factors(p: nat, poly: nat, lambda: nat)

  ghost predicate Relations(k: Factors) {
    && k.p > 1 && k.poly > 1
    && Euclid.Coprime(27 * k.p, k.poly)
    && (10 * k.p * k.poly) % 27 == 1
    && Euclid.Coprime(k.lambda, k.p)
  }

  /** The order that the Miller-loop output is expected to divide. */
  function Order(k: Factors): (n: nat)
    requires k.p > 0 && k.poly > 0
    ensures n > 0
  {
    MulAtLeast(k.p, k.poly);
    27 * (k.p * k.poly)
  }

  /** `inv_pow_bu`. */
  function InvPow<T>(g: Group<T>, x: T, e: nat): T { GPow(g, g.inv(x), e) }

  /** `final_exp_hint`, from the two inverses the source obtains with `modinv`. */
  function WitnessFrom<T(==)>(g: Group<T>, k: Factors, f: T, times27Inv: nat, lambdaInv: nat): (T, T) {
    var fFinalExp := GPow(g, f, k.p);
    // 1. p-th root inverse
    var root := GPow(g, fFinalExp, 27);
    var rootPthInv := if root == g.one then g.one else InvPow(g, root, times27Inv);
    // 2. 27-th root inverse
    var root27 := GPow(g, fFinalExp, k.poly);
    var root27thInv := if GPow(g, root27, 27) == g.one then InvPow(g, root27, 10) else g.one;
    var s := g.mul(rootPthInv, root27thInv);
    // 3. residue witness
    (GPow(g, g.mul(f, s), lambdaInv), s)
  }

  /** None where a `modinv` has no answer and the source panics. */
  function FinalExpHint<T(==)>(g: Group<T>, k: Factors, f: T): Option<(T, T)>
    requires k.p > 0 && k.poly > 0
  {
    match (Euclid.ModInv(27 * k.p, k.poly), Euclid.ModInv(k.lambda, k.p))
    case (Some(t), Some(l)) => Some(WitnessFrom(g, k, f, t, l))
    case _ => None
  }

  // ----- everything as a power of f ---------------------------------------------------------

  lemma InvPowIsPower<T(!new)>(g: Group<T>, f: T, n: nat, a: nat, e: nat)
    requires IsCommGroup(g) && n >= 1 && GPow(g, f, n) == g.one
    ensures InvPow(g, GPow(g, f, a), e) == GPow(g, f, a * (n - 1) * e)
  {
    hide GPow;
    var x := GPow(g, f, a);
    GPowPower(g, f, n, a);
    GPowPower(g, f, a, n);
    GPowOne(g, a);
    assert a * n == n * a;
    InverseIsPower(g, x, n);
    GPowPower(g, f, a, n - 1);
    GPowPower(g, f, a * (n - 1), e);
  }

  function Times(a: nat, b: nat): nat { a * b }

  /** The shift s as one power of f; both branches of each test give the same value. */
  function ShiftExponent(k: Factors, t: nat): nat
    requires k.p > 0 && k.poly > 0
  {
    var n := Order(k);
    Times(Times(27 * k.p, n - 1), t) + Times(Times(k.p, k.poly), n - 1) * 10
  }

  lemma ShiftIsPower<T(!new)>(g: Group<T>, k: Factors, f: T, t: nat, l: nat)
    requires IsCommGroup(g) && k.p > 0 && k.poly > 0 && GPow(g, f, Order(k)) == g.one
    ensures WitnessFrom(g, k, f, t, l).1 == GPow(g, f, ShiftExponent(k, t))
  {
    hide GPow;
    var n := Order(k);
    var fe := GPow(g, f, k.p);
    var root, root27 := GPow(g, fe, 27), GPow(g, fe, k.poly);
    GPowPower(g, f, k.p, 27);
    GPowPower(g, f, k.p, k.poly);
    GPowPower(g, f, k.p * k.poly, 27);
    assert k.p * k.poly * 27 == n;
    assert k.p * 27 == 27 * k.p;
    InvPowIsPower(g, f, n, 27 * k.p, t);
    if root == g.one { InvPowOfOne(g, t); }
    InvPowIsPower(g, f, n, k.p * k.poly, 10);
    GPowAdd(g, f, 27 * k.p * (n - 1) * t, k.p * k.poly * (n - 1) * 10);
  }

  lemma InvPowOfOne<T(!new)>(g: Group<T>, e: nat)
    requires IsCommGroup(g)
    ensures InvPow(g, g.one, e) == g.one
  {
    Unit(g, g.one);
    InverseUnique(g, g.one, g.one);
    GPowOne(g, e);
  }

  // ----- the exponents -------------------------------------------------------------------------

  /** (a + b)(n - 1), with a = 27 p t and b = 10 p poly. */
  lemma ShiftFactored(k: Factors, t: nat)
    requires k.p > 0 && k.poly > 0
    ensures ShiftExponent(k, t) == (27 * k.p * t + 10 * k.p * k.poly) * (Order(k) - 1)
  {
    FactorOut(27 * k.p, t, k.p * k.poly, Order(k) - 1);
  }

  lemma FactorOut(a: int, t: int, b: int, n: int)
    ensures a * n * t + b * n * 10 == (a * t + 10 * b) * n
  {}

  /** Modulo a divisor d of the order, 1 + (a + b)(n - 1) is 1 - a - b. */
  lemma ReducedShift(u: int, n: int, d: nat, q: int)
    requires d > 0 && n == q * d && Cong(u, 1, d)
    ensures Cong(1 + u * (n - 1), 0, d)
  {
    CongIntro(n - 1, -1, d, q);
    CongMul(u, 1, n - 1, -1, d);
    CongAdd(1, 1, u * (n - 1), -1, d);
  }

  lemma CoprimeDivisors(k: Factors, e: int)
    requires Euclid.Coprime(27 * k.p, k.poly) && k.poly > 1 && e % 27 == 0 && e % k.poly == 0
    ensures exists j :: e == 27 * k.poly * j
  {
    var r := Euclid.ExtendedGcd(27 * k.p, k.poly);
    Euclid.BezoutIdentity(27 * k.p, k.poly);
    Euclid.ExtendedGcdIsGcd(27 * k.p, k.poly);
    Euclid.GcdNonNegative(27 * k.p, k.poly);
    Euclid.GcdUnique(r.g, 1, 27 * k.p, k.poly);
    Recombine(k.p * r.x, r.y, k.poly, e / 27, e / k.poly, e);
  }

  /** 27 x + poly y = 1 and e = 27 i = poly j give e = 27 poly (x j + y i). */
  lemma Recombine(x: int, y: int, poly: int, i: int, j: int, e: int)
    requires 27 * x + poly * y == 1 && e == 27 * i && e == poly * j
    ensures e == 27 * poly * (x * j + y * i)
  {
    assert e == (27 * x + poly * y) * e;
    assert 27 * x * (poly * j) == 27 * poly * (x * j);
    assert poly * y * (27 * i) == 27 * poly * (y * i);
    assert (27 * x + poly * y) * e == 27 * x * e + poly * y * e;
  }

  /** 27 poly divides 1 + the shift exponent: modulo 27 by 10 p poly = 1, and modulo poly by
      27 p t = 1. */
  lemma ShiftCancels(k: Factors, t: nat) returns (j: int)
    requires Relations(k) && (27 * k.p * t) % k.poly == 1
    ensures 1 + ShiftExponent(k, t) == 27 * k.poly * j
  {
    var n, a, b := Order(k), 27 * k.p * t, 10 * k.p * k.poly;
    var e := 1 + ShiftExponent(k, t);
    ShiftFactored(k, t);
    SmallMod(1, k.poly);
    SmallMod(0, k.poly);
    CongIntro(b, 0, k.poly, 10 * k.p);
    CongAdd(a, 1, b, 0, k.poly);
    assert n == 27 * k.p * k.poly;
    ReducedShift(a + b, n, k.poly, 27 * k.p);
    assert a == k.p * t * 27;
    CongIntro(a, 0, 27, k.p * t);
    CongAdd(a, 0, b, 1, 27);
    ReducedShift(a + b, n, 27, k.p * k.poly);
    CoprimeDivisors(k, e);
    j :| e == 27 * k.poly * j;
  }

  // ----- the witness ------------------------------------------------------------------------------

  /** The shift removes both parts: (f s)^p = 1. */
  lemma ShiftedHasOrderP<T(!new)>(g: Group<T>, k: Factors, f: T, t: nat, l: nat)
    requires IsCommGroup(g) && Relations(k) && GPow(g, f, Order(k)) == g.one
    requires (27 * k.p * t) % k.poly == 1
    ensures GPow(g, g.mul(f, WitnessFrom(g, k, f, t, l).1), k.p) == g.one
  {
    hide GPow;
    var x := ShiftExponent(k, t);
    ShiftIsPower(g, k, f, t, l);
    GPowAdd(g, f, 1, x);
    PowFirst(g, f);
    GPowPower(g, f, 1 + x, k.p);
    var j := ShiftCancels(k, t);
    assert j >= 0 by { NonNegativeFactor(27 * k.poly, j); }
    OrderTimes(k.p, k.poly, j);
    PowMultiple(g, f, Order(k), j);
  }

  lemma NonNegativeFactor(a: nat, j: int)
    requires a > 0 && a * j > 0
    ensures j >= 0
  {
    assert a * j == -((-j) * a);
    if j < 0 {
      MulAtLeast(-j, a);
      assert false;
    }
  }

  lemma OrderTimes(p: int, poly: int, j: int)
    ensures 27 * poly * j * p == 27 * (p * poly) * j
  {
    assert 27 * poly * j * p == 27 * (poly * (j * p));
    assert poly * (j * p) == p * poly * j;
  }

  /** The shift itself lies in the part of order dividing 27 poly. */
  lemma ShiftOrder<T(!new)>(g: Group<T>, k: Factors, f: T, t: nat, l: nat)
    requires IsCommGroup(g) && k.p > 0 && k.poly > 0 && GPow(g, f, Order(k)) == g.one
    ensures GPow(g, WitnessFrom(g, k, f, t, l).1, 27 * k.poly) == g.one
  {
    hide GPow;
    var x, c := ShiftExponent(k, t), (27 * t + 10 * k.poly) * (Order(k) - 1);
    ShiftIsPower(g, k, f, t, l);
    ShiftFactored(k, t);
    assert 27 * k.p * t + 10 * k.p * k.poly == k.p * (27 * t + 10 * k.poly);
    assert x == k.p * c;
    GPowPower(g, f, x, 27 * k.poly);
    assert k.p * c * (27 * k.poly) == Order(k) * c by { OrderTimes(k.p, k.poly, c); }
    PowMultiple(g, f, Order(k), c);
  }

  /** How far lambda times its inverse exceeds 1. */
  function Excess(k: Factors): nat
    requires k.p > 0
  {
    match Euclid.ModInv(k.lambda, k.p)
    case Some(l) => if k.lambda * l > 0 then k.lambda * l - 1 else 0
    case None => 0
  }

  lemma WholeAndRest(a: nat, b: nat, p: nat)
    requires p > 0
    ensures a * b / p >= 0 && a * b == p * (a * b / p) + a * b % p && b * a == a * b
  {}

  lemma ExcessIsMultiple(k: Factors, l: nat) returns (q: nat)
    requires k.p > 1 && Euclid.ModInv(k.lambda, k.p) == Some(l)
    ensures l * k.lambda == Excess(k) + 1 && Excess(k) == k.p * q
  {
    Euclid.ModInvCorrect(k.lambda, k.p);
    hide Euclid.ModInv;
    q := k.lambda * l / k.p;
    WholeAndRest(k.lambda, l, k.p);
  }

  /** For any f at all: neither `modinv` fails, and c^lambda = f s exactly when
      (f s)^(lambda l - 1) = 1, l being the inverse of lambda that the source uses. */
  lemma HintWitnessIff<T(!new)>(g: Group<T>, k: Factors, f: T)
    requires IsCommGroup(g) && Relations(k)
    ensures FinalExpHint(g, k, f).Some?
    ensures var (c, s) := FinalExpHint(g, k, f).value;
      GPow(g, c, k.lambda) == g.mul(f, s) <==> GPow(g, g.mul(f, s), Excess(k)) == g.one
  {
    hide GPow, Excess, Euclid.ModInv;
    Euclid.ModInvCorrect(27 * k.p, k.poly);
    Euclid.ModInvCorrect(k.lambda, k.p);
    var l, e := Euclid.ModInv(k.lambda, k.p).value, Excess(k);
    var (c, s) := FinalExpHint(g, k, f).value;
    var fs := g.mul(f, s);
    var _ := ExcessIsMultiple(k, l);
    GPowPower(g, fs, l, k.lambda);
    PowSucc(g, fs, e);
    Comm(g, GPow(g, fs, e), fs);
    NeutralIff(g, fs, GPow(g, fs, e));
  }

  /** What makes (c, s) a residue witness for f. */
  ghost predicate IsWitness<T>(g: Group<T>, k: Factors, f: T, c: T, s: T) {
    && GPow(g, c, k.lambda) == g.mul(f, s) && GPow(g, c, k.p) == g.one
    && GPow(g, g.mul(f, s), k.p) == g.one && GPow(g, s, 27 * k.poly) == g.one
  }

  /** There is at most one: s is fixed by f, and c by both. */
  lemma WitnessUnique<T(!new)>(g: Group<T>, k: Factors, f: T, c: T, s: T, c': T, s': T)
    requires IsCommGroup(g) && Relations(k) && IsWitness(g, k, f, c, s) && IsWitness(g, k, f, c', s')
    ensures c == c' && s == s'
  {
    hide GPow;
    Euclid.ModInvCorrect(27 * k.p, k.poly);
    Euclid.ModInvCorrect(k.lambda, k.p);
    hide Euclid.ModInv;
    var t, l := Euclid.ModInv(27 * k.p, k.poly).value, Euclid.ModInv(k.lambda, k.p).value;
    var d := g.mul(s, g.inv(s'));
    QuotientPower(g, s, s', 27 * k.poly);
    QuotientPower(g, g.mul(f, s), g.mul(f, s'), k.p);
    CommonFactor(g, f, s, s');
    CoprimeParts(g, k, d, t);
    QuotientOne(g, s, s');
    var e := g.mul(c, g.inv(c'));
    QuotientPower(g, c, c', k.lambda);
    QuotientPower(g, c, c', k.p);
    OnlyUnit(g, e, k.lambda, l, k.p);
    QuotientOne(g, c, c');
  }

  lemma CommonFactor<T(!new)>(g: Group<T>, f: T, s: T, s': T)
    requires IsCommGroup(g)
    ensures g.mul(g.mul(f, s), g.inv(g.mul(f, s'))) == g.mul(s, g.inv(s'))
  {
    // (s / s') (f s') = f s
    var d, fs' := g.mul(s, g.inv(s')), g.mul(f, s');
    Comm(g, f, s');
    Assoc(g, d, s', f);
    Assoc(g, s, g.inv(s'), s');
    Inverse(g, s');
    Unit(g, s);
    Comm(g, s, f);
    Assoc(g, d, fs', g.inv(fs'));
    Inverse(g, fs');
    Unit(g, d);
  }

  /** Only the unit has an order dividing both 27 poly and p. */
  lemma CoprimeParts<T(!new)>(g: Group<T>, k: Factors, x: T, t: nat)
    requires IsCommGroup(g) && Relations(k) && (27 * k.p * t) % k.poly == 1
    requires GPow(g, x, 27 * k.poly) == g.one && GPow(g, x, k.p) == g.one
    ensures x == g.one
  {
    hide GPow;
    var y := GPow(g, x, k.poly);
    GPowPower(g, x, k.poly, 27);
    assert k.poly * 27 == 27 * k.poly;
    GPowPower(g, x, k.poly, k.p);
    PowMultiple(g, x, k.p, k.poly);
    assert k.poly * k.p == k.p * k.poly;
    assert k.p * (10 * k.poly) == 10 * k.p * k.poly;
    OnlyUnit(g, y, k.p, 10 * k.poly, 27);
    PowMultiple(g, x, k.p, 27);
    assert k.p * 27 == 27 * k.p;
    OnlyUnit(g, x, 27 * k.p, t, k.poly);
  }

  /** `final_exp_hint` returns the witness (c, s) whenever f^(27 p poly) = 1; and neither `modinv`
      fails. */
  lemma HintIsWitness<T(!new)>(g: Group<T>, k: Factors, f: T)
    requires IsCommGroup(g) && Relations(k) && GPow(g, f, Order(k)) == g.one
    ensures FinalExpHint(g, k, f).Some?
    ensures var (c, s) := FinalExpHint(g, k, f).value;
      IsWitness(g, k, f, c, s)
  {
    hide GPow, Excess, Order, Euclid.ModInv, WitnessFrom;
    HintWitnessIff(g, k, f);
    Euclid.ModInvCorrect(27 * k.p, k.poly);
    var t, l := Euclid.ModInv(27 * k.p, k.poly).value, Euclid.ModInv(k.lambda, k.p).value;
    var (c, s) := WitnessFrom(g, k, f, t, l);
    ShiftedHasOrderP(g, k, f, t, l);
    ShiftOrder(g, k, f, t, l);
    var q := ExcessIsMultiple(k, l);
    var fs := g.mul(f, s);
    PowMultiple(g, fs, k.p, q);
    PowOfPart(g, k, f, t, l);
  }

  /** For f = 1 the pair is (1, 1), which the source serves directly when there are no points. */
  lemma HintOfOne<T(!new)>(g: Group<T>, k: Factors)
    requires IsCommGroup(g) && Relations(k)
    ensures FinalExpHint(g, k, g.one) == Some((g.one, g.one))
  {
    hide GPow, Relations;
    var t, l := TheInverses(k);
    hide Euclid.ModInv;
    GPowOne(g, k.p);
    GPowOne(g, 27);
    GPowOne(g, k.poly);
    InvPowOfOne(g, 10);
    Unit(g, g.one);
    GPowOne(g, l);
  }

  lemma PowOfPart<T(!new)>(g: Group<T>, k: Factors, f: T, t: nat, l: nat)
    requires IsCommGroup(g)
    requires GPow(g, g.mul(f, WitnessFrom(g, k, f, t, l).1), k.p) == g.one
    ensures GPow(g, WitnessFrom(g, k, f, t, l).0, k.p) == g.one
  {
    hide GPow;
    var fs := g.mul(f, WitnessFrom(g, k, f, t, l).1);
    GPowPower(g, fs, l, k.p);
    PowMultiple(g, fs, k.p, l);
    assert l * k.p == k.p * l;
  }

  /** The exponent of f that s cancels. */
  function Removed(k: Factors, t: nat, inOrder: bool): nat {
    27 * k.p * t + if inOrder then 10 * k.p * k.poly else 0
  }

  lemma TheInverses(k: Factors) returns (t: nat, l: nat)
    requires Relations(k)
    ensures k.p > 1 && k.poly > 1 && t < k.poly && (27 * k.p * t) % k.poly == 1 && l < k.p && (k.lambda * l) % k.p == 1
    ensures Euclid.ModInv(27 * k.p, k.poly) == Some(t) && Euclid.ModInv(k.lambda, k.p) == Some(l)
  {
    Euclid.ModInvCorrect(27 * k.p, k.poly);
    Euclid.ModInvCorrect(k.lambda, k.p);
    hide Euclid.ModInv;
    t, l := Euclid.ModInv(27 * k.p, k.poly).value, Euclid.ModInv(k.lambda, k.p).value;
  }

  /** The pair for any f at all: s takes away f^(27 P t), and f^(10 P poly) too exactly when
      f^(27 P poly) = 1; c is (f s)^l. Here t and l are the two inverses. */
  lemma HintShape<T(!new)>(g: Group<T>, k: Factors, f: T) returns (t: nat, l: nat)
    requires IsCommGroup(g) && Relations(k)
    ensures t < k.poly && (27 * k.p * t) % k.poly == 1 && l < k.p && (k.lambda * l) % k.p == 1
    ensures FinalExpHint(g, k, f).Some?
    ensures var (c, s) := FinalExpHint(g, k, f).value;
      && c == GPow(g, g.mul(f, s), l)
      && g.mul(GPow(g, f, Removed(k, t, GPow(g, f, Order(k)) == g.one)), s) == g.one
  {
    hide GPow, Order, Removed, WitnessFrom, Relations;
    t, l := TheInverses(k);
    hide Euclid.ModInv;
    ShiftShape(g, k, f, t, l);
  }

  lemma ShiftShape<T(!new)>(g: Group<T>, k: Factors, f: T, t: nat, l: nat)
    requires IsCommGroup(g) && k.p > 0 && k.poly > 0
    ensures var (c, s) := WitnessFrom(g, k, f, t, l);
      && c == GPow(g, g.mul(f, s), l)
      && g.mul(GPow(g, f, Removed(k, t, GPow(g, f, Order(k)) == g.one)), s) == g.one
  {
    hide GPow;
    var fe := GPow(g, f, k.p);
    var root, root27 := GPow(g, fe, 27), GPow(g, fe, k.poly);
    GPowPower(g, f, k.p, 27);
    GPowPower(g, f, k.p * 27, t);
    assert k.p * 27 * t == 27 * k.p * t;
    GPowPower(g, f, k.p, k.poly);
    GPowPower(g, f, k.p * k.poly, 27);
    GPowPower(g, f, k.p * k.poly, 10);
    assert k.p * k.poly * 27 == Order(k) && k.p * k.poly * 10 == 10 * k.p * k.poly;
    var inOrder := GPow(g, f, Order(k)) == g.one;
    var a, b := GPow(g, f, 27 * k.p * t), if inOrder then GPow(g, f, 10 * k.p * k.poly) else g.one;
    var a', b' := if root == g.one then g.one else InvPow(g, root, t), if inOrder then InvPow(g, root27, 10) else g.one;
    if root == g.one { GPowOne(g, t); }
    Unit(g, g.one);
    PowOfInverse(g, root, t);
    Inverse(g, GPow(g, root, t));
    PowOfInverse(g, root27, 10);
    Inverse(g, GPow(g, root27, 10));
    GPowAdd(g, f, 27 * k.p * t, 10 * k.p * k.poly);
    Unit(g, a);
    TwoInverses(g, a, b, a', b');
  }

  lemma TwoInverses<T(!new)>(g: Group<T>, a: T, b: T, a': T, b': T)
    requires IsCommGroup(g) && g.mul(a, a') == g.one && g.mul(b, b') == g.one
    ensures g.mul(g.mul(a, b), g.mul(a', b')) == g.one
  {
    Comm(g, a, b);
    Assoc(g, b, a, g.mul(a', b'));
    Assoc(g, a, a', b');
    Unit(g, b');
  }
}
