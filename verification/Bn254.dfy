/** bn254_hint.rs: the residue witness (c, u) with c^lambda = f * u, over an abstract group. */
module Bn254 {
  import opened Wrappers
  import opened Arithmetic
  import opened Groups

  /** The constants of the file: a 27th root of unity and four exponents. */
  datatype Constants<T> = Constants(omega: T, e1: nat, e2: nat, rInv: nat, mInv: nat)

  /** The numbers behind the exponents: N = p^12 - 1 = 27 s, the prime r with N = r * cofactor,
      and m with lambda = 3 r m. */
  datatype Numbers = Numbers(s: nat, r: nat, cofactor: nat, m: nat) {
    ghost function N(): nat { 27 * s }
    ghost function Lambda(): nat { 3 * (r * m) }

    /** The exponent that f * u is raised to in all. */
    ghost function Total<T>(k: Constants<T>): nat { (r * k.rInv) * (m * k.mInv) }

    /** One less: the power of f left over beside f * u. */
    ghost function Rest<T>(k: Constants<T>): nat { if Total(k) == 0 then 0 else Total(k) - 1 }
  }

  /** The relations the numerals of the file satisfy: e1 = N/3, e2 = (s+1)/3 prime to 3, rInv
      and mInv invert r and m modulo N/r; and 27 divides N/r. (The comment on mInv says modulo
      N; see PairingConstants.) */
  ghost predicate Exponents<T>(k: Constants<T>, n: Numbers) {
    && k.e1 == 9 * n.s && 3 * k.e2 == n.s + 1 && k.e2 % 3 != 0
    && n.N() == n.r * n.cofactor && n.cofactor % 27 == 0 && n.cofactor > 0
    && (n.r * k.rInv) % n.cofactor == 1
    && (n.m * k.mInv) % n.cofactor == 1
  }

  /** The group has exponent N, and omega generates the elements of order dividing 27. */
  ghost predicate RootOfUnity<T(!new)>(g: Group<T>, w: T, s: nat) {
    && IsCommGroup(g)
    && (forall x :: GPow(g, x, 27 * s) == g.one)
    && GPow(g, w, 27) == g.one && GPow(g, w, 9) != g.one
    && (forall x :: GPow(g, x, 27) == g.one ==> exists i: nat :: x == GPow(g, w, i))
  }

  lemma GroupExponent<T(!new)>(g: Group<T>, w: T, s: nat, x: T)
    requires RootOfUnity(g, w, s)
    ensures GPow(g, x, 27 * s) == g.one
  {
    hide GPow;
  }

  lemma Logarithm<T(!new)>(g: Group<T>, w: T, s: nat, x: T) returns (i: nat)
    requires RootOfUnity(g, w, s) && GPow(g, x, 27) == g.one
    ensures x == GPow(g, w, i)
  {
    hide GPow;
    i :| x == GPow(g, w, i);
  }

  // ----- omega has order exactly 27 ---------------------------------------------------

  /** A multiplier taking j to 9 modulo 27. */
  function ToNine(j: nat): nat {
    if j % 3 != 0 then 9 * (j % 3) else if j % 9 != 0 then 3 * (j / 3 % 3) else j / 9 % 3
  }

  lemma SmallToNine(d: nat)
    requires 0 < d < 27
    ensures (d * ToNine(d)) % 27 == 9
  {
    var t, q := ToNine(d), d / 3;
    if d % 3 == 1 {
      DivModUnique(d * t, 27, q, 9);
    } else if d % 3 == 2 {
      DivModUnique(d * t, 27, 2 * q + 1, 9);
    } else if q % 3 == 1 {
      DivModUnique(d * t, 27, q / 3, 9);
    } else if q % 3 == 2 {
      DivModUnique(d * t, 27, 2 * (q / 3) + 1, 9);
    } else {
      assert d == 9 || d == 18;
    }
  }

  lemma OrderOfOmega<T(!new)>(g: Group<T>, w: T, j: nat)
    requires IsCommGroup(g) && GPow(g, w, 27) == g.one && GPow(g, w, 9) != g.one
    ensures GPow(g, w, j) == g.one <==> j % 27 == 0
  {
    hide GPow;
    PowZero(g, w);
    var d := j % 27;
    PowModulo(g, w, 27, j, d);
    if d != 0 && GPow(g, w, d) == g.one {
      SmallToNine(d);
      PowMultiple(g, w, d, ToNine(d));
      PowModulo(g, w, 27, d * ToNine(d), 9);
    }
  }

  lemma PowZero<T>(g: Group<T>, x: T)
    ensures GPow(g, x, 0) == g.one
  {}

  // ----- exactly one of f, f w, f w^2 is a cube -----------------------------------------

  /** The exponent of f among the cosets of the cubes. */
  lemma CubeCoset<T(!new)>(g: Group<T>, w: T, s: nat, f: T) returns (j: nat)
    requires RootOfUnity(g, w, s) && s % 3 == 2
    ensures j < 3
    ensures forall i: nat :: i < 3 ==> (GPow(g, g.mul(f, GPow(g, w, i)), 9 * s) == g.one <==> i == j)
  {
    hide GPow;
    var z := GPow(g, f, 9 * s);
    GroupExponent(g, w, s, f);
    GPowPower(g, f, 9 * s, 3);
    assert 9 * s * 3 == 27 * s;
    PowMultiple(g, z, 3, 9);
    var k := Logarithm(g, w, s, z);
    GPowPower(g, w, k, 3);
    OrderOfOmega(g, w, k * 3);
    j := k / 9 % 3;
    forall i: nat | i < 3 ensures GPow(g, g.mul(f, GPow(g, w, i)), 9 * s) == g.one <==> i == j {
      CosetPower(g, w, s, f, k, i);
      CosetArithmetic(k, s, i);
    }
  }

  lemma CosetPower<T(!new)>(g: Group<T>, w: T, s: nat, f: T, k: nat, i: nat)
    requires RootOfUnity(g, w, s) && GPow(g, f, 9 * s) == GPow(g, w, k)
    ensures GPow(g, g.mul(f, GPow(g, w, i)), 9 * s) == g.one <==> (k + i * (9 * s)) % 27 == 0
  {
    hide GPow;
    GPowProduct(g, f, GPow(g, w, i), 9 * s);
    GPowPower(g, w, i, 9 * s);
    GPowAdd(g, w, k, i * (9 * s));
    OrderOfOmega(g, w, k + i * (9 * s));
  }

  lemma CosetArithmetic(k: nat, s: nat, i: nat)
    requires k % 9 == 0 && s % 3 == 2 && i < 3
    ensures (k + i * (9 * s)) % 27 == 0 <==> i == k / 9 % 3
  {
    var a, r, b := k / 9 / 3, k / 9 % 3, s / 3;
    assert k == 27 * a + 9 * r && s == 3 * b + 2;
    var c := r + 2 * i;
    assert i * (9 * s) == 27 * (i * b) + 18 * i by { CosetAlgebra(i, b); }
    DivModUnique(k + i * (9 * s), 27, a + i * b + c / 3, 9 * (c % 3));
    assert c % 3 == 0 <==> r == i;
  }

  lemma CosetAlgebra(i: int, b: int)
    ensures i * (9 * (3 * b + 2)) == 27 * (i * b) + 18 * i
  {
  }

  // ----- the search for the cube root ------------------------------------------------------

  /** The inverse modulo 9 of a number prime to 3. */
  function InverseMod9(e: nat): nat {
    match e % 9
    case 1 => 1 case 2 => 5 case 4 => 7 case 5 => 2 case 7 => 4 case _ => 8
  }

  /** How many multiplications by w^e2 bring the exponent 3 j to 0. */
  function StepsToCube(j: nat, e2: nat): nat { (9 - j % 9) * InverseMod9(e2) % 9 }

  lemma StepsReachZero(j: nat, e2: nat)
    requires e2 % 3 != 0
    ensures StepsToCube(j, e2) <= 8 && (j + e2 * StepsToCube(j, e2)) % 9 == 0
  {
    var i, d := InverseMod9(e2), j % 9;
    InverseMod9Works(e2);
    Steps(j, d, e2, i, e2 * i / 9, (9 - d) * i / 9);
  }

  lemma InverseMod9Works(e: nat)
    requires e % 3 != 0
    ensures (e * InverseMod9(e)) % 9 == 1
  {
    var q, d, i := e / 9, e % 9, InverseMod9(e);
    DivModUnique(e, 3, 3 * q + d / 3, d % 3);
    assert d in {1, 2, 4, 5, 7, 8};
    assert e * i == 9 * (q * i) + d * i by { DigitTimes(q, d, i); }
    DivModUnique(e * i, 9, q * i + d * i / 9, 1);
  }

  lemma DigitTimes(q: int, d: int, i: int)
    ensures (9 * q + d) * i == 9 * (q * i) + d * i
  {
  }

  lemma StepsAlgebra(d: int, e: int, i: int, a: int, b: int)
    requires e * i == 9 * a + 1
    ensures e * ((9 - d) * i - 9 * b) == 9 * ((9 - d) * a - e * b) + 9 - d
  {
    assert e * ((9 - d) * i - 9 * b) == (9 - d) * (e * i) - 9 * (e * b);
    assert (9 - d) * (9 * a + 1) == 9 * ((9 - d) * a) + (9 - d);
  }

  lemma Steps(j: nat, d: nat, e: nat, i: nat, a: nat, b: nat)
    requires j % 9 == d && e * i == 9 * a + 1
    ensures (j + e * ((9 - d) * i - 9 * b)) % 9 == 0
  {
    StepsAlgebra(d, e, i, a, b);
    var k := (9 - d) * a - e * b;
    CongZero(j + e * ((9 - d) * i - 9 * b), j / 9 + 1 + k, 9);
  }

  /** The exponent j after n multiplications by w^e2. */
  function After(j: nat, e2: nat, n: nat): nat { j + e2 * n }

  /** The candidate for the cube root of c after n steps: c^e2 (w^e2)^n. */
  ghost function Candidate<T>(g: Group<T>, k: Constants<T>, c: T, n: nat): T {
    g.mul(GPow(g, c, k.e2), GPow(g, k.omega, k.e2 * n))
  }

  /** What the two loops return: the first of the nine candidates from step n on whose cube is c. */
  ghost function SearchRoot<T>(g: Group<T>, k: Constants<T>, c: T, n: nat): Option<T>
    decreases 9 - n
  {
    if n > 8 then None
    else if GPow(g, Candidate(g, k, c, n), 3) == c then Some(Candidate(g, k, c, n))
    else SearchRoot(g, k, c, n + 1)
  }

  /** After n steps from x = c^e2, the quotient x^3 / c is w^(3 (j + e2 n)). */
  lemma QuotientAfterSteps<T(!new)>(g: Group<T>, k: Constants<T>, c: T, j: nat, n: nat)
    requires IsCommGroup(g)
    requires g.mul(GPow(g, GPow(g, c, k.e2), 3), g.inv(c)) == GPow(g, k.omega, 3 * j)
    ensures g.mul(GPow(g, Candidate(g, k, c, n), 3), g.inv(c)) == GPow(g, k.omega, 3 * After(j, k.e2, n))
    ensures GPow(g, Candidate(g, k, c, n), 3) == c <==> GPow(g, k.omega, 3 * After(j, k.e2, n)) == g.one
  {
    hide GPow;
    var w, e := k.omega, k.e2 * n;
    var a, b, x := GPow(g, c, k.e2), GPow(g, w, e), Candidate(g, k, c, n);
    GPowProduct(g, a, b, 3);
    var a3, b3, v := GPow(g, a, 3), GPow(g, b, 3), g.inv(c);
    GPowPower(g, w, e, 3);
    Assoc(g, a3, b3, v);
    Comm(g, b3, v);
    Assoc(g, a3, v, b3);
    GPowAdd(g, w, 3 * j, e * 3);
    assert 3 * j + e * 3 == 3 * After(j, k.e2, n);
    Inverse(g, c);
    if g.mul(GPow(g, x, 3), v) == g.one { QuotientOne(g, GPow(g, x, 3), c); }
  }

  /** The first quotient is c^s, a power of w^3. */
  lemma FirstQuotient<T(!new)>(g: Group<T>, w: T, s: nat, e2: nat, c: T) returns (j: nat)
    requires RootOfUnity(g, w, s) && 3 * e2 == s + 1 && GPow(g, c, 9 * s) == g.one
    ensures g.mul(GPow(g, GPow(g, c, e2), 3), g.inv(c)) == GPow(g, w, 3 * j)
  {
    hide GPow;
    GPowPower(g, c, e2, 3);
    PowSucc(g, c, s);
    var v, z := g.inv(c), GPow(g, c, s);
    // c^(s+1) / c = c^s
    Assoc(g, z, c, v);
    Inverse(g, c);
    Unit(g, z);
    GPowPower(g, c, s, 9);
    PowMultiple(g, z, 9, 3);
    var k := Logarithm(g, w, s, z);
    GPowPower(g, w, k, 9);
    OrderOfOmega(g, w, k * 9);
    j := k / 3;
    assert k == 3 * j;
  }

  lemma CubeByProducts<T(!new)>(g: Group<T>, x: T)
    requires IsCommGroup(g)
    ensures g.mul(g.mul(x, x), x) == GPow(g, x, 3) && g.mul(x, g.mul(x, x)) == GPow(g, x, 3)
  {
    hide GPow;
    PowFirst(g, x);
    Assoc(g, x, x, x);
  }

  /** `ts_loop`: cubes x3 until it is 1, counting in t. */
  method TsLoop<T(!new,==)>(g: Group<T>, x3: T, tmp: T, t: nat) returns (x3': T, tmp': T, t': nat)
    requires IsCommGroup(g) && GPow(g, x3, 9) == g.one
    ensures x3' == g.one && t <= t' <= t + 2
    ensures t' == t <==> x3 == g.one
  {
    hide GPow;
    x3', tmp', t' := x3, tmp, t;
    ghost var k: nat := 9;
    while x3' != g.one
      invariant GPow(g, x3', k) == g.one
      invariant (k == 9 && t' == t && x3' == x3) || (k == 3 && t' == t + 1 && x3 != g.one)
                || (k == 1 && t' == t + 2 && x3 != g.one)
      decreases k
    {
      PowFirst(g, x3');
      CubeByProducts(g, x3');
      GPowPower(g, x3', 3, k / 3);
      tmp' := g.mul(x3', x3');
      x3' := g.mul(x3', tmp');
      t' := t' + 1;
      k := k / 3;
    }
  }

  /** The two loops: a cube root of c, in at most eight steps of the outer one. */
  method CubeRoot<T(!new,==)>(g: Group<T>, k: Constants<T>, c: T, ghost n: Numbers)
    returns (x: T, ghost steps: nat)
    requires RootOfUnity(g, k.omega, n.s) && Exponents(k, n) && GPow(g, c, k.e1) == g.one
    ensures GPow(g, x, 3) == c && steps <= 8
    ensures SearchRoot(g, k, c, 0) == Some(x)
  {
    hide GPow, After, Candidate, StepsToCube;
    var w := k.omega;
    ghost var j := FirstQuotient(g, w, n.s, k.e2, c);
    ghost var bound := StepsToCube(j, k.e2);
    StepsReachZero(j, k.e2);
    var omegaExp2 := GPow(g, w, k.e2);
    x := GPow(g, c, k.e2);
    var cInv := g.inv(c);
    var x3 := g.mul(g.mul(g.mul(x, x), x), cInv);
    var t: nat := 0;
    var tmp := g.mul(x3, x3);
    steps := 0;
    FirstCandidate(g, k, c);
    CubeByProducts(g, x);
    QuotientAfterSteps(g, k, c, j, 0);
    QuotientOrder(g, w, After(j, k.e2, 0));
    x3, tmp, t := TsLoop(g, x3, tmp, t);
    while t != 0
      invariant 0 <= steps <= bound
      invariant x == Candidate(g, k, c, steps) && SearchRoot(g, k, c, 0) == SearchRoot(g, k, c, steps)
      invariant t == 0 <==> GPow(g, x, 3) == c
      decreases bound - steps
    {
      QuotientAfterSteps(g, k, c, j, steps);
      NotYetCube(g, w, j, k.e2, steps);
      NextCandidate(g, k, c, steps);
      x := g.mul(x, omegaExp2);
      steps := steps + 1;
      x3 := g.mul(g.mul(g.mul(x, x), x), cInv);
      CubeByProducts(g, x);
      QuotientAfterSteps(g, k, c, j, steps);
      QuotientOrder(g, w, After(j, k.e2, steps));
      t := 0;
      tmp := g.mul(x3, x3);
      x3, tmp, t := TsLoop(g, x3, tmp, t);
    }
  }

  lemma FirstCandidate<T(!new)>(g: Group<T>, k: Constants<T>, c: T)
    requires IsCommGroup(g)
    ensures Candidate(g, k, c, 0) == GPow(g, c, k.e2)
  {
    hide GPow;
    PowZero(g, k.omega);
    Unit(g, GPow(g, c, k.e2));
  }

  lemma NextCandidate<T(!new)>(g: Group<T>, k: Constants<T>, c: T, n: nat)
    requires IsCommGroup(g)
    ensures g.mul(Candidate(g, k, c, n), GPow(g, k.omega, k.e2)) == Candidate(g, k, c, n + 1)
  {
    hide GPow;
    var a, w, e := GPow(g, c, k.e2), k.omega, k.e2;
    Assoc(g, a, GPow(g, w, e * n), GPow(g, w, e));
    GPowAdd(g, w, e * n, e);
    assert e * n + e == e * (n + 1);
  }

  lemma QuotientOrder<T(!new)>(g: Group<T>, w: T, i: nat)
    requires IsCommGroup(g) && GPow(g, w, 27) == g.one
    ensures GPow(g, GPow(g, w, 3 * i), 9) == g.one
  {
    hide GPow;
    GPowPower(g, w, 3 * i, 9);
    assert 3 * i * 9 == 27 * i;
    PowMultiple(g, w, 27, i);
  }

  lemma NotYetCube<T(!new)>(g: Group<T>, w: T, j: nat, e2: nat, steps: nat)
    requires IsCommGroup(g) && GPow(g, w, 27) == g.one && GPow(g, w, 9) != g.one && e2 % 3 != 0
    requires GPow(g, w, 3 * After(j, e2, steps)) != g.one
    ensures steps != StepsToCube(j, e2)
  {
    hide GPow;
    var i := After(j, e2, steps);
    StepsReachZero(j, e2);
    TripleMultiple(i);
    OrderOfOmega(g, w, 3 * i);
  }

  lemma TripleMultiple(i: nat)
    ensures i % 9 == 0 ==> (3 * i) % 27 == 0
  {
    assert i == 9 * (i / 9) + i % 9;
  }

  // ----- the hint ---------------------------------------------------------------------------

  /** u is the power of omega that makes f * u a cube. */
  ghost predicate CubeShift<T>(g: Group<T>, k: Constants<T>, f: T, u: T) {
    && (u == g.one || u == k.omega || u == g.mul(k.omega, k.omega))
    && GPow(g, g.mul(f, u), k.e1) == g.one
  }

  /** The u of the first of f, f w and f w^2 that is a cube. */
  ghost function ShiftOf<T>(g: Group<T>, k: Constants<T>, f: T): T {
    if GPow(g, f, k.e1) == g.one then g.one
    else if GPow(g, g.mul(f, k.omega), k.e1) == g.one then k.omega
    else g.mul(k.omega, k.omega)
  }

  /** The pair `final_exp_hint` returns; None where its loops would not end. */
  ghost function PairOf<T>(g: Group<T>, k: Constants<T>, f: T): Option<(T, T)> {
    var u := ShiftOf(g, k, f);
    match SearchRoot(g, k, GPow(g, GPow(g, g.mul(f, u), k.rInv), k.mInv), 0)
    case Some(x) => Some((x, u))
    case None => None
  }

  /** The choice among f, f w and f w^2. */
  method SelectCube<T(!new,==)>(g: Group<T>, k: Constants<T>, f: T, ghost n: Numbers) returns (c: T, u: T)
    requires RootOfUnity(g, k.omega, n.s) && Exponents(k, n)
    ensures c == g.mul(f, u) && CubeShift(g, k, f, u) && u == ShiftOf(g, k, f)
  {
    hide GPow;
    ghost var j := CubeCoset(g, k.omega, n.s, f);
    PowZero(g, k.omega);
    PowFirst(g, k.omega);
    Unit(g, f);
    if GPow(g, f, k.e1) == g.one {
      return f, g.one;
    }
    var fu := g.mul(f, k.omega);
    if GPow(g, fu, k.e1) == g.one {
      return fu, k.omega;
    }
    Assoc(g, f, k.omega, k.omega);
    return g.mul(fu, k.omega), g.mul(k.omega, k.omega);
  }

  /** `final_exp_hint`: u is the shift, and c^lambda = f u exactly when f^(r rInv m mInv - 1) = 1,
      in particular whenever f^(N/r) = 1. */
  method FinalExpHint<T(!new,==)>(g: Group<T>, k: Constants<T>, f: T, ghost n: Numbers) returns (c: T, u: T)
    requires RootOfUnity(g, k.omega, n.s) && Exponents(k, n)
    ensures PairOf(g, k, f) == Some((c, u)) && CubeShift(g, k, f, u)
    ensures GPow(g, c, n.Lambda()) == g.mul(g.mul(f, u), GPow(g, f, n.Rest(k)))
    ensures GPow(g, c, n.Lambda()) == g.mul(f, u) <==> GPow(g, f, n.Rest(k)) == g.one
    ensures GPow(g, f, n.cofactor) == g.one ==> GPow(g, c, n.Lambda()) == g.mul(f, u)
  {
    hide GPow;
    c, u := SelectCube(g, k, f, n);
    ghost var fu := c;
    c := GPow(g, c, k.rInv);
    c := GPow(g, c, k.mInv);
    RootsKeepCubes(g, fu, c, k.rInv, k.mInv, k.e1);
    var x, steps := CubeRoot(g, k, c, n);
    WitnessPower(g, k, n, f, u, c, x);
    NeutralIff(g, fu, GPow(g, f, n.Rest(k)));
    c := x;
  }

  lemma ShiftIsCube<T(!new)>(g: Group<T>, k: Constants<T>, n: Numbers, f: T)
    requires RootOfUnity(g, k.omega, n.s) && Exponents(k, n)
    ensures CubeShift(g, k, f, ShiftOf(g, k, f))
  {
    hide GPow;
    var j := CubeCoset(g, k.omega, n.s, f);
    PowZero(g, k.omega);
    PowFirst(g, k.omega);
    Unit(g, f);
  }

  lemma {:induction false} SearchFinds<T(!new)>(g: Group<T>, k: Constants<T>, c: T, n: nat, m: nat)
    requires n <= m <= 8 && GPow(g, Candidate(g, k, c, m), 3) == c
    ensures SearchRoot(g, k, c, n).Some? && GPow(g, SearchRoot(g, k, c, n).value, 3) == c
    decreases m - n
  {
    hide GPow, Candidate;
    if GPow(g, Candidate(g, k, c, n), 3) != c { SearchFinds(g, k, c, n + 1, m); }
  }

  /** x is c^e2 (w^e2)^m for the least m for which that is a cube root of c. */
  ghost predicate IsFirstRoot<T>(g: Group<T>, k: Constants<T>, c: T, x: T, m: nat) {
    && x == g.mul(GPow(g, c, k.e2), GPow(g, k.omega, k.e2 * m)) && GPow(g, x, 3) == c
    && forall j: nat :: j < m ==> GPow(g, Candidate(g, k, c, j), 3) != c
  }

  lemma {:induction false} SearchIsFirst<T(!new)>(g: Group<T>, k: Constants<T>, c: T, n: nat) returns (m: nat)
    requires SearchRoot(g, k, c, n).Some? && forall j: nat :: j < n ==> GPow(g, Candidate(g, k, c, j), 3) != c
    ensures m <= 8 && IsFirstRoot(g, k, c, SearchRoot(g, k, c, n).value, m)
    decreases 9 - n
  {
    hide GPow;
    if GPow(g, Candidate(g, k, c, n), 3) == c { m := n; } else { m := SearchIsFirst(g, k, c, n + 1); }
  }

  /** A cube has its root among the nine candidates. */
  lemma CubeHasRoot<T(!new)>(g: Group<T>, k: Constants<T>, n: Numbers, c: T)
    requires RootOfUnity(g, k.omega, n.s) && Exponents(k, n) && GPow(g, c, k.e1) == g.one
    ensures SearchRoot(g, k, c, 0).Some? && GPow(g, SearchRoot(g, k, c, 0).value, 3) == c
  {
    hide GPow, After, Candidate, StepsToCube, SearchRoot;
    var j := FirstQuotient(g, k.omega, n.s, k.e2, c);
    var m := StepsToCube(j, k.e2);
    StepsReachZero(j, k.e2);
    QuotientAfterSteps(g, k, c, j, m);
    if GPow(g, k.omega, 3 * After(j, k.e2, m)) != g.one { NotYetCube(g, k.omega, j, k.e2, m); }
    SearchFinds(g, k, c, 0, m);
  }

  /** The search always ends: u makes f u a cube, c is the first cube root the loops come to, and the
      pair is a residue witness under the exact condition. */
  lemma PairIsWitness<T(!new)>(g: Group<T>, k: Constants<T>, n: Numbers, f: T)
    requires RootOfUnity(g, k.omega, n.s) && Exponents(k, n)
    ensures PairOf(g, k, f).Some?
    ensures var (c, u) := PairOf(g, k, f).value;
      && CubeShift(g, k, f, u)
      && (exists m: nat :: m <= 8 && IsFirstRoot(g, k, GPow(g, GPow(g, g.mul(f, u), k.rInv), k.mInv), c, m))
      && (GPow(g, c, n.Lambda()) == g.mul(f, u) <==> GPow(g, f, n.Rest(k)) == g.one)
      && (GPow(g, f, n.cofactor) == g.one ==> GPow(g, c, n.Lambda()) == g.mul(f, u))
  {
    hide GPow, SearchRoot, ShiftOf, IsFirstRoot;
    var u := ShiftOf(g, k, f);
    ShiftIsCube(g, k, n, f);
    var fu := g.mul(f, u);
    var c := GPow(g, GPow(g, fu, k.rInv), k.mInv);
    RootsKeepCubes(g, fu, c, k.rInv, k.mInv, k.e1);
    CubeHasRoot(g, k, n, c);
    var m := SearchIsFirst(g, k, c, 0);
    WitnessPower(g, k, n, f, u, c, SearchRoot(g, k, c, 0).value);
    NeutralIff(g, fu, GPow(g, f, n.Rest(k)));
  }

  /** For f = 1 the pair is (1, 1), which the source serves directly when there are no points. */
  lemma PairOfOne<T(!new)>(g: Group<T>, k: Constants<T>)
    requires IsCommGroup(g)
    ensures PairOf(g, k, g.one) == Some((g.one, g.one))
  {
    hide GPow;
    GPowOne(g, k.e1);
    Unit(g, g.one);
    GPowOne(g, k.rInv);
    GPowOne(g, k.mInv);
    FirstCandidate(g, k, g.one);
    GPowOne(g, k.e2);
    GPowOne(g, 3);
  }

  lemma RootsKeepCubes<T(!new)>(g: Group<T>, fu: T, c: T, a: nat, b: nat, e1: nat)
    requires IsCommGroup(g) && GPow(g, fu, e1) == g.one && c == GPow(g, GPow(g, fu, a), b)
    ensures GPow(g, c, e1) == g.one
  {
    hide GPow;
    GPowPower(g, fu, a, b);
    GPowPower(g, fu, a * b, e1);
    PowMultiple(g, fu, e1, a * b);
    assert a * b * e1 == e1 * (a * b);
  }

  /** x^lambda = (x^3)^(r m) = (f u)^(r rInv m mInv). */
  lemma WitnessPower<T(!new)>(g: Group<T>, k: Constants<T>, n: Numbers, f: T, u: T, c: T, x: T)
    requires RootOfUnity(g, k.omega, n.s) && Exponents(k, n) && CubeShift(g, k, f, u)
    requires c == GPow(g, GPow(g, g.mul(f, u), k.rInv), k.mInv) && GPow(g, x, 3) == c
    ensures GPow(g, x, n.Lambda()) == g.mul(g.mul(f, u), GPow(g, f, n.Rest(k)))
    ensures GPow(g, f, n.cofactor) == g.one ==> GPow(g, x, n.Lambda()) == g.mul(f, u)
  {
    hide GPow;
    var fu := g.mul(f, u);
    GPowPower(g, x, 3, n.r * n.m);
    GPowPower(g, fu, k.rInv, k.mInv);
    GPowPower(g, fu, k.rInv * k.mInv, n.r * n.m);
    Reorder(k.rInv, k.mInv, n.r, n.m);
    TotalIsOne(k, n);
    CancelTotal(g, k, n.Total(k), n.cofactor, f, u);
  }

  lemma TotalIsOne<T>(k: Constants<T>, n: Numbers)
    requires Exponents(k, n)
    ensures n.Total(k) % n.cofactor == 1
  {
    SmallMod(1, n.cofactor);
    CongMul(n.r * k.rInv, 1, n.m * k.mInv, 1, n.cofactor);
  }

  lemma Reorder(a: nat, b: nat, r: nat, m: nat)
    ensures (a * b) * (r * m) == (r * a) * (m * b)
  {
    assert (a * b) * (r * m) == a * (b * (r * m));
    assert b * (r * m) == r * (m * b);
    assert (r * a) * (m * b) == a * (r * (m * b));
  }

  /** (f u)^e = f u f^(e - 1) for e = 1 mod N/r: u drops out because 27 divides N/r. */
  lemma CancelTotal<T(!new)>(g: Group<T>, k: Constants<T>, e: nat, cofactor: nat, f: T, u: T)
    requires IsCommGroup(g) && GPow(g, k.omega, 27) == g.one && CubeShift(g, k, f, u)
    requires cofactor > 0 && cofactor % 27 == 0 && e % cofactor == 1
    ensures e >= 1 && GPow(g, g.mul(f, u), e) == g.mul(g.mul(f, u), GPow(g, f, e - 1))
    ensures GPow(g, f, cofactor) == g.one ==> GPow(g, g.mul(f, u), e) == g.mul(f, u)
  {
    hide GPow;
    var q := e / cofactor;
    assert e == cofactor * q + 1;
    TwentySeventhPower(g, k, f, u);
    PowMultiple(g, u, 27, cofactor / 27);
    PowMultiple(g, u, cofactor, q);
    PowSucc(g, u, e - 1);
    Unit(g, u);
    GPowProduct(g, f, u, e);
    PowSucc(g, f, e - 1);
    var f1 := GPow(g, f, e - 1);
    Assoc(g, f1, f, u);
    Comm(g, f1, g.mul(f, u));
    if GPow(g, f, cofactor) == g.one {
      PowMultiple(g, f, cofactor, q);
      Unit(g, g.mul(f, u));
    }
  }

  lemma TwentySeventhPower<T(!new)>(g: Group<T>, k: Constants<T>, f: T, u: T)
    requires IsCommGroup(g) && GPow(g, k.omega, 27) == g.one && CubeShift(g, k, f, u)
    ensures GPow(g, u, 27) == g.one
  {
    hide GPow;
    GPowOne(g, 27);
    GPowProduct(g, k.omega, k.omega, 27);
    Unit(g, g.one);
  }

  /** No other power of omega makes f * u a cube. */
  lemma CubeShiftUnique<T(!new)>(g: Group<T>, k: Constants<T>, n: Numbers, f: T, u: T, u': T)
    requires RootOfUnity(g, k.omega, n.s) && Exponents(k, n)
    requires CubeShift(g, k, f, u) && CubeShift(g, k, f, u')
    ensures u == u'
  {
    hide GPow;
    var j := CubeCoset(g, k.omega, n.s, f);
    PowZero(g, k.omega);
    PowFirst(g, k.omega);
    assert u == GPow(g, k.omega, 0) || u == GPow(g, k.omega, 1) || u == GPow(g, k.omega, 2);
    assert u' == GPow(g, k.omega, 0) || u' == GPow(g, k.omega, 1) || u' == GPow(g, k.omega, 2);
  }
}
