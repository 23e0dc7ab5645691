/** ecc.rs: affine addition, doubling and decompression on y^2 = x^3 + a x + b mod p
    (the formulas of section 2.2.1 and the decompression of section 2.3.4 of SEC 1). */
module Curve {
  import opened Wrappers
  import opened Arithmetic
  import opened PrimeField
  import opened QuadraticResidues
  import Euclid
  import TonelliShanks
  import CurveRoots

  /** Coordinates as read from memory: not necessarily reduced. */
  datatype Point = Point(x: nat, y: nat)

  datatype CurveEntry = CurveEntry(coordBytes: nat, modulus: nat, a: nat, b: nat)

  ghost predicate OnCurve(q: Point, c: CurveEntry)
    requires c.modulus > 0
  {
    Cong(q.y * q.y, q.x * q.x * q.x + c.a * q.x + c.b, c.modulus)
  }

  predicate Canonical(q: Point, p: nat) { q.x < p && q.y < p }

  function ModpSub(a: nat, b: nat, p: nat): (r: nat)
    requires p > 0
    ensures r < p
  {
    var a', b' := a % p, b % p;
    if a' >= b' then (a' - b') % p else (p + a' - b') % p
  }

  lemma ModpSubIsDifference(a: nat, b: nat, p: nat)
    requires p > 0
    ensures Cong(ModpSub(a, b, p), a - b, p)
  {
    var a', b' := a % p, b % p;
    CongMod(a, p);
    CongMod(b, p);
    CongSub(a', a, b', b, p);
    CongMod(a' - b', p);
    CongMod(p + a' - b', p);
    CongIntro(p + a' - b', a' - b', p, 1);
  }

  /** None where the source panics on its `expect`: equal x coordinates. */
  function AddNe(c: CurveEntry, p1: Point, p2: Point): Option<Point>
    requires c.modulus > 0
  {
    var p := c.modulus;
    var dx, dy := ModpSub(p2.x, p1.x, p), ModpSub(p2.y, p1.y, p);
    match Euclid.ModInv(dx, p)
    case None => None
    case Some(invDx) =>
      var lam := MulMod(dy, invDx, p);
      var x3 := ModpSub(ModpSub(MulMod(lam, lam, p), p1.x, p), p2.x, p);
      var y3 := ModpSub(MulMod(lam, ModpSub(p1.x, x3, p), p), p1.y, p);
      Some(Point(x3, y3))
  }

  /** None where the source panics on its `expect`: 2y = 0. */
  function Double(c: CurveEntry, p1: Point): Option<Point>
    requires c.modulus > 0
  {
    var p := c.modulus;
    var num := (3 * MulMod(p1.x, p1.x, p) + c.a) % p;
    var den := MulMod(2, p1.y, p);
    match Euclid.ModInv(den, p)
    case None => None
    case Some(invDen) =>
      var lam := MulMod(num, invDen, p);
      var x3 := ModpSub(MulMod(lam, lam, p), MulMod(2, p1.x, p), p);
      var y3 := ModpSub(MulMod(lam, ModpSub(p1.x, x3, p), p), p1.y, p);
      Some(Point(x3, y3))
  }

  // ----- slopes ---------------------------------------------------------------------------

  /** dividing by d: v = n * inv(d) satisfies v * d = n. */
  lemma QuotientTimesDivisor(n: nat, d: nat, p: nat)
    requires p > 1 && Euclid.ModInv(d, p).Some?
    ensures Cong(MulMod(n, Euclid.ModInv(d, p).value, p) * d, n, p)
  {
    var v := Euclid.ModInv(d, p).value;
    Euclid.ModInvCorrect(d, p);
    SmallMod(1, p);
    CongMod(n * v, p);
    CongMul(MulMod(n, v, p), n * v, d, d, p);
    CongScale(n, d * v, 1, p);
    assert n * v * d == n * (d * v);
  }

  /** r is the point where the line of slope lam through (x1, y1), which meets the curve
      again above x2, meets it a third time; reflected. */
  ghost predicate FromSlope(r: Point, lam: int, p1: Point, x2: int, p: nat)
    requires p > 0
  {
    && Cong(r.x, lam * lam - p1.x - x2, p)
    && Cong(r.y, lam * (p1.x - r.x) - p1.y, p)
    && Canonical(r, p)
  }

  lemma FromSlopeUnique(r: Point, r': Point, lam: int, lam': int, p1: Point, p1': Point, x2: int, x2': int, p: nat)
    requires p > 0 && FromSlope(r, lam, p1, x2, p) && FromSlope(r', lam', p1', x2', p)
    requires Cong(lam * lam - p1.x - x2, lam' * lam' - p1'.x - x2', p)
    requires Cong(lam * (p1.x - r.x) - p1.y, lam' * (p1'.x - r.x) - p1'.y, p)
    ensures r == r'
  {
    CongCanonical(r.x, r'.x, p);
    CongCanonical(r.y, r'.y, p);
  }

  lemma YFromSlope(lam: nat, p1: Point, x3: nat, p: nat)
    requires p > 0
    ensures Cong(ModpSub(MulMod(lam, ModpSub(p1.x, x3, p), p), p1.y, p), lam * (p1.x - x3) - p1.y, p)
  {
    var d := ModpSub(p1.x, x3, p);
    ModpSubIsDifference(p1.x, x3, p);
    CongMod(lam * d, p);
    CongScale(lam, d, p1.x - x3, p);
    ModpSubIsDifference(MulMod(lam, d, p), p1.y, p);
    CongSub(MulMod(lam, d, p), lam * (p1.x - x3), p1.y, p1.y, p);
  }

  /** `add_ne` panics exactly on equal x coordinates, and otherwise is the chord construction. */
  lemma AddNeIsChord(c: CurveEntry, p1: Point, p2: Point) returns (lam: nat)
    requires IsPrime(c.modulus)
    ensures AddNe(c, p1, p2).Some? <==> !Cong(p1.x, p2.x, c.modulus)
    ensures AddNe(c, p1, p2).Some? ==>
      && Cong(lam * (p2.x - p1.x), p2.y - p1.y, c.modulus)
      && FromSlope(AddNe(c, p1, p2).value, lam, p1, p2.x, c.modulus)
  {
    var p := c.modulus;
    var dx, dy := ModpSub(p2.x, p1.x, p), ModpSub(p2.y, p1.y, p);
    ModpSubIsDifference(p2.x, p1.x, p);
    ModpSubIsDifference(p2.y, p1.y, p);
    SmallMod(dx, p);
    InvertibleUnlessZero(dx, p);
    DifferenceZero(p2.x, p1.x, p);
    lam := 0;
    if AddNe(c, p1, p2).Some? {
      lam := MulMod(dy, Euclid.ModInv(dx, p).value, p);
      QuotientTimesDivisor(dy, dx, p);
      CongScale(lam, dx, p2.x - p1.x, p);
      ChordX(lam, p1.x, p2.x, p);
      YFromSlope(lam, p1, AddNe(c, p1, p2).value.x, p);
    }
  }

  lemma DifferenceZero(a: int, b: int, p: nat)
    requires p > 0
    ensures (a - b) % p == 0 <==> Cong(a, b, p)
  {
    SmallMod(0, p);
    if Cong(a, b, p) { CongSub(a, b, b, b, p); }
    if (a - b) % p == 0 { CongAdd(a - b, 0, b, b, p); }
  }

  lemma ChordX(lam: nat, x1: nat, x2: nat, p: nat)
    requires p > 0
    ensures Cong(ModpSub(ModpSub(MulMod(lam, lam, p), x1, p), x2, p), lam * lam - x1 - x2, p)
  {
    var u := ModpSub(MulMod(lam, lam, p), x1, p);
    CongMod(lam * lam, p);
    ModpSubIsDifference(MulMod(lam, lam, p), x1, p);
    CongSub(MulMod(lam, lam, p), lam * lam, x1, x1, p);
    ModpSubIsDifference(u, x2, p);
    CongSub(u, lam * lam - x1, x2, x2, p);
  }

  /** `double` panics exactly when 2y = 0, and otherwise is the tangent construction. */
  lemma DoubleIsTangent(c: CurveEntry, p1: Point) returns (lam: nat)
    requires IsPrime(c.modulus)
    ensures Double(c, p1).Some? <==> (2 * p1.y) % c.modulus != 0
    ensures Double(c, p1).Some? ==>
      && Cong(lam * (2 * p1.y), 3 * (p1.x * p1.x) + c.a, c.modulus)
      && FromSlope(Double(c, p1).value, lam, p1, p1.x, c.modulus)
  {
    var p := c.modulus;
    var sq, den := MulMod(p1.x, p1.x, p), MulMod(2, p1.y, p);
    var num := (3 * sq + c.a) % p;
    CongMod(2 * p1.y, p);
    InvertibleUnlessZero(den, p);
    SmallMod(den, p);
    lam := 0;
    if Double(c, p1).Some? {
      lam := MulMod(num, Euclid.ModInv(den, p).value, p);
      QuotientTimesDivisor(num, den, p);
      CongScale(lam, den, 2 * p1.y, p);
      CongMod(p1.x * p1.x, p);
      CongScale(3, sq, p1.x * p1.x, p);
      CongAdd(3 * sq, 3 * (p1.x * p1.x), c.a, c.a, p);
      CongMod(3 * sq + c.a, p);
      TangentX(lam, p1.x, p);
      YFromSlope(lam, p1, Double(c, p1).value.x, p);
    }
  }

  lemma TangentX(lam: nat, x: nat, p: nat)
    requires p > 0
    ensures Cong(ModpSub(MulMod(lam, lam, p), MulMod(2, x, p), p), lam * lam - x - x, p)
  {
    CongMod(lam * lam, p);
    CongMod(2 * x, p);
    ModpSubIsDifference(MulMod(lam, lam, p), MulMod(2, x, p), p);
    CongSub(MulMod(lam, lam, p), lam * lam, MulMod(2, x, p), 2 * x, p);
  }

  // ----- the result is on the curve -----------------------------------------------------------

  /** (X^3 + aX + b - line(X)^2 - (the same at x1)) / (X - x1), for the line of slope lam
      through (x1, y1). */
  function Cofactor(x: int, x1: int, y1: int, a: int, lam: int): int {
    x * x + x * x1 + x1 * x1 + a - lam * lam * (x - x1) - 2 * lam * y1
  }

  function Line(x: int, x1: int, y1: int, lam: int): int { lam * (x - x1) + y1 }

  lemma CofactorIdentity(x: int, x1: int, y1: int, a: int, b: int, lam: int)
    ensures x * x * x + a * x + b - Line(x, x1, y1, lam) * Line(x, x1, y1, lam)
         == (x1 * x1 * x1 + a * x1 + b - y1 * y1) + (x - x1) * Cofactor(x, x1, y1, a, lam)
  {
    var d := x - x1;
    LineSquare(lam, d, y1);
    CubeDifference(x, x1, a);
    CofactorProduct(d, x, x1, y1, a, lam);
  }

  lemma LineSquare(lam: int, d: int, y1: int)
    ensures (lam * d + y1) * (lam * d + y1) == d * (lam * lam * d + 2 * lam * y1) + y1 * y1
  {}

  lemma CubeDifference(x: int, x1: int, a: int)
    ensures x * x * x + a * x - (x1 * x1 * x1 + a * x1) == (x - x1) * (x * x + x * x1 + x1 * x1 + a)
  {}

  lemma CofactorProduct(d: int, x: int, x1: int, y1: int, a: int, lam: int)
    requires d == x - x1
    ensures d * Cofactor(x, x1, y1, a, lam)
         == d * (x * x + x * x1 + x1 * x1 + a) - d * (lam * lam * d + 2 * lam * y1)
  {
    var u, v := x * x + x * x1 + x1 * x1 + a, lam * lam * d + 2 * lam * y1;
    assert Cofactor(x, x1, y1, a, lam) == u - v;
    assert d * (u - v) == d * u - d * v;
  }

  lemma CofactorDifference(x: int, x2: int, x1: int, y1: int, a: int, lam: int)
    ensures Cofactor(x, x1, y1, a, lam) - Cofactor(x2, x1, y1, a, lam)
         == (x - x2) * (x + x2 + x1 - lam * lam)
  {
    assert lam * lam * (x - x1) - lam * lam * (x2 - x1) == lam * lam * (x - x2);
    assert (x - x2) * (x + x2 + x1 - lam * lam)
        == (x - x2) * (x + x2 + x1) - lam * lam * (x - x2);
  }

  /** The heart of both formulas: x2 being a root of the cofactor, so is the third x. */
  lemma ThirdPointOnCurve(c: CurveEntry, p1: Point, x2: int, lam: int, r: Point)
    requires c.modulus > 0 && OnCurve(p1, c) && FromSlope(r, lam, p1, x2, c.modulus)
    requires Cofactor(x2, p1.x, p1.y, c.a, lam) % c.modulus == 0
    ensures OnCurve(r, c)
  {
    var p, x3 := c.modulus, r.x;
    SmallMod(0, p);
    var e := x3 + x2 + p1.x - lam * lam;
    CongAdd(x3, lam * lam - p1.x - x2, x2 + p1.x - lam * lam, x2 + p1.x - lam * lam, p);
    CongScale(x3 - x2, e, 0, p);
    CofactorDifference(x3, x2, p1.x, p1.y, c.a, lam);
    var g2, g3 := Cofactor(x2, p1.x, p1.y, c.a, lam), Cofactor(x3, p1.x, p1.y, c.a, lam);
    CongAdd(g2, 0, (x3 - x2) * e, 0, p);
    CongScale(x3 - p1.x, g3, 0, p);
    LineMeetsCurve(c, p1, x3, lam, g3);
    ReflectedLine(r, p1, lam, p);
  }

  lemma LineMeetsCurve(c: CurveEntry, p1: Point, x: int, lam: int, g: int)
    requires c.modulus > 0 && OnCurve(p1, c) && g == Cofactor(x, p1.x, p1.y, c.a, lam)
    requires Cong((x - p1.x) * g, 0, c.modulus)
    ensures var l := Line(x, p1.x, p1.y, lam); Cong(l * l, x * x * x + c.a * x + c.b, c.modulus)
  {
    var p, l := c.modulus, Line(x, p1.x, p1.y, lam);
    CofactorIdentity(x, p1.x, p1.y, c.a, c.b, lam);
    var f1 := p1.x * p1.x * p1.x + c.a * p1.x + c.b;
    CongSub(f1, p1.y * p1.y, p1.y * p1.y, p1.y * p1.y, p);
    CongAdd(f1 - p1.y * p1.y, 0, (x - p1.x) * g, 0, p);
    CongAdd(x * x * x + c.a * x + c.b - l * l, 0, l * l, l * l, p);
  }

  lemma ReflectedLine(r: Point, p1: Point, lam: int, p: nat)
    requires p > 0 && Cong(r.y, lam * (p1.x - r.x) - p1.y, p)
    ensures var l := Line(r.x, p1.x, p1.y, lam); Cong(r.y * r.y, l * l, p)
  {
    var l := Line(r.x, p1.x, p1.y, lam);
    assert lam * (p1.x - r.x) - p1.y == -l;
    CongMul(r.y, -l, r.y, -l, p);
    assert (-l) * (-l) == l * l;
  }

  /** Addition of two points of the curve with different x. */
  lemma AddNeOnCurve(c: CurveEntry, p1: Point, p2: Point)
    requires IsPrime(c.modulus) && OnCurve(p1, c) && OnCurve(p2, c) && !Cong(p1.x, p2.x, c.modulus)
    ensures var r := AddNe(c, p1, p2); r.Some? && Canonical(r.value, c.modulus) && OnCurve(r.value, c)
  {
    var lam := AddNeIsChord(c, p1, p2);
    ChordCofactor(c, p1, p2, lam);
    ThirdPointOnCurve(c, p1, p2.x, lam, AddNe(c, p1, p2).value);
  }

  /** The chord passes through the second point, so its x is a root of the cofactor. */
  lemma ChordCofactor(c: CurveEntry, p1: Point, p2: Point, lam: int)
    requires IsPrime(c.modulus) && OnCurve(p1, c) && OnCurve(p2, c) && !Cong(p1.x, p2.x, c.modulus)
    requires Cong(lam * (p2.x - p1.x), p2.y - p1.y, c.modulus)
    ensures Cofactor(p2.x, p1.x, p1.y, c.a, lam) % c.modulus == 0
  {
    var p := c.modulus;
    var l, g := Line(p2.x, p1.x, p1.y, lam), Cofactor(p2.x, p1.x, p1.y, c.a, lam);
    CongAdd(lam * (p2.x - p1.x), p2.y - p1.y, p1.y, p1.y, p);
    CongMul(l, p2.y, l, p2.y, p);
    var f1, f2 := p1.x * p1.x * p1.x + c.a * p1.x + c.b, p2.x * p2.x * p2.x + c.a * p2.x + c.b;
    CofactorIdentity(p2.x, p1.x, p1.y, c.a, c.b, lam);
    CongSub(f2, l * l, l * l, l * l, p);
    CongSub(f1, p1.y * p1.y, p1.y * p1.y, p1.y * p1.y, p);
    CongSub(f2 - l * l, 0, f1 - p1.y * p1.y, 0, p);
    SmallMod(0, p);
    DifferenceZero(p2.x, p1.x, p);
    EuclidLemma(p2.x - p1.x, g, p);
  }

  /** Doubling of a point of the curve with 2y not zero. */
  lemma DoubleOnCurve(c: CurveEntry, p1: Point)
    requires IsPrime(c.modulus) && OnCurve(p1, c) && (2 * p1.y) % c.modulus != 0
    ensures var r := Double(c, p1); r.Some? && Canonical(r.value, c.modulus) && OnCurve(r.value, c)
  {
    var p := c.modulus;
    var lam := DoubleIsTangent(c, p1);
    SmallMod(0, p);
    var u, v := 3 * (p1.x * p1.x) + c.a, lam * (2 * p1.y);
    CongSub(u, v, v, v, p);
    assert Cofactor(p1.x, p1.x, p1.y, c.a, lam) == u - v;
    ThirdPointOnCurve(c, p1, p1.x, lam, Double(c, p1).value);
  }

  // ----- laws ------------------------------------------------------------------------------------

  lemma SlopeUnique(d: int, lam: int, lam': int, n: int, p: nat)
    requires IsPrime(p) && d % p != 0 && Cong(lam * d, n, p) && Cong(lam' * d, n, p)
    ensures Cong(lam, lam', p)
  {
    assert lam * d == d * lam && lam' * d == d * lam';
    Cancel(d, lam, lam', p);
  }

  lemma CongNeg(a: int, b: int, p: nat)
    requires p > 0 && Cong(a, b, p)
    ensures Cong(-a, -b, p)
  {
    CongSub(0, 0, a, b, p);
  }

  /** Addition is commutative, for any coordinates whatever. */
  lemma AddNeCommutes(c: CurveEntry, p1: Point, p2: Point)
    requires IsPrime(c.modulus)
    ensures AddNe(c, p1, p2) == AddNe(c, p2, p1)
  {
    hide AddNe;
    var p := c.modulus;
    var lam := AddNeIsChord(c, p1, p2);
    var lam' := AddNeIsChord(c, p2, p1);
    if !Cong(p1.x, p2.x, p) {
      var r, r' := AddNe(c, p1, p2).value, AddNe(c, p2, p1).value;
      CongNeg(lam' * (p1.x - p2.x), p1.y - p2.y, p);
      assert -(lam' * (p1.x - p2.x)) == lam' * (p2.x - p1.x);
      DifferenceZero(p2.x, p1.x, p);
      SlopeUnique(p2.x - p1.x, lam, lam', p2.y - p1.y, p);
      CongMul(lam, lam', lam, lam', p);
      CongSub(lam * lam, lam' * lam', p1.x + p2.x, p1.x + p2.x, p);
      EitherBase(lam, lam', p1, p2, r.x, p);
      FromSlopeUnique(r, r', lam, lam', p1, p2, p2.x, p1.x, p);
    }
  }

  /** The line may be based at either of the two points. */
  lemma EitherBase(lam: int, lam': int, p1: Point, p2: Point, x3: int, p: nat)
    requires p > 0 && Cong(lam, lam', p) && Cong(lam * (p2.x - p1.x), p2.y - p1.y, p)
    ensures Cong(lam * (p1.x - x3) - p1.y, lam' * (p2.x - x3) - p2.y, p)
  {
    CongMul(lam, lam', p2.x - x3, p2.x - x3, p);
    CongSub(lam * (p2.x - x3), lam' * (p2.x - x3), lam * (p2.x - p1.x), p2.y - p1.y, p);
    assert lam * (p2.x - x3) - lam * (p2.x - p1.x) == lam * (p1.x - x3);
    CongSub(lam * (p1.x - x3), lam' * (p2.x - x3) - (p2.y - p1.y), p1.y, p1.y, p);
  }

  /** q' is the negative of q, in any representation. */
  ghost predicate Opposite(q': Point, q: Point, p: nat)
    requires p > 0
  {
    Cong(q'.x, q.x, p) && Cong(q'.y + q.y, 0, p)
  }

  /** From the third point back: adding -q to the point built from p1 and q gives p1. */
  lemma ChordBack(c: CurveEntry, p1: Point, q: Point, lam: int, r: Point, q': Point)
    requires IsPrime(c.modulus) && FromSlope(r, lam, p1, q.x, c.modulus)
    requires Cong(lam * (q.x - p1.x), q.y - p1.y, c.modulus)
    requires Opposite(q', q, c.modulus) && !Cong(r.x, q'.x, c.modulus)
    ensures AddNe(c, r, q') == Some(Point(p1.x % c.modulus, p1.y % c.modulus))
  {
    var p := c.modulus;
    var mu := AddNeIsChord(c, r, q');
    var s := AddNe(c, r, q').value;
    ReversedSlope(p1, q, lam, r, q', p);
    DifferenceZero(q'.x, r.x, p);
    SlopeUnique(q'.x - r.x, mu, -lam, q'.y - r.y, p);
    BackX(p1, q, lam, r, q', mu, s, p);
    BackY(p1, lam, r, mu, s, p);
    CongMod(p1.x, p);
    CongMod(p1.y, p);
    CongCanonical(s.x, p1.x % p, p);
    CongCanonical(s.y, p1.y % p, p);
  }

  /** s.x = mu^2 - r.x - q.x = p1.x. */
  lemma BackX(p1: Point, q: Point, lam: int, r: Point, q': Point, mu: int, s: Point, p: nat)
    requires p > 0 && Cong(mu, -lam, p) && Cong(q'.x, q.x, p)
    requires Cong(r.x, lam * lam - p1.x - q.x, p) && Cong(s.x, mu * mu - r.x - q'.x, p)
    ensures Cong(s.x, p1.x, p)
  {
    CongMul(mu, -lam, mu, -lam, p);
    assert (-lam) * (-lam) == lam * lam;
    CongSub(mu * mu, lam * lam, r.x, lam * lam - p1.x - q.x, p);
    CongSub(mu * mu - r.x, p1.x + q.x, q'.x, q.x, p);
  }

  /** s.y = -lam (r.x - p1.x) - r.y = p1.y. */
  lemma BackY(p1: Point, lam: int, r: Point, mu: int, s: Point, p: nat)
    requires p > 0 && Cong(mu, -lam, p) && Cong(s.x, p1.x, p)
    requires Cong(r.y, lam * (p1.x - r.x) - p1.y, p) && Cong(s.y, mu * (r.x - s.x) - r.y, p)
    ensures Cong(s.y, p1.y, p)
  {
    CongSub(r.x, r.x, s.x, p1.x, p);
    CongMul(mu, -lam, r.x - s.x, r.x - p1.x, p);
    var h := lam * (p1.x - r.x);
    assert (-lam) * (r.x - p1.x) == h;
    CongSub(mu * (r.x - s.x), h, r.y, h - p1.y, p);
  }

  lemma ReversedSlope(p1: Point, q: Point, lam: int, r: Point, q': Point, p: nat)
    requires p > 0 && FromSlope(r, lam, p1, q.x, p) && Opposite(q', q, p)
    requires Cong(lam * (q.x - p1.x), q.y - p1.y, p)
    ensures Cong((-lam) * (q'.x - r.x), q'.y - r.y, p)
  {
    CongSub(q'.x, q.x, r.x, r.x, p);
    CongScale(-lam, q'.x - r.x, q.x - r.x, p);
    // q'.y - r.y = -(q.y - p1.y) - lam (p1.x - r.x) = -lam (q.x - r.x)
    var h := lam * (p1.x - r.x);
    CongAdd(r.y, h - p1.y, q.y, q.y, p);
    CongSub(q'.y + q.y, 0, r.y + q.y, h - p1.y + q.y, p);
    NegatedSum(lam, p1.x, q.x, r.x);
    CongSub(-(lam * (p1.x - r.x)), -(lam * (p1.x - r.x)), lam * (q.x - p1.x), q.y - p1.y, p);
  }

  lemma NegatedSum(lam: int, x1: int, x2: int, x3: int)
    ensures (-lam) * (x2 - x3) == -(lam * (x1 - x3)) - lam * (x2 - x1)
  {}

  /** (P + Q) - Q = P. */
  lemma AddNeThenSubtract(c: CurveEntry, p1: Point, p2: Point, p2': Point)
    requires IsPrime(c.modulus) && Opposite(p2', p2, c.modulus)
    requires AddNe(c, p1, p2).Some? && !Cong(AddNe(c, p1, p2).value.x, p2'.x, c.modulus)
    ensures AddNe(c, AddNe(c, p1, p2).value, p2') == Some(Point(p1.x % c.modulus, p1.y % c.modulus))
  {
    var lam := AddNeIsChord(c, p1, p2);
    ChordBack(c, p1, p2, lam, AddNe(c, p1, p2).value, p2');
  }

  /** 2P - P = P. */
  lemma DoubleThenSubtract(c: CurveEntry, p1: Point, p1': Point)
    requires IsPrime(c.modulus) && Opposite(p1', p1, c.modulus)
    requires Double(c, p1).Some? && !Cong(Double(c, p1).value.x, p1'.x, c.modulus)
    ensures AddNe(c, Double(c, p1).value, p1') == Some(Point(p1.x % c.modulus, p1.y % c.modulus))
  {
    var lam := DoubleIsTangent(c, p1);
    assert lam * (p1.x - p1.x) == 0;
    ChordBack(c, p1, p1, lam, Double(c, p1).value, p1');
  }

  // ----- HintDecompress ---------------------------------------------------------------------------

  /** What the primality of the modulus guarantees to the search of `tonelli_shanks`. */
  ghost predicate SearchableModulus(p: nat) {
    p >= 3 && p % 2 == 1 && CurveRoots.NonResidueAhead(2, p)
  }

  function CurveRhs(c: CurveEntry, x: nat): nat
    requires c.modulus > 0
  {
    var p := c.modulus;
    (MulMod(MulMod(x, x, p), x, p) + MulMod(c.a, x, p) + c.b) % p
  }

  lemma CurveRhsIsCubic(c: CurveEntry, x: nat)
    requires c.modulus > 0
    ensures CurveRhs(c, x) < c.modulus && Cong(CurveRhs(c, x), x * x * x + c.a * x + c.b, c.modulus)
  {
    var p := c.modulus;
    var u, v := MulMod(MulMod(x, x, p), x, p), MulMod(c.a, x, p);
    CongMod(x * x, p);
    CongMul(MulMod(x, x, p), x * x, x, x, p);
    CongMod(MulMod(x, x, p) * x, p);
    CongMod(c.a * x, p);
    CongAdd(u, x * x * x, v, c.a * x, p);
    CongAdd(u + v, x * x * x + c.a * x, c.b, c.b, p);
    CongMod(u + v + c.b, p);
  }

  /** The root of the requested parity. */
  function FitParity(y: nat, parity: nat, p: nat): nat
    requires y < p
  {
    if y % 2 == parity then y else p - y
  }

  /** None stands for the error the handler returns. */
  function Decompress(c: CurveEntry, x: nat, parity: nat): Option<nat>
    requires SearchableModulus(c.modulus)
  {
    match CurveRoots.TonelliShanksRoot(CurveRhs(c, x), c.modulus)
    case None => None
    case Some(y) => Some(FitParity(y, parity, c.modulus))
  }

  lemma FitParityKeepsRoot(y: nat, n: nat, parity: nat, p: nat)
    requires IsOddPrime(p) && y < p && n < p && IsRoot(y, n, p) && parity < 2
    ensures var y' := FitParity(y, parity, p);
      y' % 2 == parity && IsRoot(y', n, p) && y' <= p && (y' == p <==> n == 0 && parity == 1)
  {
    OddPrimeIsOdd(p);
    ParityFlips(y, p);
    NegatedRoot(y, n, p);
    ZeroRoot(y, n, p);
  }

  lemma ParityFlips(y: nat, p: nat)
    requires p % 2 == 1 && y < p
    ensures (p - y) % 2 == 1 - y % 2
  {}

  /** The y written has the requested parity and lies on the curve. It is canonical except
      for the root 0 with parity 1, where the modulus itself is written. */
  lemma DecompressedPointOnCurve(c: CurveEntry, x: nat, parity: nat)
    requires IsOddPrime(c.modulus) && parity < 2
    ensures SearchableModulus(c.modulus)
    ensures var y := Decompress(c, x, parity);
      y.Some? ==>
        && y.value % 2 == parity
        && OnCurve(Point(x, y.value), c)
        && y.value <= c.modulus
        && (y.value == c.modulus <==> CurveRhs(c, x) == 0 && parity == 1)
  {
    var p, n := c.modulus, CurveRhs(c, x);
    CurveRhsIsCubic(c, x);
    CurveRoots.TonelliShanksSound(n, p);
    var root := CurveRoots.TonelliShanksRoot(n, p);
    if root.Some? { FitParityKeepsRoot(root.value, n, parity, p); }
  }

  lemma NegatedRoot(y: int, n: int, p: int)
    requires p > 0 && IsRoot(y, n, p)
    ensures IsRoot(p - y, n, p)
  {
    CongIntro(p - y, -y, p, 1);
    CongMul(p - y, -y, p - y, -y, p);
    assert (-y) * (-y) == y * y;
  }

  lemma ZeroRoot(y: nat, n: nat, p: nat)
    requires IsPrime(p) && n < p && y < p && IsRoot(y, n, p)
    ensures y == 0 <==> n == 0
  {
    SmallMod(n, p);
    SmallMod(y, p);
    if n == 0 { EuclidLemma(y, y, p); }
  }

  /** The case is real: on any curve with b = 0 modulo p, as y^2 = x^3 + x, asking for x = 0 and
      an odd y gives the modulus. */
  lemma DecompressGivesModulus(c: CurveEntry)
    requires IsOddPrime(c.modulus) && c.b % c.modulus == 0
    ensures SearchableModulus(c.modulus)
    ensures Decompress(c, 0, 1) == Some(c.modulus)
  {
    var p := c.modulus;
    OddPrimeIsOdd(p);
    CurveRoots.SearchTerminates(p);
    SmallMod(0, p);
    assert CurveRhs(c, 0) == 0;
  }

  /** Decompression fails exactly when the right-hand side has no square root. */
  lemma DecompressFailsIffNonResidue(c: CurveEntry, x: nat, parity: nat)
    requires IsOddPrime(c.modulus) && TonelliShanks.TwoAdicity(c.modulus - 1) <= 33 && parity < 2
    ensures SearchableModulus(c.modulus)
    ensures Decompress(c, x, parity) == None
       <==> !IsSquare(x * x * x + c.a * x + c.b, c.modulus)
  {
    var p, n, f := c.modulus, CurveRhs(c, x), x * x * x + c.a * x + c.b;
    CurveRhsIsCubic(c, x);
    CurveRoots.ExactIffShiftFits(p);
    CurveRoots.TonelliShanksSound(n, p);
    SquareOfCongruent(n, f, p);
  }

  lemma SquareOfCongruent(n: int, f: int, p: nat)
    requires p > 0 && Cong(n, f, p)
    ensures IsSquare(n, p) <==> IsSquare(f, p)
  {
    if IsSquare(n, p) { var y :| IsRoot(y, n, p); assert IsRoot(y, f, p); }
    if IsSquare(f, p) { var y :| IsRoot(y, f, p); assert IsRoot(y, n, p); }
  }
}
