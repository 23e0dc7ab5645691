/** ecc.rs: the second Tonelli-Shanks loop, its upward search for a non-residue, and point
    decompression. */
module CurveRoots {
  import opened Wrappers
  import opened Arithmetic
  import opened PrimeField
  import opened QuadraticResidues
  import opened TonelliShanks
  import opened RootChoice
  import SquareRoots

  // ----- the search for z ---------------------------------------------------------------

  ghost predicate NonResidueAhead(z: nat, p: nat)
    requires p > 0
  {
    exists w: nat :: z <= w < p && ModPow(w, Half(p), p) == p - 1
  }

  function LeastNonResidue(z: nat, p: nat): (w: nat)
    requires p > 0 && NonResidueAhead(z, p)
    ensures z <= w < p && ModPow(w, Half(p), p) == p - 1
    ensures forall v :: z <= v < w ==> ModPow(v, Half(p), p) != p - 1
    decreases p - z
  {
    if ModPow(z, Half(p), p) == p - 1 then z else LeastNonResidue(z + 1, p)
  }

  /** The search of both HintNonQr and `tonelli_shanks`. It needs no bound: for an odd
      prime a non-residue lies ahead of 2. */
  method SearchNonResidue(p: nat) returns (z: nat)
    requires IsOddPrime(p)
    ensures NonResidueAhead(2, p) && z == LeastNonResidue(2, p)
    ensures z < p && !IsSquare(z, p) && forall v :: 2 <= v < z ==> IsSquare(v, p)
  {
    SearchTerminates(p);
    z := 2;
    while ModPow(z, Half(p), p) != (p - 1) % p
      invariant 2 <= z < p && NonResidueAhead(z, p)
      invariant LeastNonResidue(z, p) == LeastNonResidue(2, p)
      decreases p - z
    {
      SmallMod(p - 1, p);
      z := z + 1;
    }
    SmallMod(p - 1, p);
    LeastNonResidueIsLeast(p);
  }

  lemma SearchTerminates(p: nat)
    requires IsOddPrime(p)
    ensures p >= 3 && NonResidueAhead(2, p)
  {
    var w := NonResidueExists(p);
    NonResidueTest(w, p);
    assert ModPow(w, Half(p), p) == p - 1;
  }

  lemma {:induction false} LeastNonResidueIsLeast(p: nat)
    requires IsOddPrime(p)
    ensures NonResidueAhead(2, p)
    ensures var z := LeastNonResidue(2, p);
      2 <= z < p && !IsSquare(z, p) && forall v :: 2 <= v < z ==> IsSquare(v, p)
  {
    SearchTerminates(p);
    var z := LeastNonResidue(2, p);
    NonResidueTest(z, p);
    forall v | 2 <= v < z ensures IsSquare(v, p) {
      NonResidueTest(v, p);
    }
  }

  // ----- tonelli_shanks -------------------------------------------------------------------

  /** The inner search: the least exponent below m, counting up from i. */
  function FirstOne(tmp: nat, i: nat, m: nat, p: nat): (r: Option<nat>)
    requires p > 0 && i < m
    ensures r.Some? ==> i <= r.value < m && (tmp != 1 ==> i < r.value)
    decreases m - i
  {
    if tmp == 1 then Some(i)
    else if i + 1 == m then None
    else FirstOne(MulMod(tmp, tmp, p), i + 1, m, p)
  }

  /** `1u32 << k` keeps only the low five bits of k. */
  function Shl32(k: nat): nat { Pow2(k % 32) }

  function CurveLoop(m: nat, c: nat, t: nat, r: nat, p: nat): (root: Option<nat>)
    requires p > 0 && m >= 1 && r < p
    ensures root.Some? ==> root.value < p
    decreases m
  {
    if t == 1 then Some(r)
    else
      match FirstOne(t, 0, m, p)
      case None => None
      case Some(i) =>
        var b := ModPow(c, Shl32(m - i - 1), p);
        var c' := MulMod(b, b, p);
        CurveLoop(i, c', MulMod(t, c', p), MulMod(r, b, p), p)
  }

  function StartCurveLoop(n: nat, p: nat, z: nat, q: nat, s: nat): (root: Option<nat>)
    requires p > 0 && s >= 1
    ensures root.Some? ==> root.value < p
  {
    CurveLoop(s, ModPow(z, q, p), ModPow(n, q, p), ModPow(n, SquareRoots.RootExponent(q), p), p)
  }

  function TonelliShanksRoot(n: nat, p: nat): (root: Option<nat>)
    requires p >= 3 && p % 2 == 1 && NonResidueAhead(2, p)
    ensures root.Some? ==> root.value < p
  {
    if n == 0 then Some(0)
    else if ModPow(n, Half(p), p) != 1 then None
    else
      assert (p - 1) % 2 == 0;
      StartCurveLoop(n, p, LeastNonResidue(2, p), OddPart(p - 1), TwoAdicity(p - 1))
  }

  method TonelliShanksMethod(n: nat, p: nat) returns (root: Option<nat>)
    requires IsOddPrime(p)
    ensures p >= 3 && p % 2 == 1 && NonResidueAhead(2, p)
    ensures root == TonelliShanksRoot(n, p)
  {
    hide Pow, ModPow, MulMod, Half, OddPart, LeastNonResidue, NonResidueAhead, Shl32;
    SearchTerminates(p);
    OddPrimeIsOdd(p);
    if n == 0 { return Some(0); }
    if ModPow(n, Half(p), p) != 1 { return None; }
    var q: nat, s: nat := SquareRoots.SplitOffTwos(p - 1);
    var z: nat := SearchNonResidue(p);
    var m: nat := s;
    var c: nat := ModPow(z, q, p);
    var t: nat := ModPow(n, q, p);
    var r: nat := ModPow(n, SquareRoots.RootExponent(q), p);
    while true
      invariant m >= 1 && r < p
      invariant CurveLoop(m, c, t, r, p) == TonelliShanksRoot(n, p)
      decreases m
    {
      if t == 1 { return Some(r); }
      var i: nat, tmp: nat := 0, t;
      while tmp != 1
        invariant i < m && (i == 0 ==> tmp == t)
        invariant FirstOne(tmp, i, m, p) == FirstOne(t, 0, m, p)
        decreases m - i
      {
        tmp := MulMod(tmp, tmp, p);
        i := i + 1;
        if i == m { return None; }
      }
      var b: nat := ModPow(c, Shl32(m - i - 1), p);
      m := i;
      c := MulMod(b, b, p);
      t := MulMod(t, c, p);
      r := MulMod(r, b, p);
    }
  }

  /** The two inner searches of the repository find the same exponent. */
  lemma {:induction false} FirstOneAgrees(tmp: nat, i: nat, m: nat, p: nat)
    requires p > 0 && i < m
    ensures var k := i + SquaringsToOne(tmp, m - i, p);
      FirstOne(tmp, i, m, p) == if k < m then Some(k) else None
    decreases m - i
  {
    if tmp != 1 && i + 1 != m {
      FirstOneAgrees(MulMod(tmp, tmp, p), i + 1, m, p);
    }
  }

  /** Whatever the shift does, a value returned is a root. */
  lemma {:induction false} CurveLoopSound(x: int, m: nat, c: nat, t: nat, r: nat, p: nat)
    requires p > 1 && m >= 1 && Cong(r * r, x * t, p) && r < p
    ensures var root := CurveLoop(m, c, t, r, p);
      root.Some? ==> root.value < p && IsRoot(root.value, x, p)
    decreases m
  {
    if t == 1 {
      assert x * t == x;
    } else if FirstOne(t, 0, m, p).Some? {
      var i := FirstOne(t, 0, m, p).value;
      var b := ModPow(c, Shl32(m - i - 1), p);
      var c' := MulMod(b, b, p);
      RoundValues(t, r, b, p);
      RootStep(x, t, r, b, MulMod(t, c', p), MulMod(r, b, p), p);
      CurveLoopSound(x, i, c', MulMod(t, c', p), MulMod(r, b, p), p);
    }
  }

  lemma RoundValues(t: nat, r: nat, b: nat, p: nat)
    requires p > 0
    ensures Cong(MulMod(b, b, p), b * b, p)
    ensures Cong(MulMod(t, MulMod(b, b, p), p), t * (b * b), p)
    ensures Cong(MulMod(r, b, p), r * b, p)
  {
    CongMod(b * b, p);
    CongMod(t * MulMod(b, b, p), p);
    CongScale(t, MulMod(b, b, p), b * b, p);
    CongMod(r * b, p);
  }

  lemma CurveRoundKeepsInvariant(x: int, m: nat, i: nat, c: nat, t: nat, r: nat, b: nat, p: nat)
    requires IsPrime(p) && LoopInvariant(x, m, c, t, r, p) && 1 <= i < m <= 33
    requires Pow(t, Pow2(i)) % p == 1 && Pow(t, Pow2(i - 1)) % p != 1
    requires b == ModPow(c, Shl32(m - i - 1), p)
    ensures var c' := MulMod(b, b, p);
      LoopInvariant(x, i, c', MulMod(t, c', p), MulMod(r, b, p), p)
  {
    hide Pow, LoopInvariant;
    var c' := MulMod(b, b, p);
    assert Shl32(m - i - 1) == Pow2(m - i - 1);
    CongMod(Pow(c, Pow2(m - i - 1)), p);
    RoundValues(t, r, b, p);
    RoundKeepsInvariant(x, m, i, c, t, r, b, c', MulMod(t, c', p), MulMod(r, b, p), p);
  }

  /** While m is small enough for the shift, the inner search never fails. */
  lemma {:induction false} CurveLoopSucceeds(x: int, m: nat, c: nat, t: nat, r: nat, p: nat)
    requires IsPrime(p) && LoopInvariant(x, m, c, t, r, p) && t < p && r < p && m <= 33
    ensures CurveLoop(m, c, t, r, p).Some?
    decreases m
  {
    if t != 1 {
      SearchSucceeds(x, m, c, t, r, p);
      FirstOneAgrees(t, 0, m, p);
      var i := SquaringsToOne(t, m, p);
      var b := ModPow(c, Shl32(m - i - 1), p);
      var c' := MulMod(b, b, p);
      CurveRoundKeepsInvariant(x, m, i, c, t, r, b, p);
      CurveLoopSucceeds(x, i, c', MulMod(t, c', p), MulMod(r, b, p), p);
    }
  }

  // ----- when tonelli_shanks is exact --------------------------------------------------------

  lemma {:induction false} TonelliShanksSound(n: nat, p: nat)
    requires IsOddPrime(p)
    ensures p >= 3 && p % 2 == 1 && NonResidueAhead(2, p)
    ensures var root := TonelliShanksRoot(n, p);
      root.Some? ==> root.value < p && IsRoot(root.value, n, p)
  {
    hide StartCurveLoop, LeastNonResidue, NonResidueAhead, ModPow, Half;
    OddPrimeIsOdd(p);
    LeastNonResidueIsLeast(p);
    if n == 0 {
      assert IsRoot(0, 0, p);
    } else {
      OddPartSplits(p - 1);
      StartSound(n, p, LeastNonResidue(2, p), OddPart(p - 1), TwoAdicity(p - 1));
    }
  }

  lemma StartSound(n: nat, p: nat, z: nat, q: nat, s: nat)
    requires p > 1 && q % 2 == 1 && s >= 1
    ensures var root := StartCurveLoop(n, p, z, q, s);
      root.Some? ==> root.value < p && IsRoot(root.value, n, p)
  {
    hide Pow, CurveLoop, IsRoot;
    var t, r := ModPow(n, q, p), ModPow(n, SquareRoots.RootExponent(q), p);
    CongMod(Pow(n, q), p);
    CongMod(Pow(n, SquareRoots.RootExponent(q)), p);
    InitialRoot(n, q, t, r, p);
    CurveLoopSound(n, s, ModPow(z, q, p), t, r, p);
  }

  /** A modulus whose 2-adicity stays within the 32-bit shift: every square that is not a
      non-zero multiple of p gets a root. */
  lemma {:induction false} TonelliShanksComplete(n: nat, p: nat)
    requires IsOddPrime(p) && TwoAdicity(p - 1) <= 33
    requires n == 0 || (n % p != 0 && IsSquare(n, p))
    ensures p >= 3 && p % 2 == 1 && NonResidueAhead(2, p)
    ensures TonelliShanksRoot(n, p).Some?
  {
    hide Pow, CurveLoop, OddPart, LeastNonResidue, NonResidueAhead, LoopInvariant;
    OddPrimeIsOdd(p);
    LeastNonResidueIsLeast(p);
    if n != 0 {
      var q, z := OddPart(p - 1), LeastNonResidue(2, p);
      var c, t, r := ModPow(z, q, p), ModPow(n, q, p), ModPow(n, SquareRoots.RootExponent(q), p);
      EulerCriterion(n, p);
      CongMod(Pow(z, q), p);
      CongMod(Pow(n, q), p);
      CongMod(Pow(n, SquareRoots.RootExponent(q)), p);
      InitialInvariant(n, z, c, t, r, p);
      CurveLoopSucceeds(n, TwoAdicity(p - 1), c, t, r, p);
    }
  }

  /** Non-squares, and the non-zero multiples of p, are refused by the Euler test. */
  lemma TonelliShanksRefuses(n: nat, p: nat)
    requires IsOddPrime(p) && n != 0 && (n % p == 0 || !IsSquare(n, p))
    ensures p >= 3 && p % 2 == 1 && NonResidueAhead(2, p)
    ensures TonelliShanksRoot(n, p) == None
  {
    OddPrimeIsOdd(p);
    SearchTerminates(p);
    if n % p == 0 { EulerPowerOfZero(n, p); } else { EulerCriterion(n, p); }
  }

  /** While the shift fits, this loop returns the very value that the loop of modular.rs does. */
  lemma {:induction false} CurveLoopIsSqrtLoop(x: int, m: nat, c: nat, t: nat, r: nat, p: nat)
    requires IsPrime(p) && LoopInvariant(x, m, c, t, r, p) && c < p && t < p && r < p && m <= 33
    ensures CurveLoop(m, c, t, r, p) == SquareRoots.SqrtLoop(m, c, t, r, p)
    decreases m
  {
    hide Pow, LoopInvariant, SquaringsToOne, SquareTimes, FirstOne;
    SquareRoots.InvariantUnit(x, m, c, t, r, p);
    if t != 1 {
      SearchSucceeds(x, m, c, t, r, p);
      FirstOneAgrees(t, 0, m, p);
      var i := SquaringsToOne(t, m, p);
      var b := SquareTimes(c, m - i - 1, p);
      ShiftedPower(c, m - i - 1, p);
      SameProduct(t, b, p);
      CurveRoundKeepsInvariant(x, m, i, c, t, r, b, p);
      CurveLoopIsSqrtLoop(x, i, MulMod(b, b, p), MulMod(t, MulMod(b, b, p), p), MulMod(r, b, p), p);
    }
  }

  lemma ShiftedPower(c: nat, k: nat, p: nat)
    requires p > 1 && c < p && k < 32
    ensures SquareTimes(c, k, p) == ModPow(c, Shl32(k), p)
  {
    SquareTimesIsPower(c, k, p);
    SmallMod(SquareTimes(c, k, p), p);
  }

  lemma SameProduct(t: nat, b: nat, p: nat)
    requires p > 1
    ensures MulMod(MulMod(t, b, p), b, p) == MulMod(t, MulMod(b, b, p), p)
  {
    SquareRoots.TwoReductions(t, b, p);
    RoundValues(t, 0, b, p);
    var u, v := MulMod(MulMod(t, b, p), b, p), MulMod(t, MulMod(b, b, p), p);
    CongCanonical(u, v, p);
  }

  /** Of the two roots `tonelli_shanks` returns the one that ChosenRoot fixes for the least
      non-residue. */
  lemma TonelliShanksChooses(n: nat, p: nat)
    requires IsOddPrime(p) && TwoAdicity(p - 1) <= 33
    ensures p >= 3 && p % 2 == 1 && NonResidueAhead(2, p)
    ensures var root := TonelliShanksRoot(n, p);
      root.Some? ==> ChosenRoot(root.value, n, LeastNonResidue(2, p), p)
  {
    hide Pow, IsSquare, IsPrime, ChosenRoot, StartCurveLoop, LeastNonResidue, NonResidueAhead, ModPow, Half;
    OddPrimeIsOdd(p);
    LeastNonResidueIsLeast(p);
    var z := LeastNonResidue(2, p);
    if n == 0 {
      ZeroIsChosen(z, p);
    } else if TonelliShanksRoot(n, p).Some? {
      LetInIsSquare(n, p);
      StartChooses(n, p, z);
    }
  }

  lemma ZeroIsChosen(z: int, p: nat)
    requires p > 1
    ensures ChosenRoot(0, 0, z, p)
  {
    SmallMod(0, p);
    assert IsRoot(0, 0, p);
  }

  /** A value that is let in is a unit and a square. */
  lemma LetInIsSquare(n: nat, p: nat)
    requires IsOddPrime(p) && n != 0
    requires p >= 3 && p % 2 == 1 && NonResidueAhead(2, p) && TonelliShanksRoot(n, p).Some?
    ensures n % p != 0 && IsSquare(n, p)
  {
    if n % p == 0 || !IsSquare(n, p) { TonelliShanksRefuses(n, p); }
  }

  lemma StartChooses(n: nat, p: nat, z: nat)
    requires IsOddPrime(p) && TwoAdicity(p - 1) <= 33 && n % p != 0 && IsSquare(n, p) && !IsSquare(z, p)
    ensures TwoAdicity(p - 1) >= 1
    ensures var root := StartCurveLoop(n, p, z, OddPart(p - 1), TwoAdicity(p - 1));
      root.Some? && ChosenRoot(root.value, n, z, p)
  {
    hide Pow, LoopInvariant, CurveLoop, SquareRoots.SqrtLoop, ChosenRoot, OddPart, Tracks;
    OneOrThree(p);
    var q, s := OddPart(p - 1), TwoAdicity(p - 1);
    var c, t, r := ModPow(z, q, p), ModPow(n, q, p), ModPow(n, SquareRoots.RootExponent(q), p);
    CongMod(Pow(z, q), p);
    CongMod(Pow(n, q), p);
    CongMod(Pow(n, SquareRoots.RootExponent(q)), p);
    InitialInvariant(n, z, c, t, r, p);
    InvariantBound(n, s, c, t, r, p);
    CurveLoopIsSqrtLoop(n, s, c, t, r, p);
    if p % 4 == 1 {
      TracksAtStart(n, z, q, s, c, r, p);
      SquareRoots.SqrtLoopChooses(n, z, s, c, t, r, p);
    } else {
      ShortLoopChooses(n, z, c, t, p);
    }
  }

  lemma InvariantBound(x: int, m: nat, c: nat, t: nat, r: nat, p: nat)
    requires p > 1 && LoopInvariant(x, m, c, t, r, p)
    ensures m >= 1
  {}

  /** For p = 3 mod 4 the loop ends at once, with n^((p+1)/4). */
  lemma ShortLoopChooses(n: nat, z: nat, c: nat, t: nat, p: nat)
    requires p % 4 == 3 && IsSquare(n, p) && t < p
    requires LoopInvariant(n, TwoAdicity(p - 1), c, t, ModPow(n, SquareRoots.RootExponent(OddPart(p - 1)), p), p)
    ensures TwoAdicity(p - 1) >= 1
    ensures var r := ModPow(n, SquareRoots.RootExponent(OddPart(p - 1)), p);
      CurveLoop(TwoAdicity(p - 1), c, t, r, p) == Some(r) && ChosenRoot(r, n, z, p)
  {
    hide Pow, IsSquare;
    HalfIsOdd(p);
    FirstPower(t);
    SmallMod(t, p);
    FastRootIsSquare(n, p);
  }

  lemma HalfIsOdd(p: nat)
    requires p % 4 == 3
    ensures TwoAdicity(p - 1) == 1 && SquareRoots.RootExponent(OddPart(p - 1)) == (p + 1) / 4
  {
    var k := p / 4;
    assert p - 1 == 2 * (2 * k + 1);
    assert (p - 1) / 2 == 2 * k + 1;
  }

  /** The two routines of the repository agree on solvability, and on the root up to sign. */
  lemma TonelliShanksAgreesWithModSqrt(n: nat, p: nat, nonQr: nat)
    requires IsOddPrime(p) && n < p && TwoAdicity(p - 1) <= 33 && !IsSquare(nonQr, p)
    ensures p >= 3 && p % 2 == 1 && NonResidueAhead(2, p)
    ensures var s, t := TonelliShanksRoot(n, p), SquareRoots.ModSqrt(n, p, nonQr);
      && (s.Some? <==> t.Some?)
      && (s.Some? ==> s.value == t.value || s.value + t.value == p)
  {
    TonelliShanksSound(n, p);
    SquareRoots.ModSqrtExact(n, p, nonQr);
    SmallMod(n, p);
    if n == 0 || IsSquare(n, p) {
      assert n == 0 ==> IsRoot(0, n, p);
      TonelliShanksComplete(n, p);
      RootsUpToSign(TonelliShanksRoot(n, p).value, SquareRoots.ModSqrt(n, p, nonQr).value, p);
    } else {
      TonelliShanksRefuses(n, p);
    }
  }

  // ----- beyond the shift -----------------------------------------------------------------

  /** With c of order 2^s and t = c^(2^33), the search finds s - 33, the shift amount 32
      wraps to 0, and the next t has order 2^(s-1): out of reach of the lowered m. */
  lemma WrappedShiftFails(s: nat, c: nat, t: nat, r: nat, p: nat)
    requires IsOddPrime(p) && s >= 34 && c < p && t < p && r < p
    requires Pow(c, Pow2(s - 1)) % p == p - 1
    requires Cong(t, Pow(c, Pow2(33)), p)
    ensures CurveLoop(s, c, t, r, p) == None
  {
    var i := s - 33;
    forall j: nat ensures Cong(Pow(t, Pow2(j)), Pow(c, Pow2(33 + j)), p) {
      PowerOfPower(c, t, 33, j, p);
    }
    forall j | 0 <= j < i ensures Pow(t, Pow2(j)) % p != 1 {
      if Pow(c, Pow2(33 + j)) % p == 1 { SquareRoots.OnceOneAlwaysOne(c, 33 + j, s - 1, p); OddPrimeIsOdd(p); }
    }
    SquareOfMinusOne(c, s, p);
    assert Pow(t, Pow2(i)) % p == 1;
    SearchIsExact(t, i, s, p);
    FirstOneAgrees(t, 0, s, p);
    assert Shl32(s - i - 1) == 1;
    assert ModPow(c, 1, p) == c by { PowSquare(c); SmallMod(c, p); }
    var c' := MulMod(c, c, p);
    var t' := MulMod(t, c', p);
    forall j | 0 <= j < i ensures Pow(t', Pow2(j)) % p != 1 {
      NextOrderTooLarge(s, j, c, t, t', p);
    }
    SearchRunsOut(t', i, p);
    FirstOneAgrees(t', 0, i, p);
  }

  lemma PowerOfPower(c: int, t: int, a: nat, j: nat, p: nat)
    requires p > 1 && Cong(t, Pow(c, Pow2(a)), p)
    ensures Cong(Pow(t, Pow2(j)), Pow(c, Pow2(a + j)), p)
  {
    CongPow(t, Pow(c, Pow2(a)), Pow2(j), p);
    PowPower(c, Pow2(a), Pow2(j));
    PowAdd(2, a, j);
  }

  lemma SquareOfMinusOne(c: int, s: nat, p: nat)
    requires p > 1 && s >= 1 && Pow(c, Pow2(s - 1)) % p == p - 1
    ensures Pow(c, Pow2(s)) % p == 1
  {
    PowAdd(c, Pow2(s - 1), Pow2(s - 1));
    MinusOneTimesMinusOne(Pow(c, Pow2(s - 1)), Pow(c, Pow2(s - 1)), p);
  }

  lemma SearchIsExact(t: nat, i: nat, m: nat, p: nat)
    requires p > 1 && t < p && i < m && Pow(t, Pow2(i)) % p == 1
    requires forall j :: 0 <= j < i ==> Pow(t, Pow2(j)) % p != 1
    ensures SquaringsToOne(t, m, p) == i
  {
    SquaringsToOneIsLeast(t, m, p);
  }

  lemma SearchRunsOut(t: nat, m: nat, p: nat)
    requires p > 1 && t < p && m >= 1
    requires forall j :: 0 <= j < m ==> Pow(t, Pow2(j)) % p != 1
    ensures SquaringsToOne(t, m, p) == m && t != 1
  {
    SquaringsToOneIsLeast(t, m, p);
    FirstPower(t);
    SmallMod(t, p);
    assert Pow(t, Pow2(0)) % p != 1;
  }

  lemma NextOrderTooLarge(s: nat, j: nat, c: nat, t: nat, t': nat, p: nat)
    requires IsOddPrime(p) && s >= 34 && j < s - 33
    requires Pow(c, Pow2(s - 1)) % p == p - 1 && Cong(t, Pow(c, Pow2(33)), p)
    requires t' == MulMod(t, MulMod(c, c, p), p)
    ensures Pow(t', Pow2(j)) % p != 1
  {
    if Pow(t', Pow2(j)) % p == 1 {
      SquareRoots.OnceOneAlwaysOne(t', j, s - 2, p);
      // t'^(2^(s-2)) = t^(2^(s-2)) * c^(2^(s-1)) = -1
      RoundValues(t, t, c, p);
      CongPow(t', t * (c * c), Pow2(s - 2), p);
      PowProduct(t, c * c, Pow2(s - 2));
      PowPower(c, 2, Pow2(s - 2));
      PowSquare(c);
      PowerOfPower(c, t, 33, s - 2, p);
      SquareOfMinusOne(c, s, p);
      SquareRoots.OnceOneAlwaysOne(c, s, 33 + (s - 2), p);
      SmallMod(1, p);
      SmallMod(p - 1, p);
      CongMul(Pow(t, Pow2(s - 2)), 1, Pow(c, Pow2(s - 1)), p - 1, p);
      OddPrimeIsOdd(p);
    }
  }

  lemma LostInLoop(z: nat, n: nat, p: nat)
    requires IsOddPrime(p) && TwoAdicity(p - 1) >= 34 && !IsSquare(z, p)
    requires n == ModPow(z, Pow2(33), p)
    ensures StartCurveLoop(n, p, z, OddPart(p - 1), TwoAdicity(p - 1)) == None
  {
    var q, s, e := OddPart(p - 1), TwoAdicity(p - 1), Pow2(33);
    var c, t := ModPow(z, q, p), ModPow(n, q, p);
    CongMod(Pow(z, e), p);
    CongMod(Pow(z, q), p);
    CongMod(Pow(n, q), p);
    PowersCommute(z, n, e, q, c, t, p);
    EulerPowerOfOddPart(z, p);
    NonResidueTest(z, p);
    CongPow(c, Pow(z, q), Pow2(s - 1), p);
    WrappedShiftFails(s, c, t, ModPow(n, SquareRoots.RootExponent(q), p), p);
  }

  /** A square the routine loses when the 2-adicity exceeds the shift: z^(2^33). */
  lemma {:induction false} LostSquare(p: nat) returns (n: nat)
    requires IsOddPrime(p) && TwoAdicity(p - 1) >= 34
    ensures p >= 3 && p % 2 == 1 && NonResidueAhead(2, p)
    ensures n == ModPow(LeastNonResidue(2, p), Pow2(33), p)
    ensures 0 < n < p && IsSquare(n, p) && TonelliShanksRoot(n, p) == None
  {
    OddPrimeIsOdd(p);
    LeastNonResidueIsLeast(p);
    var z := LeastNonResidue(2, p);
    n := ModPow(z, Pow2(33), p);
    SmallMod(z, p);
    PowNonZero(z, Pow2(33), p);
    PowerIsSquare(z, n, p);
    LostInLoop(z, n, p);
  }

  lemma PowerIsSquare(z: nat, n: nat, p: nat)
    requires p > 1 && n == ModPow(z, Pow2(33), p)
    ensures IsSquare(n, p)
  {
    var y := Pow(z, Pow2(32));
    PowAdd(z, Pow2(32), Pow2(32));
    assert Pow2(33) == Pow2(32) + Pow2(32);
    CongMod(Pow(z, Pow2(33)), p);
    assert IsRoot(y, n, p);
  }

  /** (z^e)^q = (z^q)^e. */
  lemma PowersCommute(z: int, n: int, e: nat, q: nat, c: int, t: int, p: nat)
    requires p > 1 && Cong(n, Pow(z, e), p) && Cong(c, Pow(z, q), p) && Cong(t, Pow(n, q), p)
    ensures Cong(t, Pow(c, e), p)
  {
    CongPow(n, Pow(z, e), q, p);
    CongPow(c, Pow(z, q), e, p);
    PowPower(z, e, q);
    PowPower(z, q, e);
    assert e * q == q * e;
  }

  /** `tonelli_shanks` decides squareness of every residue exactly when the 2-adicity of
      the prime is at most 33. */
  lemma ExactIffShiftFits(p: nat)
    requires IsOddPrime(p)
    ensures p >= 3 && p % 2 == 1 && NonResidueAhead(2, p)
    ensures (forall n: nat :: n < p ==> (TonelliShanksRoot(n, p).Some? <==> IsSquare(n, p)))
       <==> TwoAdicity(p - 1) <= 33
  {
    OddPrimeIsOdd(p);
    SearchTerminates(p);
    if TwoAdicity(p - 1) <= 33 {
      forall n: nat | n < p ensures TonelliShanksRoot(n, p).Some? <==> IsSquare(n, p) {
        SmallMod(n, p);
        if n == 0 { assert IsRoot(0, n, p); }
        if IsSquare(n, p) { TonelliShanksComplete(n, p); } else { TonelliShanksRefuses(n, p); }
      }
    } else {
      var n := LostSquare(p);
    }
  }
}
