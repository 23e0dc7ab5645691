/** modular.rs: the square root and the non-residue of the modular HINT instructions. */
module SquareRoots {
  import opened Wrappers
  import opened Arithmetic
  import opened Bytes
  import opened PrimeField
  import opened QuadraticResidues
  import opened TonelliShanks
  import opened RootChoice

  // ----- mod_sqrt_openvm ---------------------------------------------------------------

  function SqrtLoop(m: nat, c: nat, t: nat, r: nat, p: nat): Option<nat>
    requires p > 0
    decreases m
  {
    if t == 0 then Some(0)
    else if t == 1 then Some(r)
    else
      var i := SquaringsToOne(t, m, p);
      if i == m then None
      else
        var b := SquareTimes(c, m - i - 1, p);
        SqrtLoop(i, MulMod(b, b, p), MulMod(MulMod(t, b, p), b, p), MulMod(r, b, p), p)
  }

  /** (q + 1) / 2, the exponent of the first approximation. */
  function RootExponent(q: nat): nat { (q + 1) / 2 }

  function StartLoop(x: nat, p: nat, nonQr: nat, q: nat, s: nat): Option<nat>
    requires p > 0
  {
    SqrtLoop(s, ModPow(nonQr, q, p), ModPow(x, q, p), ModPow(x, RootExponent(q), p), p)
  }

  function ModSqrt(x: nat, p: nat, nonQr: nat): Option<nat>
    requires p >= 2
  {
    if p % 4 == 3 then
      var ret := ModPow(x, (p + 1) / 4, p);
      if MulMod(ret, ret, p) == x % p then Some(ret) else None
    else
      StartLoop(x, p, nonQr, OddPart(p - 1), TwoAdicity(p - 1))
  }

  /** n = q * 2^s with q odd. */
  method SplitOffTwos(n: nat) returns (q: nat, s: nat)
    requires n > 0
    ensures q == OddPart(n) && s == TwoAdicity(n)
  {
    q, s := n, 0;
    while q % 2 == 0
      invariant q > 0 && OddPart(q) == OddPart(n) && s + TwoAdicity(q) == TwoAdicity(n)
      decreases q
    {
      s := s + 1;
      q := q / 2;
    }
  }

  /** The inner search for the order of t. */
  method CountSquarings(t: nat, m: nat, modulus: nat) returns (i: nat)
    requires modulus > 0
    ensures i == SquaringsToOne(t, m, modulus)
  {
    var tmp: nat := t;
    i := 0;
    while tmp != 1 && i < m
      invariant i <= m
      invariant i + SquaringsToOne(tmp, m - i, modulus) == SquaringsToOne(t, m, modulus)
      decreases m - i
    {
      tmp := MulMod(tmp, tmp, modulus);
      i := i + 1;
    }
  }

  /** The inner loop that squares c. */
  method SquareRepeatedly(c: nat, n: nat, modulus: nat) returns (b: nat)
    requires modulus > 0
    ensures b == SquareTimes(c, n, modulus)
  {
    b := c;
    for k := 0 to n
      invariant SquareTimes(b, n - k, modulus) == SquareTimes(c, n, modulus)
    {
      b := MulMod(b, b, modulus);
    }
  }

  /** The function of the source, with its loop over updated locals. */
  method ModSqrtOpenvm(x: nat, modulus: nat, nonQr: nat) returns (root: Option<nat>)
    requires modulus >= 2
    ensures root == ModSqrt(x, modulus, nonQr)
  {
    if modulus % 4 == 3 {
      var ret := ModPow(x, (modulus + 1) / 4, modulus);
      return if MulMod(ret, ret, modulus) == x % modulus then Some(ret) else None;
    }
    var q: nat, m: nat := SplitOffTwos(modulus - 1);
    var c: nat := ModPow(nonQr, q, modulus);
    var t: nat := ModPow(x, q, modulus);
    var r: nat := ModPow(x, RootExponent(q), modulus);
    while true
      invariant SqrtLoop(m, c, t, r, modulus) == ModSqrt(x, modulus, nonQr)
      decreases m
    {
      if t == 0 { return Some(0); }
      if t == 1 { return Some(r); }
      var i: nat := CountSquarings(t, m, modulus);
      if i == m { return None; }
      var b: nat := SquareRepeatedly(c, m - i - 1, modulus);
      m := i;
      c := MulMod(b, b, modulus);
      t := MulMod(MulMod(t, b, modulus), b, modulus);
      r := MulMod(r, b, modulus);
    }
  }

  /** From a state satisfying the invariant, the loop returns a square root. */
  lemma {:induction false} SqrtLoopFindsRoot(x: int, m: nat, c: nat, t: nat, r: nat, p: nat)
    requires IsPrime(p) && LoopInvariant(x, m, c, t, r, p) && c < p && t < p && r < p
    ensures var root := SqrtLoop(m, c, t, r, p); root.Some? && root.value < p && IsRoot(root.value, x, p)
    decreases m
  {
    if t == 1 {
      assert x * t == x;
    } else {
      SearchSucceeds(x, m, c, t, r, p);
      var i := SquaringsToOne(t, m, p);
      var b := SquareTimes(c, m - i - 1, p);
      SquareTimesIsPower(c, m - i - 1, p);
      var c', t', r' := MulMod(b, b, p), MulMod(MulMod(t, b, p), b, p), MulMod(r, b, p);
      CongMod(b * b, p);
      CongMod(r * b, p);
      TwoReductions(t, b, p);
      RoundKeepsInvariant(x, m, i, c, t, r, b, c', t', r', p);
      SqrtLoopFindsRoot(x, i, c', t', r', p);
    }
  }

  /** Of the two roots the loop returns the one of the form it tracks. */
  lemma {:induction false} SqrtLoopChooses(x: int, z: int, m: nat, c: nat, t: nat, r: nat, p: nat)
    requires IsOddPrime(p) && p % 4 == 1 && LoopInvariant(x, m, c, t, r, p) && c < p && t < p && r < p
    requires Tracks(x, z, OddPart(p - 1), TwoAdicity(p - 1), m, c, r, p)
    ensures var root := SqrtLoop(m, c, t, r, p); root.Some? && ChosenRoot(root.value, x, z, p)
    decreases m
  {
    hide Pow, LoopInvariant, Tracks, ChosenRoot, OddPart, TwoAdicity, SquaringsToOne, SquareTimes;
    var q, s := OddPart(p - 1), TwoAdicity(p - 1);
    InvariantUnit(x, m, c, t, r, p);
    if t == 1 {
      TrackedIsChosen(x, z, m, c, r, p);
    } else {
      SearchSucceeds(x, m, c, t, r, p);
      var i := SquaringsToOne(t, m, p);
      var b := SquareTimes(c, m - i - 1, p);
      SquareTimesIsPower(c, m - i - 1, p);
      var c', t', r' := MulMod(b, b, p), MulMod(MulMod(t, b, p), b, p), MulMod(r, b, p);
      CongMod(b * b, p);
      CongMod(r * b, p);
      TwoReductions(t, b, p);
      RoundKeepsInvariant(x, m, i, c, t, r, b, c', t', r', p);
      RoundTracks(x, z, q, s, m, i, c, r, b, c', r', p);
      SqrtLoopChooses(x, z, i, c', t', r', p);
    }
  }

  lemma InvariantUnit(x: int, m: nat, c: nat, t: nat, r: nat, p: nat)
    requires p > 1 && LoopInvariant(x, m, c, t, r, p)
    ensures t != 0
  {
    PowPositive(2, m - 1);
    ZeroPower(Pow2(m - 1));
    SmallMod(0, p);
  }

  lemma TwoReductions(t: nat, b: nat, p: nat)
    requires p > 0
    ensures Cong(MulMod(MulMod(t, b, p), b, p), t * (b * b), p)
  {
    CongMod(t * b, p);
    CongMul((t * b) % p, t * b, b, b, p);
    CongMod((t * b) % p * b, p);
    assert t * b * b == t * (b * b);
  }

  /** On a non-square the first search runs into m. */
  lemma SqrtLoopRejects(x: nat, z: nat, p: nat)
    requires IsOddPrime(p) && p % 4 == 1 && !IsSquare(x, p)
    ensures ModSqrt(x, p, z) == None
  {
    var q, s := OddPart(p - 1), TwoAdicity(p - 1);
    var t := ModPow(x, q, p);
    NonResidueTest(x, p);
    EulerPowerOfOddPart(x, p);
    CongMod(Pow(x, q), p);
    CongPow(t, Pow(x, q), Pow2(s - 1), p);
    OddPrimeIsOdd(p);
    if t == 0 { ZeroPower(Pow2(s - 1)); SmallMod(0, p); }
    if t == 1 { PowOfOne(Pow2(s - 1)); SmallMod(1, p); }
    var i := SquaringsToOne(t, s, p);
    SquaringsToOneIsLeast(t, s, p);
    if i < s { OnceOneAlwaysOne(t, i, s - 1, p); }
  }

  lemma OnceOneAlwaysOne(t: int, i: nat, j: nat, p: nat)
    requires p > 1 && i <= j && Pow(t, Pow2(i)) % p == 1
    ensures Pow(t, Pow2(j)) % p == 1
  {
    PowAdd(2, i, j - i);
    PowPower(t, Pow2(i), Pow2(j - i));
    SmallMod(1, p);
    CongPow(Pow(t, Pow2(i)), 1, Pow2(j - i), p);
    PowOfOne(Pow2(j - i));
  }

  /** p = 3 (mod 4): x^((p+1)/4) squared is x times the Euler power. */
  lemma FastPathRoot(x: nat, p: nat)
    requires IsPrime(p) && p % 4 == 3 && IsSquare(x, p)
    ensures IsRoot(ModPow(x, (p + 1) / 4, p), x, p)
  {
    var e, h := (p + 1) / 4, Half(p);
    var ret := ModPow(x, e, p);
    assert e + e == h + 1;
    CongMod(Pow(x, e), p);
    CongMul(ret, Pow(x, e), ret, Pow(x, e), p);
    PowAdd(x, e, e);
    assert Pow(x, h + 1) == x * Pow(x, h);
    SmallMod(0, p); SmallMod(1, p);
    if x % p == 0 {
      CongMul(x, 0, Pow(x, h), Pow(x, h), p);
    } else {
      EulerCriterion(x, p);
      CongScale(x, Pow(x, h), 1, p);
    }
  }

  lemma FastPathExact(x: nat, p: nat, nonQr: nat)
    requires IsOddPrime(p) && p % 4 == 3
    ensures var root := ModSqrt(x, p, nonQr);
      && (root.Some? <==> IsSquare(x, p))
      && (root.Some? ==> root.value < p && IsRoot(root.value, x, p) && ChosenRoot(root.value, x, nonQr, p))
  {
    var ret := ModPow(x, (p + 1) / 4, p);
    if IsSquare(x, p) {
      FastPathRoot(x, p);
      FastRootIsSquare(x, p);
    }
    if MulMod(ret, ret, p) == x % p { assert IsRoot(ret, x, p); }
  }

  lemma LoopPathRoot(x: nat, p: nat, nonQr: nat)
    requires IsOddPrime(p) && p % 4 == 1 && !IsSquare(nonQr, p) && IsSquare(x, p)
    ensures var root := ModSqrt(x, p, nonQr);
      root.Some? && root.value < p && IsRoot(root.value, x, p) && ChosenRoot(root.value, x, nonQr, p)
  {
    var q := OddPart(p - 1);
    var c, t, r := ModPow(nonQr, q, p), ModPow(x, q, p), ModPow(x, RootExponent(q), p);
    if x % p == 0 {
      PowerOfMultiple(x, q, p);
      SmallMod(0, p);
    } else {
      CongMod(Pow(nonQr, q), p);
      CongMod(Pow(x, q), p);
      CongMod(Pow(x, (q + 1) / 2), p);
      InitialInvariant(x, nonQr, c, t, r, p);
      SqrtLoopFindsRoot(x, TwoAdicity(p - 1), c, t, r, p);
      TracksAtStart(x, nonQr, q, TwoAdicity(p - 1), c, r, p);
      SqrtLoopChooses(x, nonQr, TwoAdicity(p - 1), c, t, r, p);
    }
  }

  /** Exactness: for an odd prime and every x, reduced or not, a root below p comes back
      exactly when x has one, and it is the root that ChosenRoot fixes. */
  lemma {:induction false} ModSqrtExact(x: nat, p: nat, nonQr: nat)
    requires IsOddPrime(p) && (p % 4 == 1 ==> !IsSquare(nonQr, p))
    ensures var root := ModSqrt(x, p, nonQr);
      && (root.Some? <==> IsSquare(x, p))
      && (root.Some? ==> root.value < p && IsRoot(root.value, x, p) && ChosenRoot(root.value, x, nonQr, p))
  {
    hide Pow, ModSqrt, ChosenRoot, IsRoot, IsSquare, IsPrime;
    OneOrThree(p);
    if p % 4 == 3 {
      FastPathExact(x, p, nonQr);
    } else if IsSquare(x, p) {
      LoopPathRoot(x, p, nonQr);
    } else {
      SqrtLoopRejects(x, nonQr, p);
    }
  }

  lemma PowerOfMultiple(x: int, e: nat, p: nat)
    requires p > 1 && x % p == 0 && e > 0
    ensures Pow(x, e) % p == 0
  {
    SmallMod(0, p);
    CongMul(x, 0, Pow(x, e - 1), Pow(x, e - 1), p);
  }

  // ----- find_non_qr_openvm --------------------------------------------------------------

  /** Whether rejection sampling accepts one buffer of random bytes. */
  predicate Accepts(buf: seq<byte>, p: nat)
    requires p >= 3
  {
    var val := BeValue(buf);
    val < p - 3 && ModPow(val + 2, Half(p), p) == p - 1
  }

  /** The first accepted buffer of the generator's stream, cut at what has been drawn. */
  function FirstAccepted(draws: seq<seq<byte>>, p: nat): Option<nat>
    requires p >= 3
  {
    if |draws| == 0 then None
    else if Accepts(draws[0], p) then Some(BeValue(draws[0]) + 2)
    else FirstAccepted(draws[1..], p)
  }

  function FindNonQr(draws: seq<seq<byte>>, p: nat): Option<nat>
    requires p >= 3
  {
    if p % 4 == 3 then Some(p - 1)
    else if p % 8 == 5 then Some(2)
    else FirstAccepted(draws, p)
  }

  /** `draws` are the successive fillings of `buf`; None means sampling is still going. */
  method FindNonQrOpenvm(modulus: nat, draws: seq<seq<byte>>) returns (z: Option<nat>)
    requires modulus >= 3
    ensures z == FindNonQr(draws, modulus)
  {
    if modulus % 4 == 3 { return Some(modulus - 1); }
    if modulus % 8 == 5 { return Some(2); }
    var range := modulus - 3;
    var exponent := (modulus - 1) / 2;
    var pm1 := modulus - 1;
    var n := 0;
    while n < |draws|
      invariant 0 <= n <= |draws|
      invariant FirstAccepted(draws[n..], modulus) == FirstAccepted(draws, modulus)
    {
      var val := BeValue(draws[n]);
      n := n + 1;
      if val >= range { continue; }
      var nonQr := val + 2;
      if ModPow(nonQr, exponent, modulus) == pm1 { return Some(nonQr); }
    }
    return None;
  }

  lemma {:induction false} FirstAcceptedIsNonResidue(draws: seq<seq<byte>>, p: nat)
    requires IsOddPrime(p) && FirstAccepted(draws, p).Some?
    ensures var z := FirstAccepted(draws, p).value; 2 <= z < p && !IsSquare(z, p)
  {
    if Accepts(draws[0], p) {
      NonResidueTest(BeValue(draws[0]) + 2, p);
    } else {
      FirstAcceptedIsNonResidue(draws[1..], p);
    }
  }

  /** On all three paths the value returned has no square root. */
  lemma FindNonQrIsNonResidue(draws: seq<seq<byte>>, p: nat)
    requires IsOddPrime(p) && FindNonQr(draws, p).Some?
    ensures var z := FindNonQr(draws, p).value; 2 <= z < p && !IsSquare(z, p)
  {
    OddPrimeIsOdd(p);
    if p % 4 == 3 {
      MinusOneLaw(p);
    } else if p % 8 == 5 {
      TwoLaw(p);
    } else {
      FirstAcceptedIsNonResidue(draws, p);
    }
  }

  /** Which non-residue: p - 1, then 2, then two more than the first draw that is below p - 3 and
      two less than a non-residue. */
  ghost predicate IsFirstDraw(z: nat, draws: seq<seq<byte>>, p: nat)
    requires p >= 3
  {
    exists i :: 0 <= i < |draws| && BeValue(draws[i]) + 2 == z && IsCandidate(draws[i], p)
      && forall j :: 0 <= j < i ==> !IsCandidate(draws[j], p)
  }

  ghost predicate IsCandidate(buf: seq<byte>, p: nat)
    requires p >= 3
  {
    BeValue(buf) + 2 < p - 1 && !IsSquare(BeValue(buf) + 2, p)
  }

  lemma FindNonQrValue(draws: seq<seq<byte>>, p: nat)
    requires IsOddPrime(p) && FindNonQr(draws, p).Some?
    ensures var z := FindNonQr(draws, p).value;
      && (p % 4 == 3 ==> z == p - 1)
      && (p % 8 == 5 ==> z == 2)
      && (p % 8 == 1 ==> IsFirstDraw(z, draws, p))
  {
    OddPrimeIsOdd(p);
    if p % 8 == 1 { FirstAcceptedIsFirst(draws, p); }
  }

  lemma {:induction false} FirstAcceptedIsFirst(draws: seq<seq<byte>>, p: nat)
    requires IsOddPrime(p) && FirstAccepted(draws, p).Some?
    ensures IsFirstDraw(FirstAccepted(draws, p).value, draws, p)
  {
    hide BeValue, IsSquare, IsCandidate, ModPow;
    var z := FirstAccepted(draws, p).value;
    CandidatesAreAccepted(draws[0], p);
    if !Accepts(draws[0], p) {
      var rest := draws[1..];
      FirstAcceptedIsFirst(rest, p);
      var i :| 0 <= i < |rest| && BeValue(rest[i]) + 2 == z && IsCandidate(rest[i], p)
        && forall j :: 0 <= j < i ==> !IsCandidate(rest[j], p);
      assert draws[i + 1] == rest[i];
      forall j | 0 <= j < i + 1 ensures !IsCandidate(draws[j], p) {
        if j > 0 { assert draws[j] == rest[j - 1]; }
      }
    }
  }

  lemma CandidatesAreAccepted(buf: seq<byte>, p: nat)
    requires IsOddPrime(p) && p >= 3
    ensures Accepts(buf, p) <==> IsCandidate(buf, p)
  {
    NonResidueTest(BeValue(buf) + 2, p);
  }

  lemma AcceptsNonResidue(buf: seq<byte>, z: nat, p: nat)
    requires IsOddPrime(p) && BeValue(buf) + 2 == z < p - 1 && !IsSquare(z, p)
    ensures p >= 3 && Accepts(buf, p)
  {
    NonResidueTest(z, p);
  }

  /** Sampling can always succeed: some buffer of the sampled length is accepted. This
      needs p - 1, which is out of the sampled range, not to be the only non-residue. */
  lemma SomeBufferAccepted(p: nat) returns (buf: seq<byte>)
    requires IsPrime(p) && p % 8 == 1
    ensures |buf| == ByteLength(p) && Accepts(buf, p)
  {
    var z := NonResidueExists(p);
    MinusOneLaw(p);
    buf := BeSurjective(z - 2, ByteLength(p));
    AcceptsNonResidue(buf, z, p);
  }

  // ----- HintSqrt ---------------------------------------------------------------------------

  datatype SqrtHint = SqrtHint(success: bool, sqrt: nat)

  /** The value part of HintSqrt; None stands for the failing `expect`. */
  function HintSqrt(x: nat, p: nat, nonQr: nat): Option<SqrtHint>
    requires p >= 2
  {
    match ModSqrt(x, p, nonQr)
    case Some(s) => Some(SqrtHint(true, s))
    case None =>
      match ModSqrt(MulMod(x, nonQr, p), p, nonQr)
      case Some(s) => Some(SqrtHint(false, s))
      case None => None
  }

  /** A product of two non-residues is a residue. */
  lemma NonResidueProduct(x: nat, z: nat, p: nat)
    requires IsOddPrime(p) && !IsSquare(x, p) && !IsSquare(z, p)
    ensures IsSquare(MulMod(x, z, p), p)
  {
    var h := Half(p);
    OddPrimeIsOdd(p);
    NonResidueTest(x, p);
    NonResidueTest(z, p);
    PowProduct(x, z, h);
    MinusOneTimesMinusOne(Pow(x, h), Pow(z, h), p);
    CongMod(x * z, p);
    CongPow((x * z) % p, x * z, h, p);
    EulerPowerOneIsSquare((x * z) % p, p);
  }

  /** HintSqrt is total and exact on an odd prime: the `expect` is never reached, the flag
      says whether x has a root, and the root is one of x or of x times the non-residue: of the
      two, the one that ChosenRoot fixes. */
  lemma HintSqrtTotalAndExact(x: nat, p: nat, draws: seq<seq<byte>>)
    requires IsOddPrime(p) && FindNonQr(draws, p).Some?
    ensures var z := FindNonQr(draws, p).value;
      var hint := HintSqrt(x, p, z);
      && hint.Some?
      && (hint.value.success <==> IsSquare(x, p))
      && hint.value.sqrt < p
      && Cong(hint.value.sqrt * hint.value.sqrt, if hint.value.success then x else x * z, p)
      && ChosenRoot(hint.value.sqrt, if hint.value.success then x else MulMod(x, z, p), z, p)
  {
    var z := FindNonQr(draws, p).value;
    FindNonQrIsNonResidue(draws, p);
    ModSqrtExact(x, p, z);
    if !IsSquare(x, p) {
      NonResidueProduct(x, z, p);
      ModSqrtExact(MulMod(x, z, p), p, z);
      CongMod(x * z, p);
    }
  }

  /** The wire form: a 4-byte little-endian flag, then the root in `limbBytes` bytes. */
  function SqrtHintBytes(hint: SqrtHint, limbBytes: nat): (bs: seq<byte>)
    ensures |bs| == 4 + limbBytes
  {
    [if hint.success then 1 else 0, 0, 0, 0] + ToLe(hint.sqrt, limbBytes)
  }

  /** The guest reads back the flag and the whole root. */
  lemma SqrtHintBytesDecode(hint: SqrtHint, limbBytes: nat)
    requires hint.sqrt < Pow(256, limbBytes)
    ensures var bs := SqrtHintBytes(hint, limbBytes);
      LeValue(bs[..4]) == (if hint.success then 1 else 0) && LeValue(bs[4..]) == hint.sqrt
  {
    var flag: byte := if hint.success then 1 else 0;
    var bs := SqrtHintBytes(hint, limbBytes);
    assert bs[..4] == [flag] + seq(3, _ => 0);
    LeZeros(3);
    LeAppend([flag], seq(3, _ => 0));
    assert LeValue([flag]) == flag;
    assert bs[4..] == ToLe(hint.sqrt, limbBytes);
    LeRoundTrip(hint.sqrt, limbBytes);
  }
}
