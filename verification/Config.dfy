/** config.rs: the curve and Fp2 moduli, and what the curve code gets from their residues. */
module Config {
  import opened Arithmetic
  import opened PrimeField
  import opened QuadraticResidues
  import opened Curve
  import opened Precompiles
  import opened PairingConstants
  import Modular
  import TonelliShanks

  const SECP256K1_P: nat := 115792089237316195423570985008687907853269984665640564039457584007908834671663
  const SECP256K1_R: nat := 115792089237316195423570985008687907852837564279074904382605163141518161494337
  const P256_P: nat := 115792089210356248762697446949407573530086143415290314195533631308867097853951
  const P256_R: nat := 115792089210356248762697446949407573529996955224135760342422259061068512044369

  const P256_A: nat := 115792089210356248762697446949407573530086143415290314195533631308867097853948
  const P256_B: nat := 41058363725152142129326129780047268409114441015993725554835256314039467401291

  function DefaultCurves(): seq<CurveEntry> {
    [CurveEntry(32, BN_P, 0, 3),
     CurveEntry(32, SECP256K1_P, 0, 7),
     CurveEntry(32, P256_P, P256_A, P256_B),
     CurveEntry(48, BLS_P, 0, 4)]
  }

  function DefaultModuli(): seq<ModulusEntry> {
    [ModulusEntry(32, BN_P), ModulusEntry(32, BN_R), ModulusEntry(32, SECP256K1_P), ModulusEntry(32, SECP256K1_R),
     ModulusEntry(32, P256_P), ModulusEntry(32, P256_R), ModulusEntry(48, BLS_P), ModulusEntry(32, BLS_R)]
  }

  function DefaultComplex(): seq<ModulusEntry> {
    [ModulusEntry(32, BN_P), ModulusEntry(48, BLS_P)]
  }

  function DefaultPairings(): seq<PairingCurve> { [Bn254, Bls12_381] }

  /** The moduli of the two curves that are not pairing curves: those of sections 2.4.1 and 2.4.2
      of SEC 2. */
  lemma StandardModuli()
    ensures SECP256K1_P == Two256() - 0x1_0000_0000 - 977
    ensures SECP256K1_R == 0xffffffff_ffffffff_ffffffff_fffffffe_baaedce6_af48a03b_bfd25e8c_d0364141
    ensures P256_P == Two256() - Two256() / 0x1_0000_0000 + Two192() + Two96() - 1
    ensures P256_R == 0xffffffff_00000000_ffffffff_ffffffff_bce6faad_a7179e84_f3b9cac2_fc632551
    ensures P256_A == P256_P - 3
  {}

  function Two96(): nat { 0x1_00000000_00000000_00000000 }
  function Two192(): nat { Two96() * Two96() }
  function Two256(): nat { Two192() * 0x1_00000000_00000000 }

  /** Which modulus and which pairing curve an index selects. */
  lemma ModulusOrder()
    ensures |DefaultModuli()| == 8 && |DefaultComplex()| == 2
    ensures DefaultModuli()[0] == ModulusEntry(32, BN_P) && DefaultModuli()[1] == ModulusEntry(32, BN_R)
    ensures DefaultModuli()[2] == ModulusEntry(32, SECP256K1_P) && DefaultModuli()[3] == ModulusEntry(32, SECP256K1_R)
    ensures DefaultModuli()[4] == ModulusEntry(32, P256_P) && DefaultModuli()[5] == ModulusEntry(32, P256_R)
    ensures DefaultModuli()[6] == ModulusEntry(48, BLS_P) && DefaultModuli()[7] == ModulusEntry(32, BLS_R)
    ensures DefaultComplex()[0] == ModulusEntry(32, BN_P) && DefaultComplex()[1] == ModulusEntry(48, BLS_P)
    ensures DefaultPairings()[..1] == [Bn254] && DefaultPairings()[1..] == [Bls12_381]
  {}

  /** The standard base points, G of SEC 2 and the generators of the two pairing groups. */
  const SECP256K1_G: Point := Point(
    0x79be667e_f9dcbbac_55a06295_ce870b07_029bfcdb_2dce28d9_59f2815b_16f81798,
    0x483ada77_26a3c465_5da4fbfc_0e1108a8_fd17b448_a6855419_9c47d08f_fb10d4b8)
  const P256_G: Point := Point(
    0x6b17d1f2_e12c4247_f8bce6e5_63a440f2_77037d81_2deb33a0_f4a13945_d898c296,
    0x4fe342e2_fe1a7f9b_8ee7eb4a_7c0f9e16_2bce3357_6b315ece_cbb64068_37bf51f5)
  const BLS_G: Point := Point(
    0x17f1d3a7_3197d794_2695638c_4fa9ac0f_c3688c4f_9774b905_a14e3a3f_171bac58_6c55e83f_f97a1aef_fb3af00a_db22c6bb,
    0x08b3f481_e3aaa0f1_a09e30ed_741d8ae4_fcf5e095_d5d00af6_00db18cb_2c04b3ed_d03cc744_a2888ae4_0caa2329_46c5e7e1)

  /** Which curve an index selects: each has the standard base point, which with a fixes b. */
  lemma CurveOrder()
    ensures |DefaultCurves()| == 4
    ensures var c := DefaultCurves()[0];
      c.coordBytes == 32 && c.modulus == BN_P && c.a == 0 && c.b < c.modulus && OnCurve(Point(1, 2), c)
    ensures var c := DefaultCurves()[1];
      c.coordBytes == 32 && c.modulus == SECP256K1_P && c.a == 0 && c.b < c.modulus && OnCurve(SECP256K1_G, c)
    ensures var c := DefaultCurves()[2];
      c.coordBytes == 32 && c.modulus == P256_P && c.a == P256_P - 3 && c.b < c.modulus && OnCurve(P256_G, c)
    ensures var c := DefaultCurves()[3];
      c.coordBytes == 48 && c.modulus == BLS_P && c.a == 0 && c.b < c.modulus && OnCurve(BLS_G, c)
  {
    hide OnCurve;
    BnBasePoint();
    SecpBasePoint();
    P256BasePoint();
    BlsBasePoint();
  }

  lemma BnBasePoint()
    ensures OnCurve(Point(1, 2), CurveEntry(32, BN_P, 0, 3))
  {}

  lemma SecpBasePoint()
    ensures OnCurve(SECP256K1_G, CurveEntry(32, SECP256K1_P, 0, 7))
  {}

  lemma P256BasePoint()
    ensures OnCurve(P256_G, CurveEntry(32, P256_P, P256_A, P256_B))
  {}

  lemma BlsBasePoint()
    ensures OnCurve(BLS_G, CurveEntry(48, BLS_P, 0, 4))
  {}

  /** Canonical values of every configured field fit its operand width. */
  lemma ConfiguredWidths(e: ModulusEntry)
    requires e in DefaultModuli() || e in DefaultComplex()
    ensures e.modulus < Pow(256, e.limbBytes) && e.modulus % 2 == 1
  {
    hide Pow;
    Widths();
  }

  /** Given primality and a generator that comes up with non-residues, the configured tables
      make a well-formed handler. */
  lemma ConfiguredEnvironment<B(!new), S(!new)>(env: Env<B, S>)
    requires env.moduli == DefaultModuli() && env.curves == DefaultCurves() && env.complex == DefaultComplex()
    requires forall e :: e in DefaultModuli() ==> IsPrime(e.modulus) && Drawn(env, e.modulus)
    requires TargetsAreGroups(env)
    ensures WellFormed(env)
  {
    hide Drawn, TargetsAreGroups;
    forall c | c in env.curves ensures IsOddPrime(c.modulus) {
      assert ModulusEntry(c.coordBytes, c.modulus) in DefaultModuli();
    }
    forall e | e in env.complex ensures IsOddPrime(e.modulus) {
      assert e in DefaultModuli();
    }
  }

  lemma Widths()
    ensures Pow(256, 32) == 0x1_0000_0000_0000_0000_0000_0000_0000_0000_0000_0000_0000_0000_0000_0000_0000_0000
    ensures Pow(256, 48) > BLS_P
  {
    assert Pow(256, 8) == 0x1_0000_0000_0000_0000;
    PowAdd(256, 8, 8);
    PowAdd(256, 16, 16);
    PowAdd(256, 32, 16);
  }

  /** Every configured curve has a modulus of residue 3 modulo 4 that fits its width. */
  lemma ConfiguredModuli(c: CurveEntry)
    requires c in DefaultCurves()
    ensures c.modulus % 4 == 3 && c.modulus < Pow(256, c.coordBytes)
    ensures c.a < c.modulus && c.b < c.modulus
  {
    hide Pow;
    Widths();
  }

  /** So the 2-adicity is 1, far below what the shift in `tonelli_shanks` allows. */
  lemma ConfiguredTwoAdicity(p: nat)
    requires p % 4 == 3
    ensures TonelliShanks.TwoAdicity(p - 1) == 1
  {
    assert (p - 1) % 2 == 0 && (p - 1) / 2 % 2 == 1;
  }

  /** On the configured curves, with a prime modulus, decompression succeeds exactly on the x
      coordinates of points, and the point written is on the curve with the asked parity. */
  lemma ConfiguredDecompressionExact(c: CurveEntry, x: nat, parity: nat)
    requires c in DefaultCurves() && IsOddPrime(c.modulus) && parity < 2
    ensures SearchableModulus(c.modulus)
    ensures Decompress(c, x, parity).Some? <==> exists y: nat :: OnCurve(Point(x, y), c)
    ensures var y := Decompress(c, x, parity);
      y.Some? ==> y.value % 2 == parity && OnCurve(Point(x, y.value), c)
  {
    hide Decompress;
    ConfiguredModuli(c);
    ConfiguredTwoAdicity(c.modulus);
    DecompressFailsIffNonResidue(c, x, parity);
    DecompressedPointOnCurve(c, x, parity);
    SquareMeansPoint(c, x);
  }

  lemma SquareMeansPoint(c: CurveEntry, x: nat)
    requires c.modulus > 0
    ensures IsSquare(x * x * x + c.a * x + c.b, c.modulus) <==> exists y: nat :: OnCurve(Point(x, y), c)
  {
    var n, p := x * x * x + c.a * x + c.b, c.modulus;
    if IsSquare(n, p) {
      var r: int :| IsRoot(r, n, p);
      CongMod(r, p);
      CongMul(r % p, r, r % p, r, p);
      assert OnCurve(Point(x, r % p), c);
    }
    if y: nat :| OnCurve(Point(x, y), c) { assert IsRoot(y, n, p); }
  }

  /** Both Fp2 tables use moduli of residue 3 modulo 4, so every non-zero element divides. */
  lemma ConfiguredFp2IsField(p: nat, b: Modular.Fp2)
    requires p in {BN_P, BLS_P} && IsPrime(p) && Modular.Reduced(b, p)
    ensures Modular.Fp2Div(Modular.Fp2(1, 0), b, p).Ok? <==> b != Modular.Fp2(0, 0)
  {
    assert p % 4 == 3;
    Modular.Fp2DivFailsOnlyOnZero(Modular.Fp2(1, 0), b, p);
    SmallMod(b.c0, p);
    SmallMod(b.c1, p);
  }
}
