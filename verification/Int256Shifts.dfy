/** int256.rs: the shifts, whose byte and bit offsets are handled separately, and the
    comparisons. */
module Int256Shifts {
  import opened Arithmetic
  import opened Bytes
  import opened Bits
  import opened Int256

  /** The value as a two's-complement integer. */
  function Signed(v: nat): int {
    if 2 * v < Modulus() then v else v - Modulus()
  }

  lemma PowerOfShift(byteOff: nat, bitOff: nat)
    ensures Pow2(8 * byteOff + bitOff) == Pow(256, byteOff) * Pow2(bitOff)
  {
    PowAdd(2, 8 * byteOff, bitOff);
    PowPower(2, 8, byteOff);
    Pow2Values();
  }

  // ----- shl ------------------------------------------------------------------------------

  /** Byte i of a moved up by whole bytes. */
  function Raised(a: Word, byteOff: nat, i: nat): byte
    requires i < 32
  {
    if i >= byteOff then a[i - byteOff] else 0
  }

  /** What byte i - 1 carries into byte i. */
  function Carried(a: Word, byteOff: nat, bitOff: nat, i: nat): nat
    requires i <= 32 && bitOff < 8
  {
    if i == 0 then 0 else Shr(Raised(a, byteOff, i - 1), 8 - bitOff)
  }

  ghost predicate ShlBytes(r: Word, a: Word, byteOff: nat, bitOff: nat)
    requires bitOff < 8
  {
    forall i: nat :: i < 32 ==>
      r[i] as int == Shl(8, Raised(a, byteOff, i), bitOff) + Carried(a, byteOff, bitOff, i)
  }

  /** `(hi << bit_off) | (lo >> (8 - bit_off))` on bytes. */
  function ShlByte(a: Word, byteOff: nat, bitOff: nat, i: nat): (r: byte)
    requires byteOff < 32 && 0 < bitOff < 8 && i < 32
    ensures r as int == Shl(8, Raised(a, byteOff, i), bitOff) + Carried(a, byteOff, bitOff, i)
  {
    var hi := if i >= byteOff then a[i - byteOff] else 0;
    var lo := if i > byteOff then a[i - byteOff - 1] else 0;
    ByteShift(hi, bitOff);
    ByteShift(lo, bitOff);
    Pow2Values();
    OrDisjoint(8, Shl(8, hi, bitOff), Shr(lo, 8 - bitOff), bitOff);
    ZeroShr(8 - bitOff);
    Or(8, Shl(8, hi, bitOff), Shr(lo, 8 - bitOff))
  }

  lemma ZeroShr(k: nat)
    ensures Shr(0, k) == 0
  {
    SmallMod(0, Pow2(k));
    DivModUnique(0, Pow2(k), 0, 0);
  }

  method ShlMethod(a: Word, amt: nat) returns (res: Word)
    ensures LeValue(res) == (LeValue(a) * Pow2(amt)) % Modulus()
  {
    if amt >= 256 {
      res := seq(32, _ => 0);
      LeZeros(32);
      ShlAllOut(LeValue(a), amt);
      return;
    }
    var byteOff, bitOff := amt / 8, amt % 8;
    if bitOff == 0 {
      res := MoveBytesUp(a, byteOff);
    } else {
      res := MoveBitsUp(a, byteOff, bitOff);
    }
    ShlValue(res, a, byteOff, bitOff);
  }

  method MoveBytesUp(a: Word, byteOff: nat) returns (res: Word)
    requires byteOff < 32
    ensures ShlBytes(res, a, byteOff, 0)
  {
    var r := new byte[32](_ => 0);
    for i := byteOff to 32
      invariant forall k: nat :: k < i ==> r[k] == Raised(a, byteOff, k)
      invariant forall k: nat :: i <= k < 32 ==> r[k] == 0
    {
      r[i] := a[i - byteOff];
    }
    res := r[..];
    WholeBytes(res, a, byteOff);
  }

  /** The forward loop that precedes the reverse one in the source ranges from 31 up to 0,
      that is over nothing. */
  method MoveBitsUp(a: Word, byteOff: nat, bitOff: nat) returns (res: Word)
    requires byteOff < 32 && 0 < bitOff < 8
    ensures ShlBytes(res, a, byteOff, bitOff)
  {
    hide Shl, Carried;
    var r := new byte[32](_ => 0);
    for i := 32 downto 0
      invariant forall k: nat :: i <= k < 32 ==>
        r[k] as int == Shl(8, Raised(a, byteOff, k), bitOff) + Carried(a, byteOff, bitOff, k)
    {
      r[i] := ShlByte(a, byteOff, bitOff, i);
    }
    res := r[..];
  }

  lemma ShlAllOut(v: nat, amt: nat)
    requires amt >= 256
    ensures (v * Pow2(amt)) % Modulus() == 0
  {
    PowAdd(2, 256, amt - 256);
    PowerOfShift(32, 0);
    Pow2Values();
    assert v * (Modulus() * Pow2(amt - 256)) == (v * Pow2(amt - 256)) * Modulus();
    CongZero(v * Pow2(amt), v * Pow2(amt - 256), Modulus());
  }

  lemma WholeBytes(r: Word, a: Word, byteOff: nat)
    requires forall k: nat :: k < 32 ==> r[k] == Raised(a, byteOff, k)
    ensures ShlBytes(r, a, byteOff, 0)
  {
    Pow2Values();
    forall i: nat | i < 32
      ensures r[i] as int == Shl(8, Raised(a, byteOff, i), 0) + Carried(a, byteOff, 0, i)
    {
      ByteShift(Raised(a, byteOff, i), 0);
      if i > 0 { ByteShift(Raised(a, byteOff, i - 1), 0); }
    }
  }

  /** The digits of a, raised by byteOff bytes and cut at 32. */
  ghost function RaisedWord(a: Word, byteOff: nat): Word {
    seq(32, i requires 0 <= i < 32 => Raised(a, byteOff, i))
  }

  lemma RaisedValue(a: Word, byteOff: nat)
    requires byteOff <= 32
    ensures Cong(LeValue(RaisedWord(a, byteOff)), Pow(256, byteOff) * LeValue(a), Modulus())
  {
    var z: seq<nat> := seq(byteOff, _ => 0);
    LeZeros(byteOff);
    assert RaisedWord(a, byteOff) == z + a[..32 - byteOff];
    LeAppend(z, a[..32 - byteOff]);
    TruncatedRow(a, byteOff, 1);
    assert Row(byteOff, 1, LeValue(a)) == Pow(256, byteOff) * LeValue(a);
    assert Row(byteOff, 1, LeValue(a[..32 - byteOff])) == Pow(256, byteOff) * LeValue(a[..32 - byteOff]);
  }

  /** One digit times 2^bitOff, with what is carried in and out. */
  lemma ShlDigitEquation(r: Word, a: Word, byteOff: nat, bitOff: nat, k: nat)
    requires bitOff < 8 && k < 32 && ShlBytes(r, a, byteOff, bitOff)
    ensures RaisedWord(a, byteOff)[k] * Pow2(bitOff)
         == 256 * Carried(a, byteOff, bitOff, k + 1) + r[k] - Carried(a, byteOff, bitOff, k)
  {
    hide Pow, Shl, Shr;
    ByteShift(Raised(a, byteOff, k), bitOff);
  }

  /** Multiplying the digits by 2^bitOff with carries. */
  lemma {:induction false} ShlPrefix(r: Word, a: Word, byteOff: nat, bitOff: nat, i: nat)
    requires bitOff < 8 && i <= 32 && ShlBytes(r, a, byteOff, bitOff)
    ensures LeValue(r[..i]) + Place(i, Carried(a, byteOff, bitOff, i))
         == Pow2(bitOff) * LeValue(RaisedWord(a, byteOff)[..i])
  {
    hide Pow, Place, LeValue, ShlBytes, RaisedWord;
    var d := RaisedWord(a, byteOff);
    if i == 0 {
      NoPlace(0);
      NoDigits(r);
      NoDigits(d);
    } else {
      hide Carried;
      var k := i - 1;
      ShlPrefix(r, a, byteOff, bitOff, k);
      LePrefix(r, k);
      LePrefix(d, k);
      ShlDigitEquation(r, a, byteOff, bitOff, k);
      ShlDigit(k, LeValue(r[..k]), LeValue(d[..k]), r[k], d[k], Carried(a, byteOff, bitOff, k),
               Carried(a, byteOff, bitOff, i), Pow2(bitOff));
    }
  }

  lemma ShlDigit(k: nat, lr: int, ld: int, r: int, d: int, c: int, c': int, m: int)
    requires lr + Place(k, c) == m * ld && d * m == 256 * c' + r - c
    ensures lr + Place(k, r) + Place(k + 1, c') == m * (ld + Place(k, d))
  {
    var w := Pow(256, k);
    ShlAlgebra(w, r, c, c', d, m, ld);
  }

  lemma ShlAlgebra(w: int, r: int, c: int, c': int, d: int, m: int, ld: int)
    requires d * m == 256 * c' + r - c
    ensures w * r + (256 * w) * c' - w * c == m * (w * d) && m * (ld + w * d) == m * ld + m * (w * d)
  {
    assert m * (w * d) == w * (d * m);
    assert w * (256 * c' + r - c) == (256 * w) * c' + w * r - w * c;
  }

  lemma ShlValue(r: Word, a: Word, byteOff: nat, bitOff: nat)
    requires byteOff <= 32 && bitOff < 8 && ShlBytes(r, a, byteOff, bitOff)
    ensures LeValue(r) == (LeValue(a) * Pow2(8 * byteOff + bitOff)) % Modulus()
  {
    hide Pow, Pow2, Cong, RaisedWord, Carried, LeValue, ShlBytes;
    var d, m, c := RaisedWord(a, byteOff), Pow2(bitOff), Carried(a, byteOff, bitOff, 32);
    ShlPrefix(r, a, byteOff, bitOff, 32);
    assert r[..32] == r && d[..32] == d;
    CarryDropped(r, m * LeValue(d), c);
    RaisedValue(a, byteOff);
    CongScale(m, LeValue(d), Pow(256, byteOff) * LeValue(a), Modulus());
    PowerOfShift(byteOff, bitOff);
    SwapShifts(m, Pow(256, byteOff), LeValue(a));
    CongMeans(m * LeValue(d), LeValue(a) * Pow2(8 * byteOff + bitOff), Modulus());
  }

  lemma SwapShifts(m: int, u: int, v: int)
    ensures m * (u * v) == v * (u * m)
  {}

  lemma CongMeans(x: int, y: int, m: int)
    requires m > 0 && Cong(x, y, m)
    ensures x % m == y % m
  {}

  // ----- shr ----------------------------------------------------------------------------------

  /** Byte i of a moved down by whole bytes, with the fill byte above. */
  function Lowered(a: Word, byteOff: nat, fill: byte, i: nat): byte {
    if i + byteOff < 32 then a[i + byteOff] else fill
  }

  ghost predicate ShrBytes(r: Word, a: Word, byteOff: nat, bitOff: nat, fill: byte)
    requires bitOff < 8
  {
    forall i: nat :: i < 32 ==>
      r[i] as int == Shr(Lowered(a, byteOff, fill, i), bitOff) + Shl(8, Lowered(a, byteOff, fill, i + 1), 8 - bitOff)
  }

  /** `(lo >> bit_off) | (hi << (8 - bit_off))` on bytes. */
  function ShrByte(a: Word, byteOff: nat, bitOff: nat, fill: byte, i: nat): (r: byte)
    requires 0 < bitOff < 8 && i < 32
    ensures r as int == Shr(Lowered(a, byteOff, fill, i), bitOff) + Shl(8, Lowered(a, byteOff, fill, i + 1), 8 - bitOff)
  {
    var lo := if i + byteOff < 32 then a[i + byteOff] else fill;
    var hi := if i + byteOff + 1 < 32 then a[i + byteOff + 1] else fill;
    FunnelDisjoint(lo, hi, bitOff);
    Pow2Values();
    OrDisjoint(8, Shl(8, hi, 8 - bitOff), Shr(lo, bitOff), 8 - bitOff);
    OrCommutes(8, Shl(8, hi, 8 - bitOff), Shr(lo, bitOff));
    Or(8, Shr(lo, bitOff), Shl(8, hi, 8 - bitOff))
  }

  /** The loops shared by the two right shifts, which differ only in the fill byte. */
  method ShrFilled(a: Word, byteOff: nat, bitOff: nat, fill: byte) returns (res: Word)
    requires byteOff < 32 && bitOff < 8
    ensures ShrBytes(res, a, byteOff, bitOff, fill)
  {
    var r := new byte[32](_ => fill);
    if bitOff == 0 {
      for i := 0 to 32 - byteOff
        invariant forall k: nat :: k < i ==> r[k] == Lowered(a, byteOff, fill, k)
        invariant forall k: nat :: i <= k < 32 ==> r[k] == fill
      {
        r[i] := a[i + byteOff];
      }
      WholeBytesDown(r[..], a, byteOff, fill);
    } else {
      for i := 0 to 32
        invariant forall k: nat :: k < i ==>
          r[k] as int == Shr(Lowered(a, byteOff, fill, k), bitOff) + Shl(8, Lowered(a, byteOff, fill, k + 1), 8 - bitOff)
      {
        r[i] := ShrByte(a, byteOff, bitOff, fill, i);
      }
    }
    res := r[..];
  }

  lemma WholeBytesDown(r: Word, a: Word, byteOff: nat, fill: byte)
    requires forall k: nat :: k < 32 ==> r[k] == Lowered(a, byteOff, fill, k)
    ensures ShrBytes(r, a, byteOff, 0, fill)
  {
    Pow2Values();
    forall i: nat | i < 32
      ensures r[i] as int == Shr(Lowered(a, byteOff, fill, i), 0) + Shl(8, Lowered(a, byteOff, fill, i + 1), 8)
    {
      KeptBits(Lowered(a, byteOff, fill, i + 1), 0);
    }
  }

  /** The digits of a, lowered by byteOff bytes and filled up to 32. */
  ghost function LoweredWord(a: Word, byteOff: nat, fill: byte): Word {
    seq(32, i requires 0 <= i < 32 => Lowered(a, byteOff, fill, i))
  }

  /** Dividing the digits by 2^bitOff, from the bottom. */
  lemma {:induction false} ShrPrefix(r: Word, a: Word, byteOff: nat, bitOff: nat, fill: byte, i: nat)
    requires bitOff < 8 && i <= 32 && ShrBytes(r, a, byteOff, bitOff, fill)
    ensures Pow2(bitOff) * LeValue(r[..i]) + Lowered(a, byteOff, fill, 0) % Pow2(bitOff)
         == LeValue(LoweredWord(a, byteOff, fill)[..i]) + Place(i, Lowered(a, byteOff, fill, i) % Pow2(bitOff))
  {
    var m := Pow2(bitOff);
    if i == 0 {
      assert Place(0, Lowered(a, byteOff, fill, 0) % m) == Lowered(a, byteOff, fill, 0) % m;
    } else {
      var k, d := i - 1, LoweredWord(a, byteOff, fill);
      ShrPrefix(r, a, byteOff, bitOff, fill, k);
      LePrefix(r, k);
      LePrefix(d, k);
      ByteFunnel(d[k], Lowered(a, byteOff, fill, i), bitOff);
      ShrDigit(k, LeValue(r[..k]), LeValue(d[..k]), r[k], d[k], d[k] % m,
               Lowered(a, byteOff, fill, i) % m, m, Lowered(a, byteOff, fill, 0) % m);
    }
  }

  lemma ShrDigit(k: nat, lr: int, ld: int, r: int, d: int, c: int, c': int, m: int, low: int)
    requires m * lr + low == ld + Place(k, c) && m * r == d - c + 256 * c'
    ensures m * (lr + Place(k, r)) + low == ld + Place(k, d) + Place(k + 1, c')
  {
    var w := Pow(256, k);
    assert m * (w * r) == w * (m * r);
    assert w * (d - c + 256 * c') == w * d - w * c + (256 * w) * c';
    assert m * (lr + w * r) == m * lr + m * (w * r);
  }

  lemma {:induction false} LeOnes(n: nat)
    ensures LeValue(seq(n, _ => 255)) == Pow(256, n) - 1
  {
    if n != 0 {
      assert seq(n, _ => 255)[1..] == seq(n - 1, _ => 255);
      LeOnes(n - 1);
    }
  }

  /** The lowered word, as the high part of a plus the fill above it. */
  lemma LoweredShape(a: Word, byteOff: nat, fill: byte)
    requires byteOff <= 32
    ensures LoweredWord(a, byteOff, fill) == a[byteOff..] + seq(byteOff, _ => fill)
  {}

  lemma LoweredValue(a: Word, byteOff: nat, neg: bool)
    requires byteOff <= 32
    ensures LeValue(LoweredWord(a, byteOff, if neg then 255 else 0))
         == LeValue(a[byteOff..]) + if neg then Modulus() - Pow(256, 32 - byteOff) else 0
  {
    var fill: byte := if neg then 255 else 0;
    var f: seq<nat> := seq(byteOff, _ => fill);
    hide Pow, LeValue, LoweredWord;
    LoweredShape(a, byteOff, fill);
    LeAppend(a[byteOff..], f);
    PowAdd(256, 32 - byteOff, byteOff);
    if neg {
      assert f == seq(byteOff, _ => 255);
      LeOnes(byteOff);
      OnesAbove(Pow(256, 32 - byteOff), Pow(256, byteOff));
    } else {
      assert f == seq(byteOff, _ => 0);
      LeZeros(byteOff);
    }
  }

  lemma OnesAbove(u: int, v: int)
    ensures u * (v - 1) == u * v - u
  {}

  /** The operand with its sign: a - 2^256 when the fill is ones. */
  function Operand(a: Word, neg: bool): int { if neg then LeValue(a) - Modulus() else LeValue(a) }

  /** Both right shifts at once: the result, with the sign of the fill, is the floor quotient. */
  lemma ShrValue(r: Word, a: Word, byteOff: nat, bitOff: nat, neg: bool)
    requires byteOff <= 32 && bitOff < 8 && ShrBytes(r, a, byteOff, bitOff, if neg then 255 else 0)
    ensures Operand(r, neg) == Operand(a, neg) / Pow2(8 * byteOff + bitOff)
  {
    hide Pow, LeValue, ShrBytes;
    var fill: byte := if neg then 255 else 0;
    var m, u, w := Pow2(bitOff), Pow(256, byteOff), Pow(256, 32 - byteOff);
    var low, h := Lowered(a, byteOff, fill, 0) % m, LeValue(a[byteOff..]);
    var d := LoweredWord(a, byteOff, fill);
    ShrPrefix(r, a, byteOff, bitOff, fill, 32);
    assert r[..32] == r && d[..32] == d;
    LoweredValue(a, byteOff, neg);
    TopFill(bitOff, neg);
    var q, hs := Operand(r, neg), if neg then h - w else h;
    FillAlgebra(m, LeValue(r), Modulus(), neg, low, hs);
    assert m * q + low == hs;
    LeSplit(a, byteOff);
    LeBound(a[..byteOff]);
    PowAdd(256, byteOff, 32 - byteOff);
    SignedSplit(u, w, LeValue(a[..byteOff]), h, neg);
    assert Operand(a, neg) == LeValue(a[..byteOff]) + u * hs;
    PowerOfShift(byteOff, bitOff);
    FloorQuotient(u, m, LeValue(a[..byteOff]), low, q, hs);
  }

  lemma TopFill(bitOff: nat, neg: bool)
    requires bitOff < 8
    ensures (if neg then 255 else 0) % Pow2(bitOff) == if neg then Pow2(bitOff) - 1 else 0
  {
    Pow2Values();
    match bitOff
    case 0 => case 1 => case 2 => case 3 => case 4 => case 5 => case 6 => case _ =>
  }

  lemma FillAlgebra(m: int, r: int, n: int, neg: bool, low: int, hs: int)
    requires m * r + low == hs + (if neg then n else 0) + n * (if neg then m - 1 else 0)
    ensures m * (if neg then r - n else r) + low == hs
  {
    assert m * (r - n) == m * r - n * m;
    assert n * (m - 1) == n * m - n;
  }

  lemma SignedSplit(u: int, w: int, lo: int, h: int, neg: bool)
    ensures lo + u * h - (if neg then u * w else 0) == lo + u * (if neg then h - w else h)
  {
    assert u * (h - w) == u * h - u * w;
  }

  lemma FloorQuotient(u: int, m: int, lo: int, low: int, q: int, hs: int)
    requires 0 <= lo < u && 0 <= low < m && m * q + low == hs
    ensures u * m > 0 && (lo + u * hs) / (u * m) == q
  {
    assert u * (m * q + low) == q * (u * m) + u * low;
    assert u * (low + 1) <= u * m;
    assert u * (low + 1) == u * low + u;
    DivModUnique(lo + u * hs, u * m, q, lo + u * low);
  }

  method ShrLogical(a: Word, amt: nat) returns (res: Word)
    ensures LeValue(res) == LeValue(a) / Pow2(amt)
  {
    if amt >= 256 {
      res := seq(32, _ => 0);
      LeZeros(32);
      ShrAllOut(a, amt, false);
      return;
    }
    res := ShrFilled(a, amt / 8, amt % 8, 0);
    ShrValue(res, a, amt / 8, amt % 8, false);
  }

  method ShrArith(a: Word, amt: nat) returns (res: Word)
    ensures Signed(LeValue(res)) == Signed(LeValue(a)) / Pow2(amt)
  {
    var sign := a[31] >= 128;
    SignBit(a);
    var fill: byte := if sign then 255 else 0;
    if amt >= 256 {
      res := seq(32, _ => fill);
      LeZeros(32);
      LeOnes(32);
      assert res == if sign then seq(32, _ => 255) else seq(32, _ => 0);
      ShrAllOut(a, amt, sign);
      FillIsSmall();
      return;
    }
    res := ShrFilled(a, amt / 8, amt % 8, fill);
    ShrValue(res, a, amt / 8, amt % 8, sign);
    KeepsSign(a, res, amt, sign);
  }

  lemma FillIsSmall()
    ensures 2 * (Modulus() - 1) >= Modulus() && Modulus() > 2
  {
    assert Modulus() == 256 * Pow(256, 31);
    PowPositive(256, 31);
  }

  /** The top bit of the top byte is the sign. */
  lemma SignBit(a: Word)
    ensures a[31] >= 128 <==> 2 * LeValue(a) >= Modulus()
    ensures Signed(LeValue(a)) == Operand(a, a[31] >= 128)
  {
    hide Pow, LeValue;
    LePrefix(a, 31);
    assert a[..32] == a;
    LeBound(a[..31]);
    PowSucc(31);
    TopBit(Pow(256, 31), LeValue(a[..31]), a[31]);
  }

  lemma PowSucc(n: nat)
    ensures Pow(256, n + 1) == 256 * Pow(256, n)
  {}

  lemma PlacesAbove(w: int, t: int, u: int)
    requires w >= 0 && t >= u
    ensures w * t >= w * u
  {
    assert w * t == w * u + w * (t - u);
  }

  lemma TopBit(w: int, lo: int, t: int)
    requires 0 <= lo < w && 0 <= t < 256
    ensures t >= 128 <==> 2 * (lo + w * t) >= 256 * w
  {
    if t >= 128 { PlacesAbove(w, t, 128); } else { PlacesAbove(w, 127, t); }
  }

  /** Shifting by 256 or more leaves only the sign. */
  lemma ShrAllOut(a: Word, amt: nat, neg: bool)
    requires amt >= 256
    ensures Operand(a, neg) / Pow2(amt) == if neg then -1 else 0
  {
    hide Pow, LeValue;
    LeBound(a);
    PowAdd(2, 256, amt - 256);
    PowerOfShift(32, 0);
    Pow2Values();
    var v, k := Operand(a, neg), Pow2(amt - 256);
    assert Modulus() * k >= Modulus() by { MulAtLeast(k, Modulus()); assert k * Modulus() == Modulus() * k; }
    if neg {
      DivModUnique(v, Pow2(amt), -1, v + Pow2(amt));
    } else {
      DivModUnique(v, Pow2(amt), 0, v);
    }
  }

  /** The floor quotient stays on the same side of zero and within range. */
  lemma KeepsSign(a: Word, r: Word, amt: nat, neg: bool)
    requires neg == (2 * LeValue(a) >= Modulus()) && Operand(r, neg) == Operand(a, neg) / Pow2(amt)
    ensures Signed(LeValue(r)) == Operand(r, neg)
  {
    hide Pow;
    var v, m := Operand(a, neg), Pow2(amt);
    LeBound(a);
    FloorBetween(v, m, v / m);
  }

  /** A floor quotient by m >= 1 lies between the dividend and zero. */
  lemma FloorBetween(v: int, m: int, q: int)
    requires m >= 1 && q == v / m
    ensures if v < 0 then v <= q < 0 else 0 <= q <= v
  {
    assert v == q * m + v % m;
    QuotientBetween(v, m - 1, q, v % m);
  }

  lemma QuotientBetween(v: int, k: int, q: int, d: int)
    requires 0 <= d <= k && v == q * (k + 1) + d
    ensures if v < 0 then v <= q < 0 else 0 <= q <= v
  {
    assert q * (k + 1) == q + q * k;
    if q >= 0 {
      assert q * k >= 0;
    } else {
      assert (-q - 1) * k >= 0;
      assert (-q - 1) * k == -(q * k) - k;
    }
  }

  // ----- comparisons -------------------------------------------------------------------------------

  datatype Ordering = Less | Equal | Greater

  function Compare(x: int, y: int): Ordering {
    if x < y then Less else if x == y then Equal else Greater
  }

  method CmpUnsigned(a: Word, b: Word) returns (o: Ordering)
    ensures o == Compare(LeValue(a), LeValue(b))
  {
    for i := 32 downto 0
      invariant a[i..] == b[i..]
    {
      if a[i] != b[i] {
        o := if a[i] < b[i] then Less else Greater;
        if a[i] < b[i] { TopDifference(a, b, i); } else { TopDifference(b, a, i); }
        return;
      }
    }
    assert a == b;
    o := Equal;
  }

  /** The highest differing byte decides. */
  lemma TopDifference(a: Word, b: Word, i: nat)
    requires i < 32 && a[i + 1..] == b[i + 1..] && a[i] < b[i]
    ensures LeValue(a) < LeValue(b)
  {
    hide Pow, LeValue;
    LeSplit(a, i + 1);
    LeSplit(b, i + 1);
    LePrefix(a, i);
    LePrefix(b, i);
    LeBound(a[..i]);
    WeightOrder(Pow(256, i), LeValue(a[..i]), a[i], b[i]);
  }

  lemma WeightOrder(w: int, lo: int, x: int, y: int)
    requires 0 <= lo < w && x < y
    ensures lo + w * x < w * y
  {
    assert w * (x + 1) <= w * y;
    assert w * (x + 1) == w * x + w;
  }

  method CmpSigned(a: Word, b: Word) returns (o: Ordering)
    ensures o == Compare(Signed(LeValue(a)), Signed(LeValue(b)))
  {
    var aNeg, bNeg := a[31] >= 128, b[31] >= 128;
    SignBit(a);
    SignBit(b);
    LeBound(a);
    LeBound(b);
    if aNeg && !bNeg {
      o := Less;
    } else if !aNeg && bNeg {
      o := Greater;
    } else {
      o := CmpUnsigned(a, b);
    }
  }
}
