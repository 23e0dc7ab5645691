/** Bitwise operations and shifts on integers of a given width, digit by digit. */
module Bits {
  import opened Arithmetic

  /** What a bitwise operation does with two bits: or, and, exclusive or. */
  datatype BitOp = Either | Both | Differ

  function Bit(op: BitOp, x: nat, y: nat): nat {
    match op
    case Either => if x % 2 == 1 || y % 2 == 1 then 1 else 0
    case Both => if x % 2 == 1 && y % 2 == 1 then 1 else 0
    case Differ => (x + y) % 2
  }

  function Bitwise(op: BitOp, w: nat, x: nat, y: nat): (r: nat)
    ensures r < Pow2(w)
  {
    if w == 0 then 0 else Bit(op, x, y) + 2 * Bitwise(op, w - 1, x / 2, y / 2)
  }

  /** `x | y`, `x & y` and `x ^ y` on w-bit values. */
  function Or(w: nat, x: nat, y: nat): (r: nat)
    ensures r < Pow2(w)
  {
    Bitwise(Either, w, x, y)
  }

  function And(w: nat, x: nat, y: nat): (r: nat)
    ensures r < Pow2(w)
  {
    Bitwise(Both, w, x, y)
  }

  function Xor(w: nat, x: nat, y: nat): (r: nat)
    ensures r < Pow2(w)
  {
    Bitwise(Differ, w, x, y)
  }

  /** The bits of x above the k bits of a. */
  function Above(k: nat, a: nat, x: nat): nat { a + Pow2(k) * x }

  /** The low k bits and the bits above them are treated alike and apart. */
  lemma {:induction false} BitwiseSplit(op: BitOp, k: nat, w: nat, a: nat, b: nat, x: nat, y: nat)
    requires a < Pow2(k) && b < Pow2(k)
    ensures Bitwise(op, k + w, Above(k, a, x), Above(k, b, y)) == Above(k, Bitwise(op, k, a, b), Bitwise(op, w, x, y))
  {
    if k > 0 {
      assert Pow2(k) == 2 * Pow2(k - 1);
      hide Bitwise, Pow, Bit, Above;
      BitwiseSplit(op, k - 1, w, a / 2, b / 2, x, y);
      HalfOfAbove(k, a, x);
      HalfOfAbove(k, b, y);
      BitwiseStep(op, k, a, b, a, b);
      BitwiseStep(op, k + w, Above(k, a, x), Above(k, b, y), a, b);
      AboveStep(k, Bit(op, a, b), Bitwise(op, k - 1, a / 2, b / 2), Bitwise(op, w, x, y));
    } else {
      NothingBelow(a, x);
      NothingBelow(b, y);
      NothingBelow(0, Bitwise(op, w, x, y));
    }
  }

  /** One step, with the bit read off any values of the same parities. */
  lemma BitwiseStep(op: BitOp, w: nat, x: nat, y: nat, a: nat, b: nat)
    requires w > 0 && x % 2 == a % 2 && y % 2 == b % 2
    ensures Bitwise(op, w, x, y) == Bit(op, a, b) + 2 * Bitwise(op, w - 1, x / 2, y / 2)
  {
    if op == Differ { assert (x + y) % 2 == (x % 2 + y % 2) % 2 == (a + b) % 2; }
  }

  lemma NothingBelow(a: nat, x: nat)
    requires a < Pow2(0)
    ensures Above(0, a, x) == x
  {}

  lemma AboveStep(k: nat, bit: nat, r: nat, x: nat)
    requires k > 0
    ensures Above(k, bit + 2 * r, x) == bit + 2 * Above(k - 1, r, x)
  {
    var h := Pow2(k - 1);
    assert Pow2(k) == 2 * h;
    hide Pow;
    assert (2 * h) * x == 2 * (h * x);
  }

  lemma HalfOfAbove(k: nat, a: nat, x: nat)
    requires k > 0
    ensures var v := Above(k, a, x); v % 2 == a % 2 && v / 2 == Above(k - 1, a / 2, x)
  {
    AboveStep(k, a % 2, a / 2, x);
    DivModUnique(Above(k, a, x), 2, Above(k - 1, a / 2, x), a % 2);
  }

  /** Bit i of a value. */
  function Digit(x: nat, i: nat): nat { x / Pow2(i) % 2 }

  lemma HalfThenDigit(x: nat, i: nat)
    requires i > 0
    ensures Digit(x, i) == Digit(x / 2, i - 1)
  {
    var h := Pow2(i - 1);
    PowPositive(2, i - 1);
    assert Pow2(i) == 2 * h;
    hide Pow;
    var q, r, b := x / 2 / h, x / 2 % h, x % 2;
    assert x == 2 * (x / 2) + b && x / 2 == q * h + r;
    assert 2 * (q * h) == q * (2 * h);
    DivModUnique(x, 2 * h, q, 2 * r + b);
  }

  /** Or, and and exclusive or on any value, bit by bit. */
  lemma {:induction false} DigitOfBitwise(op: BitOp, w: nat, x: nat, y: nat, i: nat)
    requires i < w
    ensures var d, a, b := Digit(Bitwise(op, w, x, y), i), Digit(x, i), Digit(y, i);
      match op
      case Either => d == 1 <==> a == 1 || b == 1
      case Both => d == 1 <==> a == 1 && b == 1
      case Differ => d == 1 <==> a != b
  {
    hide Digit, Bit;
    var r := Bitwise(op, w - 1, x / 2, y / 2);
    LowestDigit(op, x, y, r);
    if i > 0 {
      HalfThenDigit(x, i);
      HalfThenDigit(y, i);
      HalfThenDigit(Bit(op, x, y) + 2 * r, i);
      DigitOfBitwise(op, w - 1, x / 2, y / 2, i - 1);
    }
  }

  lemma LowestDigit(op: BitOp, x: nat, y: nat, r: nat)
    ensures var v := Bit(op, x, y) + 2 * r;
      && v / 2 == r
      && match op
         case Either => Digit(v, 0) == 1 <==> Digit(x, 0) == 1 || Digit(y, 0) == 1
         case Both => Digit(v, 0) == 1 <==> Digit(x, 0) == 1 && Digit(y, 0) == 1
         case Differ => Digit(v, 0) == 1 <==> Digit(x, 0) != Digit(y, 0)
  {
    assert Pow2(0) == 1;
    var b := Bit(op, x, y);
    assert b < 2;
    DivModUnique(b + 2 * r, 2, r, b);
    assert Digit(x, 0) == x % 2 && Digit(y, 0) == y % 2 && Digit(b + 2 * r, 0) == b;
    if op == Differ { ParityOfSum(x, y); }
  }

  lemma ParityOfSum(x: nat, y: nat)
    ensures (x + y) % 2 == 1 <==> x % 2 != y % 2
  {}

  lemma XorBit(x: nat, y: nat, rest: nat)
    ensures var x' := (x + y) % 2 + 2 * rest; x' / 2 == rest && (x' + y) % 2 == x % 2
  {
    var b := (x + y) % 2;
    DivModUnique(b + 2 * rest, 2, rest, b);
    assert (b + y) % 2 == x % 2;
  }

  /** Exclusive or with the same value twice changes nothing. */
  lemma {:induction false} XorTwice(w: nat, x: nat, y: nat)
    requires x < Pow2(w)
    ensures Xor(w, Xor(w, x, y), y) == x
  {
    if w == 0 {
      assert Pow2(0) == 1;
    } else {
      var rest := Xor(w - 1, x / 2, y / 2);
      XorBit(x, y, rest);
      XorTwice(w - 1, x / 2, y / 2);
    }
  }

  /** `x << k` on w-bit values: the bits pushed out are lost. */
  function Shl(w: nat, x: nat, k: nat): (r: nat)
    ensures r < Pow2(w)
  {
    (x * Pow2(k)) % Pow2(w)
  }

  /** `x >> k`. */
  function Shr(x: nat, k: nat): nat { x / Pow2(k) }

  lemma Pow2Values()
    ensures Pow2(0) == 1 && Pow2(1) == 2 && Pow2(2) == 4 && Pow2(3) == 8
    ensures Pow2(4) == 16 && Pow2(5) == 32 && Pow2(6) == 64 && Pow2(7) == 128 && Pow2(8) == 256
  {}

  lemma Widths()
    ensures Pow2(8) == 0x100 && Pow2(16) == 0x1_0000 && Pow2(24) == 0x100_0000 && Pow2(32) == 0x1_0000_0000
  {
    Pow2Values();
    PowAdd(2, 8, 8);
    PowAdd(2, 16, 8);
    PowAdd(2, 16, 16);
  }

  lemma MiddlePowers()
    ensures Pow2(10) == 0x400 && Pow2(11) == 0x800 && Pow2(12) == 0x1000 && Pow2(20) == 0x10_0000
  {
    Pow2Values();
    PowAdd(2, 8, 2);
    PowAdd(2, 8, 3);
    PowAdd(2, 8, 4);
    PowAdd(2, 12, 8);
  }

  /** Joining a multiple of 2^k with a value below 2^k is addition. */
  lemma {:induction false} OrDisjoint(w: nat, x: nat, y: nat, k: nat)
    requires x < Pow2(w) && k <= w && x % Pow2(k) == 0 && y < Pow2(k)
    ensures Or(w, x, y) == x + y
  {
    if w != 0 {
      if k == 0 {
        OrZero(w, x);
      } else {
        var c := x / Pow2(k);
        HalfMultiple(x, k);
        OrDisjoint(w - 1, x / 2, y / 2, k - 1);
      }
    } else {
      assert Pow2(0) == 1;
    }
  }

  lemma {:induction false} OrCommutes(w: nat, x: nat, y: nat)
    ensures Or(w, x, y) == Or(w, y, x)
  {
    if w != 0 { OrCommutes(w - 1, x / 2, y / 2); }
  }

  lemma {:induction false} OrZero(w: nat, x: nat)
    requires x < Pow2(w)
    ensures Or(w, x, 0) == x
  {
    if w == 0 {
      assert Pow2(0) == 1;
    } else {
      OrZero(w - 1, x / 2);
    }
  }

  lemma HalfMultiple(x: nat, k: nat)
    requires k >= 1 && x % Pow2(k) == 0
    ensures x % 2 == 0 && x / 2 % Pow2(k - 1) == 0
  {
    var c, h := x / Pow2(k), Pow2(k - 1);
    assert Pow2(k) == 2 * h;
    assert x == c * Pow2(k) == 2 * (c * h);
    CongZero(x / 2, c, h);
  }

  /** 256 as a product, and a byte divided by one factor. */
  lemma ByteSplit(x: nat, m: nat, n: nat)
    requires x < 256 && m > 0 && n > 0 && m * n == 256
    ensures x * m == 256 * (x / n) + x % n * m
    ensures (x * m) % 256 == x % n * m && x / n < m
  {
    var q, d := x / n, x % n;
    assert x == n * q + d;
    SplitAlgebra(n, q, d, m);
    DivModUnique(x * m, 256, q, d * m);
    if q >= m { Dominates(n, m, q); }
  }

  lemma SplitAlgebra(n: int, q: int, d: int, m: int)
    requires m > 0 && 0 <= d < n && m * n == 256
    ensures (n * q + d) * m == 256 * q + d * m && 0 <= d * m < 256
  {
    assert (n * q + d) * m == (m * n) * q + d * m;
    assert (n - d - 1) * m >= 0 && (n - d - 1) * m == m * n - d * m - m;
  }

  lemma Dominates(n: int, m: int, q: int)
    requires n > 0 && q >= m
    ensures n * q >= m * n
  {
    assert n * q == m * n + n * (q - m);
  }

  lemma ByteFactors(k: nat)
    requires k <= 8
    ensures Pow2(k) * Pow2(8 - k) == 256 && Pow2(8 - k) * Pow2(k) == 256
  {
    PowAdd(2, k, 8 - k);
    Pow2Values();
  }

  /** A byte shifted left by k < 8 splits into what stays and what is carried out. */
  lemma ByteShift(x: nat, k: nat)
    requires x < 256 && k < 8
    ensures x * Pow2(k) == 256 * Shr(x, 8 - k) + Shl(8, x, k)
    ensures Shr(x, 8 - k) < Pow2(k) && Shl(8, x, k) % Pow2(k) == 0 && Shl(8, x, k) < 256
  {
    ByteFactors(k);
    ByteSplit(x, Pow2(k), Pow2(8 - k));
    Pow2Values();
    CongZero(x % Pow2(8 - k) * Pow2(k), x % Pow2(8 - k), Pow2(k));
  }

  /** A byte shifted left by 8 - k keeps its low k bits. */
  lemma KeptBits(y: nat, k: nat)
    requires y < 256 && k < 8
    ensures Shl(8, y, 8 - k) == y % Pow2(k) * Pow2(8 - k)
    ensures Pow2(k) * Pow2(8 - k) == 256
  {
    ByteFactors(k);
    ByteSplit(y, Pow2(8 - k), Pow2(k));
    Pow2Values();
  }

  lemma ShrBound(x: nat, k: nat)
    requires x < 256 && k < 8
    ensures Shr(x, k) < Pow2(8 - k)
  {
    ByteFactors(k);
    ByteSplit(x, Pow2(8 - k), Pow2(k));
  }

  /** What a right shift by k takes from a byte and the next one never overlaps. */
  lemma FunnelDisjoint(x: nat, y: nat, k: nat)
    requires x < 256 && y < 256 && k < 8
    ensures Shr(x, k) < Pow2(8 - k) && Shl(8, y, 8 - k) % Pow2(8 - k) == 0 && Shl(8, y, 8 - k) < 256
  {
    Pow2Values();
    ShrBound(x, k);
    KeptBits(y, k);
    CongZero(y % Pow2(k) * Pow2(8 - k), y % Pow2(k), Pow2(8 - k));
  }

  /** And joined, times 2^k, it is the two bytes without the bits shifted out. */
  lemma ByteFunnel(x: nat, y: nat, k: nat)
    requires x < 256 && y < 256 && k < 8
    ensures Pow2(k) * (Shr(x, k) + Shl(8, y, 8 - k)) == x - x % Pow2(k) + 256 * (y % Pow2(k))
  {
    hide Pow;
    KeptBits(y, k);
    FunnelAlgebra(Pow2(k), Pow2(8 - k), x / Pow2(k), y % Pow2(k));
  }

  lemma FunnelAlgebra(m: int, n: int, q: int, d: int)
    requires m * n == 256
    ensures m * (q + d * n) == m * q + 256 * d
  {
    assert m * (d * n) == d * (m * n);
  }
}
