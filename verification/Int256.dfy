/** int256.rs: 256-bit integers as 32 little-endian bytes, against arithmetic modulo 2^256. */
module Int256 {
  import opened Arithmetic
  import opened Bytes

  /** `[u8; 32]`. */
  type Word = s: seq<byte> | |s| == 32 witness seq(32, _ => 0)

  function Modulus(): (m: nat)
    ensures m > 0
  {
    PowPositive(256, 32);
    Pow(256, 32)
  }

  // ----- addition and subtraction -----------------------------------------------------------

  /** One digit of a carry chain at position i. */
  lemma CarryStep(i: nat, r: int, a: int, b: int, c: int, d: int, x: int, y: int, c': int)
    requires r + Place(i, c) == a + b && d + 256 * c' == x + y + c
    ensures r + Place(i, d) + Place(i + 1, c') == a + Place(i, x) + b + Place(i, y)
  {
    CarryAlgebra(Pow(256, i), c, d, x, y, c');
  }

  lemma CarryAlgebra(w: int, c: int, d: int, x: int, y: int, c': int)
    requires d == x + y + c - 256 * c'
    ensures w * d + (256 * w) * c' == w * x + w * y + w * c
  {}

  /** A 32-byte result that differs from v by a multiple of the modulus is v reduced. */
  lemma CarryDropped(r: Word, v: int, c: int)
    requires LeValue(r) + Place(32, c) == v
    ensures LeValue(r) == v % Modulus()
  {
    LeBound(r);
    assert Place(32, c) == c * Modulus();
    DivModUnique(v, Modulus(), c, LeValue(r));
  }

  method Add(a: Word, b: Word) returns (res: Word)
    ensures LeValue(res) == (LeValue(a) + LeValue(b)) % Modulus()
  {
    hide Place;
    var r := new byte[32];
    var carry: int := 0;
    NoPlace(0);
    for i := 0 to 32
      invariant 0 <= carry <= 1
      invariant LeValue(r[..i]) + Place(i, carry) == LeValue(a[..i]) + LeValue(b[..i])
    {
      var s := a[i] as int + b[i] as int + carry;
      ghost var lr, c := LeValue(r[..i]), carry;
      r[i] := s % 256;
      carry := s / 256;
      LePrefix(a, i);
      LePrefix(b, i);
      LePrefix(r[..], i);
      assert r[..][..i + 1] == r[..i + 1] && r[..][..i] == r[..i];
      CarryStep(i, lr, LeValue(a[..i]), LeValue(b[..i]), c, r[i], a[i], b[i], carry);
    }
    assert a[..32] == a && b[..32] == b && r[..32] == r[..];
    res := r[..];
    CarryDropped(res, LeValue(a) + LeValue(b), carry);
  }

  lemma NoPlace(i: nat)
    ensures Place(i, 0) == 0
  {}

  method Sub(a: Word, b: Word) returns (res: Word)
    ensures LeValue(res) == (LeValue(a) as int - LeValue(b) as int) % Modulus()
  {
    hide Place;
    var r := new byte[32];
    var borrow: int := 0;
    NoPlace(0);
    for i := 0 to 32
      invariant 0 <= borrow <= 1
      invariant LeValue(r[..i]) + Place(i, -borrow) == LeValue(a[..i]) as int - LeValue(b[..i]) as int
    {
      var s := a[i] as int - b[i] as int - borrow;
      ghost var lr, c := LeValue(r[..i]), borrow;
      if s < 0 {
        r[i] := s + 256;
        borrow := 1;
      } else {
        r[i] := s;
        borrow := 0;
      }
      LePrefix(a, i);
      LePrefix(b, i);
      LePrefix(r[..], i);
      assert r[..][..i + 1] == r[..i + 1] && r[..][..i] == r[..i];
      NegatedPlace(i, b[i]);
      CarryStep(i, lr, LeValue(a[..i]), -(LeValue(b[..i]) as int), -c, r[i], a[i], -(b[i] as int), -borrow);
    }
    assert a[..32] == a && b[..32] == b && r[..32] == r[..];
    res := r[..];
    CarryDropped(res, LeValue(a) as int - LeValue(b) as int, -borrow);
  }

  lemma NegatedPlace(i: nat, d: int)
    ensures Place(i, -d) == -Place(i, d)
  {}

  // ----- multiplication -------------------------------------------------------------------------

  /** What row x = a[i] contributes: 256^i * x * (the value of the digits of b). */
  function Row(i: nat, x: nat, v: int): int { Pow(256, i) * (x * v) }

  /** Adding at column i + j the next digit of the row. */
  lemma ColumnStep(i: nat, j: nat, x: nat, y: nat, v: int)
    ensures Row(i, x, v) + Place(i + j, x * y) == Row(i, x, v + Place(j, y))
  {
    PowAdd(256, i, j);
    ColumnAlgebra(Pow(256, i), Pow(256, j), x, y, v);
  }

  lemma ColumnAlgebra(u: int, v: int, x: int, y: int, row: int)
    ensures u * (x * row) + (u * v) * (x * y) == u * (x * (row + v * y))
  {}

  lemma EmptyRow(i: nat, x: nat)
    ensures Row(i, x, 0) == 0
  {}

  /** Dropping the columns beyond 32 changes a row by a multiple of the modulus. */
  lemma TruncatedRow(b: Word, i: nat, x: nat)
    requires i <= 32
    ensures Cong(Row(i, x, LeValue(b[..32 - i])), Row(i, x, LeValue(b)), Modulus())
  {
    LeSplit(b, 32 - i);
    PowAdd(256, i, 32 - i);
    var u, v, lo, hi := Pow(256, i), Pow(256, 32 - i), LeValue(b[..32 - i]), LeValue(b[32 - i..]);
    SplitRow(u, v, x, lo, hi);
    CongIntro(u * (x * (lo + v * hi)), u * (x * lo), Modulus(), x * hi);
  }

  lemma SplitRow(u: int, v: int, x: int, lo: int, hi: int)
    ensures u * (x * (lo + v * hi)) == u * (x * lo) + (x * hi) * (u * v)
  {}

  /** After row i the columns hold the product with one more digit of a. */
  lemma RowAdded(a: Word, b: Word, i: nat, before: int)
    requires i < 32 && Cong(before, LeValue(a[..i]) * LeValue(b), Modulus())
    ensures Cong(before + Row(i, a[i], LeValue(b[..32 - i])), LeValue(a[..i + 1]) * LeValue(b), Modulus())
  {
    hide Cong, Pow, LeValue, Row, Place, Modulus;
    TruncatedRow(b, i, a[i]);
    var l, x, bv := LeValue(a[..i]), a[i], LeValue(b);
    CongAdd(before, l * bv, Row(i, x, LeValue(b[..32 - i])), Row(i, x, bv), Modulus());
    LePrefix(a, i);
    RowProduct(i, x, l, bv);
  }

  lemma RowProduct(i: nat, x: nat, l: int, b: int)
    ensures (l + Place(i, x)) * b == l * b + Row(i, x, b)
  {
    hide Pow;
    RowAlgebra(l, Pow(256, i), x, b);
  }

  lemma RowAlgebra(l: int, u: int, x: int, b: int)
    ensures (l + u * x) * b == l * b + u * (x * b)
  {}

  /** One row of the product loop. */
  method AddRow(r: array<nat>, i: nat, x: byte, b: Word)
    requires r.Length == 32 && i < 32
    requires forall k :: 0 <= k < 32 ==> r[k] <= i * 65025
    modifies r
    ensures forall k :: 0 <= k < 32 ==> r[k] <= (i + 1) * 65025
    ensures LeValue(r[..]) == old(LeValue(r[..])) + Row(i, x, LeValue(b[..32 - i]))
  {
    hide Place, Row, LeValue, Pow;
    EmptyRow(i, x);
    NoDigits(b);
    for j := 0 to 32 - i
      invariant forall k :: 0 <= k < i + j ==> r[k] <= (i + 1) * 65025
      invariant forall k :: i + j <= k < 32 ==> r[k] <= i * 65025
      invariant LeValue(r[..]) == old(LeValue(r[..])) + Row(i, x, LeValue(b[..j]))
    {
      var product := ByteProduct(x, b[j]);
      ghost var r0, v := r[..], LeValue(b[..j]);
      assert r[i + j] + product < 0x1_0000_0000;
      r[i + j] := r[i + j] + product;
      assert r[..] == r0[i + j := r0[i + j] + product];
      LeUpdate(r0, i + j, r0[i + j] + product);
      PlaceIs(i + j, product);
      LePrefix(b, j);
      ColumnStep(i, j, x, b[j], v);
    }
  }

  lemma PlaceIs(i: nat, d: int)
    ensures Place(i, d) == Pow(256, i) * d
  {}

  /** `a[i] as u32 * b[j] as u32`. */
  function ByteProduct(x: byte, y: byte): (z: nat)
    ensures z <= 65025 && z == x as int * y as int
  {
    assert 0 <= x as int * y as int <= 255 * 255;
    x as int * y as int
  }

  /** The column loop. Columns and carries are `u32` in the source: the bounds say that none
      ever leaves that range. */
  method Mul(a: Word, b: Word) returns (res: Word)
    ensures LeValue(res) == (LeValue(a) * LeValue(b)) % Modulus()
  {
    hide Place, Row;
    var r := new nat[32](_ => 0);
    assert r[..] == seq(32, _ => 0);
    LeZeros(32);
    for i := 0 to 32
      invariant forall k :: 0 <= k < 32 ==> r[k] <= i * 65025
      invariant Cong(LeValue(r[..]), LeValue(a[..i]) * LeValue(b), Modulus())
    {
      RowAdded(a, b, i, LeValue(r[..]));
      AddRow(r, i, a[i], b);
    }
    assert a[..32] == a;
    res := CarryColumns(r[..]);
  }

  /** The final pass, which reduces the columns to bytes. */
  method CarryColumns(r: seq<nat>) returns (res: Word)
    requires |r| == 32 && forall k :: 0 <= k < 32 ==> r[k] <= 32 * 65025
    ensures LeValue(res) == LeValue(r) % Modulus()
  {
    hide Place;
    var out := new byte[32];
    var carry: nat := 0;
    NoPlace(0);
    for i := 0 to 32
      invariant carry <= 8192
      invariant LeValue(out[..i]) + Place(i, carry) == LeValue(r[..i])
    {
      var v := r[i] + carry;
      assert v < 0x1_0000_0000;
      ghost var lo, c := LeValue(out[..i]), carry;
      out[i] := v % 256;
      carry := v / 256;
      LePrefix(r, i);
      LePrefix(out[..], i);
      assert out[..][..i + 1] == out[..i + 1] && out[..][..i] == out[..i];
      NoPlace(i);
      CarryStep(i, lo, LeValue(r[..i]), 0, c, out[i], r[i], 0, carry);
    }
    assert r[..32] == r && out[..32] == out[..];
    res := out[..];
    CarryDropped(res, LeValue(r), carry);
  }
}
