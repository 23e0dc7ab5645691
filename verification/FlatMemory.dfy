/** The address space as a total map: what the paged memory is specified against. */
module FlatMemory {
  import opened Arithmetic
  import opened Bytes

  type u32 = x: int | 0 <= x < 0x1_0000_0000

  /** One byte for every 32-bit address. */
  type Flat = m: seq<byte> | |m| == 0x1_0000_0000 ghost witness seq(0x1_0000_0000, _ => 0)

  /** `wrapping_add`. */
  function WrappingAdd(a: u32, n: nat): u32 { (a + n) % 0x1_0000_0000 }

  /** The n bytes from addr upward, wrapping past the top. */
  ghost function Read(m: Flat, addr: u32, n: nat): (s: seq<byte>)
    ensures |s| == n
  {
    seq(n, i requires 0 <= i < n => m[WrappingAdd(addr, i)])
  }

  /** The little-endian values of the two and four bytes from addr upward. */
  ghost function HalfAt(m: Flat, addr: u32): (v: nat)
    ensures v < 0x1_0000
  {
    LeBound(Read(m, addr, 2));
    assert Pow(256, 2) == 0x1_0000;
    LeValue(Read(m, addr, 2))
  }

  ghost function WordAt(m: Flat, addr: u32): u32 {
    LeBound(Read(m, addr, 4));
    assert Pow(256, 4) == 0x1_0000_0000;
    LeValue(Read(m, addr, 4))
  }

  /** Storing the bytes one after the other from addr upward. */
  ghost function Write(m: Flat, addr: u32, bs: seq<byte>): Flat
    decreases |bs|
  {
    if |bs| == 0 then m else Write(m[addr := bs[0]], WrappingAdd(addr, 1), bs[1..])
  }

  /** How far address a lies above addr. */
  function Offset(addr: u32, a: u32): (d: u32)
    ensures WrappingAdd(addr, d) == a
  {
    if a >= addr then a - addr else a + 0x1_0000_0000 - addr
  }

  lemma WrapTwice(addr: u32, a: nat, b: nat)
    ensures WrappingAdd(WrappingAdd(addr, a), b) == WrappingAdd(addr, a + b)
  {}

  lemma WriteNothing(m: Flat, addr: u32)
    ensures Write(m, addr, []) == m
  {}

  lemma WriteFirst(m: Flat, addr: u32, bs: seq<byte>)
    requires |bs| > 0
    ensures Write(m, addr, bs) == Write(m[addr := bs[0]], WrappingAdd(addr, 1), bs[1..])
  {}

  lemma {:induction false} WriteConcat(m: Flat, addr: u32, bs: seq<byte>, cs: seq<byte>)
    ensures Write(m, addr, bs + cs) == Write(Write(m, addr, bs), WrappingAdd(addr, |bs|), cs)
    decreases |bs|
  {
    hide Write, WrappingAdd;
    if |bs| == 0 {
      assert bs + cs == cs && bs == [];
      WriteNothing(m, addr);
      WrapZero(addr);
    } else {
      var m', next := m[addr := bs[0]], WrappingAdd(addr, 1);
      assert (bs + cs)[1..] == bs[1..] + cs;
      WriteFirst(m, addr, bs + cs);
      WriteFirst(m, addr, bs);
      WriteConcat(m', next, bs[1..], cs);
      WrapTwice(addr, 1, |bs| - 1);
    }
  }

  lemma WrapZero(addr: u32)
    ensures WrappingAdd(addr, 0) == addr
  {}

  lemma WriteAppend(m: Flat, addr: u32, bs: seq<byte>, b: byte)
    ensures Write(m, addr, bs + [b]) == Write(m, addr, bs)[WrappingAdd(addr, |bs|) := b]
  {
    hide Write, WrappingAdd;
    var m', last := Write(m, addr, bs), WrappingAdd(addr, |bs|);
    WriteConcat(m, addr, bs, [b]);
    WriteFirst(m', last, [b]);
    assert [b][1..] == [];
    WriteNothing(m'[last := b], WrappingAdd(last, 1));
  }

  /** Of the n bytes stored, the last one to reach the address d above the first. */
  function LastIndex(n: nat, d: u32): (i: nat)
    requires d < n
    ensures d <= i < n
    ensures n <= 0x1_0000_0000 ==> i == d
  {
    d + (n - 1 - d) / 0x1_0000_0000 * 0x1_0000_0000
  }

  /** One more byte: it is the last one at its own address, and changes no other. */
  lemma LastIndexGrows(n: nat, d: u32)
    ensures n % 0x1_0000_0000 == d ==> d <= n && LastIndex(n + 1, d) == n
    ensures n % 0x1_0000_0000 != d && d <= n ==> d < n && LastIndex(n + 1, d) == LastIndex(n, d)
  {}

  /** Each address holds the last byte stored there, or what it held; a slice longer than the
      address space overwrites its own beginning. */
  lemma {:induction false} WriteAt(m: Flat, addr: u32, bs: seq<byte>, a: u32)
    ensures Write(m, addr, bs)[a] ==
      if Offset(addr, a) < |bs| then bs[LastIndex(|bs|, Offset(addr, a))] else m[a]
    decreases |bs|
  {
    hide Write, LastIndex;
    if |bs| == 0 {
      assert bs == [];
      WriteNothing(m, addr);
    } else {
      var n, d := |bs| - 1, Offset(addr, a);
      assert bs == bs[..n] + [bs[n]];
      WriteAppend(m, addr, bs[..n], bs[n]);
      WriteAt(m, addr, bs[..n], a);
      LastIndexGrows(n, d);
      OffsetOfStep(addr, a, n);
    }
  }

  lemma OffsetOfStep(addr: u32, a: u32, n: nat)
    ensures WrappingAdd(addr, n) == a <==> n % 0x1_0000_0000 == Offset(addr, a)
  {
    var q, r := n / 0x1_0000_0000, n % 0x1_0000_0000;
    WrapTwice(addr, r, q * 0x1_0000_0000);
    DivModUnique(WrappingAdd(addr, r) + q * 0x1_0000_0000, 0x1_0000_0000, q, WrappingAdd(addr, r));
  }

  /** What was stored is read back, and no address outside changed. */
  lemma WriteThenRead(m: Flat, addr: u32, bs: seq<byte>)
    ensures |bs| <= 0x1_0000_0000 ==> Read(Write(m, addr, bs), addr, |bs|) == bs
    ensures forall a: u32 :: Offset(addr, a) >= |bs| ==> Write(m, addr, bs)[a] == m[a]
  {
    hide Write;
    if |bs| <= 0x1_0000_0000 {
      forall i: nat | i < |bs| ensures Read(Write(m, addr, bs), addr, |bs|)[i] == bs[i] {
        WriteAt(m, addr, bs, WrappingAdd(addr, i));
        assert Offset(addr, WrappingAdd(addr, i)) == i;
      }
    }
    forall a: u32 | Offset(addr, a) >= |bs| ensures Write(m, addr, bs)[a] == m[a] {
      WriteAt(m, addr, bs, a);
    }
  }
}
